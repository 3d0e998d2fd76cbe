/** The attendee resource nested under an event: listing an event's
    registrations, registering the requester at most once per event, and
    cancelling one's own registration. */
module AttendeeController {
  import opened Models

  /** One entry of the listing: an attendee row with its id. */
  datatype Registration = Registration(id: nat, attendee: Attendee)

  function RegistrationIds(regs: seq<Registration>): set<nat>
  {
    set i | 0 <= i < |regs| :: regs[i].id
  }

  predicate DistinctRegistrationIds(regs: seq<Registration>)
  {
    forall i, j :: 0 <= i < j < |regs| ==> regs[i].id != regs[j].id
  }

  /** The ids of the rows registered for `eventId`. */
  function RegisteredFor(attendees: map<nat, Attendee>, eventId: nat): set<nat>
  {
    set id | id in attendees && attendees[id].eventId == eventId
  }

  /** GET /events/{event}/attendees: 404 for an unknown event, otherwise every
      attendee row of that event, each once. The query sets no order, and
      neither does the model. */
  method Index(db: Db, eventId: nat) returns (status: Status, regs: seq<Registration>)
    ensures status == Ok <==> eventId in db.events
    ensures status != Ok ==> status == NotFound && regs == []
    ensures RegistrationIds(regs) == (if status == Ok then RegisteredFor(db.attendees, eventId) else {})
    ensures DistinctRegistrationIds(regs)
    ensures forall i :: 0 <= i < |regs| ==>
              regs[i].id in db.attendees && regs[i].attendee == db.attendees[regs[i].id]
              && regs[i].attendee.eventId == eventId
  {
    regs := [];
    if eventId !in db.events {
      return NotFound, regs;
    }
    status := Ok;
    var pending := db.attendees.Keys;
    while pending != {}
      invariant pending <= db.attendees.Keys
      invariant RegistrationIds(regs) == RegisteredFor(db.attendees, eventId) - pending
      invariant forall i :: 0 <= i < |regs| ==> regs[i].id !in pending
      invariant DistinctRegistrationIds(regs)
      invariant forall i :: 0 <= i < |regs| ==>
                  regs[i].id in db.attendees && regs[i].attendee == db.attendees[regs[i].id]
                  && regs[i].attendee.eventId == eventId
      decreases pending
    {
      var id :| id in pending;
      if db.attendees[id].eventId == eventId {
        var next := regs + [Registration(id, db.attendees[id])];
        assert RegistrationIds(next) == RegistrationIds(regs) + {id} by {
          assert forall i :: 0 <= i < |regs| ==> next[i] == regs[i];
          assert next[|regs|].id == id;
        }
        regs := next;
      }
      pending := pending - {id};
    }
  }

  /** POST /events/{event}/attendees: 404 for an unknown event, 422 when the
      requester already holds a row for it, otherwise one new row for
      (event, requester). */
  function Store(db: Db, user: nat, eventId: nat): (r: Step)
    ensures eventId !in db.events ==> r == Step(NotFound, db)
    ensures r.status == Created <==>
              eventId in db.events
              && !(exists id :: id in db.attendees && db.attendees[id].eventId == eventId
                                                 && db.attendees[id].userId == user)
    ensures r.status != Created ==> r.db == db
    ensures eventId in db.events && r.status != Created ==> r.status == Unprocessable
    ensures r.status == Created ==>
              && r.db.attendees.Keys == db.attendees.Keys + {db.nextAttendeeId}
              && r.db.attendees[db.nextAttendeeId].eventId == eventId
              && r.db.attendees[db.nextAttendeeId].userId == user
              && r.db.nextAttendeeId > db.nextAttendeeId
              && (forall id :: id in db.attendees && id != db.nextAttendeeId ==> r.db.attendees[id] == db.attendees[id])
              && r.db.events == db.events
              && r.db.nextEventId == db.nextEventId
  {
    if eventId !in db.events then Step(NotFound, db)
    else if IsRegistered(db.attendees, eventId, user) then Step(Unprocessable, db)
    else
      Step(Created, db.(attendees := db.attendees[db.nextAttendeeId := Attendee(eventId, user)],
                        nextAttendeeId := db.nextAttendeeId + 1))
  }

  /** DELETE /events/{event}/attendees/{attendee}: 404 for an unknown event or
      attendee, 404 when the attendee belongs to another event (checked before
      ownership), 403 when it belongs to another user, otherwise the row is
      removed. */
  function Destroy(db: Db, user: nat, eventId: nat, attendeeId: nat): (r: Step)
    ensures r.status == NoContent <==>
              && eventId in db.events && attendeeId in db.attendees
              && db.attendees[attendeeId] == Attendee(eventId, user)
    ensures r.status != NoContent ==> r.db == db
    ensures r.status in {NoContent, NotFound, Forbidden}
    ensures attendeeId in db.attendees && db.attendees[attendeeId].eventId != eventId ==> r.status == NotFound
    ensures r.status == Forbidden <==>
              && eventId in db.events && attendeeId in db.attendees
              && db.attendees[attendeeId].eventId == eventId
              && db.attendees[attendeeId].userId != user
    ensures r.status == NoContent ==>
              && r.db.attendees.Keys == db.attendees.Keys - {attendeeId}
              && (forall id :: id in r.db.attendees ==> r.db.attendees[id] == db.attendees[id])
              && r.db.events == db.events
              && r.db.nextEventId == db.nextEventId
              && r.db.nextAttendeeId == db.nextAttendeeId
  {
    if eventId !in db.events || attendeeId !in db.attendees then Step(NotFound, db)
    else if db.attendees[attendeeId].eventId != eventId then Step(NotFound, db)
    else if db.attendees[attendeeId].userId != user then Step(Forbidden, db)
    else Step(NoContent, db.(attendees := db.attendees - {attendeeId}))
  }
}
