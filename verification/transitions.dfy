/** The mutating controller actions as one state machine over both tables:
    what every action does to the state when it is rejected, which record a
    successful action touches, and the invariants every reachable state keeps. */
module Transitions {
  import opened Models
  import EventController
  import AttendeeController

  /** A mutating request, carrying the authenticated requester. */
  datatype Command =
    | StoreEvent(user: nat, now: int, input: EventController.EventInput)
    | UpdateEvent(user: nat, eventId: nat, input: EventController.EventInput)
    | DestroyEvent(user: nat, eventId: nat)
    | RegisterAttendee(user: nat, eventId: nat)
    | CancelAttendee(user: nat, eventId: nat, attendeeId: nat)

  /** A row of either table. */
  datatype RecordRef = EventRecord(id: nat) | AttendeeRecord(id: nat)

  /** The rows inserted, deleted or rewritten between two states. */
  function Touched(db: Db, db': Db): set<RecordRef>
  {
    (set k | k in ChangedKeys(db.events, db'.events) :: EventRecord(k))
    + (set k | k in ChangedKeys(db.attendees, db'.attendees) :: AttendeeRecord(k))
  }

  /** The row a command is about: the one it would insert, or the one it names. */
  function Target(db: Db, c: Command): RecordRef
  {
    match c
    case StoreEvent(_, _, _) => EventRecord(db.nextEventId)
    case UpdateEvent(_, id, _) => EventRecord(id)
    case DestroyEvent(_, id) => EventRecord(id)
    case RegisterAttendee(_, _) => AttendeeRecord(db.nextAttendeeId)
    case CancelAttendee(_, _, id) => AttendeeRecord(id)
  }

  /** Dispatches a command to its controller action. A rejected request writes
      nothing, and any request writes at most the row it is about. */
  function Apply(db: Db, c: Command): (r: Step)
    ensures !r.status.IsSuccess() ==> r.db == db
    ensures Touched(db, r.db) <= {Target(db, c)}
  {
    var r := match c
      case StoreEvent(user, now, input) => EventController.Store(db, user, now, input)
      case UpdateEvent(user, id, input) => EventController.Update(db, user, id, input)
      case DestroyEvent(user, id) => EventController.Destroy(db, user, id)
      case RegisterAttendee(user, id) => AttendeeController.Store(db, user, id)
      case CancelAttendee(user, eid, aid) => AttendeeController.Destroy(db, user, eid, aid);
    assert forall k :: k in ChangedKeys(db.events, r.db.events) ==> EventRecord(k) == Target(db, c);
    assert forall k :: k in ChangedKeys(db.attendees, r.db.attendees) ==> AttendeeRecord(k) == Target(db, c);
    r
  }

  /** The state after running `cmds` in order from `db`. */
  function Run(db: Db, cmds: seq<Command>): Db
    decreases |cmds|
  {
    if cmds == [] then db else Run(Apply(db, cmds[0]).db, cmds[1..])
  }

  /** Registering can never create a second row for the same (event, user). */
  lemma RegisterKeepsUnique(db: Db, user: nat, eventId: nat)
    requires Valid(db)
    ensures UniqueRegistrations(AttendeeController.Store(db, user, eventId).db.attendees)
  {
  }

  /** Every action keeps the counters fresh and the registrations unique. */
  lemma ApplyPreservesValid(db: Db, c: Command)
    requires Valid(db)
    ensures Valid(Apply(db, c).db)
  {
  }

  lemma {:induction false} RunPreservesValid(db: Db, cmds: seq<Command>)
    requires Valid(db)
    ensures Valid(Run(db, cmds))
    decreases |cmds|
  {
    if cmds != [] {
      ApplyPreservesValid(db, cmds[0]);
      RunPreservesValid(Apply(db, cmds[0]).db, cmds[1..]);
    }
  }

  /** In every state the API can reach from empty tables, no user is registered
      twice for one event. */
  lemma ReachableRegistrationsUnique(cmds: seq<Command>)
    ensures UniqueRegistrations(Run(Empty, cmds).attendees)
  {
    RunPreservesValid(Empty, cmds);
  }

  /** A successful store, delete, registration or cancellation touches exactly
      the row it is about; a successful update touches at most that row (none
      when it writes back the stored values). */
  lemma SuccessTouchesExactlyOne(db: Db, c: Command)
    requires IdsBelowCounters(db)
    ensures var r := Apply(db, c);
            r.status.IsSuccess() && !c.UpdateEvent? ==> Touched(db, r.db) == {Target(db, c)}
  {
  }

  /** Update compares end_time only with the start_time of the same request,
      so changing just the start can leave a stored event ending before it
      starts, although store never creates such an event. */
  lemma UpdateCanInvertTimes(db: Db, user: nat, id: nat, newStart: int)
    requires id in db.events && db.events[id].owner == user
    requires db.events[id].endTime.Some? && newStart > db.events[id].endTime.value
    ensures var input := EventController.EventInput(Missing, Missing, Given(newStart), Missing);
            var r := EventController.Update(db, user, id, input);
            r.status == Ok && r.db.events[id].endTime.value < r.db.events[id].startTime
  {
  }

  /** Once registered, the same user registering again for the same event is
      refused with 422 and nothing is written. */
  lemma RegisterTwiceRejected(db: Db, user: nat, eventId: nat)
    ensures var r := AttendeeController.Store(db, user, eventId);
            r.status == Created ==>
              AttendeeController.Store(r.db, user, eventId) == Step(Unprocessable, r.db)
  {
  }

  /** Cancelling a registration just made, by the same user, brings the
      attendee table back to what it was; only the id counter has moved. */
  lemma CancelUndoesRegister(db: Db, user: nat, eventId: nat)
    requires IdsBelowCounters(db)
    ensures var r := AttendeeController.Store(db, user, eventId);
            r.status == Created ==>
              var d := AttendeeController.Destroy(r.db, user, eventId, db.nextAttendeeId);
              d.status == NoContent && d.db.attendees == db.attendees && d.db.events == db.events
  {
  }

  /** Deleting an event just created, by its creator, brings the event table
      back to what it was. */
  lemma DestroyUndoesStore(db: Db, user: nat, now: int, input: EventController.EventInput)
    requires IdsBelowCounters(db)
    ensures var r := EventController.Store(db, user, now, input);
            r.status == Created ==>
              var d := EventController.Destroy(r.db, user, db.nextEventId);
              d.status == NoContent && d.db.events == db.events && d.db.attendees == db.attendees
  {
  }

  /** Repeating an accepted update changes nothing further: the second
      request is accepted too and leaves the state as the first one left it. */
  lemma UpdateIdempotent(db: Db, user: nat, id: nat, input: EventController.EventInput)
    ensures var r := EventController.Update(db, user, id, input);
            r.status == Ok ==> EventController.Update(r.db, user, id, input) == r
  {
  }
}
