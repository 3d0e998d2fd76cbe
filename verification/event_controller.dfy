/** The event resource: listing newest first, creation owned by the requester,
    and creator-only update and delete, each with the request validation the
    controller declares. */
module EventController {
  import opened Models

  const MaxNameLength: nat := 255

  /** The characters PHP's trim() strips; `required` rejects a string made only of them. */
  predicate IsTrimmed(c: char)
  {
    c == ' ' || c == '\t' || c == '\n' || c == '\r' || c == '\0' || c == '\U{B}'
  }

  predicate Blank(s: string)
  {
    forall i :: 0 <= i < |s| ==> IsTrimmed(s[i])
  }

  /** The input of store and update: the four fillable fields. */
  datatype EventInput = EventInput(
    name: Field<string>,
    description: Field<string>,
    startTime: Field<int>,
    endTime: Field<int>)

  /** `required|string|max:255`; with `sometimes` an absent field passes. */
  predicate NameAccepted(f: Field<string>, sometimes: bool)
  {
    match f
    case Missing => sometimes
    case Given(s) => !Blank(s) && |s| <= MaxNameLength
    case _ => false
  }

  /** `nullable|string`. */
  predicate DescriptionAccepted(f: Field<string>)
  {
    !f.Malformed?
  }

  /** `nullable|date|after:start_time`. The comparison is made against the
      start_time of the same request, and only when that is a date. */
  predicate EndAccepted(end: Field<int>, start: Field<int>)
  {
    match end
    case Missing => true
    case Null => true
    case Malformed => false
    case Given(e) => start.Given? ==> e > start.value
  }

  /** The validation rules of store. */
  predicate StoreAccepted(input: EventInput, now: int)
  {
    && NameAccepted(input.name, false)
    && DescriptionAccepted(input.description)
    && input.startTime.Given? && input.startTime.value > now
    && EndAccepted(input.endTime, input.startTime)
  }

  /** The validation rules of update: name and start_time only when present,
      and no bound on start_time relative to now. */
  predicate UpdateAccepted(input: EventInput)
  {
    && NameAccepted(input.name, true)
    && DescriptionAccepted(input.description)
    && (input.startTime.Missing? || input.startTime.Given?)
    && EndAccepted(input.endTime, input.startTime)
  }

  /** POST /events: validate, then insert a row owned by the requester. */
  function Store(db: Db, user: nat, now: int, input: EventInput): (r: Step)
    ensures r.status == Created || r.status == Unprocessable
    ensures r.status == Created <==>
              && input.name.Given? && !Blank(input.name.value) && |input.name.value| <= MaxNameLength
              && !input.description.Malformed?
              && input.startTime.Given? && input.startTime.value > now
              && (input.endTime.Missing? || input.endTime.Null?
                  || (input.endTime.Given? && input.endTime.value > input.startTime.value))
    ensures r.status == Unprocessable ==> r.db == db
    ensures r.status == Created ==>
              && r.db.events.Keys == db.events.Keys + {db.nextEventId}
              && r.db.nextEventId > db.nextEventId
              && r.db.attendees == db.attendees
              && r.db.nextAttendeeId == db.nextAttendeeId
              && (forall id :: id in db.events && id != db.nextEventId ==> r.db.events[id] == db.events[id])
    ensures r.status == Created ==>
              var e := r.db.events[db.nextEventId];
              && e.owner == user
              && e.name == input.name.value
              && e.startTime == input.startTime.value
              && e.description == (if input.description.Given? then Some(input.description.value) else None)
              && e.endTime == (if input.endTime.Given? then Some(input.endTime.value) else None)
              && e.createdAt == now
  {
    if StoreAccepted(input, now) then
      var e := Event(user, input.name.value, Column(input.description),
                     input.startTime.value, Column(input.endTime), now);
      Step(Created, db.(events := db.events[db.nextEventId := e],
                        nextEventId := db.nextEventId + 1))
    else
      Step(Unprocessable, db)
  }

  /** The row an accepted update writes: each supplied field replaces the
      stored one, null clears a nullable column, absent fields stay. */
  function Patch(e: Event, input: EventInput): Event
  {
    Event(
      e.owner,
      if input.name.Given? then input.name.value else e.name,
      if input.description.Missing? then e.description else Column(input.description),
      if input.startTime.Given? then input.startTime.value else e.startTime,
      if input.endTime.Missing? then e.endTime else Column(input.endTime),
      e.createdAt)
  }

  /** PUT /events/{id}: 404 for an unknown id, 403 unless the requester created
      the event (checked before any validation), 422 on a rule violation. */
  function Update(db: Db, user: nat, id: nat, input: EventInput): (r: Step)
    ensures id !in db.events ==> r == Step(NotFound, db)
    ensures id in db.events && db.events[id].owner != user ==> r == Step(Forbidden, db)
    ensures !r.status.Ok? ==> r.db == db
    ensures r.status in {Ok, Forbidden, NotFound, Unprocessable}
    ensures id in db.events && db.events[id].owner == user && !r.status.Ok? ==> r.status == Unprocessable
    ensures r.status.Ok? <==>
              && id in db.events && db.events[id].owner == user
              && (input.name.Missing? || (input.name.Given? && !Blank(input.name.value) && |input.name.value| <= MaxNameLength))
              && !input.description.Malformed?
              && (input.startTime.Missing? || input.startTime.Given?)
              && !input.endTime.Malformed?
              && (input.endTime.Given? && input.startTime.Given? ==> input.endTime.value > input.startTime.value)
    ensures r.status.Ok? ==>
              && r.db.events.Keys == db.events.Keys
              && r.db.attendees == db.attendees
              && r.db.nextEventId == db.nextEventId
              && r.db.nextAttendeeId == db.nextAttendeeId
              && (forall k :: k in db.events && k != id ==> r.db.events[k] == db.events[k])
    ensures r.status.Ok? ==>
              var e, e' := db.events[id], r.db.events[id];
              && e'.owner == e.owner && e'.createdAt == e.createdAt
              && e'.name == (if input.name.Given? then input.name.value else e.name)
              && e'.startTime == (if input.startTime.Given? then input.startTime.value else e.startTime)
              && (input.description.Missing? ==> e'.description == e.description)
              && (input.description.Null? ==> e'.description == None)
              && (input.description.Given? ==> e'.description == Some(input.description.value))
              && (input.endTime.Missing? ==> e'.endTime == e.endTime)
              && (input.endTime.Null? ==> e'.endTime == None)
              && (input.endTime.Given? ==> e'.endTime == Some(input.endTime.value))
  {
    if id !in db.events then Step(NotFound, db)
    else if db.events[id].owner != user then Step(Forbidden, db)
    else if !UpdateAccepted(input) then Step(Unprocessable, db)
    else Step(Ok, db.(events := db.events[id := Patch(db.events[id], input)]))
  }

  /** DELETE /events/{id}: 404 for an unknown id, 403 unless the requester
      created the event, otherwise the row is removed. */
  function Destroy(db: Db, user: nat, id: nat): (r: Step)
    ensures id !in db.events ==> r == Step(NotFound, db)
    ensures r.status == NoContent <==> id in db.events && db.events[id].owner == user
    ensures r.status != NoContent ==> r.db == db
    ensures id in db.events && db.events[id].owner != user ==> r.status == Forbidden
    ensures r.status == NoContent ==>
              && r.db.events.Keys == db.events.Keys - {id}
              && (forall k :: k in r.db.events ==> r.db.events[k] == db.events[k])
              && r.db.attendees == db.attendees
              && r.db.nextEventId == db.nextEventId
              && r.db.nextAttendeeId == db.nextAttendeeId
  {
    if id !in db.events then Step(NotFound, db)
    else if db.events[id].owner != user then Step(Forbidden, db)
    else Step(NoContent, db.(events := db.events - {id}))
  }

  /** GET /events/{id}: the stored row, or 404. */
  function Show(db: Db, id: nat): (r: (Status, Option<Event>))
    ensures r.0 == Ok <==> id in db.events
    ensures r.0 == Ok ==> r.1 == Some(db.events[id])
    ensures r.0 != Ok ==> r.0 == NotFound && r.1 == None
  {
    if id in db.events then (Ok, Some(db.events[id])) else (NotFound, None)
  }

  /** One entry of the listing: an event row with its id. */
  datatype Row = Row(id: nat, event: Event)

  predicate NewestFirst(rows: seq<Row>)
  {
    forall i, j :: 0 <= i < j < |rows| ==> rows[i].event.createdAt >= rows[j].event.createdAt
  }

  predicate DistinctRowIds(rows: seq<Row>)
  {
    forall i, j :: 0 <= i < j < |rows| ==> rows[i].id != rows[j].id
  }

  function RowIds(rows: seq<Row>): set<nat>
  {
    set i | 0 <= i < |rows| :: rows[i].id
  }

  /** Places `x` in front of the first row that is not newer than it. */
  function InsertNewest(x: Row, rows: seq<Row>): (r: seq<Row>)
    ensures |r| == |rows| + 1
    ensures multiset(r) == multiset(rows) + multiset{x}
  {
    if rows == [] || x.event.createdAt >= rows[0].event.createdAt then [x] + rows
    else
      assert rows == [rows[0]] + rows[1..];
      [rows[0]] + InsertNewest(x, rows[1..])
  }

  /** A row newer than every row of a newest-first list may go in front. */
  lemma ConsNewestFirst(a: Row, t: seq<Row>)
    requires NewestFirst(t)
    requires forall k :: 0 <= k < |t| ==> a.event.createdAt >= t[k].event.createdAt
    ensures NewestFirst([a] + t)
  {
  }

  /** A row whose id is not yet listed may go in front. */
  lemma ConsDistinctIds(a: Row, t: seq<Row>)
    requires DistinctRowIds(t)
    requires a.id !in RowIds(t)
    ensures DistinctRowIds([a] + t)
    ensures RowIds([a] + t) == {a.id} + RowIds(t)
  {
    var r := [a] + t;
    forall i, j | 0 <= i < j < |r| ensures r[i].id != r[j].id {
      assert r[j] == t[j - 1];
      if i > 0 {
        assert r[i] == t[i - 1];
      } else {
        assert t[j - 1].id in RowIds(t);
      }
    }
    forall y | y in RowIds(r) ensures y in {a.id} + RowIds(t) {
      var k :| 0 <= k < |r| && r[k].id == y;
      if k > 0 {
        assert r[k] == t[k - 1];
      }
    }
    forall y | y in RowIds(t) ensures y in RowIds(r) {
      var k :| 0 <= k < |t| && t[k].id == y;
      assert r[k + 1] == t[k];
    }
    assert r[0] == a;
  }

  /** Every row of the insertion result is `x` or a row of the input. */
  lemma InsertedFrom(x: Row, rows: seq<Row>, k: nat)
    requires k < |InsertNewest(x, rows)|
    ensures InsertNewest(x, rows)[k] == x || InsertNewest(x, rows)[k] in rows
  {
    var r := InsertNewest(x, rows);
    assert r[k] in multiset(r);
  }

  lemma {:induction false} InsertKeepsNewestFirst(x: Row, rows: seq<Row>)
    requires NewestFirst(rows)
    ensures NewestFirst(InsertNewest(x, rows))
  {
    if rows == [] || x.event.createdAt >= rows[0].event.createdAt {
      ConsNewestFirst(x, rows);
    } else {
      var tail := rows[1..];
      assert NewestFirst(tail);
      InsertKeepsNewestFirst(x, tail);
      var t := InsertNewest(x, tail);
      forall k | 0 <= k < |t| ensures rows[0].event.createdAt >= t[k].event.createdAt {
        InsertedFrom(x, tail, k);
        if t[k] != x {
          var m :| 0 <= m < |tail| && tail[m] == t[k];
          assert tail[m] == rows[m + 1];
        }
      }
      ConsNewestFirst(rows[0], t);
    }
  }

  lemma {:induction false} InsertKeepsIdsDistinct(x: Row, rows: seq<Row>)
    requires DistinctRowIds(rows)
    requires x.id !in RowIds(rows)
    ensures DistinctRowIds(InsertNewest(x, rows))
    ensures RowIds(InsertNewest(x, rows)) == RowIds(rows) + {x.id}
  {
    if rows == [] || x.event.createdAt >= rows[0].event.createdAt {
      ConsDistinctIds(x, rows);
    } else {
      var tail := rows[1..];
      assert rows == [rows[0]] + tail;
      assert DistinctRowIds(tail);
      assert rows[0].id !in RowIds(tail) by {
        forall m | 0 <= m < |tail| ensures tail[m].id != rows[0].id {
          assert tail[m] == rows[m + 1];
        }
      }
      ConsDistinctIds(rows[0], tail);
      InsertKeepsIdsDistinct(x, tail);
      var t := InsertNewest(x, tail);
      assert rows[0].id != x.id;
      ConsDistinctIds(rows[0], t);
    }
  }

  /** GET /events: every event exactly once, newest-created first. The order
      among rows created at the same instant is left open, as the query leaves it. */
  method Index(db: Db) returns (rows: seq<Row>)
    ensures RowIds(rows) == db.events.Keys
    ensures DistinctRowIds(rows)
    ensures NewestFirst(rows)
    ensures forall i :: 0 <= i < |rows| ==> rows[i].id in db.events && rows[i].event == db.events[rows[i].id]
  {
    rows := [];
    var pending := db.events.Keys;
    while pending != {}
      invariant pending <= db.events.Keys
      invariant RowIds(rows) == db.events.Keys - pending
      invariant DistinctRowIds(rows)
      invariant NewestFirst(rows)
      invariant forall i :: 0 <= i < |rows| ==> rows[i].id in db.events && rows[i].event == db.events[rows[i].id]
      decreases pending
    {
      var id :| id in pending;
      var row := Row(id, db.events[id]);
      InsertKeepsIdsDistinct(row, rows);
      InsertKeepsNewestFirst(row, rows);
      var next := InsertNewest(row, rows);
      forall i | 0 <= i < |next|
        ensures next[i].id in db.events && next[i].event == db.events[next[i].id]
      {
        assert next[i] in multiset(rows) + multiset{row};
        if next[i] != row {
          assert next[i] in rows;
        }
      }
      rows := next;
      pending := pending - {id};
    }
  }
}
