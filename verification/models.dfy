/** The two tables behind the event-registration API, the shape of a request
    field as the validator sees it, and the HTTP statuses the controllers answer
    with. Instants (start, end, creation time, "now") are plain integers. */
module Models {

  datatype Option<+T> = None | Some(value: T)

  /** One request field: absent from the request, present as null, present but
      not of the declared type (not a string, not a parsable date), or a usable
      value. */
  datatype Field<+T> = Missing | Null | Malformed | Given(value: T)

  /** The value a nullable field writes into its column: null unless given. */
  function Column<T>(f: Field<T>): Option<T>
  {
    if f.Given? then Some(f.value) else None
  }

  /** A row of `events`. Only name, description and the two instants are
      mass-assignable; the owner is the authenticated creator and createdAt is
      stamped by the framework on insert. */
  datatype Event = Event(
    owner: nat,
    name: string,
    description: Option<string>,
    startTime: int,
    endTime: Option<int>,
    createdAt: int)

  /** A row of `attendees`: one user registered for one event. */
  datatype Attendee = Attendee(eventId: nat, userId: nat)

  /** Both tables, each keyed by its auto-increment id, together with the next
      id each table will hand out (ids start at 1 and are never reused). */
  datatype Db = Db(
    events: map<nat, Event>,
    attendees: map<nat, Attendee>,
    nextEventId: nat,
    nextAttendeeId: nat)

  const Empty: Db := Db(map[], map[], 1, 1)

  datatype Status = Ok | Created | NoContent | Forbidden | NotFound | Unprocessable
  {
    /** The numeric HTTP status. */
    function Code(): int
    {
      match this
      case Ok => 200
      case Created => 201
      case NoContent => 204
      case Forbidden => 403
      case NotFound => 404
      case Unprocessable => 422
    }

    predicate IsSuccess()
    {
      Ok? || Created? || NoContent?
    }
  }

  /** The answer of a controller action together with the state it leaves. */
  datatype Step = Step(status: Status, db: Db)

  /** Every stored id lies below the counter of its table, so the counter is fresh. */
  predicate IdsBelowCounters(db: Db)
  {
    && (forall id :: id in db.events ==> id < db.nextEventId)
    && (forall id :: id in db.attendees ==> id < db.nextAttendeeId)
  }

  /** No (event, user) pair is registered twice. An attendee row is exactly
      such a pair, so this says the map is injective. */
  predicate UniqueRegistrations(attendees: map<nat, Attendee>)
  {
    forall a, b :: a in attendees && b in attendees && a != b ==> attendees[a] != attendees[b]
  }

  predicate Valid(db: Db)
  {
    IdsBelowCounters(db) && UniqueRegistrations(db.attendees)
  }

  /** Whether `user` already holds an attendee row for `eventId`. */
  predicate IsRegistered(attendees: map<nat, Attendee>, eventId: nat, user: nat)
  {
    exists id :: id in attendees && attendees[id] == Attendee(eventId, user)
  }

  /** Keys whose row was inserted, deleted or rewritten between `m` and `m'`. */
  function ChangedKeys<V(==)>(m: map<nat, V>, m': map<nat, V>): set<nat>
  {
    set k | k in m.Keys + m'.Keys && !(k in m && k in m' && m[k] == m'[k])
  }
}
