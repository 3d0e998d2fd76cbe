# Event registration API — a Dafny model

This project models the event/attendee JSON API of a Laravel application: the
`EventController` (list, create, show, update, delete events) and the
`AttendeeController` (list an event's attendees, register the requester,
cancel a registration). Both tables are immutable maps keyed by their
auto-increment ids; every mutating controller action is a pure function from
(state, requester, arguments) to (HTTP status, new state).

- `models.dfy` (module `Models`): the `events` and `attendees` rows, the
  request-field shape the validator sees (`Missing | Null | Malformed |
  Given(v)`), the statuses 200/201/204/403/404/422, and the state invariant
  `Valid` (ids below the auto-increment counters, no (event, user) pair
  registered twice).
- `event_controller.dfy` (module `EventController`): the validation rules of
  `store` and `update` (`required|string|max:255`, `after:now`,
  `after:start_time`), the creator-only checks, and the newest-first listing.
- `attendee_controller.dfy` (module `AttendeeController`): the duplicate
  registration check, the event-mismatch check ahead of the ownership check,
  and the per-event listing.
- `transitions.dfy` (module `Transitions`): the actions as one state machine;
  rejected requests write nothing, a successful create, delete, registration
  or cancellation touches exactly the row it is about, a successful update
  touches at most that row, and every reachable state keeps `Valid`.

Modelling choices:

- Instants are integers and the request clock `now` is a parameter of event
  creation; `created_at` is stamped with it and drives the newest-first order.
- The owner of a new event is always the requester: `user_id` is not a
  fillable field (app/Models/Event.php:47-52), so the input type has no owner.
- `after:start_time` compares `end_time` with the `start_time` of the same
  request, and only when that is a date. On update this means an `end_time`
  sent without a `start_time` is not compared with anything, and a
  `start_time` sent without an `end_time` is not compared with the stored end.
  `Transitions.UpdateCanInvertTimes` shows the consequence: an owner can move
  the start past the stored end, leaving an event that ends before it starts,
  which `store` never creates.
- An unknown event or attendee id answers 404, as route model binding does
  before the controller runs. Attendee routes are not scoped, so an attendee
  of another event resolves and is refused by the controller's own check.
- The listings are methods: the tables are finite maps, and the order of rows
  within one `created_at` instant (events) or of the attendee rows (the query
  sets no order) is left open.

## Model

| member | source | states |
|---|---|---|
| EventController.Store | app/Http/Controllers/Api/EventController.php:94-106 | 201 exactly when the name is present, not blank and at most 255 characters, the description is null/absent/a string, start_time is after now, and end_time is absent, null or after start_time; otherwise 422 with no change; on success one new row under a fresh id owned by the requester, carrying the supplied fields, with every other row untouched |
| EventController.Update | app/Http/Controllers/Api/EventController.php:182-201 | 404 for an unknown id; 403 with no change for anyone but the creator, whatever the input; for the creator 200 exactly when each supplied field passes its rule, with no bound of start_time against now, and 422 with no change otherwise; on success only the supplied fields of that row change (null clears a nullable column), owner and creation time stay, all other rows stay |
| EventController.Destroy | app/Http/Controllers/Api/EventController.php:233-245 | 404 with no change for an unknown id; 204 exactly when the event exists and the requester created it, and then exactly that row is removed; 403 with no change for a non-creator |
| EventController.Show | app/Http/Controllers/Api/EventController.php:135-140 | 200 with the stored row when the id exists, otherwise 404 and no row |
| EventController.Index | app/Http/Controllers/Api/EventController.php:55-62 | every stored event appears exactly once, with its stored row, ordered newest-created first |
| AttendeeController.Index | app/Http/Controllers/Api/AttendeeController.php:42-47 | 404 for an unknown event; otherwise exactly the attendee rows whose event is the route event, each once |
| AttendeeController.Store | app/Http/Controllers/Api/AttendeeController.php:80-101 | 404 for an unknown event; 422 with no change when the requester already holds a row for the event; otherwise 201 and exactly one new row (route event, requester) under a fresh id, nothing else changed |
| AttendeeController.Destroy | app/Http/Controllers/Api/AttendeeController.php:140-159 | 404 with no change when the attendee belongs to another event, whoever asks; 403 with no change exactly when it belongs to the route event but another user; otherwise 204 and exactly that row removed, events untouched |
| Transitions.Apply | routes/api.php:24-29 | for every routed mutating action, a rejected request leaves the state unchanged, and any request writes at most the row it is about |
| Transitions.SuccessTouchesExactlyOne | routes/api.php:24-29 | a successful create, delete, registration or cancellation changes exactly one row: the one it inserts or names |
| Transitions.RegisterKeepsUnique | app/Http/Controllers/Api/AttendeeController.php:83-95 | registration never stores a second row for the same (event, user) pair |
| Transitions.ApplyPreservesValid | app/Http/Controllers/Api/AttendeeController.php:83-95 | every action keeps the ids below the counters and the registrations unique |
| Transitions.RunPreservesValid | app/Http/Controllers/Api/AttendeeController.php:83-95 | any sequence of actions from a valid state ends in a valid state |
| Transitions.ReachableRegistrationsUnique | app/Http/Controllers/Api/AttendeeController.php:83-95 | in every state reachable from empty tables no (event, user) pair appears on two attendee rows |
| Transitions.RegisterTwiceRejected | app/Http/Controllers/Api/AttendeeController.php:83-91 | right after a successful registration the same registration is refused with 422 and writes nothing |
| Transitions.CancelUndoesRegister | app/Http/Controllers/Api/AttendeeController.php:140-159 | the registrant cancelling the row just created restores the attendee table exactly |
| Transitions.DestroyUndoesStore | app/Http/Controllers/Api/EventController.php:233-245 | the creator deleting the event just created restores the event table exactly |
| Transitions.UpdateIdempotent | app/Http/Controllers/Api/EventController.php:191-198 | repeating an accepted update is accepted and changes nothing further |
| Transitions.UpdateCanInvertTimes | app/Http/Controllers/Api/EventController.php:191-198 | an owner's update that supplies only a start later than the stored end is accepted and leaves the end before the start |

## Left out

- Authentication: the `auth:sanctum` middleware and its 401 answer; the requester is always an authenticated user id.
- Type coercion and date parsing by the framework: a field that is not a string or not a parsable date is the single `Malformed` case, and a parsed date is an integer instant.
- Input middleware that trims strings and turns empty strings into null: names and descriptions are stored as given.
- The fallback of `after:start_time` when the request's start_time is absent or unparsable is taken as "no comparison"; the framework's comparison of a timestamp with null, which refuses an end_time of exactly the epoch, is not modelled.
- The `updated_at` timestamp that every write refreshes, and the JSON shape of responses, including the `user:id,name` and `attendees` eager-loaded projections.
- What deleting an event does to its attendee rows: no attendees migration is part of this model, so whether the database cascades, refuses or keeps them is unknown; the model keeps them.
- The race between the duplicate check and the insert in attendee registration: each action is one atomic step.
- The page-builder subsystem (templates, sections, components, blueprint validation and compilation): its validator, registry and compiler live in an external package that is not part of this model; the configuration files, seeders, factories, migrations, authentication controllers, routes wiring and views are left out as data or plumbing.
