# College event management backend: event store, registration guard, database URL

A Dafny model of the core of a FastAPI + SQLAlchemy backend in which
administrators publish college events and students sign up for them. The
model covers three parts of the repository:

- **The `/events` handlers** (`routers/events.py`), as methods of a class
  `Events.EventStore` that holds the three tables (`users`, `events`,
  `registrations`) and the id sequences of the events and registrations
  tables. Reading one event or a page of events are functions; creating,
  updating, deleting an event and registering for one are methods that
  change the store. The registration guard refuses an unknown event with
  404 "Event not found", then refuses a second registration of the same
  user for the same event with 400 "Already registered for this event", and
  otherwise adds exactly one row whose user id is the authenticated
  caller's.
- **The records and their constraints** (`models.py`), as datatypes and
  predicates in `Models`: the primary keys, the unique user email, the
  `is_admin` default, the `uq_user_event` unique pair and the two foreign
  keys of a registration. `EventStore.Valid()` is all of them together, and
  every method of the store keeps it.
- **Reading DATABASE_URL** (`database.py`), as the pure function
  `Database.NormalizeDatabaseUrl`: a missing or empty value is the
  start-up error, and a leading `postgres://` becomes `postgresql://`
  through a model of Python's `str.replace(old, new, 1)`.

Where the code and the test scripts (`verify_*.py`) disagree, the model
follows the code:

- Several scripts expect a status gate (pending, cancelled, completed), an
  expiry check, a capacity limit, a time-conflict warning and automatic
  completion of past events on listing. None of these is in
  `routers/events.py` or `models.py`: an event has no status and no
  capacity column, and registration checks only existence and duplicates.
  The model has none of them.

Modelling choices:

- Deleting an event keeps its registrations. The relationship
  `Event.registrations` (models.py:30) declares no delete cascade, so the
  ORM sets the `event_id` of those rows to NULL. `Models.Detach` models
  that, and the uniqueness constraint treats NULL event ids as distinct,
  as PostgreSQL does.
- A table is a sequence of rows in scan order. `read_events` has no
  ORDER BY, so the database is free to return rows in any order; the model
  fixes one (creation order, with deletions closing the gap and updates
  keeping a row in place) and pages through it.
- The admin dependency `get_current_admin` and the user dependency
  `get_current_user` live in `routers/auth.py`, which is not part of this
  model. The admin check is the parameter `callerIsAdmin`; when it is false
  the handler fails with `AdminRequired` before its body runs, so it takes
  precedence over "Event not found". The authenticated user is the
  parameter `currentUser`, required to be a row of `users`.
- The times set by `datetime.utcnow` (an event's `created_at`, a
  registration's `registration_date`) are the parameter `now`.
- Ids come from the sequences `nextEventId` and `nextRegistrationId`, which
  stay ahead of every id in use; so an insert never collides on a primary
  key, and in `RegisterForEvent` the `uq_user_event` constraint never
  fires, because the duplicate check has already ruled the clash out.

## Model

| member | source | states |
|---|---|---|
| `Database.FindFirst` | database.py:23 | the position of the first occurrence of the pattern, and none exactly when the pattern occurs nowhere |
| `Database.ReplaceFirst` | database.py:23 | wherever the first occurrence of the pattern lies, the result is the text before it, the replacement, and the text after it; at the start this is the replacement followed by the unchanged rest; a string without the pattern comes back unchanged |
| `Database.NormalizeDatabaseUrl` | database.py:13-23 | an error exactly when DATABASE_URL is unset or empty; a URL starting with `postgres://` becomes `postgresql://` followed by the unchanged remainder, two characters longer; any other URL is returned unchanged |
| `Database.NormalizedIsNotLegacy` | database.py:22-23 | no normalised URL starts with `postgres://` |
| `Database.NormalizeIdempotent` | database.py:22-23 | normalising a normalised URL gives it back unchanged |
| `Models.NewUser` | models.py:12-16 | a user inserted without an admin flag is not an admin; every given column is stored as given |
| `Models.UniqueUserIds` | models.py:12 | no two users share an id |
| `Models.UniqueEmails` | models.py:14 | no two users share an email |
| `Models.InsertUser` | models.py:12-14 | the database accepts a user exactly when neither its id nor its email is taken, and then appends it |
| `Models.InsertUserKeepsKeys` | models.py:12-14 | a user insert the database accepts keeps ids and emails unique |
| `Models.HasEvent` | routers/events.py:55-57 | some event has the requested id: the existence test of every handler that looks an event up |
| `Models.UniqueEventIds` | models.py:23 | no two events share an id |
| `Models.IndexOfEvent` | routers/events.py:19 | the first event with the requested id, and none exactly when no event has it |
| `Models.RemoveAt` | routers/events.py:48-49 | deleting a row keeps the rows before it and shifts the rows after it by one, in order |
| `Models.RemoveAtKeepsOtherEvents` | models.py:23 | deleting the row of a primary-key table removes its id and no other, and the remaining ids stay unique |
| `Models.IsRegistered` | routers/events.py:60-64 | some registration has the given user_id and event_id; a NULL event_id matches no event |
| `Models.UniqueRegistrationIds` | models.py:36 | no two registrations share an id |
| `Models.UniqueUserEvent` | models.py:34 | no two registrations share (user_id, event_id), a NULL event_id clashing with nothing |
| `Models.ReferencesUsers` | models.py:37 | every registration's user_id is the id of a user |
| `Models.ReferencesEvents` | models.py:38 | every non-NULL event_id of a registration is the id of an event |
| `Models.InsertRegistration` | models.py:34-38 | the database accepts a registration exactly when its id is free, its user_id names a user and, for a non-NULL event_id, that event exists and the (user_id, event_id) pair is not yet present; it then appends the row |
| `Models.InsertRegistrationKeepsKeys` | models.py:34-38 | a registration insert the database accepts keeps the primary key, the unique (user_id, event_id) pair and both foreign keys |
| `Models.SecondRegistrationRefused` | models.py:34 | after a pair is inserted it is registered, and any further insert for the same pair is refused |
| `Models.Detach` | models.py:30-42 | deleting an event keeps each of its registrations with a NULL event_id and every other column as it was; no registration points at the deleted event any more |
| `Models.DetachKeepsConstraints` | models.py:34-42 | after an event is deleted and its registrations detached, both keys of the registrations table still hold and both foreign keys still point at existing rows |
| `Events.Items` | routers/events.py:37 | the payload's entries title, description, date_time and location, in that order |
| `Events.SetAttr` | routers/events.py:38 | the field the entry names takes the entry's value, the other three payload fields keep theirs, and the id and creation time never change |
| `Events.OverwriteFields` | routers/events.py:37-38 | after the field loop, title, description, date_time and location are the payload's and the id and created_at are the stored ones |
| `Events.EventStore.Valid` | models.py:12-38 | all constraints of the three tables at once: unique ids and emails, the unique registration pair, both foreign keys, and id sequences ahead of every id in use |
| `Events.EventStore.constructor` | main.py:7 | the tables start empty, with both id sequences at 1, and satisfy every constraint |
| `Events.EventStore.ReadEvents` | routers/events.py:12-15 | at most `limit` events, the ones at positions `skip`, `skip + 1`, ... of the table, as many as remain up to `limit`; none when `skip` is past the end |
| `Events.EventStore.ReadEvent` | routers/events.py:17-22 | the stored event with the requested id, the only one with that id, or "Event not found" exactly when there is none |
| `Events.EventStore.AddUser` | models.py:12-16 | a user is added exactly when neither its id nor its email is taken; nothing else changes and every constraint still holds |
| `Events.EventStore.CreateEvent` | routers/events.py:24-30 | a non-admin is refused with nothing changed; otherwise exactly one event is appended, with the next id, the payload's fields and `now` as its creation time, and nothing else changes |
| `Events.EventStore.UpdateEvent` | routers/events.py:32-41 | a non-admin is refused and an unknown id gives "Event not found", both with nothing changed; otherwise the one event with that id gets the payload's four fields, keeps its id, creation time and position, and every other row is unchanged |
| `Events.EventStore.DeleteEvent` | routers/events.py:43-50 | a non-admin is refused and an unknown id gives "Event not found", both with nothing changed; otherwise exactly the target event is removed, every other event stays in order, its registrations are detached, and the success message is returned |
| `Events.EventStore.RegisterForEvent` | routers/events.py:52-71 | an unknown event gives "Event not found" before any duplicate check; an existing (caller, event) row gives "Already registered for this event"; both leave the registrations unchanged; otherwise exactly one row is appended, for the authenticated caller and that event, with the next id and `now`; events and users never change, and every constraint, including the unique pair, still holds |

## Left out

- The HTTP layer, the FastAPI application, CORS and table creation (main.py): framework wiring.
- The engine, the session factory and `get_db` (database.py:26-36): connection plumbing; the store stands for one session's view of the tables.
- Authentication and the admin check (`get_current_user`, `get_current_admin` in routers/auth.py, which is not part of this model): their verdicts are parameters. Their error status and message are not modelled; `AdminRequired` stands for them.
- The sign-up and login handlers that create users (also in routers/auth.py): `AddUser` models only the insert and the constraints it must meet.
- Concurrency: requests run one after another, so the race between the duplicate query and the insert, and the unique constraint acting as the backstop under that race, are not modelled.
- `datetime.utcnow` defaults: timestamps are inputs.
- Response shaping by the Pydantic schemas (schemas.py): the model returns the stored records.
- `Events.EventStore.ReadEvents`: the handler's defaults (skip 0, limit 100) are the constants `Events.DefaultSkip` and `Events.DefaultLimit`, which a caller passes for a request that omits them; `skip` and `limit` are natural numbers; a negative value, which PostgreSQL rejects with an error, is not modelled, nor is the unspecified row order of a query without ORDER BY.
- Column widths and NULLs: ids are unbounded integers, not the 32-bit `Integer` columns of models.py:12,23,36-38, and `full_name`, `email`, `is_admin` and `user_id` are always present although the columns are nullable (models.py:13-16,37); no handler of the core reaches either limit or stores such a NULL.
- The rows as live ORM objects: an event is a value replaced in its table, so aliasing between a returned object and the stored row is not modelled.
- The status, expiry, capacity, time-conflict and auto-completion rules some test scripts expect: the handlers and the tables contain none of them.
