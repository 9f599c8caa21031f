# Activity registration store

This project is a Dafny model of the Mergington High School activities service. The service is a small web API. It keeps two tables:

- activities, each with a unique name, an optional description, an optional schedule and an optional participant limit;
- registrations, each binding one student email to one activity.

The model covers the three mutating handlers and the listing handler:

- `create_activity`
- `signup_for_activity`
- `unregister_from_activity`
- `get_activities`

The model also covers the record shapes and column constraints of `src/models.py`, including the cascade that deletes an activity's registrations with it.

The relational store is abstracted as the class `App.Store`. The class holds both tables as sequences, in insertion order, plus the next primary key of each table. Each handler is a method on that class. The method returns `Ok` or a tagged error: `NotFound`, `AlreadyExists`, `AlreadySignedUp`, `Full` or `NotSignedUp`. Each method is proved equal to a pure step function in `Handlers`, so its result and the new store are exactly what that function gives. Each method also keeps the store invariant `Models.Valid`, which says:

- activity names are pairwise distinct;
- activity ids and registration ids are distinct and below the next id to be handed out;
- the pair (activity id, email) is unique among registrations;
- every registration refers to a stored activity;
- no activity with a limit `m` holds more than max(0, m) registrations.

The schema indexes `email` but does not make (activity, email) unique. That pair stays unique only because of the signup handler's check, so the model proves it as an invariant the operations keep.

Files:

- `models.dfy` (module `Models`): the rows, the store value `Db`, the invariant, the relationship `RegistrationsOf`, and the cascade `DeleteActivity` with its lemmas.
- `handlers.dfy` (module `Handlers`): the lookups (`filter(...).first()`), the step functions of the handlers with their error-precedence contracts, the listing, and the running of request sequences.
- `properties.dfy` (module `Properties`): the invariant is preserved, signup and unregister undo each other, the listing is faithful, and the request flow of the project's test behaves as the test expects.
- `store.dfy` (module `App`): the `Store` class and its methods.

Behaviour of the code that the model keeps as written:

- A duplicate activity name gets status 400; there is no separate conflict code.
- The create handler accepts an empty name.
- The listing query (src/app.py:52) and the relationship behind `participants` (src/app.py:55) have no `order_by`, so the code promises no order. The model fixes one: activities and registrations are listed in table (insertion) order. `Properties.ListingReportsRegistrations`, `Properties.ParticipantsDistinct` and `Handlers.ParticipantsAreSignedUp` state only membership, count and absence of repeats. `Properties.CreateThenListed` and `Properties.SignupThenListed` also rely on the model's table order: they say where the new entry or email appears.

## Model

| member | source | states |
|---|---|---|
| `Models.RegistrationsOf` | src/models.py:17 | An activity's registrations are exactly the stored registrations whose `activity_id` is that activity, never more rows than the table holds |
| `Models.DeleteActivity` | src/models.py:17-25 | Deleting an activity removes exactly the activities with that id and exactly the registrations that refer to it; every other row stays, and the id counters are unchanged |
| `Models.DeleteActivityCascades` | src/models.py:17-25 | Deleting an activity keeps the store invariant, leaves no activity with that id and none of its registrations, and leaves every other activity's registrations unchanged |
| `Handlers.StatusCode` | src/app.py:69-120 | Only a missing activity is a 404; every other error, including a duplicate activity name, is a 400 |
| `Handlers.FindActivity` | src/app.py:85-87 | The lookup by name finds nothing exactly when no activity has that name; otherwise it gives the first activity with that name |
| `Handlers.FindRegistration` | src/app.py:115-120 | The lookup by (activity, email) finds nothing exactly when no such registration exists; otherwise it gives the first match |
| `Handlers.CreateStep` | src/app.py:66-80 | Fails with AlreadyExists exactly when the name is already stored, leaving the store unchanged; otherwise appends one activity with the payload's fields and a fresh id, and leaves registrations unchanged |
| `Handlers.SignupStep` | src/app.py:83-106 | Errors in fixed order: an unknown name gives NotFound whatever the email; then an existing pair gives AlreadySignedUp even when the activity is full; then, only when a limit is set, a count at or above it gives Full. Every error leaves the store unchanged. Success appends exactly one registration (email, activity id) and changes nothing else |
| `Handlers.UnregisterStep` | src/app.py:109-124 | An unknown name gives NotFound; a missing pair gives NotSignedUp. Every error leaves the store unchanged. Success removes exactly the first matching registration (the multiset loses that one row) and changes nothing else |
| `Handlers.Listing` | src/app.py:52-63 | The listing has one entry per stored activity, with that activity's name, description, schedule and limit; its participants hold one email per registration of that activity, and an email is listed exactly when it is signed up for that activity |
| `Properties.EmptyValid` | src/db.py:13-15 | The freshly created, empty store satisfies the invariant |
| `Properties.CreatePreservesValid` | src/app.py:68-80 | Creating an activity keeps names unique, ids fresh, no orphans and every activity within capacity; after a successful create, the new activity has no registrations |
| `Properties.SignupPreservesValid` | src/app.py:85-106 | Signup keeps the invariant: the (activity, email) pair stays unique, and a count below the limit is still within it after one more row |
| `Properties.UnregisterPreservesValid` | src/app.py:111-124 | Unregister keeps the invariant |
| `Properties.RunPreservesValid` | src/app.py:66-124 | Any sequence of create, signup and unregister requests keeps the whole store invariant |
| `Properties.InvariantFromEmpty` | src/models.py:12 | From the empty store, activity names stay pairwise distinct and each activity stays within max(0, max_participants) after any sequence of requests |
| `Properties.NonPositiveLimitAlwaysFull` | src/app.py:98-101 | With `max_participants` at or below zero, every signup that passes the existence and duplicate checks fails with Full and changes nothing |
| `Properties.UnregisterFreesSlot` | src/app.py:99-122 | After a successful unregister, a student not yet signed up for that activity can sign up, even if the activity was full |
| `Properties.SignupTwice` | tests/test_activities.py:58-60 | Right after a successful signup, the same signup fails with AlreadySignedUp and leaves the store unchanged |
| `Properties.SignupThenUnregister` | src/app.py:103-124 | Unregistering right after a successful signup succeeds and restores both tables exactly; only the registration id counter has advanced |
| `Properties.UnregisterClearsPair` | src/app.py:115-122 | After a successful unregister the pair is no longer signed up: a second unregister fails with NotSignedUp, and a new signup does not hit the duplicate check |
| `Properties.SignupUnregisterSignup` | src/app.py:90-106 | Signup, unregister, then signup of the same pair: the last signup succeeds |
| `Properties.TestedFlow` | tests/test_activities.py:42-69 | For a free name whose limit admits a student, the sequence create, signup, signup, unregister, unregister gives Ok, Ok, AlreadySignedUp, Ok, NotSignedUp |
| `Properties.RegistrationsOfDistinct` | src/models.py:17 | The relationship repeats no row when the table repeats none |
| `Handlers.ParticipantsAreSignedUp` | src/app.py:55 | An email is listed among an activity's participants exactly when a registration binds it to that activity |
| `Properties.ParticipantsDistinct` | src/app.py:55 | With (activity, email) pairs unique, no email is listed twice for an activity |
| `Properties.ListingReportsRegistrations` | src/app.py:50-63 | The listing has one entry per stored activity, carrying that activity's columns; its participants are exactly the emails signed up for it, one per registration, without repetition |
| `Properties.CreateThenListed` | src/app.py:52-80 | A created activity appears in the listing with no participants, last in the model's table order; the earlier entries are unchanged |
| `Properties.SignupThenListed` | src/app.py:103-106 | A successful signup adds the email to its activity's participants, last in the model's table order, and leaves every other listing entry unchanged |
| `App.Store.constructor` | src/db.py:13-15 | A new store is empty and satisfies the invariant |
| `App.Store.GetActivities` | src/app.py:50-63 | The loop builds exactly the listing of the current store and changes nothing |
| `App.Store.CreateActivity` | src/app.py:66-80 | The handler's reply and the new store are those of `CreateStep`; the invariant is kept |
| `App.Store.SignupForActivity` | src/app.py:83-106 | The handler's reply and the new store are those of `SignupStep`; the invariant is kept |
| `App.Store.UnregisterFromActivity` | src/app.py:109-124 | The handler's reply and the new store are those of `UnregisterStep`; the invariant is kept |
| `App.SignupAndUnregisterFlow` | tests/test_activities.py:42-69 | The test's request sequence, run against a store, gives Ok, Ok, AlreadySignedUp, Ok, NotSignedUp |

## Left out

- Session handling and engine setup in `src/db.py` (`DATABASE_URL`, `get_db`, `init_db`): the store is abstracted as one in-memory object that starts empty.
- The FastAPI wiring: the `/` redirect, the static mount, the startup hook, request parsing, JSON serialisation and the confirmation message strings. Replies are `Ok` or an error tag; `Handlers.StatusCode` gives only the error statuses.
- `created_at`: it is wall-clock time, and no behaviour depends on it.
- Concurrency: the count at src/app.py:99 and the insert at src/app.py:103-105 are separate store operations, so concurrent signups can overshoot the limit. The model runs every request sequentially and atomically.
- Primary-key assignment: SQLite hands out the largest rowid plus one and may reuse an id after the highest row is deleted. The model hands out ids from a counter that only grows, and proves only that ids are unique.
- The store-level `unique=True` on `name`: the handler's check always refuses a duplicate first, so the store's integrity error on insert is never reached and is not modelled.
- Integer width: `max_participants` is an unbounded integer, as in Python. The store's 64-bit column limit is not modelled.
- Listing order: the code promises no order for activities or participants. The model lists both in table order, and `Properties.CreateThenListed` and `Properties.SignupThenListed` depend on that choice. Any other order the store might return is not modelled.
- `Models.DeleteActivity`: no endpoint deletes an activity. The cascade is modelled as a function on the store value with its lemma, not as a `Store` method.
