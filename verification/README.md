# Mergington High School activity registry, in Dafny

This project models the activity-signup registry of the Mergington High School API
(`src/app.py`). Students list the school's extracurricular activities, sign up for one
and unregister from one. The database session behind each request is modelled as
two tables:

- the `activity` table, a map from activity name (its primary key) to description,
  schedule and `max_participants`;
- the `participant` table, a sequence of (email, activity name) rows in insertion
  order.

Files:

- `models.dfy`, module `Models`: the two row types of `src/models.py`.
- `registry.dfy`, module `Registry`: the store as a value and each handler as a
  function from the store before a request to the store after it plus the response:
  `Ok(message)` (200), `NotFound(detail)` (404) or `BadRequest(detail)` (400). The
  module also holds the invariants the handlers keep and lemmas about the handlers:
  error cases, the order of the checks, exact effects, the sign-up/unregister round
  trip, idempotent seeding, the listing, and invariance over any sequence of requests.
- `app.dfy`, module `App`: a class `Session` holding the two tables as fields. Its
  methods are the handlers written as the source writes them: the loops that select
  rows, the nested seeding loops and the loop that fills the listing. Each method is
  proved to compute the matching `Registry` function of the old state. The three
  methods that change the tables (`SeedIfEmpty`, `SignUp`, `Unregister`) are also
  proved to keep the store's invariants.

The invariants (`Registry.Valid`) are:

- every participant row names an existing activity;
- no (email, activity) row appears twice;
- no activity has more rows than its `max_participants`.

## Model

| member | source | states |
|---|---|---|
| Registry.EmailsOf | src/app.py:109-110 | the rows selected for an activity are never more than the rows of the table |
| Registry.IndexOf | src/app.py:131-132 | the first row matching both activity and email: its position holds that row, no earlier row matches, and the length of the table stands for "no such row" |
| Registry.Listing | src/app.py:87-99 | the listing has one entry for each stored activity name and no other |
| Registry.EmailsOfMembership | src/app.py:109-112 | an email is among the emails selected for an activity exactly when the row (email, activity) exists |
| Registry.EmailsOfMultiplicity | src/app.py:109-110 | an email occurs among the emails selected for an activity as many times as the row (email, activity) occurs in the table |
| Registry.EmailsOfRowsOf | src/app.py:65-67 | the rows the seed adds for one activity list exactly that activity's seed students, in order, and nothing under any other name |
| Registry.NoDuplicateRowsIff | src/app.py:112-113 | the table holds no duplicate (email, activity) row exactly when no activity's list of emails has a repeat (both directions) |
| Registry.SignUpUnknownActivity | src/app.py:105-107 | sign-up to an unknown activity answers 404 "Activity not found" and leaves the store unchanged |
| Registry.SignUpAlreadySignedUp | src/app.py:109-116 | sign-up of a student already on the activity answers 400 "Student is already signed up" and leaves the store unchanged, also when the activity is full, because this check comes first |
| Registry.SignUpFull | src/app.py:115-116 | sign-up of a new student when the activity has at least `max_participants` rows answers 400 "Activity is full" and leaves the store unchanged |
| Registry.SignUpSucceedsIff | src/app.py:105-121 | sign-up succeeds exactly when the activity exists, the student is not on it and it has fewer rows than its capacity |
| Registry.SignUpSuccess | src/app.py:118-121 | a successful sign-up appends exactly the row (email, activity), keeps the activity table, adds the email to that activity's list (count + 1), leaves every other activity's list unchanged and answers "Signed up {email} for {activity}" |
| Registry.SignUpPreservesValid | src/app.py:109-120 | sign-up keeps the foreign-key, no-duplicate and capacity invariants |
| Registry.UnregisterUnknownActivity | src/app.py:127-129 | unregister from an unknown activity answers 404 "Activity not found" and leaves the store unchanged |
| Registry.UnregisterNotSignedUp | src/app.py:131-134 | unregister of a student with no matching row answers 400 "Student is not signed up for this activity" and leaves the store unchanged |
| Registry.UnregisterSuccess | src/app.py:131-138 | a successful unregister removes exactly one matching row and keeps the order of the others: the multiset of rows loses exactly that row, the activity table is unchanged and the answer is "Unregistered {email} from {activity}" |
| Registry.UnregisterCounts | src/app.py:136-137 | after a successful unregister the activity has one row fewer and every other activity's list is unchanged |
| Registry.UnregisterForgetsEmail | src/app.py:131-137 | when rows were unique, the student is no longer listed for the activity after unregistering |
| Registry.UnregisterPreservesValid | src/app.py:127-137 | unregister keeps the foreign-key, no-duplicate and capacity invariants |
| Registry.SignUpThenUnregister | src/app.py:118-120 | a successful sign-up followed by unregistering the same student from the same activity succeeds and restores exactly the store before the sign-up |
| Registry.SeedTableActivities | src/app.py:28-47 | the seed table creates exactly the activities Chess Club, Programming Class and Gym Class, each with the fields the table lists |
| Registry.SeedTableRows | src/app.py:57-68 | the seeded rows are those of the three entries, in table order |
| Registry.EmailsOfThreeEntries | src/app.py:57-68 | the rows of three seed entries list, for each name, the students of the entries with that name, in table order |
| Registry.SeededEmails | src/app.py:28-47 | the seeded rows list michael and daniel for Chess Club, emma and sophia for Programming Class, john and olivia for Gym Class, and nobody for any other name |
| Registry.SeedNoOpWhenPopulated | src/app.py:52-55 | seeding a store that holds an activity changes nothing |
| Registry.SeedEmptyStore | src/app.py:57-68 | seeding the empty store yields exactly the three seed activities, each with its seed fields and exactly its seed students, so at least one activity exists, as tests/test_db.py asserts |
| Registry.SeedIdempotent | src/app.py:50-68 | seeding twice gives the same store as seeding once |
| Registry.SeededForeignKeys | src/app.py:57-68 | every seeded row names a seeded activity |
| Registry.SeededRowsDistinct | src/app.py:28-47 | the six seeded rows are pairwise distinct |
| Registry.SeededWithinCapacity | src/app.py:28-47 | the store seeded from empty has no activity with more rows than its `max_participants` |
| Registry.SeededStoreValid | src/app.py:28-68 | the store seeded from empty satisfies all three invariants |
| Registry.SeedPreservesValid | src/app.py:50-68 | seeding a valid store gives a valid store, because a valid store without activities holds no rows |
| Registry.ListingContents | src/app.py:89-98 | each listing entry copies the activity's description, schedule and capacity; an email is listed for the activity as many times as the table holds its row (so exactly when such a row exists), and when the table has no duplicate row the listed emails are pairwise distinct |
| Registry.RunPreservesValid | src/app.py:102-138 | from a valid store, any sequence of sign-ups and unregisters keeps the invariants: no activity over capacity, no student twice on one activity, no row without its activity |
| Registry.SeededChessClubListed | src/app.py:87-99 | after seeding, the listing shows Chess Club with exactly michael and daniel, in seeding order |
| Registry.SeededSignUpNewStudent | src/app.py:118-121 | on the seeded store a new student's sign-up for Chess Club succeeds and Chess Club then has 3 students |
| Registry.SeededSignUpAgain | src/app.py:112-113 | on the seeded store signing michael up for Chess Club again answers "Student is already signed up" |
| Registry.SeededUnregisterStranger | src/app.py:131-134 | on the seeded store unregistering from Chess Club a student who never signed up answers "Student is not signed up for this activity" |
| Registry.SeededUnknownActivity | src/app.py:105-107 | on the seeded store signing up for an activity outside the seed table answers 404 "Activity not found" |
| App.Session.constructor | src/db.py:11-13 | a session on a freshly created database has empty tables |
| App.Session.EmailsFor | src/app.py:109-110 | the loop over the table collects exactly the emails of the activity's rows |
| App.Session.FindRow | src/app.py:131-132 | the loop returns the position of the first row matching activity and email, or the table length when none matches |
| App.Session.SeedIfEmpty | src/app.py:50-68 | the tables afterwards are the seeding of the tables before, and the invariants are kept |
| App.Session.InsertSeedTable | src/app.py:57-68 | the outer seeding loop adds every seed activity and, after each, its rows |
| App.Session.InsertSeedRows | src/app.py:65-67 | the inner seeding loop appends one row per listed student, in list order, and leaves the activity table alone |
| App.Session.GetActivities | src/app.py:85-99 | the loop over the activities builds exactly the listing of the current tables and changes nothing |
| App.Session.SignUp | src/app.py:102-121 | the new tables and the response are those of the sign-up function on the old tables, and the invariants are kept |
| App.Session.Unregister | src/app.py:124-138 | the new tables and the response are those of the unregister function on the old tables, and the invariants are kept |

## Left out

- The web framework: building the application, route decorators, dependency injection of the session, the `/static` mount (src/app.py:20-25), the root redirect (src/app.py:80-82) and the startup hook that drives the seeding (src/app.py:71-77). These are framework glue with no behaviour of their own.
- src/db.py: the SQLite engine, the database file and session scoping. These are I/O. The session is the `App.Session` object, and a new one starts with empty tables.
- Transactions and commit points, including the seeding's two commits per activity. Requests are modelled as atomic steps on the store.
- The ORM's `Relationship` back-references (src/models.py:9,17) and the surrogate participant `id` (src/models.py:6). Rows are identified by their (email, activity) value.
- The order of listed participants: the source's select has no ORDER BY, so the database promises no order. The model keeps rows in insertion order and lists them in that order. The invariants, the error cases, the round trip and `Registry.ListingContents` do not depend on that order. Some lemmas state sequence equalities that hold only in the model's insertion order: `Registry.SignUpSuccess` (the email appended at the end of the list), `Registry.UnregisterSuccess` (the other rows keep their order), `Registry.EmailsOfRowsOf`, `Registry.SeedTableRows`, `Registry.EmailsOfThreeEntries`, `Registry.SeededEmails`, `Registry.SeedEmptyStore` and `Registry.SeededChessClubListed` (seed students in table order), and `App.Session.EmailsFor` and `App.Session.GetActivities` through `Registry.EmailsOf`. Against a database that returns rows in another order, only their multiset content carries over. When duplicate rows exist (never in a valid store), unregister removes the first one in insertion order.
- Concurrency: the read-then-write race between two simultaneous sign-ups for the last seat is outside the source's guarantees. Only sequential requests are modelled.
- Storage-engine failures (500 responses) are not modelled.
- `max_participants` is an unbounded integer. As in the source, nothing checks that it is positive. A capacity of zero or less makes every sign-up of a new student answer "Activity is full".
