# Fitness tracker service, modelled in Dafny

This project models the service layer of a personal fitness tracker: the
`FitnessTracker` object that registers users, logs them in and out, and
records activities, workout plans and goals for whoever is logged in. The
object keeps four tables (`users`, `activities`, `workouts`, `goals`) and one
session field, `current_user_id`, naming the logged-in user.

- `rows.dfy` (module `Rows`): one datatype per table row, with the columns
  the schema declares, and the columns the activity listing reports.
- `tables.dfy` (module `Tables`): what the schema guarantees about the tables
  (AUTOINCREMENT keys, the UNIQUE username, user ids that name a user) and
  what the tracker's queries compute. This covers the login lookup, the pace
  formula and the per-user activity listing. The lemmas here state how these
  behave as rows are inserted.
- `tracker.dfy` (module `Tracker`): the class `FitnessTracker`. Its tables are
  `seq` fields that its methods reassign. Each table has a `nat` counter for
  its next AUTOINCREMENT key. `currentUserId` is an `Option<nat>`, with None
  for Python's `None`. `Valid()` is the class invariant. Each method states
  which table gains which row, what happens to the session, and what it
  returns. Its `modifies` clause says that nothing else changes.
- `sessions.dfy` (module `Sessions`): sequences of calls on the service
  object, and what the contracts promise about them together.

Modelling choices:

- The tables start empty, as they are after the startup drop-and-create.
  Each AUTOINCREMENT counter starts at 1. A register that hits the UNIQUE
  constraint does not use up a key, because SQLite rolls back the failed
  statement, including its key counter.
- The password hash is the tracker's `hash` field, a `string -> string`
  function passed to the constructor. It is deterministic. The operations
  assume nothing else about it. The one scenario that shows a wrong
  password being refused (`Sessions.WrongThenRightPassword`) requires that
  the two passwords it uses hash differently.
- Numbers are unbounded: `int` for the integer columns and `real` for the
  float columns. The pace is `distance / (duration / 60)` over `real`.
  SQLite stores an INTEGER in 64 bits, and a Python int outside that range
  cannot be bound to a statement. So a register with such an age, or a
  workout plan with such a duration, raises inside the `try` and returns
  False without adding a row. The model states this (`Tables.FitsInteger`).
- The activity listing has no `ORDER BY`, so `ViewActivities` promises the
  listed rows with their multiplicities, but not their order.
- `track_activity`, `create_workout_plan` and `set_goal` have no logged-in
  guard. With nobody logged in, the row is stored with a NULL user id.

## Model

| member | source | states |
|---|---|---|
| `Tables.AutoIncrementInsert` | app.py:29 | inserting a row with the next key keeps every key positive, increasing in insertion order and below the counter; the new key differs from every existing key |
| `Tables.UniqueUsernamesInsert` | app.py:30 | inserting a user whose username is not taken keeps usernames unique |
| `Tables.AttributedInsert` | app.py:50 | a user id that names a registered user still names one after another user registers |
| `Tables.FindCredentials` | app.py:105-108 | the login query finds an id exactly when some row has both the username and the password hash; the id it finds is that of such a row |
| `Tables.CredentialsDetermineUser` | app.py:102-112 | with unique usernames, the login query returns the id of the one row that holds the credentials |
| `Tables.InsertKeepsOtherLogins` | app.py:87-95 | registering a user leaves what a login under any other username finds unchanged |
| `Tables.RegisterThenLoginFinds` | app.py:87-112 | after a fresh username is registered, a login with that username and password hash finds exactly the new row |
| `Tables.Pace` | app.py:121 | the pace is defined exactly when the duration is non-zero; it is the speed in km/h, so pace × duration = 60 × distance |
| `Tables.ActivitiesOf` | app.py:158-161 | a listing holds exactly the columns of the activities whose user id equals the session's id; it is empty when nobody is logged in, since NULL equals nothing |
| `Tables.NothingOwnedListsNothing` | app.py:156-162 | a user who owns no activity gets an empty listing, not an error |
| `Tables.ActivitiesOfInsert` | app.py:119-127 | a new activity is added to its owner's listing only; every other user's listing stays the same |
| `Tracker.FitnessTracker.constructor` | app.py:82-85 | a tracker starts with empty tables, every key counter at 1, and nobody logged in |
| `Tracker.FitnessTracker.Register` | app.py:87-100 | the result is true iff the age fits a 64-bit INTEGER and the username is not taken. On success one row is added, with a fresh key, the username, the hash of the password and the profile. On failure `users` is unchanged. The session and the other tables are unchanged either way |
| `Tracker.FitnessTracker.Login` | app.py:102-117 | the result is true iff some user has this username and the hash of this password. The session then becomes that user. A failed login keeps any earlier session. No table changes |
| `Tracker.FitnessTracker.TrackActivity` | app.py:119-130 | the result is true iff the duration is non-zero. Then one activity is added, tagged with the session's user id (None included) and its pace. With a zero duration nothing is added |
| `Tracker.FitnessTracker.CreateWorkoutPlan` | app.py:132-142 | the result is true iff the duration fits a 64-bit INTEGER. Then one workout row is added, tagged with the session's user id; otherwise nothing is added. No other table changes |
| `Tracker.FitnessTracker.SetGoal` | app.py:144-154 | one goal row is added, tagged with the session's user id, and the result is true; no other table changes |
| `Tracker.FitnessTracker.ViewActivities` | app.py:156-165 | returns the session user's activities, each as often as it occurs, in no promised order. Every entry comes from an activity the user owns. With nobody logged in the result is empty |
| `Tracker.FitnessTracker.Logout` | app.py:167-168 | the session becomes None and nothing else changes |
| `Sessions.RegisterThenLogin` | app.py:87-112 | registering under a fresh username (with an age that fits a 64-bit INTEGER), then logging in with the same password, succeeds and makes the new user's key the session |
| `Sessions.RegisterTwice` | app.py:87-97 | a second registration under one username fails whatever its password, and `users` stays as the first call left it |
| `Sessions.NewUserListsNothing` | app.py:87-162 | a user who has just registered and logged in has an empty activity listing |
| `Sessions.WrongThenRightPassword` | app.py:102-114 | a wrong password is refused and the session stays None; the right one is then accepted and the session becomes the first user's key |
| `Sessions.TrackRunThenList` | app.py:119-162 | after a logged-in user records 5 km in 30 minutes, their listing gains that run at 10 km/h and keeps everything it listed before |
| `Sessions.TrackWhileLoggedOut` | app.py:119-127 | with nobody logged in, an activity is stored iff its duration is non-zero, with a NULL user id; a zero duration stores nothing; either way no user's listing changes |

## Left out

- The graphical front end (`FitnessTrackerApp`, app.py:174-368) is presentation only. Its `int()`/`float()` parsing of form fields is not modelled; the model takes the parsed values.
- The storage connection (connect, cursor, commit, close, the database file) is I/O, and so is the DROP/CREATE at startup. The tables are in-memory sequences that start empty. `close` is not modelled.
- The catch-all `except Exception` paths: a fault of the store (disk, locking, a closed connection) makes an operation print a message and return False (or an empty listing). Such faults are not modelled, so every operation's result depends only on the state and its arguments. The one failure of this kind that the arguments decide, an integer outside 64 bits, is modelled.
- `hash_password` calls SHA-256 from a library. It is modelled as an unknown deterministic function, and nothing about its output is used.
- Floating point: pace is computed over `real`. A duration so small that `duration / 60` underflows to 0.0 would also fail in the program; here every non-zero duration gives a pace.
- Tracker.FitnessTracker.ViewActivities: it does not promise that the rows come in insertion order, because the query has no `ORDER BY`.
- Foreign keys are declared but SQLite does not enforce them by default. The model proves that the tracker's own operations keep every stored user id NULL or the id of a registered user.
