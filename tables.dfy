/** What the tracker's SQL statements compute, stated over the tables as
    sequences of rows in insertion order, and what the schema's constraints
    guarantee about those sequences. */
module Tables {
  import opened Rows

  // ---------------------------------------------------------------------
  // Schema constraints

  /** The primary keys of a table as SQLite's AUTOINCREMENT hands them out:
      positive, increasing in insertion order, and all below `next`, the key
      the next insertion will receive. */
  ghost predicate AutoIncrement<R>(rows: seq<R>, key: R -> nat, next: nat) {
    && 1 <= next
    && (forall i :: 0 <= i < |rows| ==> 1 <= key(rows[i]) < next)
    && (forall i, j :: 0 <= i < j < |rows| ==> key(rows[i]) < key(rows[j]))
  }

  /** `username TEXT UNIQUE`: no two rows of `users` share a username. */
  ghost predicate UniqueUsernames(users: seq<UserRow>) {
    forall i, j :: 0 <= i < j < |users| ==> users[i].username != users[j].username
  }

  /** Some row of `users` already has this username. */
  predicate UsernameTaken(users: seq<UserRow>, username: string) {
    exists i :: 0 <= i < |users| && users[i].username == username
  }

  /** `user_id REFERENCES users (id)`: the id is NULL or names a user. */
  ghost predicate Attributed(users: seq<UserRow>, userId: Option<nat>) {
    userId.Some? ==> exists i :: 0 <= i < |users| && users[i].id == userId.value
  }

  /** An INTEGER value SQLite can store: a signed 64-bit integer. A Python
      int outside this range cannot be bound to a statement parameter, so
      the statement fails before it runs. */
  predicate FitsInteger(x: int) {
    -0x8000_0000_0000_0000 <= x < 0x8000_0000_0000_0000
  }

  /** Inserting a row with key `next` keeps the keys AUTOINCREMENT-shaped,
      and that key differs from every key already in the table. */
  lemma AutoIncrementInsert<R>(rows: seq<R>, key: R -> nat, next: nat, row: R)
    requires AutoIncrement(rows, key, next)
    requires key(row) == next
    ensures AutoIncrement(rows + [row], key, next + 1)
    ensures forall r :: r in rows ==> key(r) != next
  {
    var rows' := rows + [row];
    forall i, j | 0 <= i < j < |rows'| ensures key(rows'[i]) < key(rows'[j]) {
      if j == |rows| {
        assert rows'[i] == rows[i];
      }
    }
  }

  /** A user id stays attributed when `users` gains a row. */
  lemma AttributedInsert(users: seq<UserRow>, row: UserRow, userId: Option<nat>)
    requires Attributed(users, userId)
    ensures Attributed(users + [row], userId)
  {
    if userId.Some? {
      var i :| 0 <= i < |users| && users[i].id == userId.value;
      assert (users + [row])[i] == users[i];
    }
  }

  /** Inserting a user whose username is not taken keeps usernames unique. */
  lemma {:induction false} UniqueUsernamesInsert(users: seq<UserRow>, row: UserRow)
    requires UniqueUsernames(users)
    requires !UsernameTaken(users, row.username)
    ensures UniqueUsernames(users + [row])
  {
    var users' := users + [row];
    forall i, j | 0 <= i < j < |users'| ensures users'[i].username != users'[j].username {
      if j == |users| {
        assert users'[i] == users[i];
      }
    }
  }

  // ---------------------------------------------------------------------
  // Login: SELECT id FROM users WHERE username = ? AND password = ?

  /** The row was registered under this username with this password hash. */
  predicate Credentials(row: UserRow, username: string, hashed: string) {
    row.username == username && row.password == hashed
  }

  /** The id a login query returns: that of a row whose username and stored
      hash both match, or None when no row does. */
  function FindCredentials(users: seq<UserRow>, username: string, hashed: string): (r: Option<nat>)
    ensures r.Some? <==> exists i :: 0 <= i < |users| && Credentials(users[i], username, hashed)
    ensures r.Some? ==>
      exists i :: 0 <= i < |users| && Credentials(users[i], username, hashed) && users[i].id == r.value
  {
    if users == [] then None
    else if Credentials(users[0], username, hashed) then Some(users[0].id)
    else
      var r := FindCredentials(users[1..], username, hashed);
      assert forall i :: 1 <= i < |users| ==> users[i] == users[1..][i - 1];
      r
  }

  /** With unique usernames at most one row matches a login, so the query
      returns the id of the one row holding these credentials. */
  lemma {:induction false} CredentialsDetermineUser(users: seq<UserRow>, username: string, hashed: string, i: nat)
    requires UniqueUsernames(users)
    requires i < |users| && Credentials(users[i], username, hashed)
    ensures FindCredentials(users, username, hashed) == Some(users[i].id)
  {
    if i > 0 {
      assert !Credentials(users[0], username, hashed);
      assert users[1..][i - 1] == users[i];
      CredentialsDetermineUser(users[1..], username, hashed, i - 1);
    }
  }

  /** Registering a user does not change what a login under another
      username finds. */
  lemma {:induction false} InsertKeepsOtherLogins(users: seq<UserRow>, row: UserRow, username: string, hashed: string)
    requires row.username != username
    ensures FindCredentials(users + [row], username, hashed) == FindCredentials(users, username, hashed)
  {
    if users == [] {
      assert [row][1..] == [];
    } else {
      assert (users + [row])[1..] == users[1..] + [row];
      InsertKeepsOtherLogins(users[1..], row, username, hashed);
    }
  }

  /** Once a fresh username is registered, logging in with the same username
      and password hash finds exactly the new row. */
  lemma RegisterThenLoginFinds(users: seq<UserRow>, row: UserRow)
    requires UniqueUsernames(users)
    requires !UsernameTaken(users, row.username)
    ensures FindCredentials(users + [row], row.username, row.password) == Some(row.id)
  {
    UniqueUsernamesInsert(users, row);
    CredentialsDetermineUser(users + [row], row.username, row.password, |users|);
  }

  // ---------------------------------------------------------------------
  // Activities: pace, and SELECT ... FROM activities WHERE user_id = ?

  /** `distance / (duration / 60)`: the average speed in km/h of `distance`
      km covered in `duration` minutes. A zero duration makes the division
      fail, which is None here. */
  function Pace(distance: real, duration: real): (r: Option<real>)
    ensures r.Some? <==> duration != 0.0
    ensures r.Some? ==> r.value * duration == 60.0 * distance
  {
    if duration == 0.0 then None else Some(distance / (duration / 60.0))
  }

  /** `user_id = ?` with the session's id bound: SQL's NULL equals nothing,
      so with no session no row matches, not even one whose user is NULL. */
  predicate Owns(userId: Option<nat>, a: ActivityRow) {
    userId.Some? && a.userId == userId
  }

  /** The columns the listing selects from an activity row. */
  function View(a: ActivityRow): ActivityView {
    ActivityView(a.activityType, a.duration, a.distance, a.calories, a.pace, a.heartRate)
  }

  /** The listing of a user's activities, in insertion order: every row the
      user owns, and nothing else, projected to the listed columns. */
  function ActivitiesOf(activities: seq<ActivityRow>, userId: Option<nat>): (r: seq<ActivityView>)
    ensures |r| <= |activities|
    ensures userId.None? ==> r == []
    ensures forall v :: v in r <==>
      exists i :: 0 <= i < |activities| && Owns(userId, activities[i]) && View(activities[i]) == v
  {
    if activities == [] then []
    else
      var n := |activities| - 1;
      var earlier := ActivitiesOf(activities[..n], userId);
      assert forall i :: 0 <= i < n ==> activities[..n][i] == activities[i];
      earlier + if Owns(userId, activities[n]) then [View(activities[n])] else []
  }

  /** A user who owns no activity gets an empty listing. */
  lemma {:induction false} NothingOwnedListsNothing(activities: seq<ActivityRow>, userId: Option<nat>)
    requires forall i :: 0 <= i < |activities| ==> !Owns(userId, activities[i])
    ensures ActivitiesOf(activities, userId) == []
  {
    if activities != [] {
      var n := |activities| - 1;
      assert forall i :: 0 <= i < n ==> activities[..n][i] == activities[i];
      NothingOwnedListsNothing(activities[..n], userId);
    }
  }

  /** Logging an activity adds it at the end of its owner's listing and
      leaves every other listing as it was. */
  lemma ActivitiesOfInsert(activities: seq<ActivityRow>, a: ActivityRow, userId: Option<nat>)
    ensures ActivitiesOf(activities + [a], userId) ==
      ActivitiesOf(activities, userId) + if Owns(userId, a) then [View(a)] else []
  {
    assert (activities + [a])[..|activities|] == activities;
  }
}
