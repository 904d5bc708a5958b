/** Sequences of calls on the tracker's service object, and what the
    operations' contracts promise about them taken together. */
module Sessions {
  import opened Rows
  import opened Tables
  import opened Tracker

  /** Registering under a fresh username and then logging in with the same
      password succeeds and makes the new user the session's user. */
  method RegisterThenLogin(t: FitnessTracker, username: string, password: string, age: int,
                           weight: real, height: real, fitnessGoals: string)
    returns (registered: bool, loggedIn: bool)
    requires t.Valid()
    modifies t
    ensures t.Valid()
    ensures registered <==> FitsInteger(age) && !UsernameTaken(old(t.users), username)
    ensures registered ==> loggedIn && t.currentUserId == Some(old(t.nextUserId))
    ensures t.activities == old(t.activities) && t.workouts == old(t.workouts) && t.goals == old(t.goals)
  {
    registered := t.Register(username, password, age, weight, height, fitnessGoals);
    ghost var row := UserRow(old(t.nextUserId), username, t.hash(password), age, weight, height, fitnessGoals);
    if registered {
      assert t.users[|t.users| - 1] == row;
      assert Credentials(t.users[|t.users| - 1], username, t.hash(password));
    }
    loggedIn := t.Login(username, password);
    if registered {
      assert t.currentUserId == Some(row.id);
    }
  }

  /** A second registration under the same username fails, whatever its
      password, and leaves the users table as the first one left it. */
  method RegisterTwice(t: FitnessTracker, username: string, password1: string, password2: string)
    returns (first: bool, second: bool)
    requires t.Valid()
    modifies t
    ensures t.Valid()
    ensures !second
    ensures first ==> t.users == old(t.users) + [UserRow(old(t.nextUserId), username, t.hash(password1), 30, 70.0, 1.75, "")]
    ensures !first ==> t.users == old(t.users)
  {
    first := t.Register(username, password1, 30, 70.0, 1.75, "");
    if first {
      assert t.users[|t.users| - 1].username == username;
    }
    second := t.Register(username, password2, 31, 71.0, 1.80, "");
  }

  /** A user who has just registered and logged in has no activities yet:
      every activity already recorded belongs to an older user or to none. */
  method NewUserListsNothing(t: FitnessTracker, username: string, password: string)
    returns (registered: bool, listing: seq<ActivityView>)
    requires t.Valid()
    modifies t
    ensures t.Valid()
    ensures registered <==> !UsernameTaken(old(t.users), username)
    ensures registered ==> listing == []
  {
    var loggedIn;
    registered, loggedIn := RegisterThenLogin(t, username, password, 30, 70.0, 1.75, "");
    listing := t.ViewActivities();
    if registered {
      var id := t.currentUserId.value;
      forall i | 0 <= i < |t.activities| ensures t.activities[i].userId != Some(id) {
        assert old(t.activities)[i] == t.activities[i];
        assert Attributed(old(t.users), old(t.activities)[i].userId);
      }
      NothingOwnedListsNothing(t.activities, t.currentUserId);
      assert |multiset(listing)| == 0;
    }
  }

  /** On a fresh tracker holding one registered user, a wrong password is
      refused and leaves nobody logged in; the right one is then accepted and
      makes that user, the first one registered, the session's user. */
  method WrongThenRightPassword(hash: string -> string)
    returns (wrongPassword: bool, sessionAfterWrong: Option<nat>,
             rightPassword: bool, sessionAfterRight: Option<nat>)
    requires hash("secret") != hash("guess")
    ensures !wrongPassword && sessionAfterWrong == None
    ensures rightPassword && sessionAfterRight == Some(1)
  {
    var t := new FitnessTracker(hash);
    var registered := t.Register("ann", "secret", 30, 60.0, 1.70, "5k");
    var ann := t.users[0];
    assert t.users == [ann] && ann.id == 1 && Credentials(ann, "ann", hash("secret"));
    wrongPassword := t.Login("ann", "guess");
    assert !Credentials(ann, "ann", hash("guess"));
    sessionAfterWrong := t.currentUserId;
    rightPassword := t.Login("ann", "secret");
    sessionAfterRight := t.currentUserId;
  }

  /** A logged-in user who records a 30-minute, 5 km run finds it in their
      listing at a pace of 10 km/h, beside everything listed before. */
  method TrackRunThenList(t: FitnessTracker) returns (before: seq<ActivityView>, after: seq<ActivityView>)
    requires t.Valid() && t.currentUserId.Some?
    modifies t
    ensures t.Valid()
    ensures multiset(after) == multiset(before) + multiset{ActivityView("running", 30.0, 5.0, 0.0, 10.0, "")}
  {
    before := t.ViewActivities();
    ghost var activities, uid := t.activities, t.currentUserId;
    var tracked := t.TrackActivity("running", 30.0, 5.0, 0.0, "");
    ghost var run := t.activities[|t.activities| - 1];
    assert t.activities == activities + [run] && Owns(uid, run);
    assert Pace(5.0, 30.0).value == 10.0;
    after := t.ViewActivities();
    ActivitiesOfInsert(activities, run, uid);
  }

  /** Nothing stops an activity from being recorded with nobody logged in;
      the row gets no user, and so appears in no user's listing. */
  method TrackWhileLoggedOut(t: FitnessTracker, activityType: string, duration: real, distance: real,
                             calories: real, heartRate: string) returns (ok: bool)
    requires t.Valid()
    modifies t
    ensures t.Valid()
    ensures t.currentUserId == None
    ensures ok <==> duration != 0.0
    ensures ok ==> |t.activities| == |old(t.activities)| + 1
    ensures ok ==> t.activities[|t.activities| - 1].userId == None
    ensures !ok ==> t.activities == old(t.activities)
    ensures forall userId :: ActivitiesOf(t.activities, userId) == ActivitiesOf(old(t.activities), userId)
  {
    t.Logout();
    ghost var activities := t.activities;
    ok := t.TrackActivity(activityType, duration, distance, calories, heartRate);
    forall userId ensures ActivitiesOf(t.activities, userId) == ActivitiesOf(activities, userId) {
      if ok {
        ActivitiesOfInsert(activities, t.activities[|t.activities| - 1], userId);
        assert t.activities == activities + [t.activities[|t.activities| - 1]];
      }
    }
  }
}
