/** The tracker's service object: the four tables, their AUTOINCREMENT
    counters, and the single session field naming the logged-in user. Each
    operation answers with a boolean (or a listing) and changes only the
    table or field it is about. */
module Tracker {
  import opened Rows
  import opened Tables

  class FitnessTracker {
    /** The one-way password hash; deterministic, otherwise unknown. */
    const hash: string -> string

    var users: seq<UserRow>
    var activities: seq<ActivityRow>
    var workouts: seq<WorkoutRow>
    var goals: seq<GoalRow>

    // The key each table's next insertion receives.
    var nextUserId: nat
    var nextActivityId: nat
    var nextWorkoutId: nat
    var nextGoalId: nat

    /** The logged-in user's id, or None. */
    var currentUserId: Option<nat>

    /** The schema's constraints, and the session naming a registered user.
        Rows of the child tables name a registered user or none. */
    ghost predicate Valid()
      reads this
    {
      && AutoIncrement(users, UserId, nextUserId)
      && AutoIncrement(activities, ActivityId, nextActivityId)
      && AutoIncrement(workouts, WorkoutId, nextWorkoutId)
      && AutoIncrement(goals, GoalId, nextGoalId)
      && UniqueUsernames(users)
      && Attributed(users, currentUserId)
      && (forall i :: 0 <= i < |activities| ==> Attributed(users, activities[i].userId))
      && (forall i :: 0 <= i < |workouts| ==> Attributed(users, workouts[i].userId))
      && (forall i :: 0 <= i < |goals| ==> Attributed(users, goals[i].userId))
    }

    /** A tracker over freshly created, empty tables, with nobody logged in. */
    constructor (hash: string -> string)
      ensures Valid()
      ensures this.hash == hash
      ensures users == [] && activities == [] && workouts == [] && goals == []
      ensures nextUserId == 1 && nextActivityId == 1 && nextWorkoutId == 1 && nextGoalId == 1
      ensures currentUserId == None
    {
      this.hash := hash;
      users, activities, workouts, goals := [], [], [], [];
      nextUserId, nextActivityId, nextWorkoutId, nextGoalId := 1, 1, 1, 1;
      currentUserId := None;
    }

    /** Inserts a user holding the hash of `password`. A username already in
        use violates the UNIQUE constraint, and an age outside SQLite's 64-bit
        INTEGER range cannot be bound: either way the answer is false and
        `users` is unchanged. Registering does not log in. */
    method Register(username: string, password: string, age: int, weight: real, height: real,
                    fitnessGoals: string) returns (ok: bool)
      requires Valid()
      modifies this`users, this`nextUserId
      ensures Valid()
      ensures ok <==> FitsInteger(age) && !UsernameTaken(old(users), username)
      ensures ok ==> users == old(users) + [UserRow(old(nextUserId), username, hash(password),
                                                    age, weight, height, fitnessGoals)]
      ensures ok ==> forall r :: r in old(users) ==> r.id != old(nextUserId)
      ensures ok ==> nextUserId == old(nextUserId) + 1
      ensures !ok ==> users == old(users) && nextUserId == old(nextUserId)
    {
      if !FitsInteger(age) || UsernameTaken(users, username) {
        return false;
      }
      var row := UserRow(nextUserId, username, hash(password), age, weight, height, fitnessGoals);
      AutoIncrementInsert(users, UserId, nextUserId, row);
      UniqueUsernamesInsert(users, row);
      AttributedInsert(users, row, currentUserId);
      forall i | 0 <= i < |activities| ensures Attributed(users + [row], activities[i].userId) {
        AttributedInsert(users, row, activities[i].userId);
      }
      forall i | 0 <= i < |workouts| ensures Attributed(users + [row], workouts[i].userId) {
        AttributedInsert(users, row, workouts[i].userId);
      }
      forall i | 0 <= i < |goals| ensures Attributed(users + [row], goals[i].userId) {
        AttributedInsert(users, row, goals[i].userId);
      }
      users := users + [row];
      nextUserId := nextUserId + 1;
      ok := true;
    }

    /** Succeeds exactly when some user registered this username with this
        password, and then the session is that user. A failed login changes
        nothing: an earlier session stays as it was. */
    method Login(username: string, password: string) returns (ok: bool)
      requires Valid()
      modifies this`currentUserId
      ensures Valid()
      ensures ok <==> exists i :: 0 <= i < |users| && Credentials(users[i], username, hash(password))
      ensures forall i :: 0 <= i < |users| && Credentials(users[i], username, hash(password)) ==>
        currentUserId == Some(users[i].id)
      ensures !ok ==> currentUserId == old(currentUserId)
    {
      var found := FindCredentials(users, username, hash(password));
      if found.Some? {
        currentUserId := found;
        ok := true;
      } else {
        ok := false;
      }
      forall i | 0 <= i < |users| && Credentials(users[i], username, hash(password))
        ensures currentUserId == Some(users[i].id)
      {
        CredentialsDetermineUser(users, username, hash(password), i);
      }
    }

    /** Records an activity for the session's user (None when nobody is
        logged in: there is no guard) with its pace in km/h. A zero
        duration makes the pace division fail: the answer is false and
        nothing is recorded. */
    method TrackActivity(activityType: string, duration: real, distance: real, calories: real,
                         heartRate: string) returns (ok: bool)
      requires Valid()
      modifies this`activities, this`nextActivityId
      ensures Valid()
      ensures ok <==> duration != 0.0
      ensures ok ==> activities == old(activities) + [ActivityRow(old(nextActivityId), currentUserId,
        activityType, duration, distance, calories, Pace(distance, duration).value, heartRate)]
      ensures ok ==> nextActivityId == old(nextActivityId) + 1
      ensures !ok ==> activities == old(activities) && nextActivityId == old(nextActivityId)
    {
      var pace := Pace(distance, duration);
      if pace.None? {
        return false;
      }
      var row := ActivityRow(nextActivityId, currentUserId, activityType, duration, distance,
                             calories, pace.value, heartRate);
      AutoIncrementInsert(activities, ActivityId, nextActivityId, row);
      activities := activities + [row];
      nextActivityId := nextActivityId + 1;
      ok := true;
    }

    /** Records a workout plan for the session's user (or for none). A
        duration outside SQLite's 64-bit INTEGER range cannot be bound: the
        answer is false and nothing is recorded. */
    method CreateWorkoutPlan(workoutName: string, exercises: string, duration: int) returns (ok: bool)
      requires Valid()
      modifies this`workouts, this`nextWorkoutId
      ensures Valid()
      ensures ok <==> FitsInteger(duration)
      ensures ok ==> workouts == old(workouts) + [WorkoutRow(old(nextWorkoutId), currentUserId,
                                                             workoutName, exercises, duration)]
      ensures ok ==> nextWorkoutId == old(nextWorkoutId) + 1
      ensures !ok ==> workouts == old(workouts) && nextWorkoutId == old(nextWorkoutId)
    {
      if !FitsInteger(duration) {
        return false;
      }
      var row := WorkoutRow(nextWorkoutId, currentUserId, workoutName, exercises, duration);
      AutoIncrementInsert(workouts, WorkoutId, nextWorkoutId, row);
      workouts := workouts + [row];
      nextWorkoutId := nextWorkoutId + 1;
      ok := true;
    }

    /** Records a goal for the session's user (or for none). */
    method SetGoal(goalType: string, targetValue: string) returns (ok: bool)
      requires Valid()
      modifies this`goals, this`nextGoalId
      ensures Valid()
      ensures ok
      ensures goals == old(goals) + [GoalRow(old(nextGoalId), currentUserId, goalType, targetValue)]
      ensures nextGoalId == old(nextGoalId) + 1
    {
      var row := GoalRow(nextGoalId, currentUserId, goalType, targetValue);
      AutoIncrementInsert(goals, GoalId, nextGoalId, row);
      goals := goals + [row];
      nextGoalId := nextGoalId + 1;
      ok := true;
    }

    /** The session user's activities, in no promised order: each listed
        entry is the columns of an activity the user owns, and each such
        activity is listed as often as it occurs. With nobody logged in the
        listing is empty. */
    method ViewActivities() returns (rows: seq<ActivityView>)
      ensures multiset(rows) == multiset(ActivitiesOf(activities, currentUserId))
      ensures forall v :: v in rows <==>
        exists i :: 0 <= i < |activities| && Owns(currentUserId, activities[i]) && View(activities[i]) == v
      ensures currentUserId.None? ==> rows == []
    {
      rows := ActivitiesOf(activities, currentUserId);
    }

    /** Ends the session; no table changes. */
    method Logout()
      requires Valid()
      modifies this`currentUserId
      ensures Valid()
      ensures currentUserId == None
    {
      currentUserId := None;
    }
  }
}
