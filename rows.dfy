/** The rows of the four tables the fitness tracker keeps, with the columns
    its schema declares. Every table has an integer primary key handed out by
    AUTOINCREMENT; the child tables point at `users` through a nullable
    `user_id` column. */
module Rows {

  datatype Option<T> = None | Some(value: T)

  /** A row of `users`. `password` holds the hash of the password the user
      registered with, never the password itself. */
  datatype UserRow = UserRow(
    id: nat,
    username: string,
    password: string,
    age: int,
    weight: real,
    height: real,
    fitnessGoals: string)

  /** A row of `activities`. `userId` is the session's user at the time the
      row was written, and None when nobody was logged in. */
  datatype ActivityRow = ActivityRow(
    id: nat,
    userId: Option<nat>,
    activityType: string,
    duration: real,
    distance: real,
    calories: real,
    pace: real,
    heartRate: string)

  /** A row of `workouts`. */
  datatype WorkoutRow = WorkoutRow(
    id: nat,
    userId: Option<nat>,
    workoutName: string,
    exercises: string,
    duration: int)

  /** A row of `goals`. */
  datatype GoalRow = GoalRow(
    id: nat,
    userId: Option<nat>,
    goalType: string,
    targetValue: string)

  /** The columns of an activity that the activity listing reports: every
      column except the row's own id and its user id. */
  datatype ActivityView = ActivityView(
    activityType: string,
    duration: real,
    distance: real,
    calories: real,
    pace: real,
    heartRate: string)

  // Primary-key selectors, used as function values by the id invariant.
  function UserId(r: UserRow): nat { r.id }
  function ActivityId(r: ActivityRow): nat { r.id }
  function WorkoutId(r: WorkoutRow): nat { r.id }
  function GoalId(r: GoalRow): nat { r.id }
}
