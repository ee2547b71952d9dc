/**
  The rows of the tables the core reads and writes (the files under models/), reduced to the
  columns the modelled handlers look at. Nullable columns are `Option`s, since the
  handlers treat a missing value and a stored `0` alike through `||`.
 */
module Schema {
  import opened Js

  /** users.role */
  datatype Role = Student | Teacher | Admin | Parent

  /** student_progress.status; a new row defaults to `NotStarted`. */
  datatype ProgressStatus = NotStarted | InProgress | Completed

  /** class_enrollments.status; a new row defaults to `Active`. */
  datatype EnrollmentStatus = Active | Inactive | Completed | Dropped

  /** A row of `users`: `xp` defaults to 0 and `level` to 1 when the row is created. */
  datatype User = User(
    id: int,
    email: string,
    role: Role,
    firstName: Option<string>,
    lastName: Option<string>,
    xp: Option<int>,
    level: Option<int>)

  /** A row of `lessons`: `xp_reward` defaults to 10. */
  datatype Lesson = Lesson(moduleId: int, xpReward: Option<int>)

  /** A row of `student_progress`, keyed by (student_id, lesson_id); timestamps are integers. */
  datatype ProgressRecord = ProgressRecord(
    status: ProgressStatus,
    percentage: int,
    timeSpent: int,
    xpEarned: Option<int>,
    completedAt: Option<int>)

  /** A row of `classes`. */
  datatype ClassRow = ClassRow(teacherId: int, isActive: bool)

  /** The column defaults of `student_progress` (status, percentage, time spent, xp earned, completion time). */
  const DefaultProgress := ProgressRecord(NotStarted, 0, 0, Some(0), None)

  /** `users.xp` and `users.level` defaults. */
  const DefaultXp := 0
  const DefaultLevel := 1

  /** `lessons.xp_reward` default. */
  const DefaultLessonReward := 10

  /** `User.findByPk(id)`: the first row with that id, if any. */
  function FindUser(users: seq<User>, id: int): (r: Option<nat>)
    ensures r.Some? ==> r.value < |users| && users[r.value].id == id
    ensures r.Some? ==> forall j :: 0 <= j < r.value ==> users[j].id != id
    ensures r.None? ==> forall j :: 0 <= j < |users| ==> users[j].id != id
  {
    if users == [] then None
    else if users[0].id == id then Some(0)
    else
      match FindUser(users[1..], id)
      case None => None
      case Some(k) => Some(k + 1)
  }

  /** `User.findOne({ where: { email, role: 'student' } })`: the first such row, if any. */
  function FindStudentByEmail(users: seq<User>, email: string): (r: Option<nat>)
    ensures r.Some? ==> r.value < |users| && users[r.value].email == email && users[r.value].role == Student
    ensures r.None? ==> forall j :: 0 <= j < |users| ==> !(users[j].email == email && users[j].role == Student)
  {
    if users == [] then None
    else if users[0].email == email && users[0].role == Student then Some(0)
    else
      match FindStudentByEmail(users[1..], email)
      case None => None
      case Some(k) => Some(k + 1)
  }

  /** `User.findOne({ where: { id, role: 'student' } })`: the first such row, if any. */
  function FindStudentById(users: seq<User>, id: int): (r: Option<nat>)
    ensures r.Some? ==> r.value < |users| && users[r.value].id == id && users[r.value].role == Student
    ensures r.None? ==> forall j :: 0 <= j < |users| ==> !(users[j].id == id && users[j].role == Student)
  {
    if users == [] then None
    else if users[0].id == id && users[0].role == Student then Some(0)
    else
      match FindStudentById(users[1..], id)
      case None => None
      case Some(k) => Some(k + 1)
  }

  /** `Class.findOne({ where: { id, teacher_id } })` succeeds exactly when the class exists and is the teacher's. */
  predicate OwnsClass(classes: map<int, ClassRow>, classId: int, teacherId: int)
  {
    classId in classes && classes[classId].teacherId == teacherId
  }
}
