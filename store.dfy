/**
  The database, replaced by in-memory tables. Rows of `users` are kept in a
  sequence (lookups return the first match); the tables with a unique key are maps
  from that key: `student_progress` by (student_id, lesson_id) and
  `class_enrollments` by (class_id, student_id).
 */
module Store {
  import opened Js
  import opened Schema

  class Db {
    var users: seq<User>
    var lessons: map<int, Lesson>
    var progress: map<(int, int), ProgressRecord>
    var classes: map<int, ClassRow>
    var enrollments: map<(int, int), EnrollmentStatus>

    constructor (users0: seq<User>, lessons0: map<int, Lesson>, classes0: map<int, ClassRow>)
      ensures users == users0 && lessons == lessons0 && classes == classes0
      ensures progress == map[] && enrollments == map[]
    {
      users := users0;
      lessons := lessons0;
      classes := classes0;
      progress := map[];
      enrollments := map[];
    }
  }
}
