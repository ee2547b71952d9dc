/**
  Progress aggregation in controllers/TeacherController.js: the per-course grouping
  that `viewStudentProgress` and `viewStudentDetails` build with a loop, the course
  and student views computed from it, the recent-activity list, and the per-student
  and class-wide statistics of `trackProgress`.

  A student's progress rows arrive joined with their lesson; `course` is the id at the
  end of the lesson, module, course chain, or `None` when a link of the chain is missing.
  Counting functions are defined from the last row backwards so that they follow the
  loops that fold over the rows from the first.
 */
module Aggregation {
  import opened Js
  import opened Schema
  import opened Enrollment

  /** A `student_progress` row as the aggregating handlers see it. */
  datatype ProgressRow = ProgressRow(
    status: ProgressStatus,
    xpEarned: Option<int>,
    timeSpent: Option<int>,
    completedAt: Option<int>,
    course: Option<int>)

  predicate IsDone(r: ProgressRow)
  {
    r.status == ProgressStatus.Completed
  }

  /** `rows.filter(p => p.status === 'completed').length` */
  function CountDone(rows: seq<ProgressRow>): (n: nat)
    ensures n <= |rows|
  {
    if rows == [] then 0
    else CountDone(rows[..|rows| - 1]) + (if IsDone(rows[|rows| - 1]) then 1 else 0)
  }

  /** `rows.reduce((sum, p) => sum + (p.xp_earned || 0), 0)` */
  function XpTotal(rows: seq<ProgressRow>): int
  {
    if rows == [] then 0
    else XpTotal(rows[..|rows| - 1]) + IntOr(rows[|rows| - 1].xpEarned, 0)
  }

  /** The XP of the completed rows only. */
  function DoneXp(rows: seq<ProgressRow>): int
  {
    if rows == [] then 0
    else DoneXp(rows[..|rows| - 1]) + (if IsDone(rows[|rows| - 1]) then IntOr(rows[|rows| - 1].xpEarned, 0) else 0)
  }

  /** `rows.reduce((sum, p) => sum + (p.time_spent || 0), 0)` */
  function TimeTotal(rows: seq<ProgressRow>): int
  {
    if rows == [] then 0
    else TimeTotal(rows[..|rows| - 1]) + IntOr(rows[|rows| - 1].timeSpent, 0)
  }

  /** The rows of one course, in order: a reference definition of a course group. */
  function CourseRows(rows: seq<ProgressRow>, c: int): (s: seq<ProgressRow>)
    ensures |s| <= |rows|
    ensures forall i :: 0 <= i < |s| ==> s[i].course == Some(c) && s[i] in rows
    ensures forall j :: 0 <= j < |rows| && rows[j].course == Some(c) ==> rows[j] in s
  {
    if rows == [] then []
    else CourseRows(rows[..|rows| - 1], c) + (if rows[|rows| - 1].course == Some(c) then [rows[|rows| - 1]] else [])
  }

  /** Every row is completed exactly when the completed count is the row count. */
  lemma {:induction false} CountDoneAll(rows: seq<ProgressRow>)
    ensures CountDone(rows) == |rows| <==> forall i :: 0 <= i < |rows| ==> IsDone(rows[i])
  {
    if rows != [] {
      var init := rows[..|rows| - 1];
      CountDoneAll(init);
      assert forall i :: 0 <= i < |init| ==> rows[i] == init[i];
    }
  }

  /** What one course group holds: rows touched, rows completed, XP of the completed rows. */
  datatype Tally = Tally(touched: nat, done: nat, xp: int)

  const NoTally := Tally(0, 0, 0)

  type Groups = map<int, Tally>

  /** One step of the grouping loop: a row without a course is skipped. */
  function AddRow(g: Groups, r: ProgressRow): Groups
  {
    match r.course
    case None => g
    case Some(c) =>
      var t := if c in g then g[c] else NoTally;
      g[c := Tally(t.touched + 1,
                   t.done + (if IsDone(r) then 1 else 0),
                   t.xp + (if IsDone(r) then IntOr(r.xpEarned, 0) else 0))]
  }

  /** The `courseProgress` / `courseStats` dictionary after the whole `forEach`. */
  function Group(rows: seq<ProgressRow>): Groups
  {
    if rows == [] then map[] else AddRow(Group(rows[..|rows| - 1]), rows[|rows| - 1])
  }

  /**
    The grouping loop of `viewStudentProgress` (and, without the XP, of
    `viewStudentDetails`): a group is created on the first row of a course, every row of
    it counts as touched, and completed rows add to the completed count and the XP.
   */
  method GroupByCourse(rows: seq<ProgressRow>) returns (g: Groups)
    ensures g == Group(rows)
  {
    g := map[];
    var i := 0;
    while i < |rows|
      invariant 0 <= i <= |rows|
      invariant g == Group(rows[..i])
    {
      assert rows[..i + 1][..i] == rows[..i];
      var r := rows[i];
      if r.course.Some? {
        var c := r.course.value;
        if c !in g {
          g := g[c := NoTally];
        }
        var t := g[c];
        t := t.(touched := t.touched + 1);
        if IsDone(r) {
          t := t.(done := t.done + 1, xp := t.xp + IntOr(r.xpEarned, 0));
        }
        g := g[c := t];
      }
      i := i + 1;
    }
    assert rows[..|rows|] == rows;
  }

  lemma TallySnoc(s: seq<ProgressRow>, r: ProgressRow)
    ensures CountDone(s + [r]) == CountDone(s) + (if IsDone(r) then 1 else 0)
    ensures DoneXp(s + [r]) == DoneXp(s) + (if IsDone(r) then IntOr(r.xpEarned, 0) else 0)
  {
    assert (s + [r])[..|s|] == s;
  }

  /**
    A course has a group exactly when some row reaches it, and its group counts that
    course's rows, its completed rows and their XP: rows without a course are skipped.
   */
  lemma {:induction false} GroupMatchesCourseRows(rows: seq<ProgressRow>, c: int)
    ensures c in Group(rows) <==> |CourseRows(rows, c)| > 0
    ensures c in Group(rows) ==>
      Group(rows)[c] == Tally(|CourseRows(rows, c)|, CountDone(CourseRows(rows, c)), DoneXp(CourseRows(rows, c)))
  {
    if rows != [] {
      var init, last := rows[..|rows| - 1], rows[|rows| - 1];
      GroupMatchesCourseRows(init, c);
      var s := CourseRows(init, c);
      if last.course == Some(c) {
        assert CourseRows(rows, c) == s + [last];
        TallySnoc(s, last);
      } else {
        assert CourseRows(rows, c) == s;
      }
    }
  }

  /** Every group has touched at least one row and completed at most the rows it touched. */
  lemma GroupTallyBounds(rows: seq<ProgressRow>, c: int)
    requires c in Group(rows)
    ensures 1 <= Group(rows)[c].touched
    ensures Group(rows)[c].done <= Group(rows)[c].touched
  {
    GroupMatchesCourseRows(rows, c);
  }

  /** A course entry of `viewStudentProgress`. */
  datatype CourseView = CourseView(progress: int, xpEarned: int, completed: bool)

  function ViewCourse(t: Tally): CourseView
  {
    CourseView(Percent(t.done, t.touched), t.xp, t.done == t.touched)
  }

  function CourseViews(g: Groups): map<int, CourseView>
  {
    map c | c in g :: ViewCourse(g[c])
  }

  /**
    A course is shown completed exactly when every lesson of it the student touched is
    completed; its progress is between 0 and 100 (100 when completed) and its XP is that of
    its completed rows.
   */
  lemma CourseViewMeaning(rows: seq<ProgressRow>, c: int)
    requires c in Group(rows)
    ensures var v := CourseViews(Group(rows))[c];
      var s := CourseRows(rows, c);
      && (v.completed <==> forall i :: 0 <= i < |s| ==> IsDone(s[i]))
      && 0 <= v.progress <= 100
      && (v.completed ==> v.progress == 100)
      && v.xpEarned == DoneXp(s)
  {
    GroupMatchesCourseRows(rows, c);
    CountDoneAll(CourseRows(rows, c));
    var t := Group(rows)[c];
    PercentBounds(t.done, t.touched);
  }

  /** Why a teacher's view of a student is refused: the error message and redirect the handler sets. */
  datatype ViewError = ClassNotFound | StudentNotInClass | StudentNotFound

  datatype Outcome<T> = Shown(view: T) | Refused(error: ViewError)

  // ---------------------------------------------------------------- recent activity

  /** The completion time of a row (rows without one are filtered out before it is read). */
  function When(r: ProgressRow): int
  {
    match r.completedAt
    case Some(t) => t
    case None => 0
  }

  /** `rows.filter(p => p.completed_at)` */
  function Completions(rows: seq<ProgressRow>): (s: seq<ProgressRow>)
    ensures forall i :: 0 <= i < |s| ==> s[i].completedAt.Some?
    ensures multiset(s) <= multiset(rows)
    ensures forall x :: x in rows && x.completedAt.Some? ==> x in s
  {
    if rows == [] then []
    else
      var init, last := rows[..|rows| - 1], rows[|rows| - 1];
      assert rows == init + [last];
      Completions(init) + (if last.completedAt.Some? then [last] else [])
  }

  /** Newest first: the order `sort((a, b) => b.completed_at - a.completed_at)` establishes. */
  predicate NewestFirst(s: seq<ProgressRow>)
  {
    forall i, j :: 0 <= i < j < |s| ==> When(s[j]) <= When(s[i])
  }

  /** Inserts `x` before the first row that is not newer than it. */
  function InsertByDate(x: ProgressRow, s: seq<ProgressRow>): seq<ProgressRow>
  {
    if s == [] then [x]
    else if When(s[0]) <= When(x) then [x] + s
    else [s[0]] + InsertByDate(x, s[1..])
  }

  function SortByDate(s: seq<ProgressRow>): seq<ProgressRow>
  {
    if s == [] then [] else InsertByDate(s[0], SortByDate(s[1..]))
  }

  /** A row no older than every row of a newest-first sequence can head it. */
  lemma ConsNewestFirst(h: ProgressRow, t: seq<ProgressRow>)
    requires NewestFirst(t)
    requires forall k :: 0 <= k < |t| ==> When(t[k]) <= When(h)
    ensures NewestFirst([h] + t)
  {
    var s := [h] + t;
    forall i, j | 0 <= i < j < |s|
      ensures When(s[j]) <= When(s[i])
    {
      assert s[j] == t[j - 1];
      if i > 0 {
        assert s[i] == t[i - 1];
      }
    }
  }

  lemma {:induction false} InsertByDateMultiset(x: ProgressRow, s: seq<ProgressRow>)
    ensures multiset(InsertByDate(x, s)) == multiset(s) + multiset{x}
  {
    if s != [] && When(x) < When(s[0]) {
      InsertByDateMultiset(x, s[1..]);
      assert s == [s[0]] + s[1..];
    }
  }

  lemma {:induction false} InsertByDateKeepsOrder(x: ProgressRow, s: seq<ProgressRow>)
    requires NewestFirst(s)
    ensures NewestFirst(InsertByDate(x, s))
  {
    if s == [] {
    } else if When(s[0]) <= When(x) {
      ConsNewestFirst(x, s);
    } else {
      var tail := s[1..];
      var rest := InsertByDate(x, tail);
      InsertByDateKeepsOrder(x, tail);
      InsertByDateMultiset(x, tail);
      forall k | 0 <= k < |rest|
        ensures When(rest[k]) <= When(s[0])
      {
        assert rest[k] in multiset(tail) + multiset{x};
        if rest[k] != x {
          assert rest[k] in tail;
        }
      }
      ConsNewestFirst(s[0], rest);
    }
  }

  lemma {:induction false} SortByDateOrders(s: seq<ProgressRow>)
    ensures NewestFirst(SortByDate(s))
  {
    if s != [] {
      SortByDateOrders(s[1..]);
      InsertByDateKeepsOrder(s[0], SortByDate(s[1..]));
    }
  }

  lemma {:induction false} SortByDatePermutes(s: seq<ProgressRow>)
    ensures multiset(SortByDate(s)) == multiset(s)
  {
    if s != [] {
      SortByDatePermutes(s[1..]);
      InsertByDateMultiset(s[0], SortByDate(s[1..]));
      assert s == [s[0]] + s[1..];
    }
  }

  /** The sort puts the rows newest first and neither drops nor duplicates any. */
  lemma SortByDateSorts(s: seq<ProgressRow>)
    ensures NewestFirst(SortByDate(s))
    ensures multiset(SortByDate(s)) == multiset(s)
  {
    SortByDateOrders(s);
    SortByDatePermutes(s);
  }

  const RecentLimit := 5

  /** `recent_activity`: the completed rows, newest first, at most five of them. */
  function RecentActivity(rows: seq<ProgressRow>): seq<ProgressRow>
  {
    var sorted := SortByDate(Completions(rows));
    if |sorted| <= RecentLimit then sorted else sorted[..RecentLimit]
  }

  /**
    The recent activity holds at most five rows, each with a completion time and each one of the
    student's rows, newest first; it holds five whenever at least five rows were completed, and
    every completed row left out is no newer than every row shown.
   */
  lemma RecentActivityIsNewestFive(rows: seq<ProgressRow>)
    ensures var r := RecentActivity(rows);
      && |r| <= RecentLimit
      && |r| == (if |Completions(rows)| < RecentLimit then |Completions(rows)| else RecentLimit)
      && NewestFirst(r)
      && (forall i :: 0 <= i < |r| ==> r[i].completedAt.Some? && r[i] in rows)
      && var sorted := SortByDate(Completions(rows));
         && multiset(sorted) == multiset(Completions(rows))
         && sorted[..|r|] == r
         && (forall i, j :: 0 <= i < |r| <= j < |sorted| ==> When(sorted[j]) <= When(r[i]))
  {
    var c := Completions(rows);
    var sorted := SortByDate(c);
    SortByDateSorts(c);
    var r := RecentActivity(rows);
    assert |sorted| == |c| by {
      assert |multiset(sorted)| == |multiset(c)|;
    }
    var n := |r|;
    assert r == sorted[..n];
    forall i | 0 <= i < n
      ensures r[i].completedAt.Some? && r[i] in rows
    {
      assert r[i] == sorted[i];
      assert sorted[i] in multiset(c);
      assert sorted[i] in c;
    }
    PrefixOfNewestFirst(sorted, n);
  }

  /** A prefix of a newest-first sequence is newest first, and no later row is newer than a row of it. */
  lemma PrefixOfNewestFirst(s: seq<ProgressRow>, n: nat)
    requires NewestFirst(s) && n <= |s|
    ensures NewestFirst(s[..n])
    ensures forall i, j :: 0 <= i < n <= j < |s| ==> When(s[j]) <= When(s[..n][i])
  {
  }

  // ---------------------------------------------------------------- viewStudentProgress

  /** The `progress` object `viewStudentProgress` renders. */
  datatype ProgressView = ProgressView(
    overallProgress: int,
    totalXp: int,
    level: int,
    lessonsCompleted: nat,
    totalLessons: nat,
    courses: map<int, CourseView>,
    recentActivity: seq<ProgressRow>)

  /** The view of one student from their stored row and their progress rows. */
  function ViewProgress(student: User, rows: seq<ProgressRow>): ProgressView
  {
    var done := CountDone(rows);
    ProgressView(
      if done > 0 then Percent(done, |rows|) else 0,
      IntOr(student.xp, XpTotal(rows)),
      IntOr(student.level, DefaultLevel),
      done,
      |rows|,
      CourseViews(Group(rows)),
      RecentActivity(rows))
  }

  /**
    `viewStudentProgress`: the class must be the teacher's, the student must hold an active
    enrollment in it, and a user with that id and role student must exist. `rows` are that
    student's progress rows.
   */
  function ViewStudentProgressSpec(classes: map<int, ClassRow>, enrollments: EnrollmentTable, users: seq<User>,
                                   teacherId: int, classId: int, studentId: int,
                                   rows: seq<ProgressRow>): Outcome<ProgressView>
  {
    if !OwnsClass(classes, classId, teacherId) then Refused(ClassNotFound)
    else if !IsActiveMember(enrollments, classId, studentId) then Refused(StudentNotInClass)
    else
      match FindStudentById(users, studentId)
      case None => Refused(StudentNotFound)
      case Some(i) => Shown(ViewProgress(users[i], rows))
  }

  /** The view is shown exactly when the class is the teacher's, the enrollment is active and the student exists. */
  lemma ViewStudentProgressGates(classes: map<int, ClassRow>, enrollments: EnrollmentTable, users: seq<User>,
                                 teacherId: int, classId: int, studentId: int, rows: seq<ProgressRow>)
    ensures ViewStudentProgressSpec(classes, enrollments, users, teacherId, classId, studentId, rows).Shown? <==>
      && OwnsClass(classes, classId, teacherId)
      && IsActiveMember(enrollments, classId, studentId)
      && exists j :: 0 <= j < |users| && users[j].id == studentId && users[j].role == Student
  {
    var found := FindStudentById(users, studentId);
    if found.Some? {
      var j := found.value;
      assert users[j].id == studentId && users[j].role == Student;
    }
  }

  /**
    The overall progress lies in 0..100, is 0 when nothing is completed and 100 when every
    row is; the completed count never exceeds the row count.
   */
  lemma OverallProgressBounds(student: User, rows: seq<ProgressRow>)
    ensures var v := ViewProgress(student, rows);
      && 0 <= v.overallProgress <= 100
      && v.lessonsCompleted <= v.totalLessons
      && (v.lessonsCompleted == 0 ==> v.overallProgress == 0)
      && (rows != [] && (forall i :: 0 <= i < |rows| ==> IsDone(rows[i])) ==> v.overallProgress == 100)
  {
    CountDoneAll(rows);
    PercentBounds(CountDone(rows), |rows|);
  }

  // ---------------------------------------------------------------- viewStudentDetails

  /** The courses counted as completed: every touched lesson completed. */
  function CompletedCourses(g: Groups): set<int>
  {
    set c | c in g && g[c].done == g[c].touched
  }

  /** The courses counted as in progress: some, but not all, touched lessons completed. */
  function CoursesInProgress(g: Groups): set<int>
  {
    set c | c in g && 0 < g[c].done < g[c].touched
  }

  /** The `stats` object `viewStudentDetails` renders; `hoursSpent` precedes the " hours" suffix. */
  datatype DetailStats = DetailStats(totalXp: int, level: int, coursesCompleted: nat, coursesInProgress: nat, hoursSpent: int)

  function DetailStatsOf(student: User, rows: seq<ProgressRow>): DetailStats
  {
    var g := Group(rows);
    DetailStats(
      IntOr(student.xp, DefaultXp),
      IntOr(student.level, DefaultLevel),
      |CompletedCourses(g)|,
      |CoursesInProgress(g)|,
      RoundRatio(TimeTotal(rows), 3600))
  }

  /**
    `viewStudentDetails`: the class must be the teacher's and an enrollment row for the pair
    must exist in any status, joined with its user (of any role); both failures of the second
    kind give the same message.
   */
  function ViewStudentDetailsSpec(classes: map<int, ClassRow>, enrollments: EnrollmentTable, users: seq<User>,
                                  teacherId: int, classId: int, studentId: int,
                                  rows: seq<ProgressRow>): Outcome<DetailStats>
  {
    if !OwnsClass(classes, classId, teacherId) then Refused(ClassNotFound)
    else if (classId, studentId) !in enrollments then Refused(StudentNotInClass)
    else
      match FindUser(users, studentId)
      case None => Refused(StudentNotInClass)
      case Some(i) => Shown(DetailStatsOf(users[i], rows))
  }

  /**
    Completed and in-progress courses are disjoint and together number at most the course
    groups; every other group is a course none of whose touched lessons is completed.
   */
  lemma CourseCountsPartition(rows: seq<ProgressRow>)
    ensures var g := Group(rows);
      && CompletedCourses(g) !! CoursesInProgress(g)
      && |CompletedCourses(g)| + |CoursesInProgress(g)| <= |g|
      && forall c :: c in g && c !in CompletedCourses(g) && c !in CoursesInProgress(g) ==>
           g[c].done == 0 && CountDone(CourseRows(rows, c)) == 0
  {
    var g := Group(rows);
    var both := CompletedCourses(g) + CoursesInProgress(g);
    assert both <= g.Keys;
    assert |both| == |CompletedCourses(g)| + |CoursesInProgress(g)|;
    SubsetCard(both, g.Keys);
    forall c | c in g && c !in CompletedCourses(g) && c !in CoursesInProgress(g)
      ensures g[c].done == 0 && CountDone(CourseRows(rows, c)) == 0
    {
      GroupMatchesCourseRows(rows, c);
    }
  }

  lemma SubsetCard<T>(a: set<T>, b: set<T>)
    requires a <= b
    ensures |a| <= |b|
  {
    assert b == a + (b - a);
  }

  /**
    Unlike the progress page, the details page accepts an enrollment in any status: a dropped
    student's details are shown while their progress page is refused.
   */
  lemma DetailsAcceptAnyEnrollment(classes: map<int, ClassRow>, enrollments: EnrollmentTable, users: seq<User>,
                                   teacherId: int, classId: int, studentId: int, rows: seq<ProgressRow>)
    requires OwnsClass(classes, classId, teacherId)
    requires (classId, studentId) in enrollments && enrollments[(classId, studentId)] == Dropped
    requires FindStudentById(users, studentId).Some?
    ensures ViewStudentProgressSpec(classes, enrollments, users, teacherId, classId, studentId, rows) == Refused(StudentNotInClass)
    ensures ViewStudentDetailsSpec(classes, enrollments, users, teacherId, classId, studentId, rows).Shown?
  {
    var j := FindStudentById(users, studentId).value;
    assert users[j].id == studentId;
  }

  // ---------------------------------------------------------------- trackProgress

  /** A user with their progress rows, as the class query joins them. */
  datatype Member = Member(student: User, rows: seq<ProgressRow>)

  /** A student entry of `trackProgress`. */
  datatype StudentSummary = StudentSummary(id: int, progress: int, xp: int, level: int, lessonsCompleted: nat, totalLessons: nat)

  function Summarize(m: Member): StudentSummary
  {
    var done := CountDone(m.rows);
    StudentSummary(m.student.id, Percent(done, |m.rows|), IntOr(m.student.xp, XpTotal(m.rows)),
                   IntOr(m.student.level, DefaultLevel), done, |m.rows|)
  }

  /** The class's students: those of `candidates` holding an active enrollment in it. */
  function ActiveMembers(enrollments: EnrollmentTable, classId: int, candidates: seq<Member>): (ms: seq<Member>)
    ensures |ms| <= |candidates|
    ensures forall i :: 0 <= i < |ms| ==> IsActiveMember(enrollments, classId, ms[i].student.id)
    ensures forall i :: 0 <= i < |ms| ==> ms[i] in candidates
    ensures forall j :: 0 <= j < |candidates| && IsActiveMember(enrollments, classId, candidates[j].student.id) ==>
      candidates[j] in ms
  {
    if candidates == [] then []
    else
      var init, last := candidates[..|candidates| - 1], candidates[|candidates| - 1];
      ActiveMembers(enrollments, classId, init) +
        (if IsActiveMember(enrollments, classId, last.student.id) then [last] else [])
  }

  function Summaries(ms: seq<Member>): (ss: seq<StudentSummary>)
    ensures |ss| == |ms|
    ensures forall i :: 0 <= i < |ss| ==> ss[i] == Summarize(ms[i])
  {
    if ms == [] then [] else Summaries(ms[..|ms| - 1]) + [Summarize(ms[|ms| - 1])]
  }

  function SumProgress(ss: seq<StudentSummary>): int
  {
    if ss == [] then 0 else SumProgress(ss[..|ss| - 1]) + ss[|ss| - 1].progress
  }

  function SumCompleted(ss: seq<StudentSummary>): int
  {
    if ss == [] then 0 else SumCompleted(ss[..|ss| - 1]) + ss[|ss| - 1].lessonsCompleted
  }

  /** `classStats` of `trackProgress`. */
  datatype ClassStats = ClassStats(totalStudents: nat, averageProgress: int, totalLessonsCompleted: int, activeThisWeek: nat)

  function ClassStatsOf(ss: seq<StudentSummary>): ClassStats
  {
    ClassStats(|ss|, if |ss| > 0 then RoundRatio(SumProgress(ss), |ss|) else 0, SumCompleted(ss), |ss|)
  }

  /** `trackProgress`: refused unless the class is the teacher's; otherwise its active students and the class statistics. */
  function TrackProgressSpec(classes: map<int, ClassRow>, enrollments: EnrollmentTable, teacherId: int, classId: int,
                             candidates: seq<Member>): Outcome<(seq<StudentSummary>, ClassStats)>
  {
    if !OwnsClass(classes, classId, teacherId) then Refused(ClassNotFound)
    else
      var ss := Summaries(ActiveMembers(enrollments, classId, candidates));
      Shown((ss, ClassStatsOf(ss)))
  }

  /**
    A student's progress is the rounded share of completed rows, in 0..100, 0 without rows, 100
    when all rows are completed.
   */
  lemma SummaryProgressBounds(m: Member)
    ensures var s := Summarize(m);
      && 0 <= s.progress <= 100
      && s.lessonsCompleted <= s.totalLessons
      && (s.totalLessons == 0 ==> s.progress == 0)
      && (s.totalLessons > 0 && s.lessonsCompleted == s.totalLessons ==> s.progress == 100)
      && (s.lessonsCompleted == 0 ==> s.progress == 0)
  {
    PercentBounds(CountDone(m.rows), |m.rows|);
  }

  lemma {:induction false} SumProgressWithin(ss: seq<StudentSummary>, lo: int, hi: int)
    requires forall i :: 0 <= i < |ss| ==> lo <= ss[i].progress <= hi
    ensures lo * |ss| <= SumProgress(ss) <= hi * |ss|
  {
    if ss != [] {
      var init := ss[..|ss| - 1];
      assert forall i :: 0 <= i < |init| ==> init[i] == ss[i];
      SumProgressWithin(init, lo, hi);
      assert lo * |ss| == lo * |init| + lo;
      assert hi * |ss| == hi * |init| + hi;
    }
  }

  /**
    The class average lies between the lowest and highest student progress it averages (so in
    0..100); it is 0 for a class without active students.
   */
  lemma AverageWithin(ss: seq<StudentSummary>, lo: int, hi: int)
    requires forall i :: 0 <= i < |ss| ==> lo <= ss[i].progress <= hi
    ensures ss == [] ==> ClassStatsOf(ss).averageProgress == 0
    ensures ss != [] ==> lo <= ClassStatsOf(ss).averageProgress <= hi
  {
    if ss != [] {
      SumProgressWithin(ss, lo, hi);
      RoundBounds(SumProgress(ss), |ss|, lo, hi);
    }
  }

  /** Every summary listed is that of a candidate. */
  lemma SummariesFromCandidates(ms: seq<Member>, candidates: seq<Member>)
    requires forall i :: 0 <= i < |ms| ==> ms[i] in candidates
    ensures forall i :: 0 <= i < |ms| ==> Summaries(ms)[i] in Summaries(candidates)
  {
    forall i | 0 <= i < |ms|
      ensures Summaries(ms)[i] in Summaries(candidates)
    {
      var j :| 0 <= j < |candidates| && candidates[j] == ms[i];
      assert Summaries(candidates)[j] == Summaries(ms)[i];
    }
  }

  /** Every candidate listed has its summary listed. */
  lemma SummariesOfListed(ms: seq<Member>, candidates: seq<Member>, j: nat)
    requires j < |candidates| && candidates[j] in ms
    ensures Summaries(candidates)[j] in Summaries(ms)
  {
    var i :| 0 <= i < |ms| && ms[i] == candidates[j];
    assert Summaries(ms)[i] == Summaries(candidates)[j];
  }

  /** The summaries listed are those of the active candidates, and of every one of them. */
  lemma SummariesOfActiveMembers(enrollments: EnrollmentTable, classId: int, candidates: seq<Member>)
    ensures var ss := Summaries(ActiveMembers(enrollments, classId, candidates));
      && (forall i :: 0 <= i < |ss| ==> ss[i] in Summaries(candidates))
      && (forall j :: 0 <= j < |candidates| && IsActiveMember(enrollments, classId, candidates[j].student.id) ==>
            Summaries(candidates)[j] in ss)
  {
    var ms := ActiveMembers(enrollments, classId, candidates);
    SummariesFromCandidates(ms, candidates);
    forall j | 0 <= j < |candidates| && IsActiveMember(enrollments, classId, candidates[j].student.id)
      ensures Summaries(candidates)[j] in Summaries(ms)
    {
      SummariesOfListed(ms, candidates, j);
    }
  }

  /**
    On a class the teacher owns, `trackProgress` lists exactly the students with an active
    enrollment: every summary listed is an actively enrolled candidate's, and every actively
    enrolled candidate's summary is listed.
   */
  lemma TrackProgressListsActiveStudents(classes: map<int, ClassRow>, enrollments: EnrollmentTable, teacherId: int,
                                         classId: int, candidates: seq<Member>)
    ensures match TrackProgressSpec(classes, enrollments, teacherId, classId, candidates)
      case Refused(e) => !OwnsClass(classes, classId, teacherId)
      case Shown((ss, _)) =>
        && (forall i :: 0 <= i < |ss| ==> IsActiveMember(enrollments, classId, ss[i].id))
        && (forall i :: 0 <= i < |ss| ==> ss[i] in Summaries(candidates))
        && (forall j :: 0 <= j < |candidates| && IsActiveMember(enrollments, classId, candidates[j].student.id) ==>
              Summaries(candidates)[j] in ss)
  {
    SummariesOfActiveMembers(enrollments, classId, candidates);
  }

  /**
    On a class the teacher owns, `trackProgress` has one summary per active student; its head
    count and "active this week" are their number, its completed-lesson total is the sum of
    theirs, and its average lies in 0..100.
   */
  lemma TrackProgressStats(classes: map<int, ClassRow>, enrollments: EnrollmentTable, teacherId: int, classId: int,
                           candidates: seq<Member>)
    ensures TrackProgressSpec(classes, enrollments, teacherId, classId, candidates).Refused? <==>
      !OwnsClass(classes, classId, teacherId)
    ensures match TrackProgressSpec(classes, enrollments, teacherId, classId, candidates)
      case Refused(e) => e == ClassNotFound
      case Shown((ss, stats)) =>
        && |ss| == |ActiveMembers(enrollments, classId, candidates)|
        && (forall i :: 0 <= i < |ss| ==> IsActiveMember(enrollments, classId, ss[i].id))
        && stats.totalStudents == stats.activeThisWeek == |ss|
        && stats.totalLessonsCompleted == SumCompleted(ss)
        && 0 <= stats.averageProgress <= 100
  {
    if OwnsClass(classes, classId, teacherId) {
      var ms := ActiveMembers(enrollments, classId, candidates);
      var ss := Summaries(ms);
      forall i | 0 <= i < |ss|
        ensures 0 <= ss[i].progress <= 100
      {
        SummaryProgressBounds(ms[i]);
      }
      AverageWithin(ss, 0, 100);
    }
  }
}
