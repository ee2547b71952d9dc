/**
  The counting statistics of `TeacherController.dashboard` (courses and classes, each
  the teacher's ten newest) and of `TeacherController.manageAssignments` (assignments
  of a class with their grades). The queries themselves are parameters: each function
  receives the rows a query returns, in the order it returns them.
 */
module Dashboard {
  import opened Js
  import opened Schema
  import opened Enrollment

  /** Both dashboard queries keep the ten newest rows. */
  const DashboardLimit := 10

  function Newest<T>(rows: seq<T>): (r: seq<T>)
    ensures |r| <= DashboardLimit
    ensures |rows| <= DashboardLimit ==> r == rows
    ensures |rows| > DashboardLimit ==> r == rows[..DashboardLimit]
  {
    if |rows| <= DashboardLimit then rows else rows[..DashboardLimit]
  }

  // ---------------------------------------------------------------- courses

  /** `course.is_published || false`: a missing flag counts as a draft. */
  predicate IsPublished(flag: Option<bool>)
  {
    flag == Some(true)
  }

  function CountPublished(flags: seq<Option<bool>>): (n: nat)
    ensures n <= |flags|
  {
    if flags == [] then 0
    else CountPublished(flags[..|flags| - 1]) + (if IsPublished(flags[|flags| - 1]) then 1 else 0)
  }

  function CountDrafts(flags: seq<Option<bool>>): (n: nat)
    ensures n <= |flags|
  {
    if flags == [] then 0
    else CountDrafts(flags[..|flags| - 1]) + (if IsPublished(flags[|flags| - 1]) then 0 else 1)
  }

  datatype CourseStats = CourseStats(total: nat, published: nat, draft: nat)

  /** `courseStats` from the `is_published` flags of the teacher's courses, newest first. */
  function CourseStatsOf(flags: seq<Option<bool>>): CourseStats
  {
    var shown := Newest(flags);
    CourseStats(|shown|, CountPublished(shown), CountDrafts(shown))
  }

  lemma {:induction false} PublishedPlusDrafts(flags: seq<Option<bool>>)
    ensures CountPublished(flags) + CountDrafts(flags) == |flags|
  {
    if flags != [] {
      PublishedPlusDrafts(flags[..|flags| - 1]);
    }
  }

  /** Every course shown is either published or a draft, and at most ten are shown. */
  lemma CourseStatsAddUp(flags: seq<Option<bool>>)
    ensures var st := CourseStatsOf(flags);
      && st.total == st.published + st.draft
      && st.total <= DashboardLimit
      && (|flags| <= DashboardLimit ==> st.total == |flags|)
  {
    PublishedPlusDrafts(Newest(flags));
  }

  // ---------------------------------------------------------------- classes

  /** A class of the teacher as the dashboard query returns it. */
  datatype ClassItem = ClassItem(id: int, isActive: bool)

  function CountActive(items: seq<ClassItem>): (n: nat)
    ensures n <= |items|
  {
    if items == [] then 0
    else CountActive(items[..|items| - 1]) + (if items[|items| - 1].isActive then 1 else 0)
  }

  function CountInactive(items: seq<ClassItem>): (n: nat)
    ensures n <= |items|
  {
    if items == [] then 0
    else CountInactive(items[..|items| - 1]) + (if items[|items| - 1].isActive then 0 else 1)
  }

  /** `student_count`: the active enrollment rows of the class. */
  function StudentCount(enrollments: EnrollmentTable, classId: int): nat
  {
    |ActiveRows(enrollments, classId)|
  }

  function SumStudents(enrollments: EnrollmentTable, items: seq<ClassItem>): nat
  {
    if items == [] then 0
    else SumStudents(enrollments, items[..|items| - 1]) + StudentCount(enrollments, items[|items| - 1].id)
  }

  datatype ClassStats = ClassStats(total: nat, active: nat, inactive: nat, totalStudents: nat)

  /** `classStats` from the teacher's classes, newest first. */
  function ClassStatsOf(enrollments: EnrollmentTable, items: seq<ClassItem>): ClassStats
  {
    var shown := Newest(items);
    ClassStats(|shown|, CountActive(shown), CountInactive(shown), SumStudents(enrollments, shown))
  }

  /** The active enrollment rows of any of the given classes. */
  function ActiveRowsOf(enrollments: EnrollmentTable, ids: set<int>): set<(int, int)>
  {
    set k | k in enrollments && k.0 in ids && enrollments[k] == Active
  }

  function Ids(items: seq<ClassItem>): set<int>
  {
    set i | 0 <= i < |items| :: items[i].id
  }

  predicate DistinctIds(items: seq<ClassItem>)
  {
    forall i, j :: 0 <= i < j < |items| ==> items[i].id != items[j].id
  }

  lemma {:induction false} ActivePlusInactive(items: seq<ClassItem>)
    ensures CountActive(items) + CountInactive(items) == |items|
  {
    if items != [] {
      ActivePlusInactive(items[..|items| - 1]);
    }
  }

  lemma IdsSnoc(items: seq<ClassItem>)
    requires items != []
    ensures Ids(items) == Ids(items[..|items| - 1]) + {items[|items| - 1].id}
  {
    var init := items[..|items| - 1];
    forall x | x in Ids(items)
      ensures x in Ids(init) + {items[|items| - 1].id}
    {
      var i :| 0 <= i < |items| && items[i].id == x;
      if i < |init| {
        assert init[i] == items[i];
      }
    }
    forall x | x in Ids(init)
      ensures x in Ids(items)
    {
      var i :| 0 <= i < |init| && init[i].id == x;
      assert items[i] == init[i];
    }
  }

  /** Adding a class id not yet counted adds exactly that class's active rows, disjoint from the rest. */
  lemma ActiveRowsOfAdd(enrollments: EnrollmentTable, ids: set<int>, id: int)
    requires id !in ids
    ensures ActiveRowsOf(enrollments, ids + {id}) == ActiveRowsOf(enrollments, ids) + ActiveRows(enrollments, id)
    ensures ActiveRowsOf(enrollments, ids) !! ActiveRows(enrollments, id)
  {
  }

  /**
    Summing the per-class counts over classes with distinct ids counts every active enrollment
    of those classes once.
   */
  lemma {:induction false} SumStudentsCountsRows(enrollments: EnrollmentTable, items: seq<ClassItem>)
    requires DistinctIds(items)
    ensures SumStudents(enrollments, items) == |ActiveRowsOf(enrollments, Ids(items))|
  {
    if items != [] {
      var init, last := items[..|items| - 1], items[|items| - 1];
      assert DistinctIds(init) by {
        forall i, j | 0 <= i < j < |init|
          ensures init[i].id != init[j].id
        {
          assert init[i] == items[i] && init[j] == items[j];
        }
      }
      SumStudentsCountsRows(enrollments, init);
      IdsSnoc(items);
      assert last.id !in Ids(init) by {
        forall i | 0 <= i < |init|
          ensures init[i].id != last.id
        {
          assert init[i] == items[i];
        }
      }
      ActiveRowsOfAdd(enrollments, Ids(init), last.id);
    }
  }

  /**
    Every class shown is either active or inactive, at most ten are shown, and when the shown
    classes have distinct ids the student total is the number of active enrollments in them.
   */
  lemma ClassStatsAddUp(enrollments: EnrollmentTable, items: seq<ClassItem>)
    ensures var st := ClassStatsOf(enrollments, items);
      && st.total == st.active + st.inactive
      && st.total <= DashboardLimit
      && (DistinctIds(Newest(items)) ==>
            st.totalStudents == |ActiveRowsOf(enrollments, Ids(Newest(items)))|)
  {
    var shown := Newest(items);
    ActivePlusInactive(shown);
    if DistinctIds(shown) {
      SumStudentsCountsRows(enrollments, shown);
    }
  }

  // ---------------------------------------------------------------- assignments

  /** assignments.status */
  datatype AssignmentStatus = Draft | Published | Closed

  /** grades.status */
  datatype GradeStatus = NotSubmitted | Submitted | Graded | Returned

  /** An assignment of the class with the statuses of its grade rows. */
  datatype AssignmentRow = AssignmentRow(status: AssignmentStatus, grades: seq<GradeStatus>)

  function CountGrades(grades: seq<GradeStatus>, st: GradeStatus): (n: nat)
    ensures n <= |grades|
  {
    if grades == [] then 0
    else CountGrades(grades[..|grades| - 1], st) + (if grades[|grades| - 1] == st then 1 else 0)
  }

  function CountAssignments(rows: seq<AssignmentRow>, st: AssignmentStatus): (n: nat)
    ensures n <= |rows|
  {
    if rows == [] then 0
    else CountAssignments(rows[..|rows| - 1], st) + (if rows[|rows| - 1].status == st then 1 else 0)
  }

  function TotalSubmissions(rows: seq<AssignmentRow>): nat
  {
    if rows == [] then 0 else TotalSubmissions(rows[..|rows| - 1]) + |rows[|rows| - 1].grades|
  }

  function TotalWithGrade(rows: seq<AssignmentRow>, st: GradeStatus): nat
  {
    if rows == [] then 0 else TotalWithGrade(rows[..|rows| - 1], st) + CountGrades(rows[|rows| - 1].grades, st)
  }

  /** The per-assignment counts shown in the list. */
  datatype AssignmentCounts = AssignmentCounts(submissionCount: nat, gradedCount: nat)

  function CountsOf(a: AssignmentRow): AssignmentCounts
  {
    AssignmentCounts(|a.grades|, CountGrades(a.grades, Graded))
  }

  datatype AssignmentStats = AssignmentStats(total: nat, active: nat, draft: nat, totalSubmissions: nat, pendingReview: nat)

  /** `assignmentStats`: "active" counts published assignments; "pending review" counts submitted grades. */
  function AssignmentStatsOf(rows: seq<AssignmentRow>): AssignmentStats
  {
    AssignmentStats(|rows|, CountAssignments(rows, Published), CountAssignments(rows, Draft),
                    TotalSubmissions(rows), TotalWithGrade(rows, Submitted))
  }

  /** `manageAssignments`: refused unless the class is the teacher's. */
  function ManageAssignmentsSpec(classes: map<int, ClassRow>, teacherId: int, classId: int,
                                 rows: seq<AssignmentRow>): Option<(seq<AssignmentCounts>, AssignmentStats)>
  {
    if !OwnsClass(classes, classId, teacherId) then None
    else Some((seq(|rows|, i requires 0 <= i < |rows| => CountsOf(rows[i])), AssignmentStatsOf(rows)))
  }

  lemma {:induction false} StatusesPartitionAssignments(rows: seq<AssignmentRow>)
    ensures CountAssignments(rows, Published) + CountAssignments(rows, Draft) + CountAssignments(rows, Closed) == |rows|
  {
    if rows != [] {
      StatusesPartitionAssignments(rows[..|rows| - 1]);
    }
  }

  lemma {:induction false} StatusesPartitionGrades(grades: seq<GradeStatus>)
    ensures CountGrades(grades, NotSubmitted) + CountGrades(grades, Submitted)
          + CountGrades(grades, Graded) + CountGrades(grades, Returned) == |grades|
  {
    if grades != [] {
      StatusesPartitionGrades(grades[..|grades| - 1]);
    }
  }

  lemma {:induction false} PendingWithinSubmissions(rows: seq<AssignmentRow>)
    ensures TotalWithGrade(rows, Submitted) + TotalWithGrade(rows, Graded) <= TotalSubmissions(rows)
  {
    if rows != [] {
      PendingWithinSubmissions(rows[..|rows| - 1]);
      StatusesPartitionGrades(rows[|rows| - 1].grades);
    }
  }

  /**
    The assignment statistics add up: published and draft assignments are at most all of them
    (the rest are closed), and submitted plus graded rows are at most all grade rows, so pending
    reviews never exceed submissions; each assignment's graded count is at most its submissions.
   */
  lemma AssignmentStatsAddUp(classes: map<int, ClassRow>, teacherId: int, classId: int, rows: seq<AssignmentRow>)
    ensures ManageAssignmentsSpec(classes, teacherId, classId, rows).Some? <==> OwnsClass(classes, classId, teacherId)
    ensures var st := AssignmentStatsOf(rows);
      && st.active + st.draft + CountAssignments(rows, Closed) == st.total
      && st.pendingReview + TotalWithGrade(rows, Graded) <= st.totalSubmissions
    ensures forall i :: 0 <= i < |rows| ==> CountsOf(rows[i]).gradedCount <= CountsOf(rows[i]).submissionCount
  {
    StatusesPartitionAssignments(rows);
    PendingWithinSubmissions(rows);
  }
}
