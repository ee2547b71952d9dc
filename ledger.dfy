/**
  The lesson progress ledger of controllers/StudentController.js: `startLesson`
  (get-or-create of the (student, lesson) progress row), `completeLesson` (mark
  the row completed, then credit XP to the user and to the session) and the
  completed-lesson count of the student dashboard.

  The completion handler has no "already completed" guard and no transaction:
  completing a lesson twice credits its XP twice, and when the user row is missing
  the progress row has already been written when the handler fails.
 */
module Ledger {
  import opened Js
  import opened Schema
  import opened Xp
  import opened Sessions
  import opened Store

  type ProgressTable = map<(int, int), ProgressRecord>

  /** The row `startLesson` creates: in progress at 0%, the other columns at their defaults. */
  const StartedRecord := DefaultProgress.(status := InProgress, percentage := 0)

  // ---------------------------------------------------------------------------
  // startLesson

  datatype StartResult = Started(record: ProgressRecord) | StartLessonMissing | StartFailed

  /**
    The effect of `startLesson` on the progress table and what it renders. `student` is the
    id of the session's user (`None` when the session holds no user: the handler throws).
   */
  function StartLessonSpec(progress: ProgressTable, lessons: map<int, Lesson>, student: Option<int>, lessonId: int)
    : (ProgressTable, StartResult)
  {
    if student.None? then (progress, StartFailed)
    else if lessonId !in lessons then (progress, StartLessonMissing)
    else
      var key := (student.value, lessonId);
      if key in progress then (progress, Started(progress[key]))
      else (progress[key := StartedRecord], Started(StartedRecord))
  }

  /** `StudentController.startLesson` */
  method StartLesson(db: Db, session: Session, lessonId: int) returns (res: StartResult)
    modifies db`progress
    ensures (db.progress, res) ==
      StartLessonSpec(old(db.progress), db.lessons, if session.user.Some? then Some(session.user.value.id) else None, lessonId)
  {
    if session.user.None? {
      return StartFailed;
    }
    var studentId := session.user.value.id;
    if lessonId !in db.lessons {
      return StartLessonMissing;
    }
    var key := (studentId, lessonId);
    if key in db.progress {
      res := Started(db.progress[key]);
    } else {
      db.progress := db.progress[key := StartedRecord];
      res := Started(StartedRecord);
    }
  }

  /**
    Starting a lesson returns the existing row unchanged (a completed row stays completed)
    and only ever adds the one (student, lesson) row, in progress at 0%.
   */
  lemma StartNeverDowngrades(progress: ProgressTable, lessons: map<int, Lesson>, student: int, lessonId: int)
    requires lessonId in lessons
    ensures var (p, r) := StartLessonSpec(progress, lessons, Some(student), lessonId);
      && (student, lessonId) in p
      && r == Started(p[(student, lessonId)])
      && (forall k :: k in progress ==> k in p && p[k] == progress[k])
      && p.Keys == progress.Keys + {(student, lessonId)}
      && ((student, lessonId) !in progress ==> p[(student, lessonId)].status == InProgress && p[(student, lessonId)].percentage == 0)
  {
  }

  /** Starting the same lesson twice is the same as starting it once. */
  lemma StartIdempotent(progress: ProgressTable, lessons: map<int, Lesson>, student: Option<int>, lessonId: int)
    ensures var (p1, r1) := StartLessonSpec(progress, lessons, student, lessonId);
      StartLessonSpec(p1, lessons, student, lessonId) == (p1, r1)
  {
  }

  /** A missing lesson or a session without a user leaves the table as it was. */
  lemma StartFailureChangesNothing(progress: ProgressTable, lessons: map<int, Lesson>, student: Option<int>, lessonId: int)
    requires student.None? || lessonId !in lessons
    ensures StartLessonSpec(progress, lessons, student, lessonId).0 == progress
    ensures !StartLessonSpec(progress, lessons, student, lessonId).1.Started?
  {
  }

  // ---------------------------------------------------------------------------
  // completeLesson

  /** The in-memory state `completeLesson` writes: the user rows and the progress table. */
  datatype LedgerState = LedgerState(users: seq<User>, progress: ProgressTable)

  /** The JSON response: the credited XP, the new level and the level-up flag; or the error. */
  datatype CompleteResult =
    | Credited(xpEarned: int, newXp: int, newLevel: int, leveledUp: bool)
    | CompleteLessonMissing
    | CompleteFailed

  /** `progress.update({ status: 'completed', progress_percentage: 100, completed_at: now })` */
  function MarkCompleted(r: ProgressRecord, now: int): ProgressRecord
  {
    r.(status := ProgressStatus.Completed, percentage := 100, completedAt := Some(now))
  }

  /** The progress write of `completeLesson`: only an existing row is updated; none is created. */
  function CompleteRow(progress: ProgressTable, key: (int, int), now: int): ProgressTable
  {
    if key in progress then progress[key := MarkCompleted(progress[key], now)] else progress
  }

  /**
    The effect of `completeLesson`. The lesson is looked up first (404, nothing written);
    then the progress row is updated if there is one; then the user row is credited. A
    missing user row fails after the progress write, which is kept.
   */
  function CompleteLessonSpec(st: LedgerState, lessons: map<int, Lesson>, student: Option<int>, lessonId: int, now: int)
    : (LedgerState, CompleteResult)
  {
    if student.None? then (st, CompleteFailed)
    else if lessonId !in lessons then (st, CompleteLessonMissing)
    else
      var progress := CompleteRow(st.progress, (student.value, lessonId), now);
      match FindUser(st.users, student.value)
      case None => (LedgerState(st.users, progress), CompleteFailed)
      case Some(i) =>
        var u := st.users[i];
        var a := ApplyCompletion(u.xp, u.level, lessons[lessonId].xpReward);
        (LedgerState(st.users[i := u.(xp := Some(a.newXp), level := Some(a.newLevel))], progress),
         Credited(a.xpEarned, a.newXp, a.newLevel, a.leveledUp))
  }

  /** `StudentController.completeLesson`: writes the progress row, the user row and the session's user. */
  method CompleteLesson(db: Db, session: Session, lessonId: int, now: int) returns (res: CompleteResult)
    modifies db`progress, db`users, session`user
    ensures (LedgerState(db.users, db.progress), res) ==
      CompleteLessonSpec(LedgerState(old(db.users), old(db.progress)), db.lessons,
        if old(session.user).Some? then Some(old(session.user).value.id) else None, lessonId, now)
    ensures res.Credited? ==>
      session.user == Some(old(session.user).value.(xp := Some(res.newXp), level := Some(res.newLevel)))
    ensures !res.Credited? ==> session.user == old(session.user)
  {
    if session.user.None? {
      return CompleteFailed;
    }
    var studentId := session.user.value.id;
    if lessonId !in db.lessons {
      return CompleteLessonMissing;
    }
    var lesson := db.lessons[lessonId];
    var key := (studentId, lessonId);
    if key in db.progress {
      db.progress := db.progress[key := MarkCompleted(db.progress[key], now)];
    }
    var found := FindUser(db.users, studentId);
    if found.None? {
      return CompleteFailed;
    }
    var i := found.value;
    var user := db.users[i];
    var a := ApplyCompletion(user.xp, user.level, lesson.xpReward);
    db.users := db.users[i := user.(xp := Some(a.newXp), level := Some(a.newLevel))];
    session.user := Some(session.user.value.(xp := Some(a.newXp), level := Some(a.newLevel)));
    res := Credited(a.xpEarned, a.newXp, a.newLevel, a.leveledUp);
  }

  /** After a credited completion, the session's user carries the same xp and level as the stored row. */
  lemma SessionMatchesStoredUser(st: LedgerState, lessons: map<int, Lesson>, acct: Account, lessonId: int, now: int)
    requires CompleteLessonSpec(st, lessons, Some(acct.id), lessonId, now).1.Credited?
    ensures var (st', r) := CompleteLessonSpec(st, lessons, Some(acct.id), lessonId, now);
      var i := FindUser(st.users, acct.id);
      && i.Some?
      && st'.users[i.value].xp == acct.(xp := Some(r.newXp), level := Some(r.newLevel)).xp
      && st'.users[i.value].level == acct.(xp := Some(r.newXp), level := Some(r.newLevel)).level
  {
  }

  /** Completing a lesson that does not exist fails with "not found" and writes nothing. */
  lemma CompleteUnknownLesson(st: LedgerState, lessons: map<int, Lesson>, student: int, lessonId: int, now: int)
    requires lessonId !in lessons
    ensures CompleteLessonSpec(st, lessons, Some(student), lessonId, now) == (st, CompleteLessonMissing)
  {
  }

  /**
    A completion for an existing lesson and user credits `xp_reward || 10` to the user, sets its level
    to `floor(xp / 100) + 1`, touches no other user, and marks an existing progress row completed at
    100% without touching its `xp_earned`; a missing progress row is not created.
   */
  lemma CompleteCredits(st: LedgerState, lessons: map<int, Lesson>, student: int, lessonId: int, now: int)
    requires lessonId in lessons
    requires FindUser(st.users, student).Some?
    ensures var (st', r) := CompleteLessonSpec(st, lessons, Some(student), lessonId, now);
      var i := FindUser(st.users, student).value;
      var key := (student, lessonId);
      && r.Credited?
      && r.xpEarned == XpEarned(lessons[lessonId].xpReward)
      && st'.users[i].xp == Some(IntOr(st.users[i].xp, DefaultXp) + r.xpEarned)
      && st'.users[i].level == Some(LevelFor(IntOr(st.users[i].xp, DefaultXp) + r.xpEarned))
      && |st'.users| == |st.users|
      && (forall j :: 0 <= j < |st.users| && j != i ==> st'.users[j] == st.users[j])
      && st'.progress.Keys == st.progress.Keys
      && (key in st.progress ==>
            && st'.progress[key].status == ProgressStatus.Completed
            && st'.progress[key].percentage == 100
            && st'.progress[key].completedAt == Some(now)
            && st'.progress[key].xpEarned == st.progress[key].xpEarned)
      && (forall k :: k in st.progress && k != key ==> st'.progress[k] == st.progress[k])
  {
  }

  /** When the user row is missing the handler fails, but the progress row was already marked completed. */
  lemma CompleteIsNotAtomic(st: LedgerState, lessons: map<int, Lesson>, student: int, lessonId: int, now: int)
    requires lessonId in lessons
    requires FindUser(st.users, student).None?
    ensures var (st', r) := CompleteLessonSpec(st, lessons, Some(student), lessonId, now);
      && r == CompleteFailed
      && st'.users == st.users
      && st'.progress == CompleteRow(st.progress, (student, lessonId), now)
  {
  }

  /**
    There is no "already completed" guard: a second completion of the same lesson credits the
    reward again, and the row is simply re-stamped.
   */
  lemma CompleteTwiceCreditsTwice(st: LedgerState, lessons: map<int, Lesson>, student: int, lessonId: int, t1: int, t2: int)
    requires lessonId in lessons
    requires FindUser(st.users, student).Some?
    ensures var (st1, r1) := CompleteLessonSpec(st, lessons, Some(student), lessonId, t1);
      var (st2, r2) := CompleteLessonSpec(st1, lessons, Some(student), lessonId, t2);
      var i := FindUser(st.users, student).value;
      var earned := XpEarned(lessons[lessonId].xpReward);
      && r1.Credited? && r2.Credited?
      && r2.xpEarned == earned
      && st2.users[i].xp == Some(IntOr(st.users[i].xp, DefaultXp) + 2 * earned)
      && st2.progress == CompleteRow(st.progress, (student, lessonId), t2)
  {
    var i := FindUser(st.users, student).value;
    var (st1, r1) := CompleteLessonSpec(st, lessons, Some(student), lessonId, t1);
    CompleteCredits(st, lessons, student, lessonId, t1);
    FindUserAfterUpdate(st.users, student, i, st1.users[i]);
    assert FindUser(st1.users, student) == Some(i);
    CompleteCredits(st1, lessons, student, lessonId, t2);
    var key := (student, lessonId);
    if key in st.progress {
      assert st1.progress[key := MarkCompleted(st1.progress[key], t2)] == st.progress[key := MarkCompleted(st.progress[key], t2)];
    }
  }

  /** Rewriting the row that `findByPk` finds, keeping its id, leaves it the one found. */
  lemma {:induction false} FindUserAfterUpdate(users: seq<User>, id: int, i: nat, u: User)
    requires FindUser(users, id) == Some(i)
    requires u.id == id
    ensures FindUser(users[i := u], id) == Some(i)
  {
    if i > 0 {
      FindUserAfterUpdate(users[1..], id, i - 1, u);
      assert users[i := u][1..] == users[1..][i - 1 := u];
    }
  }

  /** Starting and then completing a lesson leaves its row completed at 100% and credits the user. */
  lemma StartThenComplete(st: LedgerState, lessons: map<int, Lesson>, student: int, lessonId: int, now: int)
    requires lessonId in lessons
    requires FindUser(st.users, student).Some?
    ensures var (p1, _) := StartLessonSpec(st.progress, lessons, Some(student), lessonId);
      var (st2, r) := CompleteLessonSpec(LedgerState(st.users, p1), lessons, Some(student), lessonId, now);
      && r.Credited?
      && (student, lessonId) in st2.progress
      && st2.progress[(student, lessonId)].status == ProgressStatus.Completed
      && st2.progress[(student, lessonId)].percentage == 100
  {
    var (p1, _) := StartLessonSpec(st.progress, lessons, Some(student), lessonId);
    CompleteCredits(LedgerState(st.users, p1), lessons, student, lessonId, now);
  }

  // ---------------------------------------------------------------------------
  // dashboard: count of completed lessons

  /** `StudentProgress.count({ where: { student_id, status: 'completed' } })` */
  function CompletedCount(progress: ProgressTable, student: int): nat
  {
    |set k | k in progress && k.0 == student && progress[k].status == ProgressStatus.Completed|
  }

  /**
    Completion raises the dashboard's completed count by one exactly when the student had
    a row for that lesson that was not yet completed; repeating it changes nothing.
   */
  lemma CompletedCountAfterComplete(progress: ProgressTable, student: int, lessonId: int, now: int)
    ensures var key := (student, lessonId);
      CompletedCount(CompleteRow(progress, key, now), student) ==
        CompletedCount(progress, student) + (if key in progress && progress[key].status != ProgressStatus.Completed then 1 else 0)
  {
    var key := (student, lessonId);
    var p := CompleteRow(progress, key, now);
    var before := set k | k in progress && k.0 == student && progress[k].status == ProgressStatus.Completed;
    var after := set k | k in p && k.0 == student && p[k].status == ProgressStatus.Completed;
    if key in progress {
      if progress[key].status == ProgressStatus.Completed {
        assert after == before;
      } else {
        assert after == before + {key};
      }
    } else {
      assert after == before;
    }
  }

  /** What the student dashboard shows besides lists: completed count, `xp || 0` and `level || 1`. */
  datatype StudentDashboard = StudentDashboard(completedCount: nat, xp: int, level: int)

  /** `StudentController.dashboard`; a missing user row makes it fail (`user.xp` on null). */
  function StudentDashboardSpec(users: seq<User>, progress: ProgressTable, student: int): (r: Option<StudentDashboard>)
    ensures r.Some? <==> FindUser(users, student).Some?
  {
    match FindUser(users, student)
    case None => None
    case Some(i) =>
      Some(StudentDashboard(CompletedCount(progress, student),
        IntOr(users[i].xp, DefaultXp), IntOr(users[i].level, DefaultLevel)))
  }

  /**
    After a credited completion the dashboard shows the new XP and level (through the same
    `|| 0` and `|| 1` defaults) and the completed count of the updated table.
   */
  lemma DashboardShowsCredit(st: LedgerState, lessons: map<int, Lesson>, student: int, lessonId: int, now: int)
    requires lessonId in lessons
    requires FindUser(st.users, student).Some?
    ensures var (st', r) := CompleteLessonSpec(st, lessons, Some(student), lessonId, now);
      StudentDashboardSpec(st'.users, st'.progress, student) ==
        Some(StudentDashboard(CompletedCount(st'.progress, student),
                              IntOr(Some(r.newXp), DefaultXp), IntOr(Some(r.newLevel), DefaultLevel)))
  {
    var i := FindUser(st.users, student).value;
    var (st', r) := CompleteLessonSpec(st, lessons, Some(student), lessonId, now);
    CompleteCredits(st, lessons, student, lessonId, now);
    FindUserAfterUpdate(st.users, student, i, st'.users[i]);
  }
}
