/**
  The enrollment registry: `TeacherController.addStudent` and the
  `class_enrollments` table, unique on (class_id, student_id), whose status is one
  of active, inactive, completed and dropped.
 */
module Enrollment {
  import opened Js
  import opened Schema
  import opened Store

  type EnrollmentTable = map<(int, int), EnrollmentStatus>

  /** The error messages `addStudent` puts in the session when it refuses a request. */
  datatype AddError = EmailRequired | ClassNotOwned | NoSuchStudent | AlreadyEnrolled

  datatype AddOutcome =
    | Reactivated(studentId: int)
    | Enrolled(studentId: int)
    | AddFailed(error: AddError)

  /** What the browser receives: the class page, or nothing at all (the handler's promise rejects). */
  datatype ClassReply = ClassPage(classId: int) | Unanswered

  /**
    The reply as written. Every refusal is thrown inside the `try` block, and the `catch` block
    redirects to a path built from `classId`, which was declared inside the `try` block: after
    storing the error message it throws a ReferenceError, so no response is sent.
   */
  function AddReplyAsWritten(classId: int, out: AddOutcome): ClassReply
  {
    if out.AddFailed? then Unanswered else ClassPage(classId)
  }

  /** The reply as evidently intended: success and refusal both return to the class page. */
  function AddReply(classId: int, out: AddOutcome): ClassReply
  {
    ClassPage(classId)
  }

  /** Whether a student counts as a member of a class (the `status = 'active'` filters). */
  predicate IsActiveMember(enrollments: EnrollmentTable, classId: int, studentId: int)
  {
    (classId, studentId) in enrollments && enrollments[(classId, studentId)] == Active
  }

  /** The active enrollment rows of a class: what `COUNT(*) ... status = "active"` counts. */
  function ActiveRows(enrollments: EnrollmentTable, classId: int): set<(int, int)>
  {
    set k | k in enrollments && k.0 == classId && enrollments[k] == Active
  }

  /** `!studentEmail || !studentEmail.trim()` */
  predicate BlankEmail(email: Option<string>)
  {
    !Truthy(email) || Trim(email.value) == ""
  }

  /** An e-mail is refused as blank exactly when it is missing or all white space. */
  lemma BlankEmailMeaning(email: Option<string>)
    ensures BlankEmail(email) <==> email.None? || AllWhiteSpace(email.value)
  {
    if email.Some? {
      TrimBlank(email.value);
    }
  }

  /**
    The effect of `addStudent`: the e-mail must be non-blank after trimming, the class must be the
    teacher's and a user with role student must have the trimmed e-mail; then an active row is a
    conflict, any other row is reactivated, and a missing row is created active.
   */
  function AddStudentSpec(enrollments: EnrollmentTable, classes: map<int, ClassRow>, users: seq<User>,
                          teacherId: int, classId: int, email: Option<string>): (EnrollmentTable, AddOutcome)
  {
    if BlankEmail(email) then (enrollments, AddFailed(EmailRequired))
    else if !OwnsClass(classes, classId, teacherId) then (enrollments, AddFailed(ClassNotOwned))
    else
      match FindStudentByEmail(users, Trim(email.value))
      case None => (enrollments, AddFailed(NoSuchStudent))
      case Some(i) =>
        var key := (classId, users[i].id);
        if key in enrollments then
          if enrollments[key] == Active then (enrollments, AddFailed(AlreadyEnrolled))
          else (enrollments[key := Active], Reactivated(users[i].id))
        else (enrollments[key := Active], Enrolled(users[i].id))
  }

  /** `TeacherController.addStudent`; `teacherId` is the session's `userId`. */
  method AddStudent(db: Db, teacherId: int, classId: int, email: Option<string>) returns (out: AddOutcome)
    modifies db`enrollments
    ensures (db.enrollments, out) == AddStudentSpec(old(db.enrollments), db.classes, db.users, teacherId, classId, email)
  {
    if email.None? || email.value == "" || Trim(email.value) == "" {
      return AddFailed(EmailRequired);
    }
    if classId !in db.classes || db.classes[classId].teacherId != teacherId {
      return AddFailed(ClassNotOwned);
    }
    var found := FindStudentByEmail(db.users, Trim(email.value));
    if found.None? {
      return AddFailed(NoSuchStudent);
    }
    var studentId := db.users[found.value].id;
    var key := (classId, studentId);
    if key in db.enrollments {
      if db.enrollments[key] == Active {
        return AddFailed(AlreadyEnrolled);
      }
      db.enrollments := db.enrollments[key := Active];
      out := Reactivated(studentId);
    } else {
      db.enrollments := db.enrollments[key := Active];
      out := Enrolled(studentId);
    }
  }

  /**
    The three cases once the request is valid: an active row is a conflict and nothing changes;
    a row in any other status is set active; a missing row is created active. In every case the
    pair then has exactly one row, active, and no other row changes.
   */
  lemma AddStudentCases(enrollments: EnrollmentTable, classes: map<int, ClassRow>, users: seq<User>,
                        teacherId: int, classId: int, email: string, i: nat)
    requires !AllWhiteSpace(email)
    requires OwnsClass(classes, classId, teacherId)
    requires FindStudentByEmail(users, Trim(email)) == Some(i)
    ensures var key := (classId, users[i].id);
      var (e, out) := AddStudentSpec(enrollments, classes, users, teacherId, classId, Some(email));
      && key in e && e[key] == Active
      && (forall k :: k in enrollments && k != key ==> k in e && e[k] == enrollments[k])
      && e.Keys == enrollments.Keys + {key}
      && (key in enrollments && enrollments[key] == Active ==> out == AddFailed(AlreadyEnrolled) && e == enrollments)
      && (key in enrollments && enrollments[key] != Active ==> out == Reactivated(users[i].id))
      && (key !in enrollments ==> out == Enrolled(users[i].id))
  {
    BlankEmailMeaning(Some(email));
    var key := (classId, users[i].id);
    var r := AddStudentSpec(enrollments, classes, users, teacherId, classId, Some(email));
    if key in enrollments && enrollments[key] == Active {
      assert r == (enrollments, AddFailed(AlreadyEnrolled));
    } else {
      assert r.0 == enrollments[key := Active];
    }
  }

  /** A refused request writes nothing. */
  lemma AddStudentRefusalWritesNothing(enrollments: EnrollmentTable, classes: map<int, ClassRow>, users: seq<User>,
                                       teacherId: int, classId: int, email: Option<string>)
    ensures var r := AddStudentSpec(enrollments, classes, users, teacherId, classId, email);
      r.1.AddFailed? ==> r.0 == enrollments
  {
  }

  /**
    As written, a refused request (a blank e-mail, say) is never answered, and it is the only
    kind of request left unanswered; nothing is written.
   */
  lemma AddRefusalUnanswered(enrollments: EnrollmentTable, classes: map<int, ClassRow>, users: seq<User>,
                             teacherId: int, classId: int, email: Option<string>)
    ensures var (e, out) := AddStudentSpec(enrollments, classes, users, teacherId, classId, email);
      && (AddReplyAsWritten(classId, out) == Unanswered <==> out.AddFailed?)
      && (AddReplyAsWritten(classId, out) == Unanswered ==> e == enrollments)
    ensures email == None ==>
      AddReplyAsWritten(classId, AddStudentSpec(enrollments, classes, users, teacherId, classId, email).1) == Unanswered
  {
  }

  /**
    As intended, every request is answered with the class page: a refusal writes nothing and
    leaves its error message for that page, a success writes the one active row.
   */
  lemma AddStudentReplies(enrollments: EnrollmentTable, classes: map<int, ClassRow>, users: seq<User>,
                          teacherId: int, classId: int, email: Option<string>)
    ensures var (e, out) := AddStudentSpec(enrollments, classes, users, teacherId, classId, email);
      && AddReply(classId, out) == ClassPage(classId)
      && (out.AddFailed? ==> e == enrollments)
      && (!out.AddFailed? ==> AddReplyAsWritten(classId, out) == AddReply(classId, out))
  {
  }

  /**
    The request is refused, in this order, exactly when the e-mail is missing or blank, when the
    class is not the teacher's, and when no student has the trimmed e-mail.
   */
  lemma AddStudentRefusals(enrollments: EnrollmentTable, classes: map<int, ClassRow>, users: seq<User>,
                           teacherId: int, classId: int, email: Option<string>)
    ensures var r := AddStudentSpec(enrollments, classes, users, teacherId, classId, email);
      && (r.1 == AddFailed(EmailRequired) <==> email.None? || AllWhiteSpace(email.value))
      && (r.1 == AddFailed(ClassNotOwned) <==>
            email.Some? && !AllWhiteSpace(email.value) && !OwnsClass(classes, classId, teacherId))
      && (r.1 == AddFailed(NoSuchStudent) <==>
            email.Some? && !AllWhiteSpace(email.value) && OwnsClass(classes, classId, teacherId)
            && FindStudentByEmail(users, Trim(email.value)).None?)
  {
    BlankEmailMeaning(email);
    var r := AddStudentSpec(enrollments, classes, users, teacherId, classId, email);
    if BlankEmail(email) {
      assert r.1 == AddFailed(EmailRequired);
    } else if !OwnsClass(classes, classId, teacherId) {
      assert r.1 == AddFailed(ClassNotOwned);
    } else {
      var found := FindStudentByEmail(users, Trim(email.value));
      if found.None? {
        assert r.1 == AddFailed(NoSuchStudent);
      } else {
        assert r.1 !in {AddFailed(EmailRequired), AddFailed(ClassNotOwned), AddFailed(NoSuchStudent)};
      }
    }
  }

  /** Adding the same student twice: the second request is the "already enrolled" conflict. */
  lemma AddStudentTwice(enrollments: EnrollmentTable, classes: map<int, ClassRow>, users: seq<User>,
                        teacherId: int, classId: int, email: Option<string>)
    ensures var (e1, out1) := AddStudentSpec(enrollments, classes, users, teacherId, classId, email);
      out1.Enrolled? || out1.Reactivated? ==>
        AddStudentSpec(e1, classes, users, teacherId, classId, email) == (e1, AddFailed(AlreadyEnrolled))
  {
  }

  /** A successful `addStudent` raises the class's active head count by exactly one. */
  lemma AddStudentCountsOneMore(enrollments: EnrollmentTable, classes: map<int, ClassRow>, users: seq<User>,
                                teacherId: int, classId: int, email: Option<string>)
    ensures var r := AddStudentSpec(enrollments, classes, users, teacherId, classId, email);
      |ActiveRows(r.0, classId)| == |ActiveRows(enrollments, classId)| + (if r.1.AddFailed? then 0 else 1)
  {
    var r := AddStudentSpec(enrollments, classes, users, teacherId, classId, email);
    if !r.1.AddFailed? {
      var i := FindStudentByEmail(users, Trim(email.value)).value;
      var key := (classId, users[i].id);
      assert r.0 == enrollments[key := Active];
      ActivateRow(enrollments, key);
    }
  }

  /** Setting a row of the class active that was not active adds it to the class's active rows. */
  lemma ActivateRow(enrollments: EnrollmentTable, key: (int, int))
    requires key !in enrollments || enrollments[key] != Active
    ensures ActiveRows(enrollments[key := Active], key.0) == ActiveRows(enrollments, key.0) + {key}
    ensures |ActiveRows(enrollments[key := Active], key.0)| == |ActiveRows(enrollments, key.0)| + 1
  {
    assert key !in ActiveRows(enrollments, key.0);
  }
}
