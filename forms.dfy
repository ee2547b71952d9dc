/**
  Validation and defaulting of the teacher's forms in controllers/TeacherController.js:
  `createCourse`, `updateCourse` and `createAssignment`. Request-body fields are
  possibly-missing strings; the handlers read them through JavaScript truthiness,
  `trim`, `parseInt` and `===`.
 */
module Forms {
  import opened Js
  import opened Schema

  /** The body fields the course handlers read; `totalXp` is `xp_reward` on create and `total_xp` on update. */
  datatype CourseForm = CourseForm(
    title: Option<string>,
    description: Option<string>,
    category: Option<string>,
    difficulty: Option<string>,
    estimatedDuration: Option<string>,
    totalXp: Option<string>,
    isPublished: Option<string>,
    action: Option<string>,
    redirectTo: Option<string>)

  /** The error messages a course handler throws (and then stores in the session). */
  datatype CourseError = TitleRequired | CategoryRequired | DifficultyRequired | CourseNotFound

  /** A row of `courses` as the handlers write it. */
  datatype CourseData = CourseData(
    title: string,
    description: Option<string>,
    category: string,
    difficulty: string,
    estimatedDuration: Option<JsNumber>,
    totalXp: JsNumber,
    isPublished: bool,
    createdBy: int)

  /** `courses.total_xp` when the create form leaves it empty. */
  const DefaultCourseXp := 50

  /** The three required-field checks shared by both course handlers, in order. */
  function ValidateCourse(f: CourseForm): Option<CourseError>
  {
    if !Truthy(f.title) || Trim(f.title.value) == "" then Some(TitleRequired)
    else if !Truthy(f.category) then Some(CategoryRequired)
    else if !Truthy(f.difficulty) then Some(DifficultyRequired)
    else None
  }

  /** `action === 'publish' || is_published === 'true'` */
  predicate PublishRequested(f: CourseForm)
  {
    StrictEquals(f.action, "publish") || StrictEquals(f.isPublished, "true")
  }

  /** `description ? description.trim() : null` */
  function TrimmedOrNull(s: Option<string>): Option<string>
  {
    if Truthy(s) then Some(Trim(s.value)) else None
  }

  /** `estimated_duration ? parseInt(estimated_duration) : null` */
  function NumberOrNull(s: Option<string>): Option<JsNumber>
  {
    if Truthy(s) then Some(ParseInt(s)) else None
  }

  /** `v ? parseInt(v) : d` */
  function NumberOrKeep(s: Option<string>, d: JsNumber): JsNumber
  {
    if Truthy(s) then ParseInt(s) else d
  }

  /** Where a handler redirects. */
  datatype Redirect = TeacherDashboard | TeacherCourses | CreateCourseForm | EditCourseForm(courseId: int)

  datatype CreateOutcome =
    | CourseCreated(course: CourseData, announcedPublished: bool, redirect: Redirect)
    | CreateRejected(error: CourseError, redirect: Redirect)

  /**
    `createCourse`: on a valid form the row written has the trimmed title, the trimmed
    description or null, the duration parsed or null, the XP parsed or 50, and the publish
    flag; the success message announces publication exactly when the flag is set, and
    `redirect_to` (default 'courses') selects the dashboard only when it is 'dashboard'.
   */
  function CreateCourseSpec(f: CourseForm, teacherId: int): CreateOutcome
  {
    match ValidateCourse(f)
    case Some(e) => CreateRejected(e, CreateCourseForm)
    case None =>
      var published := PublishRequested(f);
      var course := CourseData(Trim(f.title.value), TrimmedOrNull(f.description), f.category.value,
                               f.difficulty.value, NumberOrNull(f.estimatedDuration),
                               NumberOrKeep(f.totalXp, Num(DefaultCourseXp)), published, teacherId);
      var target := if Truthy(f.redirectTo) then f.redirectTo.value else "courses";
      CourseCreated(course, published, if target == "dashboard" then TeacherDashboard else TeacherCourses)
  }

  /**
    The course form is refused, with the first failing check, exactly when the title is missing
    or white space only, the category is empty, or the difficulty is empty.
   */
  lemma ValidateCourseMeaning(f: CourseForm)
    ensures ValidateCourse(f) == Some(TitleRequired) <==> f.title.None? || AllWhiteSpace(f.title.value)
    ensures ValidateCourse(f) == Some(CategoryRequired) <==>
      f.title.Some? && !AllWhiteSpace(f.title.value) && !Truthy(f.category)
    ensures ValidateCourse(f) == Some(DifficultyRequired) <==>
      f.title.Some? && !AllWhiteSpace(f.title.value) && Truthy(f.category) && !Truthy(f.difficulty)
    ensures ValidateCourse(f) != Some(CourseNotFound)
  {
    if f.title.Some? {
      TrimBlank(f.title.value);
    }
  }

  /**
    A created course has a non-empty title without surrounding white space, the teacher as its
    author, XP 50 when the XP field is empty, and is published exactly when the action
    is 'publish' or the checkbox value is 'true'; the message agrees with the stored flag.
   */
  lemma CreateCourseDefaults(f: CourseForm, teacherId: int)
    ensures match CreateCourseSpec(f, teacherId)
      case CreateRejected(e, r) => r == CreateCourseForm && ValidateCourse(f) == Some(e)
      case CourseCreated(c, announced, r) =>
        && ValidateCourse(f).None?
        && c.title != [] && !IsWhiteSpace(c.title[0]) && !IsWhiteSpace(c.title[|c.title| - 1])
        && c.createdBy == teacherId
        && (!Truthy(f.totalXp) ==> c.totalXp == Num(DefaultCourseXp))
        && (forall n: nat :: f.totalXp == Some(Decimal(n)) ==> c.totalXp == Num(n))
        && (c.isPublished <==> StrictEquals(f.action, "publish") || StrictEquals(f.isPublished, "true"))
        && announced == c.isPublished
        && (r == TeacherDashboard <==> StrictEquals(f.redirectTo, "dashboard"))
        && (r == TeacherCourses <==> !StrictEquals(f.redirectTo, "dashboard"))
  {
    if ValidateCourse(f).None? {
      TrimShape(f.title.value);
      forall n: nat | f.totalXp == Some(Decimal(n))
        ensures ParseInt(f.totalXp) == Num(n)
      {
        ParseIntDecimal(n);
      }
    }
  }

  /** An XP field of "0" is stored as 0, not replaced by the default: only an empty field is. */
  lemma CreateCourseZeroXp(f: CourseForm, teacherId: int)
    requires ValidateCourse(f).None?
    requires f.totalXp == Some("0")
    ensures CreateCourseSpec(f, teacherId).course.totalXp == Num(0)
  {
    ParseIntDecimal(0);
    assert Decimal(0) == "0";
  }

  // ---------------------------------------------------------------- updateCourse

  /** The success message of `updateCourse`. */
  datatype UpdateMessage = UpdatedAndPublished | UpdatedAndUnpublished | Updated

  /** The handler's decision; a refusal stores its error message in the session. */
  datatype UpdateOutcome =
    | CourseUpdated(message: UpdateMessage, redirect: Redirect)
    | UpdateRejected(error: CourseError)

  /** What the browser receives: a redirect, or nothing at all (the handler's promise rejects). */
  datatype CourseReply = Redirected(to: Redirect) | Unanswered

  type CourseTable = map<int, CourseData>

  /** `Course.findOne({ where: { id, created_by } })` */
  predicate OwnsCourse(courses: CourseTable, courseId: int, teacherId: int)
  {
    courseId in courses && courses[courseId].createdBy == teacherId
  }

  /** The row after `course.update(updateData)`: XP kept when the field is empty; author unchanged. */
  function UpdatedCourse(stored: CourseData, f: CourseForm): CourseData
    requires ValidateCourse(f).None?
  {
    CourseData(Trim(f.title.value), TrimmedOrNull(f.description), f.category.value, f.difficulty.value,
               NumberOrNull(f.estimatedDuration), NumberOrKeep(f.totalXp, stored.totalXp),
               PublishRequested(f), stored.createdBy)
  }

  /**
    The message as the handler computes it: it reads `course.is_published` after the update
    has already assigned the new flag to the instance.
   */
  function UpdateMessageAsWritten(f: CourseForm, flagAfterUpdate: bool): UpdateMessage
  {
    if StrictEquals(f.action, "publish") && !flagAfterUpdate then UpdatedAndPublished
    else if StrictEquals(f.action, "unpublish") && flagAfterUpdate then UpdatedAndUnpublished
    else Updated
  }

  /** The message as evidently intended: compared against the flag the course had before the update. */
  function UpdateMessageOf(f: CourseForm, flagBefore: bool): UpdateMessage
  {
    if StrictEquals(f.action, "publish") && !flagBefore then UpdatedAndPublished
    else if StrictEquals(f.action, "unpublish") && flagBefore then UpdatedAndUnpublished
    else Updated
  }

  /**
    `updateCourse`: the same three checks, then ownership, then the update; `redirect_to`
    (default 'edit') selects the course list only when it is 'courses'. A refusal writes
    nothing; what the browser then receives is `UpdateReplyAsWritten` / `UpdateReply`.
   */
  function UpdateCourseSpec(courses: CourseTable, courseId: int, teacherId: int, f: CourseForm): (CourseTable, UpdateOutcome)
  {
    match ValidateCourse(f)
    case Some(e) => (courses, UpdateRejected(e))
    case None =>
      if !OwnsCourse(courses, courseId, teacherId) then (courses, UpdateRejected(CourseNotFound))
      else
        var before := courses[courseId];
        var after := UpdatedCourse(before, f);
        var target := if Truthy(f.redirectTo) then f.redirectTo.value else "edit";
        (courses[courseId := after],
         CourseUpdated(UpdateMessageOf(f, before.isPublished),
                       if target == "courses" then TeacherCourses else EditCourseForm(courseId)))
  }

  /** The message the handler as written shows for the same request. */
  function UpdateCourseMessageAsWritten(courses: CourseTable, courseId: int, teacherId: int, f: CourseForm): Option<UpdateMessage>
  {
    match UpdateCourseSpec(courses, courseId, teacherId, f).1
    case UpdateRejected(_) => None
    case CourseUpdated(_, _) => Some(UpdateMessageAsWritten(f, PublishRequested(f)))
  }

  /**
    The reply as written. Every refusal is thrown inside the `try` block, and the `catch` block
    redirects to a path built from `courseId`, which was declared inside the `try` block: after
    storing the error message it throws a ReferenceError, so no response is sent.
   */
  function UpdateReplyAsWritten(out: UpdateOutcome): CourseReply
  {
    match out
    case CourseUpdated(_, r) => Redirected(r)
    case UpdateRejected(_) => Unanswered
  }

  /** The reply as evidently intended: a refusal returns to the course's edit form. */
  function UpdateReply(courseId: int, out: UpdateOutcome): CourseReply
  {
    match out
    case CourseUpdated(_, r) => Redirected(r)
    case UpdateRejected(_) => Redirected(EditCourseForm(courseId))
  }

  /**
    As written, a refused update (a blank title, say) is never answered, and it is the only kind
    of request left unanswered; the tables are unchanged.
   */
  lemma UpdateRefusalUnanswered(courses: CourseTable, courseId: int, teacherId: int, f: CourseForm)
    ensures var (t, out) := UpdateCourseSpec(courses, courseId, teacherId, f);
      && (UpdateReplyAsWritten(out) == Unanswered <==> ValidateCourse(f).Some? || !OwnsCourse(courses, courseId, teacherId))
      && (UpdateReplyAsWritten(out) == Unanswered ==> t == courses)
    ensures f.title == None ==> UpdateReplyAsWritten(UpdateCourseSpec(courses, courseId, teacherId, f).1) == Unanswered
  {
    ValidateCourseMeaning(f);
  }

  /** As written, the "updated and published" message can never be shown. */
  lemma UpdateNeverAnnouncesPublishing(courses: CourseTable, courseId: int, teacherId: int, f: CourseForm)
    ensures UpdateCourseMessageAsWritten(courses, courseId, teacherId, f) != Some(UpdatedAndPublished)
  {
  }

  /** Publishing a draft: the handler as written says only "updated"; the intended message announces publication. */
  lemma PublishingDraftMessage(title: string)
    requires !AllWhiteSpace(title)
    ensures var f := CourseForm(Some(title), None, Some("math"), Some("beginner"), None, None, None, Some("publish"), None);
      var courses := map[7 := CourseData(title, None, "math", "beginner", None, Num(50), false, 2)];
      && UpdateCourseMessageAsWritten(courses, 7, 2, f) == Some(Updated)
      && UpdateCourseSpec(courses, 7, 2, f).1 == CourseUpdated(UpdatedAndPublished, EditCourseForm(7))
  {
    var f := CourseForm(Some(title), None, Some("math"), Some("beginner"), None, None, None, Some("publish"), None);
    var courses := map[7 := CourseData(title, None, "math", "beginner", None, Num(50), false, 2)];
    TrimBlank(title);
    assert ValidateCourse(f) == None;
    assert OwnsCourse(courses, 7, 2);
    assert PublishRequested(f);
  }

  /**
    An update is refused, changing nothing, exactly when a check fails or the course is not the
    teacher's. Otherwise only that course's row changes: it takes the form's trimmed title and
    publish flag, keeps its XP when the field is empty and keeps its author; the message
    announces publication exactly when a draft is published and unpublication exactly when a
    published course is asked to unpublish.
   */
  lemma UpdateCourseMeaning(courses: CourseTable, courseId: int, teacherId: int, f: CourseForm)
    ensures var (t, out) := UpdateCourseSpec(courses, courseId, teacherId, f);
      && (out.UpdateRejected? <==> ValidateCourse(f).Some? || !OwnsCourse(courses, courseId, teacherId))
      && (out.UpdateRejected? ==> out.error == if ValidateCourse(f).Some? then ValidateCourse(f).value else CourseNotFound)
      && (out.UpdateRejected? ==> t == courses && UpdateReply(courseId, out) == Redirected(EditCourseForm(courseId)))
      && (out.CourseUpdated? ==> UpdateReply(courseId, out) == Redirected(out.redirect))
      && (out.CourseUpdated? ==>
            && t.Keys == courses.Keys
            && (forall k :: k in courses && k != courseId ==> t[k] == courses[k])
            && t[courseId].title == Trim(f.title.value) && t[courseId].title != []
            && t[courseId].createdBy == teacherId
            && t[courseId].isPublished == PublishRequested(f)
            && (!Truthy(f.totalXp) ==> t[courseId].totalXp == courses[courseId].totalXp)
            && (out.message == UpdatedAndPublished <==>
                  StrictEquals(f.action, "publish") && !courses[courseId].isPublished)
            && (out.message == UpdatedAndPublished ==> t[courseId].isPublished)
            && (out.message == UpdatedAndUnpublished <==>
                  StrictEquals(f.action, "unpublish") && courses[courseId].isPublished)
            && (out.message == UpdatedAndUnpublished && !StrictEquals(f.isPublished, "true") ==>
                  !t[courseId].isPublished))
  {
    if ValidateCourse(f).None? && OwnsCourse(courses, courseId, teacherId) {
      var before := courses[courseId];
      var after := UpdatedCourse(before, f);
      ValidateCourseMeaning(f);
      assert after.title == Trim(f.title.value);
      assert UpdateCourseSpec(courses, courseId, teacherId, f).0 == courses[courseId := after];
      assert UpdateCourseSpec(courses, courseId, teacherId, f).1.message == UpdateMessageOf(f, before.isPublished);
    }
  }

  // ---------------------------------------------------------------- createAssignment

  /** The body fields `createAssignment` reads (the free-text ones are stored as given). */
  datatype AssignmentForm = AssignmentForm(
    title: Option<string>,
    dueDate: Option<string>,
    maxPoints: Option<string>,
    xpReward: Option<string>,
    assignmentType: Option<string>,
    allowLateSubmission: Option<string>,
    latePenalty: Option<string>)

  /** A row of `assignments` as `createAssignment` writes it; it is always created published. */
  datatype AssignmentData = AssignmentData(
    classId: int,
    teacherId: int,
    title: Option<string>,
    hasDueDate: bool,
    maxPoints: int,
    xpReward: int,
    assignmentType: string,
    allowLateSubmission: bool,
    latePenalty: int,
    published: bool)

  const DefaultMaxPoints := 100

  /** `createAssignment`: `None` when the class is not the teacher's, otherwise the row written. */
  function CreateAssignmentSpec(classes: map<int, ClassRow>, teacherId: int, classId: int, f: AssignmentForm): Option<AssignmentData>
  {
    if !OwnsClass(classes, classId, teacherId) then None
    else
      Some(AssignmentData(
        classId, teacherId, f.title, Truthy(f.dueDate),
        NumOr(ParseInt(f.maxPoints), DefaultMaxPoints),
        NumOr(ParseInt(f.xpReward), 0),
        if Truthy(f.assignmentType) then f.assignmentType.value else "homework",
        StrictEquals(f.allowLateSubmission, "true"),
        NumOr(ParseInt(f.latePenalty), 0),
        true))
  }

  /**
    An assignment is created exactly for a class the teacher owns. Its points are the parsed
    number unless that is missing, unparsable or 0, in which case they are 100 (so never 0);
    a written number is taken as is; the type defaults to homework; late submission is allowed
    only for the exact value 'true'; and it is published at once.
   */
  lemma CreateAssignmentDefaults(classes: map<int, ClassRow>, teacherId: int, classId: int, f: AssignmentForm)
    ensures CreateAssignmentSpec(classes, teacherId, classId, f).Some? <==> OwnsClass(classes, classId, teacherId)
    ensures match CreateAssignmentSpec(classes, teacherId, classId, f)
      case None => true
      case Some(a) =>
        && a.classId == classId && a.teacherId == teacherId
        && a.maxPoints != 0
        && (f.maxPoints.None? ==> a.maxPoints == DefaultMaxPoints)
        && (ParseInt(f.maxPoints).NaN? ==> a.maxPoints == DefaultMaxPoints)
        && (forall n: nat :: n != 0 && f.maxPoints == Some(Decimal(n)) ==> a.maxPoints == n)
        && (f.maxPoints == Some("0") ==> a.maxPoints == DefaultMaxPoints)
        && (!Truthy(f.assignmentType) ==> a.assignmentType == "homework")
        && (a.allowLateSubmission <==> f.allowLateSubmission == Some("true"))
        && a.published
  {
    if OwnsClass(classes, classId, teacherId) {
      forall n: nat | n != 0 && f.maxPoints == Some(Decimal(n))
        ensures ParseInt(f.maxPoints) == Num(n)
      {
        ParseIntDecimal(n);
      }
      if f.maxPoints == Some("0") {
        ParseIntDecimal(0);
        assert Decimal(0) == "0";
      }
    }
  }
}
