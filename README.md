# FUNLEARN core, modelled in Dafny

FUNLEARN is a gamified learning web application. Students open and complete lessons
and earn XP and levels. Teachers create courses, run classes, enrol students and follow
their progress. This project models the logic those request handlers run once the
database rows are in hand. The database is replaced by in-memory tables.

- **Progress ledger and XP award** (`ledger.dfy`, `xp.dfy`)
  - `startLesson` is a get-or-create on the (student, lesson) progress table.
  - `completeLesson` marks the row completed, then credits `xp_reward || 10`, sets the level to `floor(xp / 100) + 1`, reports `leveledUp`, and copies the new XP and level into the session.
  - The student dashboard shows the completed count.
  - As in the code, completion has no "already completed" guard and no transaction.
- **Enrollment registry** (`enrollment.dfy`): `addStudent` has three outcomes on the table keyed by (class, student):
  - an active row is a conflict;
  - any other row is reactivated;
  - a missing row is created active.
  - A refusal writes nothing. As written, its reply is never sent (see "Findings").
- **Progress aggregation** (`aggregation.dfy`, `dashboard.dfy`)
  - `viewStudentProgress` and `viewStudentDetails` group rows by course with a loop. They also compute course completion, the overall percentage, the newest five completions and the completed and in-progress course counts.
  - `trackProgress` gives per-student progress and the class average.
  - The teacher dashboard has course and class statistics; `manageAssignments` has assignment statistics.
- **Form validation and defaulting** (`forms.dfy`): `createCourse`, `updateCourse` and `createAssignment`. As with `addStudent`, a refused update writes nothing and, as written, is never answered.
- **Access gates and demo login** (`auth.dfy`)
  - The three-account demo login writes the session and redirects by role.
  - `requireAuth` and `requireRole` are modelled, along with the role every guarded route demands.

Supporting modules:

- `js.dfy`: the JavaScript semantics the handlers depend on. This covers `||` on falsy values, `trim` with ECMAScript white space, `parseInt` without a radix, and `Math.round` of a ratio. `Math.round(p / q)` is computed exactly as `floor((2p + q) / 2q)`.
- `schema.dfy`: the rows and column defaults.
- `store.dfy`: the `Db` class holding the tables.
- `session.dfy`: the session object.

State-changing handlers are methods, each proved equal to a specification function:

- `Ledger.StartLesson` and `Ledger.CompleteLesson` on `Db` and `Session`;
- `Enrollment.AddStudent` on `Db`;
- `Auth.Login` on `Session`, and `Auth.LoginAsWrittenHandler`, the same handler with the lookup as written.

`Aggregation.GroupByCourse` is the grouping loop, proved against `Aggregation.Group`. Everything else is functions, with lemmas about them.

The model follows the code as written, including these behaviours a reader may not expect:

- Completing a lesson twice credits XP twice.
- Completion is not atomic: when the user row is missing, the progress row has already been updated.
- Completion never writes the row's `xp_earned`.
- `viewStudentDetails` accepts an enrollment in any status, while `viewStudentProgress` requires an active one.

## Model

| member | source | states |
|---|---|---|
| `Xp.XpEarned` | controllers/StudentController.js:212 | the credit is the lesson's reward when it is non-zero, and 10 when it is missing or 0; it is never 0 |
| `Xp.LevelFor` | controllers/StudentController.js:215 | the level is the one whose 100-XP band contains the XP: `(l-1)*100 <= xp < l*100` |
| `Xp.ApplyCompletion` | controllers/StudentController.js:210-216 | the award of one completion: the credit, the new XP `(xp \|\| 0) + credit`, its level, and `leveledUp` against the stored level |
| `Xp.LevelAtLeastOne` | controllers/StudentController.js:215 | non-negative XP gives level 1 or more |
| `Xp.LevelMonotone` | controllers/StudentController.js:215 | more XP never gives a lower level |
| `Xp.CompletionRaisesXp` | controllers/StudentController.js:211-216 | with a missing or non-negative reward, a completion strictly raises XP (missing XP counts as 0), and the new level is at least the level the old XP implies; a stored level above that can still be lowered |
| `Xp.LeveledUpMeaning` | controllers/StudentController.js:214-216 | `leveledUp` holds iff the new level exceeds the stored one (missing counts as 1); when the stored level matches the XP, it holds iff the XP crossed into a higher 100-band |
| `Xp.CompletionExamples` | controllers/StudentController.js:210-216 | 90 XP plus 15 gives 105, level 2, levelled up; 105 plus a 0 reward earns 10 and stays at level 2; an empty user earns 10 at level 1 |
| `Ledger.StartLesson` | controllers/StudentController.js:141-180 | the new progress table and the result are those of `StartLessonSpec`: lesson missing gives a 404 with nothing written; an existing row is returned as is; otherwise an in-progress 0% row is created |
| `Ledger.StartLessonSpec` | controllers/StudentController.js:141-180 | the specification of `startLesson` that the method and the lemmas below refer to |
| `Ledger.StartNeverDowngrades` | controllers/StudentController.js:158-173 | starting returns the existing row unchanged (a completed row stays completed), keeps every other row, and adds at most the one pair, in progress at 0% |
| `Ledger.StartIdempotent` | controllers/StudentController.js:158-173 | starting the same lesson twice equals starting it once |
| `Ledger.StartFailureChangesNothing` | controllers/StudentController.js:154-156 | a missing lesson or a session without a user leaves the table unchanged and shows no lesson |
| `Ledger.CompleteLesson` | controllers/StudentController.js:183-237 | the new user rows, progress table and response are those of `CompleteLessonSpec`; a credited session user carries the new XP and level, and any other outcome leaves the session untouched |
| `Ledger.CompleteLessonSpec` | controllers/StudentController.js:183-237 | the specification of `completeLesson`: 404 before any write, then the progress write, the user lookup, the credit |
| `Ledger.SessionMatchesStoredUser` | controllers/StudentController.js:218-225 | after a credited completion, the session's XP and level equal the stored user's |
| `Ledger.CompleteUnknownLesson` | controllers/StudentController.js:189-192 | completing a missing lesson answers not-found and changes neither progress nor users |
| `Ledger.CompleteCredits` | controllers/StudentController.js:194-221 | the user gets `(xp or 0) + (reward or 10)` and the matching level, and no other user changes; an existing row becomes completed at 100% with `completed_at` set and its `xp_earned` untouched; a missing row is not created |
| `Ledger.CompleteIsNotAtomic` | controllers/StudentController.js:202-221 | with the user row missing, the handler fails yet the progress row is already marked completed |
| `Ledger.CompleteTwiceCreditsTwice` | controllers/StudentController.js:194-221 | a second completion of the same lesson credits the reward again (twice the reward in total) and re-stamps the row |
| `Ledger.StartThenComplete` | controllers/StudentController.js:158-207 | start followed by complete leaves the row completed at 100% and credits the user |
| `Ledger.CompletedCountAfterComplete` | controllers/StudentController.js:24-30 | completion raises the dashboard's completed count by one exactly when the student had a not-yet-completed row for the lesson |
| `Ledger.StudentDashboardSpec` | controllers/StudentController.js:52-59 | the dashboard is shown exactly when the user row exists |
| `Ledger.DashboardShowsCredit` | controllers/StudentController.js:53-59 | after a credited completion, the dashboard shows the new XP and level (through `\|\| 0` and `\|\| 1`) and the updated completed count |
| `Schema.FindStudentByEmail` | controllers/TeacherController.js:710-715 | the result is a user with exactly that e-mail and role student; none when no such user exists (e-mails are unique, models/User.js:16-20) |
| `Enrollment.BlankEmailMeaning` | controllers/TeacherController.js:693-695 | an e-mail is refused as blank iff it is missing or consists only of white space |
| `Enrollment.AddStudent` | controllers/TeacherController.js:684-745 | the new enrollment table and the outcome are those of `AddStudentSpec` |
| `Enrollment.AddStudentSpec` | controllers/TeacherController.js:684-745 | the specification of `addStudent`: the refusal checks in order, then conflict, reactivation or creation |
| `Enrollment.AddReplyAsWritten` | controllers/TeacherController.js:749-754 | as written, a success redirects to the class page and a refusal sends nothing |
| `Enrollment.AddReply` | controllers/TeacherController.js:749-753 | as intended, every request is answered with the class page |
| `Enrollment.AddRefusalUnanswered` | controllers/TeacherController.js:686-754 | as written, a request is left unanswered iff it is refused (a missing e-mail, say), and then nothing is written |
| `Enrollment.AddStudentReplies` | controllers/TeacherController.js:686-754 | as intended, every request is answered with the class page, a refused one without any write; on success the reply agrees with the code as written |
| `Enrollment.AddStudentCases` | controllers/TeacherController.js:721-745 | for a valid request: an active pair is an "already enrolled" conflict and nothing changes; a non-active pair is reactivated; a missing pair is created active; afterwards the pair has exactly one active row and no other row changes |
| `Enrollment.AddStudentRefusalWritesNothing` | controllers/TeacherController.js:693-731 | a refused request leaves the table unchanged |
| `Enrollment.AddStudentRefusals` | controllers/TeacherController.js:693-719 | refusal with each message holds iff its cause: blank e-mail; then class not the teacher's; then no student with the trimmed e-mail |
| `Enrollment.AddStudentTwice` | controllers/TeacherController.js:729-731 | repeating a successful request is the "already enrolled" conflict |
| `Enrollment.AddStudentCountsOneMore` | controllers/TeacherController.js:729-745 | a successful request raises the class's active head count by exactly one; a refused one leaves it unchanged |
| `Aggregation.CountDoneAll` | controllers/TeacherController.js:830 | the completed count equals the row count iff every row is completed |
| `Aggregation.CourseRows` | controllers/TeacherController.js:834-853 | the rows of one course, the reference for a course group: each has that course and comes from the input, and every input row of that course is in it |
| `Aggregation.GroupByCourse` | controllers/TeacherController.js:834-853 | the loop builds exactly the grouping `Group(rows)` |
| `Aggregation.GroupMatchesCourseRows` | controllers/TeacherController.js:835-853 | a course has a group iff some row reaches it; its group counts that course's rows, its completed rows and their XP; rows without a lesson-module-course chain are skipped |
| `Aggregation.GroupTallyBounds` | controllers/TeacherController.js:1277-1292 | every group touched at least one row and completed at most the rows it touched |
| `Aggregation.CourseViewMeaning` | controllers/TeacherController.js:869-875 | a course is shown completed iff every touched lesson of it is completed; its progress is in 0..100 (100 when completed); its XP is that of its completed rows |
| `Aggregation.Completions` | controllers/TeacherController.js:876-877 | the filtered rows all have a completion time, form a sub-multiset of the rows, and include every completed row |
| `Aggregation.SortByDateSorts` | controllers/TeacherController.js:878 | the sort orders rows newest first and is a permutation |
| `Aggregation.InsertByDateKeepsOrder` | controllers/TeacherController.js:878 | inserting into a newest-first list keeps it newest first |
| `Aggregation.RecentActivityIsNewestFive` | controllers/TeacherController.js:876-885 | recent activity holds min(5, number completed) rows, newest first, each a completed row of the student; it is a prefix of the sorted completions, and no omitted row is newer than a shown one |
| `Aggregation.ViewStudentProgressGates` | controllers/TeacherController.js:766-828 | the progress page is shown iff the class is the teacher's, the enrollment is active, and a user with that id and role student exists |
| `Aggregation.ViewStudentProgressSpec` | controllers/TeacherController.js:758-885 | the specification of `viewStudentProgress`: class ownership, then an active enrollment, then the student lookup, then the page |
| `Aggregation.OverallProgressBounds` | controllers/TeacherController.js:863-868 | overall progress is in 0..100; it is 0 when nothing is completed and 100 when every row is; completed never exceeds total |
| `Aggregation.CourseCountsPartition` | controllers/TeacherController.js:1294-1295 | completed and in-progress courses are disjoint and number at most the groups; every other group has no completed lesson |
| `Aggregation.DetailStatsOf` | controllers/TeacherController.js:1271-1295 | the statistics of `viewStudentDetails`: XP (`xp \|\| 0`), level (`level \|\| 1`), completed and in-progress course counts, and hours rounded from seconds |
| `Aggregation.ViewStudentDetailsSpec` | controllers/TeacherController.js:1205-1318 | the specification of `viewStudentDetails`: class ownership, then an enrollment in any status with its user, then the page |
| `Aggregation.DetailsAcceptAnyEnrollment` | controllers/TeacherController.js:1226-1266 | for a dropped enrollment, the details page is shown while the progress page is refused |
| `Aggregation.ActiveMembers` | controllers/TeacherController.js:1364-1372 | `trackProgress` lists the candidates whose enrollment in the class is active, and every such candidate |
| `Aggregation.Summaries` | controllers/TeacherController.js:1398-1418 | one summary per listed student, in order |
| `Aggregation.SummaryProgressBounds` | controllers/TeacherController.js:1400-1402 | per-student progress is in 0..100: 0 without rows or without completions, 100 when all rows are completed |
| `Aggregation.AverageWithin` | controllers/TeacherController.js:1432-1434 | the class average is 0 without students and otherwise lies between the lowest and the highest student progress |
| `Aggregation.TrackProgressSpec` | controllers/TeacherController.js:1342-1437 | the specification of `trackProgress`: class ownership, then one summary per active student and the class statistics |
| `Aggregation.TrackProgressListsActiveStudents` | controllers/TeacherController.js:1364-1418 | on an owned class, every listed summary is that of an actively enrolled candidate, and every actively enrolled candidate's summary is listed |
| `Aggregation.TrackProgressStats` | controllers/TeacherController.js:1390-1437 | refused iff the class is not the teacher's; otherwise one summary per active student; head count and "active this week" are their number; the completed total is the sum of theirs; the average is in 0..100 |
| `Dashboard.Newest` | controllers/TeacherController.js:21-26 | the dashboard keeps at most the first ten rows the query returns |
| `Dashboard.PublishedPlusDrafts` | controllers/TeacherController.js:49-53 | published plus draft courses equals all courses |
| `Dashboard.CourseStatsAddUp` | controllers/TeacherController.js:48-53 | course total is published plus draft, and at most ten |
| `Dashboard.CourseStatsOf` | controllers/TeacherController.js:19-53 | the course statistics of the teacher dashboard over the ten newest courses |
| `Dashboard.ActivePlusInactive` | controllers/TeacherController.js:102-107 | active plus inactive classes equals all classes |
| `Dashboard.SumStudentsCountsRows` | controllers/TeacherController.js:71-74 | summing per-class active counts over distinct classes counts each active enrollment of those classes once |
| `Dashboard.ClassStatsAddUp` | controllers/TeacherController.js:101-107 | class total is active plus inactive, and at most ten; with distinct class ids, the student total is the number of active enrollments in the shown classes |
| `Dashboard.ClassStatsOf` | controllers/TeacherController.js:59-107 | the class statistics of the teacher dashboard over the ten newest classes |
| `Dashboard.StatusesPartitionAssignments` | controllers/TeacherController.js:1648-1654 | published, draft and closed assignments add up to all assignments |
| `Dashboard.PendingWithinSubmissions` | controllers/TeacherController.js:1651-1653 | submitted plus graded grades never exceed all grade rows |
| `Dashboard.AssignmentStatsAddUp` | controllers/TeacherController.js:1606-1654 | shown iff the class is the teacher's; active + draft + closed = total; pending review + graded <= submissions; per assignment, graded <= submissions |
| `Dashboard.ManageAssignmentsSpec` | controllers/TeacherController.js:1606-1654 | the specification of `manageAssignments`: class ownership, then per-assignment counts and the statistics |
| `Forms.ValidateCourseMeaning` | controllers/TeacherController.js:270-278 | the form is refused with the first failing check iff: title missing or all white space; then category empty; then difficulty empty |
| `Forms.CreateCourseDefaults` | controllers/TeacherController.js:270-316 | a created course has a trimmed non-empty title and the teacher as author; its XP is 50 when the field is empty, and a written number is taken as is; it is published iff action is 'publish' or the checkbox is 'true', and the message agrees; it redirects to the dashboard iff `redirect_to` is 'dashboard'; a refusal returns to the create form with the failing check |
| `Forms.CreateCourseZeroXp` | controllers/TeacherController.js:287 | an XP field "0" stores 0, not the default 50 |
| `Forms.CreateCourseSpec` | controllers/TeacherController.js:250-325 | the specification of `createCourse`: the three checks, then the row written, the message kind and the redirect |
| `Forms.UpdateCourseSpec` | controllers/TeacherController.js:388-461 | the specification of `updateCourse`, with the intended message |
| `Forms.UpdateReplyAsWritten` | controllers/TeacherController.js:455-470 | as written, a success redirects as `redirect_to` asks and a refusal sends nothing |
| `Forms.UpdateReply` | controllers/TeacherController.js:455-470 | as intended, a refusal returns to the course's edit form |
| `Forms.UpdateRefusalUnanswered` | controllers/TeacherController.js:388-470 | as written, an update is left unanswered iff it is refused (a missing title, say), and then nothing is written |
| `Forms.UpdateNeverAnnouncesPublishing` | controllers/TeacherController.js:446-452 | as written, the "updated and published" message is unreachable |
| `Forms.PublishingDraftMessage` | controllers/TeacherController.js:441-452 | publishing a draft shows only "updated" as written, while the intended message announces publication |
| `Forms.UpdateCourseMeaning` | controllers/TeacherController.js:388-461 | refused, with nothing changed, iff a check fails or the course is not the teacher's; the error is the first failing check, else "not found"; the intended reply returns to the edit form. Otherwise only that course changes: trimmed title, requested flag, XP kept when the field is empty, author kept; the message announces publishing iff a draft is published, and unpublishing iff a published course is unpublished |
| `Forms.CreateAssignmentDefaults` | controllers/TeacherController.js:1809-1849 | created iff the class is the teacher's; points are the parsed number unless it is missing, unparsable or 0 (then 100), so never 0; the type defaults to homework; late submission only for 'true'; always published |
| `Forms.CreateAssignmentSpec` | controllers/TeacherController.js:1809-1849 | the specification of `createAssignment`: class ownership, then the row written with its defaults |
| `Js.TrimBlank` | controllers/TeacherController.js:270 | `trim()` gives the empty string iff the string is all ECMAScript white space |
| `Js.ParseIntDecimal` | controllers/TeacherController.js:1838 | `parseInt` reads back any decimal numeral exactly |
| `Js.RoundRatio` | controllers/TeacherController.js:1432-1434 | the result is `p/q` rounded half up: `2q*r <= 2p+q < 2q*r + 2q` |
| `Js.PercentBounds` | controllers/TeacherController.js:1402 | a rounded percentage of `c` out of `t` (`0 <= c <= t`) is in 0..100, 100 for `c = t > 0`, 0 for `c = 0` |
| `Auth.Login` | routes/funlearn.js:14-45 | the answer is that of `LoginSpec`; success stores the account id and the account in the session; failure leaves the session unchanged |
| `Auth.LoginSpec` | routes/funlearn.js:14-40 | the login decision: a name the table defines, with exactly its password, logs in to its role's dashboard |
| `Auth.LoginAcceptsExactlyTheTable` | routes/funlearn.js:19-37 | login succeeds iff the pair is one of admin/admin123, teacher1/teacher123 and student1/student123, each redirected to its role's dashboard |
| `Auth.Gate` | routes/funlearn.js:58-72 | a request passes iff `userId` is truthy and the session user has the role; it is redirected to /login iff `userId` is not truthy (otherwise 403) |
| `Auth.RoutesGatedByPrefix` | routes/funlearn.js:74-123 | every /student, /teacher and /admin route demands the role its first path segment names |
| `Auth.LoginOpensOwnDashboardOnly` | routes/funlearn.js:26-72 | after a successful login, the session passes the gates of its own dashboard and gets 403 on the other dashboards |
| `Auth.LoginAsWritten` | routes/funlearn.js:25-40 | the login answer with the lookup as written, which also finds inherited members |
| `Auth.LoginAsWrittenHandler` | routes/funlearn.js:14-40 | as written: the answer is `LoginAsWritten`'s; an inherited member leaves the session with no user id and no account, so every guarded route redirects to /login; a rejection leaves the session unchanged |
| `Auth.InheritedNameLogsIn` | routes/funlearn.js:25-37 | as written, the name "constructor" or "__proto__" with no password counts as a login, while `LoginSpec` refuses it |
| `Auth.LoginAgreesOffInheritedNames` | routes/funlearn.js:25-40 | apart from inherited member names, the lookup as written and `LoginSpec` agree |

## Left out

- Schema.FindStudentByEmail: compares e-mails exactly. The database is MySQL with no collation set, so its default case-insensitive collation matches "Jane@School.org" to a stored "jane@school.org"; the model refuses that request as "no such student".
- Auth.LoginAsWrittenHandler: for an inherited member, the code stores the member itself (a value with no `id` and no `role`) as the session's user; the model stores no account. Every gate treats the two alike.
- Replies after a database failure are not modelled. The `catch` blocks of `createAssignment`, `viewStudentProgress`, `viewStudentDetails` and `manageAssignments` name a `classId` declared inside their `try` block. They have the scoping defect of the last two findings, but only a failing query reaches them.
- Floating point:
  - Percentages and averages are computed with exact rational rounding. The code computes `Math.round((c / t) * 100)` in doubles, which can differ on an exact half.
  - Integers are unbounded; there are no 2^53 limits.
- Database access:
  - Queries are parameters. Each handler receives the rows its query returns, and the sort order is not modelled (`created_at` / `updated_at DESC`).
  - The dashboard's ten-row limit is modelled. The database-side `COUNT`s are set cardinalities.
  - Course entries are a map keyed by course id; the order `Object.values` gives them is not modelled.
- Database constraints:
  - A course or assignment row is produced even where the database would refuse it: an out-of-enum `difficulty_level` or `assignment_type`, a missing assignment title, a `NaN` duration, a `NaN` `total_xp` (from a non-numeric `xp_reward` in `createCourse` or `total_xp` in `updateCourse`).
  - Failures of `create` / `update` themselves are not modelled.
- `student_progress` has no unique index. The model keys it by (student, lesson), which the sequential get-or-create keeps; concurrent requests could create duplicates.
- Concurrency and transactions: handlers run one at a time.
- Presentation:
  - names, titles, descriptions, date formatting, class codes and message texts;
  - only the kind of message is modelled;
  - the student dashboard's in-progress list, available courses and mock badges.
- `Aggregation.RecentActivityIsNewestFive`: does not state that completions with equal times keep their original relative order. `Array.prototype.sort` is stable, and so is the insertion sort modelled.
- Request bodies are missing or strings. Arrays and objects produced by the body parser are not modelled.
- Other parts of the application:
  - registration and logout;
  - password hashing (bcrypt);
  - random class codes;
  - the admin controller;
  - the mock-data handlers (reports, leaderboard, badges);
  - the duplicated class-management handlers;
  - module, lesson and quiz creation.

## Findings

| source | as written | input that shows it | evidently intended | confidence | as-written member | corrected member |
|---|---|---|---|---|---|---|
| controllers/TeacherController.js:446-452 | the message tests `course.is_published` after `course.update` has already stored the new flag, so `action === 'publish'` always finds it true | a draft course, a valid form, `action = 'publish'` | compare with the flag the course had before the update, so publishing a draft says "updated and published" | not executed | `Forms.PublishingDraftMessage` | `Forms.UpdateCourseMeaning` |
| routes/funlearn.js:25-26 | `demoAccounts[username]` also finds members inherited from `Object.prototype`; they have no `password`, which equals a missing password; the handler then stores an undefined user id in the session, logging out whoever was logged in (`Auth.LoginAsWrittenHandler`) | username `constructor` (or `__proto__`), no password field | accept only names the table itself defines | not executed | `Auth.InheritedNameLogsIn` | `Auth.LoginAcceptsExactlyTheTable` |
| controllers/TeacherController.js:463-470 | the refusals of `updateCourse` are thrown inside `try`, and the `catch` block redirects to a path built from `courseId`, a `const` declared inside the `try` block: it throws a ReferenceError after storing the error message, so no response is sent | `updateCourse` with an empty title | redirect to the course's edit form with the error message | not executed | `Forms.UpdateRefusalUnanswered` | `Forms.UpdateCourseMeaning` |
| controllers/TeacherController.js:750-753 | the refusals of `addStudent` are thrown inside `try`, and the `catch` block redirects to a path built from `classId`, a `const` declared inside the `try` block: it throws a ReferenceError after storing the error message, so no response is sent | `addStudent` with no e-mail | redirect to the class page with the error message | not executed | `Enrollment.AddRefusalUnanswered` | `Enrollment.AddStudentReplies` |
