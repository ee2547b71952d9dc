/**
  The demo login and the access gates of routes/funlearn.js: a fixed table of three
  accounts, the `/auth/login` handler that writes the session and redirects by role,
  the `requireAuth` and `requireRole` middleware, and the role each route group demands.
 */
module Auth {
  import opened Js
  import opened Schema
  import opened Sessions

  /** The demo account table, keyed by user name. */
  const DemoAccounts: map<string, Account> := map[
    "admin" := Account(1, "admin123", Admin, "System", "Administrator", None, None),
    "teacher1" := Account(2, "teacher123", Teacher, "John", "Teacher", None, None),
    "student1" := Account(3, "student123", Student, "Jane", "Student", Some(250), Some(3))]

  /** The three dashboards a login redirects to. */
  datatype Page = AdminDashboard | TeacherDashboard | StudentDashboard

  /** A path as its segments: "/admin/dashboard" is ["admin", "dashboard"]. */
  type Path = seq<string>

  function PagePath(p: Page): Path
  {
    match p
    case AdminDashboard => ["admin", "dashboard"]
    case TeacherDashboard => ["teacher", "dashboard"]
    case StudentDashboard => ["student", "dashboard"]
  }

  /** The redirect by role: admin and teacher have their own dashboards, every other role the student's. */
  function HomeOf(role: Role): Page
  {
    match role
    case Admin => AdminDashboard
    case Teacher => TeacherDashboard
    case _ => StudentDashboard
  }

  /** What the login handler answers: a redirect, or the login page with "Invalid username or password". */
  datatype LoginResponse = LoggedIn(account: Account, home: Page) | InvalidCredentials

  /** The login decision: the name must be a key of the table and the password must match it exactly. */
  function LoginSpec(username: Option<string>, password: Option<string>): LoginResponse
  {
    if username.Some? && username.value in DemoAccounts && password == Some(DemoAccounts[username.value].password)
    then LoggedIn(DemoAccounts[username.value], HomeOf(DemoAccounts[username.value].role))
    else InvalidCredentials
  }

  /** The `/auth/login` handler: on success it stores the account's id and the account in the session. */
  method Login(session: Session, username: Option<string>, password: Option<string>) returns (r: LoginResponse)
    modifies session
    ensures r == LoginSpec(username, password)
    ensures r.LoggedIn? ==> session.userId == Some(r.account.id) && session.user == Some(r.account)
    ensures r.InvalidCredentials? ==> session.userId == old(session.userId) && session.user == old(session.user)
  {
    if username.None? || username.value !in DemoAccounts {
      return InvalidCredentials;
    }
    var user := DemoAccounts[username.value];
    if password != Some(user.password) {
      return InvalidCredentials;
    }
    session.userId := Some(user.id);
    session.user := Some(user);
    if user.role == Admin {
      r := LoggedIn(user, AdminDashboard);
    } else if user.role == Teacher {
      r := LoggedIn(user, TeacherDashboard);
    } else {
      r := LoggedIn(user, StudentDashboard);
    }
  }

  /**
    Login succeeds exactly for the three name and password pairs of the table, and each lands
    on the dashboard of its role.
   */
  lemma LoginAcceptsExactlyTheTable(username: Option<string>, password: Option<string>)
    ensures LoginSpec(username, password).LoggedIn? <==>
      || (username == Some("admin") && password == Some("admin123"))
      || (username == Some("teacher1") && password == Some("teacher123"))
      || (username == Some("student1") && password == Some("student123"))
    ensures username == Some("admin") && password == Some("admin123") ==>
      LoginSpec(username, password) == LoggedIn(DemoAccounts["admin"], AdminDashboard)
    ensures username == Some("teacher1") && password == Some("teacher123") ==>
      LoginSpec(username, password) == LoggedIn(DemoAccounts["teacher1"], TeacherDashboard)
    ensures username == Some("student1") && password == Some("student123") ==>
      LoginSpec(username, password) == LoggedIn(DemoAccounts["student1"], StudentDashboard)
  {
  }

  // ---------------------------------------------------------------- gates

  /** `requireAuth`: the session's `userId` must be truthy (set and not 0). */
  predicate RequireAuth(userId: Option<int>)
  {
    userId.Some? && userId.value != 0
  }

  /** `requireRole(role)`: the session's user must exist and have that role. */
  predicate RequireRole(user: Option<Account>, role: Role)
  {
    user.Some? && user.value.role == role
  }

  /** What the two middlewares do in turn: pass, redirect to /login, or answer 403. */
  datatype GateResult = Pass | RedirectToLogin | AccessDenied

  function Gate(userId: Option<int>, user: Option<Account>, role: Role): (g: GateResult)
    ensures g == Pass <==> RequireAuth(userId) && RequireRole(user, role)
    ensures g == RedirectToLogin <==> !RequireAuth(userId)
  {
    if !RequireAuth(userId) then RedirectToLogin
    else if !RequireRole(user, role) then AccessDenied
    else Pass
  }

  datatype Verb = Get | Post | Put | Delete

  /** A guarded route: its verb, its path pattern and the role its `requireRole` names. */
  datatype Route = Route(verb: Verb, path: Path, role: Role)

  const StudentRoutes: seq<Route> := [
    Route(Get, ["student", "dashboard"], Student),
    Route(Get, ["student", "courses"], Student),
    Route(Get, ["student", "courses", ":courseId"], Student),
    Route(Get, ["student", "lessons", ":lessonId"], Student),
    Route(Post, ["student", "lessons", ":lessonId", "complete"], Student),
    Route(Get, ["student", "leaderboard"], Student),
    Route(Get, ["student", "badges"], Student)]

  const TeacherRoutes: seq<Route> := [
    Route(Get, ["teacher", "dashboard"], Teacher),
    Route(Get, ["teacher", "courses"], Teacher),
    Route(Get, ["teacher", "courses", "create"], Teacher),
    Route(Post, ["teacher", "courses"], Teacher),
    Route(Get, ["teacher", "courses", ":courseId", "edit"], Teacher),
    Route(Post, ["teacher", "courses", ":courseId", "edit"], Teacher),
    Route(Post, ["teacher", "modules"], Teacher),
    Route(Post, ["teacher", "lessons"], Teacher),
    Route(Post, ["teacher", "quizzes"], Teacher),
    Route(Get, ["teacher", "classes"], Teacher),
    Route(Get, ["teacher", "classes", "create"], Teacher),
    Route(Post, ["teacher", "classes", "create"], Teacher),
    Route(Get, ["teacher", "classes", ":classId"], Teacher),
    Route(Get, ["teacher", "classes", ":classId", "manage"], Teacher),
    Route(Get, ["teacher", "classes", ":classId", "assignments"], Teacher),
    Route(Post, ["teacher", "classes", ":classId", "assignments"], Teacher),
    Route(Get, ["teacher", "classes", ":classId", "grades"], Teacher),
    Route(Get, ["teacher", "classes", ":classId", "settings"], Teacher),
    Route(Post, ["teacher", "classes", ":classId", "settings"], Teacher),
    Route(Post, ["teacher", "classes", ":classId", "students"], Teacher),
    Route(Get, ["teacher", "classes", ":classId", "students", ":studentId", "progress"], Teacher),
    Route(Get, ["teacher", "classes", ":classId", "students", ":studentId"], Teacher),
    Route(Get, ["teacher", "classes", ":classId", "progress"], Teacher),
    Route(Get, ["teacher", "classes", ":classId", "report"], Teacher)]

  const AdminRoutes: seq<Route> := [
    Route(Get, ["admin", "dashboard"], Admin),
    Route(Get, ["admin", "users"], Admin),
    Route(Get, ["admin", "users", "create"], Admin),
    Route(Get, ["admin", "users", ":userId"], Admin),
    Route(Post, ["admin", "users"], Admin),
    Route(Put, ["admin", "users", ":userId"], Admin),
    Route(Delete, ["admin", "users", ":userId"], Admin),
    Route(Get, ["admin", "courses"], Admin),
    Route(Post, ["admin", "courses", ":courseId", "approve"], Admin),
    Route(Get, ["admin", "badges"], Admin),
    Route(Post, ["admin", "badges"], Admin),
    Route(Get, ["admin", "analytics"], Admin),
    Route(Get, ["admin", "audit-logs"], Admin),
    Route(Get, ["admin", "settings"], Admin)]

  /** The guarded routes, in the order they are registered. */
  const Routes: seq<Route> := StudentRoutes + TeacherRoutes + AdminRoutes

  /** The role a path's first segment names: /student/, /teacher/ or /admin/. */
  function RoleOfPath(path: Path): Option<Role>
  {
    if path == [] then None
    else if path[0] == "student" then Some(Student)
    else if path[0] == "teacher" then Some(Teacher)
    else if path[0] == "admin" then Some(Admin)
    else None
  }

  lemma StudentRoutesGated()
    ensures forall i :: 0 <= i < |StudentRoutes| ==> RoleOfPath(StudentRoutes[i].path) == Some(StudentRoutes[i].role)
  {
  }

  lemma TeacherRoutesGated()
    ensures forall i :: 0 <= i < |TeacherRoutes| ==> RoleOfPath(TeacherRoutes[i].path) == Some(TeacherRoutes[i].role)
  {
  }

  lemma AdminRoutesGated()
    ensures forall i :: 0 <= i < |AdminRoutes| ==> RoleOfPath(AdminRoutes[i].path) == Some(AdminRoutes[i].role)
  {
  }

  /** Every guarded route demands the role its first path segment names. */
  lemma RoutesGatedByPrefix()
    ensures forall i :: 0 <= i < |Routes| ==> RoleOfPath(Routes[i].path) == Some(Routes[i].role)
  {
    StudentRoutesGated();
    TeacherRoutesGated();
    AdminRoutesGated();
    forall i | 0 <= i < |Routes|
      ensures RoleOfPath(Routes[i].path) == Some(Routes[i].role)
    {
      var a, b := |StudentRoutes|, |StudentRoutes| + |TeacherRoutes|;
      if i < a {
        assert Routes[i] == StudentRoutes[i];
      } else if i < b {
        assert Routes[i] == TeacherRoutes[i - a];
      } else {
        assert Routes[i] == AdminRoutes[i - b];
      }
    }
  }

  /** Where a request to a guarded path ends up for a given session. */
  function Dispatch(path: Path, userId: Option<int>, user: Option<Account>): Option<GateResult>
  {
    match RoleOfPath(path)
    case None => None
    case Some(role) => Some(Gate(userId, user, role))
  }

  /**
    A successful login leaves a session that passes the gates of its own dashboard, while the
    dashboards of the other roles answer 403; a failed login changes no session.
   */
  lemma LoginOpensOwnDashboardOnly(username: Option<string>, password: Option<string>)
    ensures match LoginSpec(username, password)
      case InvalidCredentials => true
      case LoggedIn(acct, home) =>
        && Dispatch(PagePath(home), Some(acct.id), Some(acct)) == Some(Pass)
        && forall p :: p != home ==> Dispatch(PagePath(p), Some(acct.id), Some(acct)) == Some(AccessDenied)
  {
    assert RoleOfPath(PagePath(AdminDashboard)) == Some(Admin);
    assert RoleOfPath(PagePath(TeacherDashboard)) == Some(Teacher);
    assert RoleOfPath(PagePath(StudentDashboard)) == Some(Student);
    var out := LoginSpec(username, password);
    if out.LoggedIn? {
      assert username.value in DemoAccounts;
      assert out.account.role != Parent && out.account.id != 0;
    }
  }

  // ---------------------------------------------------------------- the lookup as written

  /**
    The names every plain JavaScript object inherits from `Object.prototype`: looking one of
    them up in an object literal finds a value, though the literal does not define it.
   */
  const InheritedNames: set<string> := {
    "constructor", "__proto__", "toString", "toLocaleString", "valueOf", "hasOwnProperty",
    "isPrototypeOf", "propertyIsEnumerable", "__defineGetter__", "__defineSetter__",
    "__lookupGetter__", "__lookupSetter__"}

  /** What `demoAccounts[username]` finds: an account, an inherited member, or nothing. */
  datatype Lookup = OwnAccount(account: Account) | InheritedMember | NoEntry

  function LookupAsWritten(username: Option<string>): Lookup
  {
    if username.None? then NoEntry
    else if username.value in DemoAccounts then OwnAccount(DemoAccounts[username.value])
    else if username.value in InheritedNames then InheritedMember
    else NoEntry
  }

  /** The login answer as written: an inherited member has no `password`, so it matches a missing password. */
  datatype LoginAsWrittenResponse = AcceptsAccount(account: Account, home: Page) | AcceptsInherited(home: Page) | Rejects

  function LoginAsWritten(username: Option<string>, password: Option<string>): LoginAsWrittenResponse
  {
    match LookupAsWritten(username)
    case NoEntry => Rejects
    case InheritedMember => if password.None? then AcceptsInherited(StudentDashboard) else Rejects
    case OwnAccount(a) => if password == Some(a.password) then AcceptsAccount(a, HomeOf(a.role)) else Rejects
  }

  /**
    The `/auth/login` handler as written. An inherited member passes the check, so the handler
    stores its `id`, which is undefined, and the member itself, which has no account fields: the
    session no longer holds a user id or an account, and whoever was logged in before is logged
    out of every guarded route.
   */
  method LoginAsWrittenHandler(session: Session, username: Option<string>, password: Option<string>)
    returns (r: LoginAsWrittenResponse)
    modifies session
    ensures r == LoginAsWritten(username, password)
    ensures r.AcceptsAccount? ==> session.userId == Some(r.account.id) && session.user == Some(r.account)
    ensures r.AcceptsInherited? ==> session.userId == None && session.user == None
    ensures r.AcceptsInherited? ==> forall role :: Gate(session.userId, session.user, role) == RedirectToLogin
    ensures r.Rejects? ==> session.userId == old(session.userId) && session.user == old(session.user)
  {
    match LookupAsWritten(username)
    case NoEntry =>
      r := Rejects;
    case InheritedMember =>
      if password.Some? {
        return Rejects;
      }
      session.userId := None;
      session.user := None;
      r := AcceptsInherited(StudentDashboard);
    case OwnAccount(user) =>
      if password != Some(user.password) {
        return Rejects;
      }
      session.userId := Some(user.id);
      session.user := Some(user);
      r := AcceptsAccount(user, HomeOf(user.role));
  }

  /**
    A request naming an inherited member and sending no password is answered as a successful
    login (to the student dashboard) by the handler as written, and refused by `LoginSpec`.
    The session it writes holds no `userId`, so `requireAuth` sends it back to /login.
   */
  lemma InheritedNameLogsIn()
    ensures LoginAsWritten(Some("constructor"), None) == AcceptsInherited(StudentDashboard)
    ensures LoginAsWritten(Some("__proto__"), None) == AcceptsInherited(StudentDashboard)
    ensures LoginSpec(Some("constructor"), None) == InvalidCredentials
    ensures Dispatch(PagePath(StudentDashboard), None, None) == Some(RedirectToLogin)
  {
    assert "constructor" !in DemoAccounts;
    assert "__proto__" !in DemoAccounts;
    assert RoleOfPath(PagePath(StudentDashboard)) == Some(Student);
  }

  /** On every name the table defines, and on every name outside the inherited ones, the two agree. */
  lemma LoginAgreesOffInheritedNames(username: Option<string>, password: Option<string>)
    requires username.None? || username.value !in InheritedNames || username.value in DemoAccounts
    ensures match LoginAsWritten(username, password)
      case AcceptsAccount(a, home) => LoginSpec(username, password) == LoggedIn(a, home)
      case AcceptsInherited(_) => false
      case Rejects => LoginSpec(username, password) == InvalidCredentials
  {
  }
}
