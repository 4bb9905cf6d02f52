/** The authorization gate in front of every handler and the dispatch of
    the root page. The caller is what the login stored in the session: a
    user id and a role, either of which may be missing. */
module Access {
  import opened Wrappers
  import opened Schema

  datatype Caller = Caller(userId: Option<int>, role: Option<string>)

  /** What the two decorators decide: send the caller to log in, refuse
      the route, or run its body for user `uid`. */
  datatype Access = LoginRedirect | Denied | Granted(uid: int)

  /** `login_required` followed by `role_required(*roles)`. */
  function Admit(caller: Caller, roles: set<string>): (a: Access)
    ensures a.Granted? <==> caller.userId.Some? && caller.role.Some? && caller.role.value in roles
    ensures a.Granted? ==> a.uid == caller.userId.value
    ensures a == LoginRedirect <==> caller.userId.None?
  {
    if caller.userId.None? then LoginRedirect
    else if caller.role.None? || caller.role.value !in roles then Denied
    else Granted(caller.userId.value)
  }

  /** The error a handler reports when the gate does not let it run. */
  function Refusal(a: Access): (e: Error)
    requires !a.Granted?
    ensures e == LoginRequired <==> a == LoginRedirect
    ensures e == LoginRequired || e == Unauthorized
  {
    if a == LoginRedirect then LoginRequired else Unauthorized
  }

  datatype Page = LoginPage | AdminDashboard | TeacherDashboard | StudentDashboard

  /** Where the root URL sends the caller: the dashboard of a known role,
      and the login page otherwise, also for a logged-in caller whose role
      is missing or unknown. */
  function Home(caller: Caller): (p: Page)
    ensures p != LoginPage <==> caller.userId.Some? && caller.role.Some? && caller.role.value in {ADMIN, TEACHER, STUDENT}
  {
    if caller.userId.None? then LoginPage
    else if caller.role == Some(ADMIN) then AdminDashboard
    else if caller.role == Some(TEACHER) then TeacherDashboard
    else if caller.role == Some(STUDENT) then StudentDashboard
    else LoginPage
  }

  /** The role a dashboard's gate admits. */
  function DashboardRole(p: Page): string
    requires p != LoginPage
  {
    match p
    case AdminDashboard => ADMIN
    case TeacherDashboard => TEACHER
    case StudentDashboard => STUDENT
  }

  /** The root page never sends a caller to a dashboard whose gate refuses
      them, and every caller some dashboard admits is sent to it. */
  lemma HomeAgreesWithGate(caller: Caller, p: Page)
    requires p != LoginPage
    ensures Home(caller) == p <==> Admit(caller, {DashboardRole(p)}).Granted?
  {
  }
}
