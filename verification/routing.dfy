/** Client-side route guarding of src/App.tsx: the `ProtectedRoute` decision
    and what each route of the route table shows for a given session. */
module Routing {
  import opened Common

  /** What a route renders. */
  datatype View =
    | Spinner
    | Redirect(to: string)
    | Landing | Login | Register
    | StudentDashboard | InstructorDashboard | AdminDashboard
    | BrowseCourses | CourseDetails | CourseViewer | CreateCourse | EditCourse

  /** The authentication state: still loading, or the signed-in user's role
      (None when nobody is signed in). */
  datatype Session = Session(loading: bool, user: Option<Role>)

  /** ProtectedRoute: spinner while loading, /login without a user,
      /dashboard when a role list is given and excludes the user's role, and
      the children otherwise. */
  function Guard(s: Session, roles: Option<seq<Role>>, children: View): (v: View)
  {
    if s.loading then Spinner
    else if s.user.None? then Redirect("/login")
    else if roles.Some? && s.user.value !in roles.value then Redirect("/dashboard")
    else children
  }

  /** The guard's four outcomes, each with the exact condition that leads to it. */
  lemma GuardOutcomes(s: Session, roles: Option<seq<Role>>, children: View)
    requires children.Redirect? ==> children.to != "/login" && children.to != "/dashboard"
    requires children != Spinner
    ensures Guard(s, roles, children) == Spinner <==> s.loading
    ensures Guard(s, roles, children) == Redirect("/login") <==> !s.loading && s.user.None?
    ensures Guard(s, roles, children) == Redirect("/dashboard")
      <==> !s.loading && s.user.Some? && roles.Some? && s.user.value !in roles.value
    ensures Guard(s, roles, children) == children
      <==> !s.loading && s.user.Some? && (roles.None? || s.user.value in roles.value)
  {
  }

  /** The routes of the table. */
  datatype Route = Home | LoginPage | RegisterPage | Dashboard | Courses | CourseById | Learn | NewCourse | EditCourseById

  /** The dashboard for a role. */
  function DashboardFor(r: Role): View {
    match r
    case Student => StudentDashboard
    case Instructor => InstructorDashboard
    case Admin => AdminDashboard
  }

  /** The roles a route's guard admits: None for every signed-in user. */
  function AdmittedRoles(route: Route): Option<seq<Role>> {
    match route
    case Learn => Some([Student])
    case NewCourse => Some([Instructor, Admin])
    case EditCourseById => Some([Instructor, Admin])
    case _ => None
  }

  /** What a route shows once the whole app is past its own loading screen. */
  function Show(s: Session, route: Route): (v: View)
    requires !s.loading
  {
    match route
    case Home => if s.user.None? then Landing else Redirect("/dashboard")
    case LoginPage => if s.user.None? then Login else Redirect("/dashboard")
    case RegisterPage => if s.user.None? then Register else Redirect("/dashboard")
    case Dashboard => Guard(s, None, if s.user.Some? then DashboardFor(s.user.value) else Spinner)
    case Courses => Guard(s, None, BrowseCourses)
    case CourseById => Guard(s, None, CourseDetails)
    case Learn => Guard(s, AdmittedRoles(route), CourseViewer)
    case NewCourse => Guard(s, AdmittedRoles(route), CreateCourse)
    case EditCourseById => Guard(s, AdmittedRoles(route), EditCourse)
  }

  /** The app: the loading screen covers every route. */
  function App(s: Session, route: Route): (v: View)
  {
    if s.loading then Spinner else Show(s, route)
  }

  /** The page a route renders when it admits the user. */
  function PageOf(route: Route): View
    requires route != Home && route != LoginPage && route != RegisterPage && route != Dashboard
  {
    match route
    case Courses => BrowseCourses
    case CourseById => CourseDetails
    case Learn => CourseViewer
    case NewCourse => CreateCourse
    case EditCourseById => EditCourse
  }

  /** Only students reach the course viewer; only instructors and admins
      reach course creation and editing; any signed-in user reaches the
      browse and details pages; nobody signed out reaches any of them. */
  lemma GuardedPagesAdmit(s: Session, route: Route)
    requires route != Home && route != LoginPage && route != RegisterPage && route != Dashboard
    ensures App(s, route) == PageOf(route) <==>
      && !s.loading && s.user.Some?
      && (route == Learn ==> s.user.value == Student)
      && (route == NewCourse || route == EditCourseById ==> s.user.value != Student)
    ensures !s.loading && s.user.None? ==> App(s, route) == Redirect("/login")
  {
  }

  /** The public pages send a signed-in user to /dashboard, and /dashboard
      shows exactly the dashboard of the user's role. */
  lemma PublicPagesAndDashboard(s: Session, route: Route)
    requires !s.loading
    ensures s.user.Some? && (route == Home || route == LoginPage || route == RegisterPage)
      ==> App(s, route) == Redirect("/dashboard")
    ensures s.user.Some? ==> App(s, Dashboard) == DashboardFor(s.user.value)
    ensures s.user.Some? && App(s, Dashboard) == StudentDashboard ==> s.user.value == Student
    ensures s.user.None? ==> App(s, Home) == Landing && App(s, LoginPage) == Login && App(s, RegisterPage) == Register
    ensures s.user.None? ==> App(s, Dashboard) == Redirect("/login")
  {
  }
}
