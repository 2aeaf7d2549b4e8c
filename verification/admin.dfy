/** The admin dashboard of src/pages/AdminDashboard.tsx: the searchable user
    and course tables, the local list updates after deleting or
    (un)publishing, and which users get a delete control. The server routes
    the page calls are the ones of the `Users` and `Courses` modules. */
module Admin {
  import opened Common
  import opened Seqs
  import opened Store
  import opened Courses
  import opened Users

  /** A row of the user table. */
  datatype UserRow = UserRow(id: Id, name: string, email: string, role: Role, createdAt: Time)

  /** A row of the course table, with the instructor's name filled in. */
  datatype CourseRow = CourseRow(id: Id, title: string, description: string, instructorName: string, isPublished: bool)

  /** The role selector's options: "all", or one role by its name. */
  datatype RoleChoice = AllRoles | Only(role: Role)

  /** The option's value is "all" or equals the user's role name. */
  predicate RoleMatches(u: UserRow, roleFilter: RoleChoice) {
    roleFilter.AllRoles? || u.role == roleFilter.role
  }

  /** The search term occurs, ignoring case, in the user's name or email. */
  predicate UserMatches(u: UserRow, term: string) {
    IncludesIgnoringCase(u.name, term) || IncludesIgnoringCase(u.email, term)
  }

  function UserFilter(term: string, roleFilter: RoleChoice): UserRow -> bool {
    u => UserMatches(u, term) && RoleMatches(u, roleFilter)
  }

  /** filteredUsers: the rows matching both the search and the role, in table order. */
  function FilteredUsers(users: seq<UserRow>, term: string, roleFilter: RoleChoice): (r: seq<UserRow>)
    ensures forall u :: u in r <==> u in users && UserMatches(u, term) && RoleMatches(u, roleFilter)
    ensures IsSubsequence(r, users)
  {
    Filter(users, UserFilter(term, roleFilter))
  }

  /** Every user has exactly one role, so the three single-role tables split
      the "all" table: each row appears in exactly one of them, as often as
      in the "all" table. */
  lemma RoleTablesPartitionAll(users: seq<UserRow>, term: string)
    ensures var all := FilteredUsers(users, term, AllRoles);
      && multiset(all) == multiset(FilteredUsers(users, term, Only(Student)))
                        + multiset(FilteredUsers(users, term, Only(Instructor)))
                        + multiset(FilteredUsers(users, term, Only(Admin)))
      && |all| == |FilteredUsers(users, term, Only(Student))| + |FilteredUsers(users, term, Only(Instructor))|
                   + |FilteredUsers(users, term, Only(Admin))|
  {
    var all := FilteredUsers(users, term, AllRoles);
    var s, i, a := FilteredUsers(users, term, Only(Student)), FilteredUsers(users, term, Only(Instructor)),
      FilteredUsers(users, term, Only(Admin));
    forall u: UserRow
      ensures multiset(all)[u] == (multiset(s) + multiset(i) + multiset(a))[u]
    {
      PartitionAt(users, term, u);
    }
    assert multiset(all) == multiset(s) + multiset(i) + multiset(a);
    assert |multiset(all)| == |multiset(s)| + |multiset(i)| + |multiset(a)|;
  }

  /** One row's count in the "all" table is its count in its own role's table. */
  lemma PartitionAt(users: seq<UserRow>, term: string, u: UserRow)
    ensures multiset(FilteredUsers(users, term, AllRoles))[u]
      == multiset(FilteredUsers(users, term, Only(Student)))[u]
       + multiset(FilteredUsers(users, term, Only(Instructor)))[u]
       + multiset(FilteredUsers(users, term, Only(Admin)))[u]
  {
    var n := if UserMatches(u, term) then multiset(users)[u] else 0;
    assert multiset(Filter(users, UserFilter(term, AllRoles)))[u] == n;
    assert multiset(Filter(users, UserFilter(term, Only(Student))))[u] == if u.role == Student then n else 0;
    assert multiset(Filter(users, UserFilter(term, Only(Instructor))))[u] == if u.role == Instructor then n else 0;
    assert multiset(Filter(users, UserFilter(term, Only(Admin))))[u] == if u.role == Admin then n else 0;
  }

  /** With an empty search and "all" roles, the whole table is shown. */
  lemma UnfilteredShowsAll(users: seq<UserRow>)
    ensures FilteredUsers(users, "", AllRoles) == users
  {
    forall k | 0 <= k < |users|
      ensures UserFilter("", AllRoles)(users[k])
    {
      assert Lower("") == [];
      ContainsEmpty(Lower(users[k].name));
    }
    FilterAll(users, UserFilter("", AllRoles));
  }

  function CourseFilter(term: string): CourseRow -> bool {
    (c: CourseRow) => IncludesIgnoringCase(c.title, term) || IncludesIgnoringCase(c.instructorName, term)
  }

  /** filteredCourses: the rows whose title or instructor name contains the
      search term; the description is not searched and the role selector
      does not apply. */
  function FilteredCourses(courses: seq<CourseRow>, term: string): (r: seq<CourseRow>)
    ensures forall c :: c in r <==>
      (&& c in courses
       && (IncludesIgnoringCase(c.title, term) || IncludesIgnoringCase(c.instructorName, term)))
    ensures IsSubsequence(r, courses)
  {
    Filter(courses, CourseFilter(term))
  }

  /** How a delete click ended: the confirmation was declined, the request
      failed (an alert is shown), or the server deleted the record. */
  datatype Outcome = Cancelled | Failed | Deleted

  function UserIsNot(id: Id): UserRow -> bool {
    (u: UserRow) => u.id != id
  }

  function CourseIsNot(id: Id): CourseRow -> bool {
    (c: CourseRow) => c.id != id
  }

  /** handleDeleteUser: after a deletion the rows with that id are dropped and
      the rest keep their order; otherwise the table is unchanged. */
  function UsersAfterDelete(users: seq<UserRow>, id: Id, outcome: Outcome): (r: seq<UserRow>)
    ensures outcome != Deleted ==> r == users
    ensures outcome == Deleted ==> forall u :: u in r <==> u in users && u.id != id
    ensures outcome == Deleted ==> IsSubsequence(r, users)
  {
    if outcome == Deleted then Filter(users, UserIsNot(id)) else users
  }

  /** handleDeleteCourse: the same for the course table. */
  function CoursesAfterDelete(courses: seq<CourseRow>, id: Id, outcome: Outcome): (r: seq<CourseRow>)
    ensures outcome != Deleted ==> r == courses
    ensures outcome == Deleted ==> forall c :: c in r <==> c in courses && c.id != id
    ensures outcome == Deleted ==> IsSubsequence(r, courses)
  {
    if outcome == Deleted then Filter(courses, CourseIsNot(id)) else courses
  }

  function UserIds(users: seq<UserRow>): set<Id> {
    set u | u in users :: u.id
  }

  function CourseIds(courses: seq<CourseRow>): set<Id> {
    set c | c in courses :: c.id
  }

  /** A table that lists the store's users still lists them after a deletion
      the server accepted. */
  lemma UserTableFollowsServer(db: Db, caller: Caller, id: Id, users: seq<UserRow>)
    requires UserIds(users) == db.users.Keys
    requires DeleteUser(db, caller, id).Ok?
    ensures UserIds(UsersAfterDelete(users, id, Deleted)) == DeleteUser(db, caller, id).value.users.Keys
  {
    var r := UsersAfterDelete(users, id, Deleted);
    forall k | k in DeleteUser(db, caller, id).value.users.Keys
      ensures k in UserIds(r)
    {
      var u :| u in users && u.id == k;
      assert u in r;
    }
  }

  /** The same for the course table and the course route. */
  lemma CourseTableFollowsServer(db: Db, caller: Caller, id: Id, courses: seq<CourseRow>)
    requires CourseIds(courses) == db.courses.Keys
    requires DeleteCourse(db, caller, id).Ok?
    ensures CourseIds(CoursesAfterDelete(courses, id, Deleted)) == DeleteCourse(db, caller, id).value.courses.Keys
  {
    var r := CoursesAfterDelete(courses, id, Deleted);
    forall k | k in DeleteCourse(db, caller, id).value.courses.Keys
      ensures k in CourseIds(r)
    {
      var c :| c in courses && c.id == k;
      assert c in r;
    }
  }

  /** The body of the publish toggle: only `isPublished`. */
  function PublishPatch(published: bool): (p: CoursePatch)
    ensures p.isPublished == Some(published)
  {
    CoursePatch(None, None, None, None, None, None, None, None, Some(published))
  }

  /** handleToggleCoursePublish after the update succeeded: the rows with
      that id show the negated status; all other rows are untouched. */
  function TogglePublish(courses: seq<CourseRow>, id: Id, current: bool): (r: seq<CourseRow>)
    ensures |r| == |courses|
    ensures forall i :: 0 <= i < |r| && courses[i].id != id ==> r[i] == courses[i]
    ensures forall i :: 0 <= i < |r| && courses[i].id == id ==> r[i] == courses[i].(isPublished := !current)
  {
    seq(|courses|, i requires 0 <= i < |courses| =>
      if courses[i].id == id then courses[i].(isPublished := !current) else courses[i])
  }

  /** Toggling back undoes a toggle of rows that showed the current status. */
  lemma ToggleTwice(courses: seq<CourseRow>, id: Id, current: bool)
    requires forall i :: 0 <= i < |courses| && courses[i].id == id ==> courses[i].isPublished == current
    ensures TogglePublish(TogglePublish(courses, id, current), id, !current) == courses
  {
    var r := TogglePublish(TogglePublish(courses, id, current), id, !current);
    assert forall i :: 0 <= i < |courses| ==> r[i] == courses[i];
  }

  /** The page and the server agree: the update the toggle sends flips the
      stored course's flag and changes none of its other fields, and the
      table shows the stored flag. */
  lemma ToggleMatchesServer(db: Db, caller: Caller, id: Id, current: bool, courses: seq<CourseRow>, i: nat)
    requires UpdateCourse(db, caller, id, PublishPatch(!current)).Ok?
    requires i < |courses| && courses[i].id == id
    ensures var stored := UpdateCourse(db, caller, id, PublishPatch(!current)).value.1;
      && stored == db.courses[id].(isPublished := !current)
      && TogglePublish(courses, id, current)[i].isPublished == stored.isPublished
  {
  }

  /** Only non-admin rows get a delete control. */
  predicate HasDeleteControl(u: UserRow) {
    u.role != Admin
  }

  /** For an admin, the delete control is shown exactly for the users the
      server would delete; the server refuses the others with 400. */
  lemma DeleteControlMatchesServer(db: Db, caller: Caller, u: UserRow)
    requires caller.role == Admin
    requires u.id in db.users && db.users[u.id].role == u.role
    ensures HasDeleteControl(u) <==> DeleteUser(db, caller, u.id).Ok?
    ensures !HasDeleteControl(u) ==>
      (&& DeleteUser(db, caller, u.id).Err?
       && DeleteUser(db, caller, u.id).failure.status == BAD_REQUEST)
  {
  }
}
