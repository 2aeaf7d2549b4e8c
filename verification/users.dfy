/** The user routes of server/routes/users.js: per-role dashboard statistics,
    the admin-only user listing, and the admin-only user deletion with its
    role-dependent (and asymmetric) cascades. */
module Users {
  import opened Common
  import opened Seqs
  import opened EnrollmentModel
  import opened Store
  import opened Enrollments
  import opened Listing

  datatype Stats =
    | StudentStats(totalCourses: nat, completedCourses: nat, inProgressCourses: int, enrollments: seq<Id>)
    | InstructorStats(totalCourses: nat, totalStudents: int, publishedCourses: nat, courses: seq<Id>)
    | AdminStats(totalUsers: nat, totalCourses: nat, totalEnrollments: nat, totalStudents: int, totalInstructors: nat)

  /** The ids of the student's enrollments. */
  function EnrollmentsOf(db: Db, student: Id): set<Id> {
    set id | id in db.enrollments && db.enrollments[id].student == student
  }

  /** The ids of the instructor's courses. */
  function CoursesOf(db: Db, instructor: Id): set<Id> {
    set id | id in db.courses && db.courses[id].instructor == instructor
  }

  /** The length of a course's `enrolledStudents` (0 for an unknown id). */
  function EnrolledCount(db: Db, id: Id): int {
    if id in db.courses then |db.courses[id].enrolledStudents| else 0
  }

  /** The total of `enrolledStudents` lengths over the listed courses. */
  function TotalEnrolled(db: Db, ids: seq<Id>): int {
    Sum(ids, (id: Id) => EnrolledCount(db, id))
  }

  /** A listing is exactly a set, each element once. */
  ghost predicate Lists(r: seq<Id>, s: set<Id>) {
    NoDuplicates(r) && forall id :: id in r <==> id in s
  }

  /** The enrollment counts as complete: its percentage is exactly 100. */
  predicate IsComplete(db: Db, id: Id) {
    id in db.enrollments && db.enrollments[id].progressPercentage == 100
  }

  /** The course is published. */
  predicate IsPublished(db: Db, id: Id) {
    id in db.courses && db.courses[id].isPublished
  }

  /** A student's dashboard: their enrollments, how many there are, how many
      are complete, and how many are not. */
  method StudentDashboard(db: Db, student: Id) returns (s: Stats)
    ensures s.StudentStats?
    ensures Lists(s.enrollments, EnrollmentsOf(db, student))
    ensures s.totalCourses == |EnrollmentsOf(db, student)|
    ensures s.completedCourses == |set id | id in EnrollmentsOf(db, student) && IsComplete(db, id)|
    ensures s.completedCourses + s.inProgressCourses == s.totalCourses
    ensures 0 <= s.inProgressCourses
  {
    var mine := EnrollmentsOf(db, student);
    var ids := ListNewestFirst(db.enrollments, (e: Enrollment) => e.student == student, (e: Enrollment) => e.enrolledAt);
    var done := (id: Id) => IsComplete(db, id);
    ListingSize(ids, mine);
    CountOfListing(ids, mine, done);
    assert SetWhere(mine, done) == set id | id in mine && IsComplete(db, id);
    var completed := |Filter(ids, done)|;
    s := StudentStats(|ids|, completed, |ids| - completed, ids);
  }

  /** An instructor's dashboard: their courses, how many there are, how many
      are published, and the enrolled-student total over them. */
  method InstructorDashboard(db: Db, instructor: Id) returns (s: Stats)
    ensures s.InstructorStats?
    ensures Lists(s.courses, CoursesOf(db, instructor))
    ensures s.totalCourses == |CoursesOf(db, instructor)|
    ensures s.publishedCourses == |set id | id in CoursesOf(db, instructor) && IsPublished(db, id)|
    ensures s.publishedCourses <= s.totalCourses
    ensures s.totalStudents == TotalEnrolled(db, s.courses)
  {
    var mine := CoursesOf(db, instructor);
    var ids := ListNewestFirst(db.courses, (c: Course) => c.instructor == instructor, (c: Course) => c.createdAt);
    var published := (id: Id) => IsPublished(db, id);
    ListingSize(ids, mine);
    CountOfListing(ids, mine, published);
    assert SetWhere(mine, published) == set id | id in mine && IsPublished(db, id);
    s := InstructorStats(|ids|, TotalEnrolled(db, ids), |Filter(ids, published)|, ids);
  }

  /** GET /dashboard-stats: the statistics for the caller's role; an admin
      gets store-wide counts. */
  method DashboardStats(db: Db, caller: Caller) returns (s: Stats)
    ensures caller.role == Student ==>
      && s.StudentStats?
      && Lists(s.enrollments, EnrollmentsOf(db, caller.userId))
      && s.completedCourses == |set id | id in EnrollmentsOf(db, caller.userId) && IsComplete(db, id)|
      && s.completedCourses + s.inProgressCourses == s.totalCourses == |EnrollmentsOf(db, caller.userId)|
    ensures caller.role == Instructor ==>
      && s.InstructorStats?
      && Lists(s.courses, CoursesOf(db, caller.userId))
      && s.totalCourses == |CoursesOf(db, caller.userId)|
      && s.publishedCourses == |set id | id in CoursesOf(db, caller.userId) && IsPublished(db, id)|
      && s.totalStudents == TotalEnrolled(db, s.courses)
    ensures caller.role == Admin ==>
      && s.AdminStats?
      && s.totalUsers == |db.users| && s.totalCourses == |db.courses| && s.totalEnrollments == |db.enrollments|
      && s.totalStudents == |set id | id in db.users && db.users[id].role == Student|
      && s.totalInstructors == |set id | id in db.users && db.users[id].role == Instructor|
  {
    match caller.role
    case Student =>
      s := StudentDashboard(db, caller.userId);
    case Instructor =>
      s := InstructorDashboard(db, caller.userId);
    case Admin =>
      s := AdminStats(|db.users|, |db.courses|, |db.enrollments|,
                      |set id | id in db.users && db.users[id].role == Student|,
                      |set id | id in db.users && db.users[id].role == Instructor|);
  }

  /** The instructor's student total does not depend on the order in which
      the courses are listed. */
  lemma TotalEnrolledOrderFree(db: Db, a: seq<Id>, b: seq<Id>)
    requires multiset(a) == multiset(b)
    ensures TotalEnrolled(db, a) == TotalEnrolled(db, b)
  {
    SumPermutation(a, b, (id: Id) => EnrolledCount(db, id));
  }

  /** GET /all: admins only (403); every user, newest first. */
  method ListUsers(db: Db, caller: Caller) returns (r: Result<seq<Id>>)
    ensures r.Ok? <==> caller.role == Admin
    ensures r.Err? ==> r.failure.status == FORBIDDEN
    ensures r.Ok? ==>
      && Lists(r.value, db.users.Keys)
      && NewestFirst(r.value, db.users, (u: User) => u.createdAt)
  {
    if caller.role != Admin {
      return Err(Failure(FORBIDDEN, "Access denied. Admin only."));
    }
    var ids := ListNewestFirst(db.users, (u: User) => true, (u: User) => u.createdAt);
    return Ok(ids);
  }

  /** DELETE /:id. Checks, in order: the caller is an admin (403), the user
      exists (404), the user is not an admin (400). Deleting an instructor
      removes their courses but keeps the enrollments in them; deleting a
      student removes their enrollments but leaves their id in every
      course's `enrolledStudents`. The user record goes in both cases. */
  function DeleteUser(db: Db, caller: Caller, id: Id): (r: Result<Db>)
    ensures caller.role != Admin ==> r.Err? && r.failure.status == FORBIDDEN
    ensures caller.role == Admin && id !in db.users ==> r.Err? && r.failure.status == NOT_FOUND
    ensures caller.role == Admin && id in db.users && db.users[id].role == Admin
      ==> r.Err? && r.failure.status == BAD_REQUEST
    ensures r.Ok? <==> caller.role == Admin && id in db.users && db.users[id].role != Admin
    ensures r.Ok? ==> r.value.users == db.users - {id}
    ensures r.Ok? && db.users[id].role == Instructor ==>
      && r.value.enrollments == db.enrollments
      && (forall c :: c in r.value.courses <==> c in db.courses && db.courses[c].instructor != id)
      && (forall c :: c in r.value.courses ==> r.value.courses[c] == db.courses[c])
    ensures r.Ok? && db.users[id].role == Student ==>
      && r.value.courses == db.courses
      && (forall e :: e in r.value.enrollments <==> e in db.enrollments && db.enrollments[e].student != id)
      && (forall e :: e in r.value.enrollments ==> r.value.enrollments[e] == db.enrollments[e])
  {
    if caller.role != Admin then
      Err(Failure(FORBIDDEN, "Access denied. Admin only."))
    else if id !in db.users then
      Err(Failure(NOT_FOUND, "User not found"))
    else if db.users[id].role == Admin then
      Err(Failure(BAD_REQUEST, "Cannot delete admin users"))
    else
      var courses' :=
        if db.users[id].role == Instructor
        then map c | c in db.courses && db.courses[c].instructor != id :: db.courses[c]
        else db.courses;
      var enrollments' :=
        if db.users[id].role == Student
        then map e | e in db.enrollments && db.enrollments[e].student != id :: db.enrollments[e]
        else db.enrollments;
      Ok(Db(db.users - {id}, courses', enrollments'))
  }

  /** Deleting an instructor orphans the enrollments in their courses: each
      such enrollment survives while its course is gone. */
  lemma DeleteInstructorOrphansEnrollments(db: Db, caller: Caller, id: Id, e: Id)
    requires DeleteUser(db, caller, id).Ok? && db.users[id].role == Instructor
    requires e in db.enrollments && db.enrollments[e].course in db.courses
    requires db.courses[db.enrollments[e].course].instructor == id
    ensures e in DeleteUser(db, caller, id).value.enrollments
    ensures db.enrollments[e].course !in DeleteUser(db, caller, id).value.courses
    ensures !NoOrphans(DeleteUser(db, caller, id).value)
  {
    var db' := DeleteUser(db, caller, id).value;
    assert e in db'.enrollments && db'.enrollments[e].course !in db'.courses;
  }

  /** Deleting a student leaves their id in the `enrolledStudents` of every
      course they were enrolled in. */
  lemma DeleteStudentKeepsEnrolledStudents(db: Db, caller: Caller, id: Id, c: Id)
    requires DeleteUser(db, caller, id).Ok? && db.users[id].role == Student
    requires c in db.courses && id in db.courses[c].enrolledStudents
    ensures id in DeleteUser(db, caller, id).value.courses[c].enrolledStudents
  {
  }

  /** Deleting a user keeps the store well formed. */
  lemma DeleteUserKeepsWellFormed(db: Db, caller: Caller, id: Id)
    requires WellFormed(db) && DeleteUser(db, caller, id).Ok?
    ensures WellFormed(DeleteUser(db, caller, id).value)
  {
  }
}
