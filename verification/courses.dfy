/** The course routes of server/routes/courses.js: the public listing, the
    role and ownership checks on create/update/delete, the delete cascade to
    enrollments, and the instructor and admin listings. */
module Courses {
  import opened Common
  import opened Seqs
  import opened EnrollmentModel
  import opened Store
  import opened Enrollments
  import opened Listing

  /** A request body: each course field the client may have sent. The route
      spreads it over the document, so absent fields keep their old values. */
  datatype CoursePatch = CoursePatch(
    title: Option<string>,
    description: Option<string>,
    category: Option<string>,
    level: Option<string>,
    thumbnail: Option<string>,
    instructor: Option<Id>,
    modules: Option<seq<CourseModule>>,
    enrolledStudents: Option<seq<Id>>,
    isPublished: Option<bool>)

  function Pick<T>(o: Option<T>, previous: T): T {
    match o
    case Some(v) => v
    case None => previous
  }

  /** The course with every field the body carries replaced by the body's value. */
  function ApplyPatch(c: Course, p: CoursePatch): Course {
    Course(
      Pick(p.title, c.title), Pick(p.description, c.description), Pick(p.category, c.category),
      Pick(p.level, c.level), Pick(p.thumbnail, c.thumbnail), Pick(p.instructor, c.instructor),
      Pick(p.modules, c.modules), Pick(p.enrolledStudents, c.enrolledStudents),
      Pick(p.isPublished, c.isPublished), c.createdAt)
  }

  /** A course document before the body is applied. The course schema is not
      part of this model; these defaults are assumed. */
  function BlankCourse(instructor: Id, now: Time): Course {
    Course("", "", "", "", "", instructor, [], [], false, now)
  }

  /** The caller may change the course: they own it or they are an admin. */
  predicate CanManage(caller: Caller, c: Course) {
    c.instructor == caller.userId || caller.role == Admin
  }

  /** GET /: exactly the published courses, newest first. */
  method ListPublished(db: Db) returns (r: seq<Id>)
    ensures forall id :: id in r <==> id in db.courses && db.courses[id].isPublished
    ensures NoDuplicates(r)
    ensures NewestFirst(r, db.courses, (c: Course) => c.createdAt)
  {
    r := ListNewestFirst(db.courses, (c: Course) => c.isPublished, (c: Course) => c.createdAt);
  }

  /** GET /:id: the course, or 404. */
  function GetCourse(db: Db, id: Id): (r: Result<Course>)
    ensures r.Ok? <==> id in db.courses
    ensures r.Ok? ==> r.value == db.courses[id]
    ensures r.Err? ==> r.failure.status == NOT_FOUND
  {
    if id in db.courses then Ok(db.courses[id]) else Err(Failure(NOT_FOUND, "Course not found"))
  }

  /** POST /: instructors and admins only (403). The body's fields are taken
      as sent, except that the caller always becomes the instructor. */
  function CreateCourse(db: Db, caller: Caller, body: CoursePatch, newId: Id, now: Time): (r: Result<(Db, Course)>)
    requires newId !in db.courses
    ensures r.Ok? <==> caller.role == Instructor || caller.role == Admin
    ensures r.Err? ==> r.failure.status == FORBIDDEN
    ensures r.Ok? ==>
      var (db', c) := r.value;
      && db' == db.(courses := db.courses[newId := c])
      && c.instructor == caller.userId
      && c.createdAt == now
      && c == ApplyPatch(BlankCourse(caller.userId, now), body.(instructor := None))
  {
    if caller.role != Instructor && caller.role != Admin then
      Err(Failure(FORBIDDEN, "Access denied"))
    else
      var c := ApplyPatch(BlankCourse(caller.userId, now), body).(instructor := caller.userId);
      Ok((db.(courses := db.courses[newId := c]), c))
  }

  /** PUT /:id: 404 for a missing course before the ownership check (403);
      then the body's fields replace the course's. Enrollments, including
      their progress lists, are left as they were. */
  function UpdateCourse(db: Db, caller: Caller, id: Id, body: CoursePatch): (r: Result<(Db, Course)>)
    ensures id !in db.courses ==> r.Err? && r.failure.status == NOT_FOUND
    ensures id in db.courses && !CanManage(caller, db.courses[id]) ==> r.Err? && r.failure.status == FORBIDDEN
    ensures r.Ok? <==> id in db.courses && CanManage(caller, db.courses[id])
    ensures r.Ok? ==>
      var (db', c) := r.value;
      && db'.courses == db.courses[id := c]
      && db'.enrollments == db.enrollments && db'.users == db.users
      && c == ApplyPatch(db.courses[id], body)
  {
    if id !in db.courses then
      Err(Failure(NOT_FOUND, "Course not found"))
    else if !CanManage(caller, db.courses[id]) then
      Err(Failure(FORBIDDEN, "Access denied"))
    else
      var c := ApplyPatch(db.courses[id], body);
      Ok((db.(courses := db.courses[id := c]), c))
  }

  /** `field` holds the body's value when the body carries one, and the
      old value otherwise. */
  predicate Takes<T(==)>(field: T, given: Option<T>, previous: T) {
    (given.Some? ==> field == given.value) && (given.None? ==> field == previous)
  }

  /** Each field of a patched course is the body's value when the body has
      one, and the old value otherwise; only the creation time is out of the
      body's reach. An empty body changes nothing. */
  lemma ApplyPatchFields(c: Course, p: CoursePatch)
    ensures var c' := ApplyPatch(c, p);
      && Takes(c'.title, p.title, c.title)
      && Takes(c'.description, p.description, c.description)
      && Takes(c'.category, p.category, c.category)
      && Takes(c'.level, p.level, c.level)
      && Takes(c'.thumbnail, p.thumbnail, c.thumbnail)
      && Takes(c'.instructor, p.instructor, c.instructor)
      && Takes(c'.modules, p.modules, c.modules)
      && Takes(c'.enrolledStudents, p.enrolledStudents, c.enrolledStudents)
      && Takes(c'.isPublished, p.isPublished, c.isPublished)
      && c'.createdAt == c.createdAt
      && (p == CoursePatch(None, None, None, None, None, None, None, None, None) ==> c' == c)
  {
  }

  /** DELETE /:id: 404 for a missing course before the ownership check (403);
      then the course and every enrollment in it are removed, and nothing else. */
  function DeleteCourse(db: Db, caller: Caller, id: Id): (r: Result<Db>)
    ensures id !in db.courses ==> r.Err? && r.failure.status == NOT_FOUND
    ensures id in db.courses && !CanManage(caller, db.courses[id]) ==> r.Err? && r.failure.status == FORBIDDEN
    ensures r.Ok? <==> id in db.courses && CanManage(caller, db.courses[id])
    ensures r.Ok? ==>
      && r.value.courses == db.courses - {id}
      && r.value.users == db.users
      && (forall e :: e in r.value.enrollments <==> e in db.enrollments && db.enrollments[e].course != id)
      && (forall e :: e in r.value.enrollments ==> r.value.enrollments[e] == db.enrollments[e])
  {
    if id !in db.courses then
      Err(Failure(NOT_FOUND, "Course not found"))
    else if !CanManage(caller, db.courses[id]) then
      Err(Failure(FORBIDDEN, "Access denied"))
    else
      var kept := map e | e in db.enrollments && db.enrollments[e].course != id :: db.enrollments[e];
      Ok(db.(courses := db.courses - {id}, enrollments := kept))
  }

  /** Course routes keep the store well formed: creating and updating do not
      touch enrollments, and deleting only removes some. */
  lemma CourseRoutesKeepWellFormed(db: Db, caller: Caller, id: Id, body: CoursePatch, newId: Id, now: Time)
    requires WellFormed(db) && newId !in db.courses
    ensures CreateCourse(db, caller, body, newId, now).Ok? ==> WellFormed(CreateCourse(db, caller, body, newId, now).value.0)
    ensures UpdateCourse(db, caller, id, body).Ok? ==> WellFormed(UpdateCourse(db, caller, id, body).value.0)
    ensures DeleteCourse(db, caller, id).Ok? ==> WellFormed(DeleteCourse(db, caller, id).value)
  {
  }

  /** After a course is deleted, none of the remaining enrollments refer to
      it, so no student's enrollment listing shows it. */
  lemma DeletedCourseLeavesNoEnrollment(db: Db, caller: Caller, id: Id, student: Id)
    requires DeleteCourse(db, caller, id).Ok?
    ensures !HasEnrollment(DeleteCourse(db, caller, id).value, student, id)
  {
  }

  /** The course routes never leave an enrollment whose course is gone:
      deleting a course takes its enrollments with it. */
  lemma CourseRoutesKeepNoOrphans(db: Db, caller: Caller, id: Id, body: CoursePatch, newId: Id, now: Time)
    requires NoOrphans(db) && newId !in db.courses
    ensures CreateCourse(db, caller, body, newId, now).Ok? ==> NoOrphans(CreateCourse(db, caller, body, newId, now).value.0)
    ensures UpdateCourse(db, caller, id, body).Ok? ==> NoOrphans(UpdateCourse(db, caller, id, body).value.0)
    ensures DeleteCourse(db, caller, id).Ok? ==> NoOrphans(DeleteCourse(db, caller, id).value)
  {
  }

  /** GET /instructor/my-courses: instructors and admins only (403); the
      courses whose instructor is the caller, newest first. An admin sees
      only courses they created. */
  method MyCourses(db: Db, caller: Caller) returns (r: Result<seq<Id>>)
    ensures r.Ok? <==> caller.role == Instructor || caller.role == Admin
    ensures r.Err? ==> r.failure.status == FORBIDDEN
    ensures r.Ok? ==>
      && NoDuplicates(r.value)
      && (forall id :: id in r.value <==> id in db.courses && db.courses[id].instructor == caller.userId)
      && NewestFirst(r.value, db.courses, (c: Course) => c.createdAt)
  {
    if caller.role != Instructor && caller.role != Admin {
      return Err(Failure(FORBIDDEN, "Access denied"));
    }
    var ids := ListNewestFirst(db.courses, (c: Course) => c.instructor == caller.userId, (c: Course) => c.createdAt);
    return Ok(ids);
  }

  /** GET /admin/all: admins only (403); every course, published or not,
      newest first. */
  method AllCourses(db: Db, caller: Caller) returns (r: Result<seq<Id>>)
    ensures r.Ok? <==> caller.role == Admin
    ensures r.Err? ==> r.failure.status == FORBIDDEN
    ensures r.Ok? ==>
      && NoDuplicates(r.value)
      && (forall id :: id in r.value <==> id in db.courses)
      && NewestFirst(r.value, db.courses, (c: Course) => c.createdAt)
  {
    if caller.role != Admin {
      return Err(Failure(FORBIDDEN, "Access denied. Admin only."));
    }
    var ids := ListNewestFirst(db.courses, (c: Course) => true, (c: Course) => c.createdAt);
    return Ok(ids);
  }
}
