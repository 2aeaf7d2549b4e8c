/** The enrollment routes of server/routes/enrollments.js as pure state
    transitions over the store. A route either fails, leaving the store as it
    was, or succeeds with a new store and the document it answers with. */
module Enrollments {
  import opened Common
  import opened Seqs
  import opened EnrollmentModel
  import opened Store

  /** Some enrollment links `student` to `course`. */
  predicate HasEnrollment(db: Db, student: Id, course: Id) {
    exists id :: id in db.enrollments && db.enrollments[id].student == student && db.enrollments[id].course == course
  }

  /** At most one enrollment per (student, course) pair. The schema declares
      no unique index; only the enroll route's pre-check keeps this. */
  predicate UniquePairs(db: Db) {
    forall a, b ::
      (a in db.enrollments && b in db.enrollments
       && db.enrollments[a].student == db.enrollments[b].student
       && db.enrollments[a].course == db.enrollments[b].course) ==> a == b
  }

  /** Math.round(done / total * 100) on the exact quotient: the nearest whole
      percentage, halves rounded up. JavaScript's double arithmetic is taken
      to be exact here. */
  function RoundPercent(done: nat, total: nat): (pct: nat)
    requires 0 < total
    ensures 2 * (total * pct) <= 200 * done + total < 2 * (total * pct) + 2 * total
  {
    (200 * done + total) / (2 * total)
  }

  /** The percentage lies in 0..100; all done gives 100 and nothing done gives
      0. The converses hold for courses of up to 199 (resp. 200) modules;
      beyond that rounding reaches 100 (resp. 0) one module early. */
  lemma PercentBounds(done: nat, total: nat)
    requires 0 < total && done <= total
    ensures RoundPercent(done, total) <= 100
    ensures done == total ==> RoundPercent(done, total) == 100
    ensures done == 0 ==> RoundPercent(done, total) == 0
    ensures total < 200 && RoundPercent(done, total) == 100 ==> done == total
    ensures total <= 200 && RoundPercent(done, total) == 0 ==> done == 0
  {
    NearestPercentBounds(done, total, RoundPercent(done, total));
  }

  /** PercentBounds for any `pct` within half a point of 100 * done / total. */
  lemma NearestPercentBounds(done: nat, total: nat, pct: nat)
    requires 0 < total && done <= total
    requires 2 * (total * pct) <= 200 * done + total < 2 * (total * pct) + 2 * total
    ensures pct <= 100
    ensures done == total ==> pct == 100
    ensures done == 0 ==> pct == 0
    ensures total < 200 && pct == 100 ==> done == total
    ensures total <= 200 && pct == 0 ==> done == 0
  {
    if pct >= 101 {
      MulMonotone(total, 101, pct);
    }
    if done == total && pct <= 99 {
      MulMonotone(total, pct, 99);
    }
    if done == 0 && pct >= 1 {
      MulMonotone(total, 1, pct);
    }
  }

  lemma MulMonotone(a: nat, b: nat, c: nat)
    requires b <= c
    ensures a * b <= a * c
  {
  }

  /** 200 of 201 modules done already shows 100 %, and 1 of 201 shows 0 %. */
  lemma RoundingReachesBoundsEarly()
    ensures RoundPercent(200, 201) == 100
    ensures RoundPercent(1, 201) == 0
  {
  }

  predicate IsDone(p: ModuleProgress) {
    p.completed
  }

  /** The number of completed entries. */
  function CompletedCount(progress: seq<ModuleProgress>): nat {
    |Filter(progress, IsDone)|
  }

  /** The stored percentage is the one the progress list implies (0 for an
      empty list, which only a course without modules produces). */
  predicate PercentConsistent(e: Enrollment) {
    if |e.progress| == 0 then e.progressPercentage == 0
    else
      && CompletedCount(e.progress) <= |e.progress|
      && e.progressPercentage == RoundPercent(CompletedCount(e.progress), |e.progress|)
  }

  /** The invariant every route keeps: one enrollment per pair, and every
      stored percentage agrees with its progress list. */
  predicate WellFormed(db: Db) {
    && UniquePairs(db)
    && forall id :: id in db.enrollments ==> PercentConsistent(db.enrollments[id])
  }

  /** A consistent percentage is a valid percentage. */
  lemma ConsistentPercentInRange(e: Enrollment)
    requires PercentConsistent(e)
    ensures 0 <= e.progressPercentage <= 100
  {
    if |e.progress| > 0 {
      PercentBounds(CompletedCount(e.progress), |e.progress|);
    }
  }

  /** The progress list a new enrollment is seeded with: one incomplete entry
      per course module, in module order. */
  function SeedProgress(modules: seq<CourseModule>): (progress: seq<ModuleProgress>)
    ensures |progress| == |modules|
    ensures forall i :: 0 <= i < |modules| ==> progress[i] == NewProgress(modules[i].id)
  {
    seq(|modules|, i requires 0 <= i < |modules| => NewProgress(modules[i].id))
  }

  /** POST /enroll/:courseId. Checks, in order: the caller is a student (403),
      the course exists (404), no enrollment for the pair exists (400). Then
      stores a fresh enrollment seeded from the course's modules and appends
      the caller to the course's `enrolledStudents`. */
  function Enroll(db: Db, caller: Caller, courseId: Id, newId: Id, now: Time): (r: Result<(Db, Enrollment)>)
    requires newId !in db.enrollments
    ensures caller.role != Student ==> r.Err? && r.failure.status == FORBIDDEN
    ensures caller.role == Student && courseId !in db.courses ==> r.Err? && r.failure.status == NOT_FOUND
    ensures caller.role == Student && courseId in db.courses && HasEnrollment(db, caller.userId, courseId)
      ==> r.Err? && r.failure.status == BAD_REQUEST
    ensures r.Ok? <==> caller.role == Student && courseId in db.courses && !HasEnrollment(db, caller.userId, courseId)
    ensures r.Ok? ==>
      var (db', e) := r.value;
      var c := db.courses[courseId];
      && db'.users == db.users
      && db'.enrollments == db.enrollments[newId := e]
      && db'.courses == db.courses[courseId := c.(enrolledStudents := c.enrolledStudents + [caller.userId])]
      && e.student == caller.userId && e.course == courseId
      && e.enrolledAt == now && e.completedAt.None? && e.progressPercentage == 0
      && |e.progress| == |c.modules|
      && forall i :: 0 <= i < |c.modules| ==>
           e.progress[i].moduleId == c.modules[i].id && !e.progress[i].completed && e.progress[i].completedAt.None?
  {
    if caller.role != Student then
      Err(Failure(FORBIDDEN, "Only students can enroll in courses"))
    else if courseId !in db.courses then
      Err(Failure(NOT_FOUND, "Course not found"))
    else if HasEnrollment(db, caller.userId, courseId) then
      Err(Failure(BAD_REQUEST, "Already enrolled in this course"))
    else
      var course := db.courses[courseId];
      var e := NewEnrollment(caller.userId, courseId, SeedProgress(course.modules), now);
      var course' := course.(enrolledStudents := course.enrolledStudents + [caller.userId]);
      Ok((db.(enrollments := db.enrollments[newId := e], courses := db.courses[courseId := course']), e))
  }

  /** Enrolling keeps the store well formed: the duplicate pre-check is what
      keeps pairs unique, and a fresh enrollment's 0 % matches its list. */
  lemma EnrollKeepsWellFormed(db: Db, caller: Caller, courseId: Id, newId: Id, now: Time)
    requires newId !in db.enrollments && WellFormed(db)
    requires Enroll(db, caller, courseId, newId, now).Ok?
    ensures WellFormed(Enroll(db, caller, courseId, newId, now).value.0)
  {
    var (db', e) := Enroll(db, caller, courseId, newId, now).value;
    assert CompletedCount(e.progress) == 0 by {
      var f := Filter(e.progress, IsDone);
      assert forall x :: x in e.progress ==> !x.completed;
      assert forall x :: x !in f;
    }
    if |e.progress| > 0 {
      PercentBounds(0, |e.progress|);
    }
    assert PercentConsistent(e);
  }

  /** A second enroll of the same student in the same course is refused with
      400, so the course's `enrolledStudents` gains the student once. */
  lemma EnrollTwiceRefused(db: Db, caller: Caller, courseId: Id, newId: Id, newId2: Id, now: Time, later: Time)
    requires newId !in db.enrollments && newId2 != newId && newId2 !in db.enrollments
    requires Enroll(db, caller, courseId, newId, now).Ok?
    ensures var db' := Enroll(db, caller, courseId, newId, now).value.0;
      var r2 := Enroll(db', caller, courseId, newId2, later);
      && r2.Err? && r2.failure.status == BAD_REQUEST
      && |db'.courses[courseId].enrolledStudents| == |db.courses[courseId].enrolledStudents| + 1
  {
    var db' := Enroll(db, caller, courseId, newId, now).value.0;
    assert db'.enrollments[newId].student == caller.userId;
    assert HasEnrollment(db', caller.userId, courseId);
  }

  /** GET /my-enrollments: students only (403); the caller's enrollments,
      most recent first. */
  method MyEnrollments(db: Db, caller: Caller) returns (r: Result<seq<Id>>)
    ensures caller.role != Student ==> r.Err? && r.failure.status == FORBIDDEN
    ensures caller.role == Student ==> r.Ok?
    ensures r.Ok? ==>
      && NoDuplicates(r.value)
      && (forall id :: id in r.value <==> id in db.enrollments && db.enrollments[id].student == caller.userId)
      && NewestFirst(r.value, db.enrollments, (e: Enrollment) => e.enrolledAt)
  {
    if caller.role != Student {
      return Err(Failure(FORBIDDEN, "Access denied"));
    }
    var ids := ListNewestFirst(db.enrollments, (e: Enrollment) => e.student == caller.userId, (e: Enrollment) => e.enrolledAt);
    return Ok(ids);
  }

  /** The position of the first progress entry for `moduleId` (what
      `progress.find` returns), if any. */
  function FindModule(progress: seq<ModuleProgress>, moduleId: Id): (k: Option<nat>)
    ensures k.None? <==> forall i :: 0 <= i < |progress| ==> progress[i].moduleId != moduleId
    ensures k.Some? ==>
      && k.value < |progress| && progress[k.value].moduleId == moduleId
      && forall i :: 0 <= i < k.value ==> progress[i].moduleId != moduleId
    decreases |progress|
  {
    if |progress| == 0 then None
    else if progress[0].moduleId == moduleId then Some(0)
    else
      match FindModule(progress[1..], moduleId)
      case None => None
      case Some(k) => Some(k + 1)
  }

  /** Sets the completion of entry `k`; a completion stamps the time, an
      un-completion leaves the old stamp in place. */
  function SetEntry(progress: seq<ModuleProgress>, k: nat, completed: bool, now: Time): (progress': seq<ModuleProgress>)
    requires k < |progress|
    ensures |progress'| == |progress|
    ensures forall j :: 0 <= j < |progress| && j != k ==> progress'[j] == progress[j]
    ensures progress'[k].moduleId == progress[k].moduleId && progress'[k].completed == completed
    ensures progress'[k].completedAt == if completed then Some(now) else progress[k].completedAt
  {
    var entry := progress[k];
    progress[k := entry.(completed := completed, completedAt := if completed then Some(now) else entry.completedAt)]
  }

  /** PUT /progress/:enrollmentId/:moduleId. Checks, in order: the enrollment
      exists (404), it belongs to the caller (403), it has an entry for the
      module (404). Then sets that entry's completion and recomputes the
      percentage over the whole list, which is non-empty here. Only the
      enrollment's progress list and percentage change. */
  function UpdateProgress(db: Db, caller: Caller, enrollmentId: Id, moduleId: Id, completed: bool, now: Time)
    : (r: Result<(Db, Enrollment)>)
    ensures enrollmentId !in db.enrollments ==> r.Err? && r.failure.status == NOT_FOUND
    ensures enrollmentId in db.enrollments && db.enrollments[enrollmentId].student != caller.userId
      ==> r.Err? && r.failure.status == FORBIDDEN
    ensures enrollmentId in db.enrollments && db.enrollments[enrollmentId].student == caller.userId
      && FindModule(db.enrollments[enrollmentId].progress, moduleId).None?
      ==> r.Err? && r.failure.status == NOT_FOUND
    ensures r.Ok? <==>
      && enrollmentId in db.enrollments && db.enrollments[enrollmentId].student == caller.userId
      && FindModule(db.enrollments[enrollmentId].progress, moduleId).Some?
    ensures r.Ok? ==>
      var (db', e') := r.value;
      var e := db.enrollments[enrollmentId];
      var k := FindModule(e.progress, moduleId).value;
      && db' == db.(enrollments := db.enrollments[enrollmentId := e'])
      && e' == e.(progress := e'.progress, progressPercentage := e'.progressPercentage)
      && |e'.progress| == |e.progress| > 0
      && (forall j :: 0 <= j < |e.progress| && j != k ==> e'.progress[j] == e.progress[j])
      && e'.progress[k].moduleId == moduleId && e'.progress[k].completed == completed
      && e'.progress[k].completedAt == (if completed then Some(now) else e.progress[k].completedAt)
      && e'.progressPercentage == RoundPercent(CompletedCount(e'.progress), |e'.progress|)
  {
    if enrollmentId !in db.enrollments then
      Err(Failure(NOT_FOUND, "Enrollment not found"))
    else
      var e := db.enrollments[enrollmentId];
      if e.student != caller.userId then
        Err(Failure(FORBIDDEN, "Access denied"))
      else
        match FindModule(e.progress, moduleId)
        case None => Err(Failure(NOT_FOUND, "Module not found"))
        case Some(k) =>
          var progress' := SetEntry(e.progress, k, completed, now);
          var e' := e.(progress := progress', progressPercentage := RoundPercent(CompletedCount(progress'), |progress'|));
          Ok((db.(enrollments := db.enrollments[enrollmentId := e']), e'))
  }

  /** Updating progress keeps the store well formed. */
  lemma UpdateProgressKeepsWellFormed(db: Db, caller: Caller, enrollmentId: Id, moduleId: Id, completed: bool, now: Time)
    requires WellFormed(db)
    requires UpdateProgress(db, caller, enrollmentId, moduleId, completed, now).Ok?
    ensures WellFormed(UpdateProgress(db, caller, enrollmentId, moduleId, completed, now).value.0)
  {
    var (db', e') := UpdateProgress(db, caller, enrollmentId, moduleId, completed, now).value;
    assert PercentConsistent(e');
    forall a, b | a in db'.enrollments && b in db'.enrollments
      && db'.enrollments[a].student == db'.enrollments[b].student
      && db'.enrollments[a].course == db'.enrollments[b].course
      ensures a == b
    {
      assert db.enrollments[a].student == db.enrollments[b].student;
    }
  }

  /** Applying the same completion twice is idempotent on the flags and the
      percentage; only the completion stamp moves, to the second call's time
      when completing, and not at all when un-completing. */
  lemma UpdateProgressIdempotent(db: Db, caller: Caller, enrollmentId: Id, moduleId: Id, completed: bool,
                                 t1: Time, t2: Time, db1: Db, e1: Enrollment)
    requires UpdateProgress(db, caller, enrollmentId, moduleId, completed, t1) == Ok((db1, e1))
    ensures var r2 := UpdateProgress(db1, caller, enrollmentId, moduleId, completed, t2);
      && r2.Ok?
      && |r2.value.1.progress| == |e1.progress|
      && (forall j :: 0 <= j < |e1.progress| ==> r2.value.1.progress[j].completed == e1.progress[j].completed)
      && r2.value.1.progressPercentage == e1.progressPercentage
      && (!completed ==> r2.value == (db1, e1))
  {
    var e := db.enrollments[enrollmentId];
    var k := FindModule(e.progress, moduleId).value;
    FindModuleStable(e.progress, e1.progress, moduleId, k);
    assert db1.enrollments[enrollmentId] == e1;
    var r2 := UpdateProgress(db1, caller, enrollmentId, moduleId, completed, t2);
    assert r2.Ok?;
    var e2 := r2.value.1;
    FilterMapsFlags(e1.progress, e2.progress);
    if !completed {
      assert e2.progress == e1.progress;
      assert e2 == e1;
      assert db1.enrollments[enrollmentId := e1] == db1.enrollments;
    }
  }

  /** The first entry for a module stays first when only later entries and
      that entry's flags change. */
  lemma FindModuleStable(a: seq<ModuleProgress>, b: seq<ModuleProgress>, moduleId: Id, k: nat)
    requires FindModule(a, moduleId) == Some(k)
    requires |b| == |a| && b[k].moduleId == moduleId
    requires forall i :: 0 <= i < k ==> b[i] == a[i]
    ensures FindModule(b, moduleId) == Some(k)
  {
    assert FindModule(b, moduleId).Some?;
  }

  /** Two progress lists with the same flags have the same completed count. */
  lemma {:induction false} FilterMapsFlags(a: seq<ModuleProgress>, b: seq<ModuleProgress>)
    requires |a| == |b|
    requires forall j :: 0 <= j < |a| ==> a[j].completed == b[j].completed
    ensures CompletedCount(a) == CompletedCount(b)
    decreases |a|
  {
    if |a| > 0 {
      FilterMapsFlags(a[1..], b[1..]);
    }
  }
}
