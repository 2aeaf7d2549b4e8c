/** The course page of client/src/pages/CourseDetails.tsx: whether the
    student is enrolled, and the client-side guards and local updates around
    enrolling and unenrolling. */
module CourseDetails {
  import opened Common
  import opened Seqs
  import opened EnrollmentModel
  import opened Store
  import opened Enrollments
  import opened Listing

  /** The page's local state. */
  datatype Page = Page(isEnrolled: bool, enrolledStudents: seq<Id>)

  /** The enrolled flag after loading the course. Only a student's page reads
      the listing: `some` answers true at the first enrollment in the course
      and false when every listed enrollment is in another course; when it
      throws on a deleted course first, the error is caught and the flag
      keeps the value it had (`before`, false on a fresh page). */
  function EnrolledOnLoad(user: Option<Caller>, mine: seq<Listed>, courseId: Id, before: bool): (enrolled: bool)
    ensures !(user.Some? && user.value.role == Student) ==> enrolled == before
    ensures user.Some? && user.value.role == Student ==>
      (&& ((exists k :: FoundAt(mine, courseId, k)) ==> enrolled)
       && ((forall i :: 0 <= i < |mine| ==> OtherCourse(mine[i], courseId)) ==> !enrolled)
       && ((exists k :: ThrowsAt(mine, courseId, k)) ==> enrolled == before))
  {
    if user.Some? && user.value.role == Student then
      match SearchCourse(mine, courseId)
      case Hit(_) => true
      case Miss => false
      case Throws(_) => before
    else before
  }

  /** With the listing the server returns for the student, from a store
      without orphaned enrollments, the flag says exactly whether the store
      holds an enrollment of theirs in the course. */
  lemma EnrolledOnLoadMatchesStore(db: Db, caller: Caller, ids: seq<Id>, courseId: Id, before: bool)
    requires caller.role == Student
    requires forall i :: 0 <= i < |ids| ==> ids[i] in db.enrollments
    requires forall id :: id in ids <==> id in db.enrollments && db.enrollments[id].student == caller.userId
    requires NoOrphans(db)
    ensures EnrolledOnLoad(Some(caller), Populate(db, ids), courseId, before) <==> HasEnrollment(db, caller.userId, courseId)
  {
    SearchWithoutOrphans(db, ids, courseId);
    if HasEnrollment(db, caller.userId, courseId) {
      var id :| id in db.enrollments && db.enrollments[id].student == caller.userId && db.enrollments[id].course == courseId;
      var i :| 0 <= i < |ids| && ids[i] == id;
      assert db.enrollments[ids[i]].course == courseId;
    }
    if SearchCourse(Populate(db, ids), courseId).Hit? {
      var i :| 0 <= i < |ids| && db.enrollments[ids[i]].course == courseId;
      assert ids[i] in ids;
    }
  }

  /** Whatever the store holds, a fresh page that shows enrolled is right:
      the student does have an enrollment in the course. */
  lemma EnrolledOnLoadIsSound(db: Db, caller: Caller, ids: seq<Id>, courseId: Id)
    requires caller.role == Student
    requires forall i :: 0 <= i < |ids| ==> ids[i] in db.enrollments
    requires forall id :: id in ids <==> id in db.enrollments && db.enrollments[id].student == caller.userId
    ensures EnrolledOnLoad(Some(caller), Populate(db, ids), courseId, false) ==> HasEnrollment(db, caller.userId, courseId)
  {
    var s := SearchCourse(Populate(db, ids), courseId);
    if s.Hit? {
      assert ids[s.at] in ids;
      assert db.enrollments[ids[s.at]].course == courseId;
    }
  }

  /** A listed enrollment whose course has been deleted (as deleting its
      instructor leaves it), met before any enrollment in this course, leaves
      the flag as it was, even when the student's enrollment in the course
      comes later in the listing. */
  lemma OrphanHidesEnrollment(user: Option<Caller>, mine: seq<Listed>, courseId: Id, before: bool, k: nat)
    requires ThrowsAt(mine, courseId, k)
    ensures EnrolledOnLoad(user, mine, courseId, before) == before
  {
    OrphanBeforeMatchThrows(mine, courseId, k);
  }

  /** What a click does before any request. */
  datatype Action = GoToLogin | ShowError(message: string) | Send | Nothing

  /** handleEnroll: signed-out users go to /login, non-students get an
      error, students send the enroll request. */
  function EnrollClick(user: Option<Caller>): (a: Action)
    ensures a == Send <==> user.Some? && user.value.role == Student
    ensures a == GoToLogin <==> user.None?
    ensures a.ShowError? <==> user.Some? && user.value.role != Student
  {
    if user.None? then GoToLogin
    else if user.value.role != Student then ShowError("Only students can enroll in courses")
    else Send
  }

  /** The state after the enroll request: enrolled on success, unchanged on
      failure (the server's message is shown). */
  function AfterEnroll(p: Page, succeeded: bool): (p': Page)
    ensures p'.enrolledStudents == p.enrolledStudents
    ensures p'.isEnrolled == (p.isEnrolled || succeeded)
  {
    if succeeded then p.(isEnrolled := true) else p
  }

  /** The client's flag agrees with the server: a successful enroll leaves an
      enrollment for the pair in the store, and the page shows enrolled. */
  lemma EnrollAgreesWithServer(db: Db, caller: Caller, courseId: Id, newId: Id, now: Time, p: Page)
    requires newId !in db.enrollments
    requires Enroll(db, caller, courseId, newId, now).Ok?
    ensures EnrollClick(Some(caller)) == Send
    ensures HasEnrollment(Enroll(db, caller, courseId, newId, now).value.0, caller.userId, courseId)
    ensures AfterEnroll(p, true).isEnrolled
  {
    var db' := Enroll(db, caller, courseId, newId, now).value.0;
    assert db'.enrollments[newId].student == caller.userId && db'.enrollments[newId].course == courseId;
  }

  /** handleUnenroll: nothing without a user or a course, nothing unless the
      user confirms, otherwise the unenroll request. */
  function UnenrollClick(user: Option<Caller>, courseLoaded: bool, confirmed: bool): (a: Action)
    ensures a == Send <==> user.Some? && courseLoaded && confirmed
    ensures a != Send ==> a == Nothing
  {
    if user.None? || !courseLoaded then Nothing
    else if !confirmed then Nothing
    else Send
  }

  function IsNot(userId: Id): Id -> bool {
    (s: Id) => s != userId
  }

  /** The state after the unenroll request: on success, not enrolled and
      every occurrence of the user's id dropped from the local
      `enrolledStudents`, the others kept in order; on failure, unchanged. */
  function AfterUnenroll(p: Page, userId: Id, succeeded: bool): (p': Page)
    ensures !succeeded ==> p' == p
    ensures succeeded ==> !p'.isEnrolled
    ensures succeeded ==> userId !in p'.enrolledStudents
    ensures succeeded ==> forall s :: s != userId ==> multiset(p'.enrolledStudents)[s] == multiset(p.enrolledStudents)[s]
    ensures succeeded ==> IsSubsequence(p'.enrolledStudents, p.enrolledStudents)
  {
    if succeeded then Page(false, Filter(p.enrolledStudents, IsNot(userId))) else p
  }
}
