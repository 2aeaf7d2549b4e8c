/** The course player of client/src/pages/CourseViewer.tsx: finding the
    student's enrollment for the course, the completion lookup, moving
    between modules, and the completion toggle it sends to the server. */
module Viewer {
  import opened Common
  import opened Seqs
  import opened EnrollmentModel
  import opened Store
  import opened Enrollments
  import opened Listing

  /** The enrollment the page keeps after loading: what `find` returns, the
      first listed enrollment in the course. When the search throws first,
      the error is caught and the enrollment stays null. */
  function FindEnrollment(mine: seq<Listed>, courseId: Id): (r: Option<Listed>)
    ensures r.Some? ==> exists k :: FoundAt(mine, courseId, k) && r.value == mine[k]
    ensures r.None? ==>
      (|| (forall i :: 0 <= i < |mine| ==> OtherCourse(mine[i], courseId))
       || exists k :: ThrowsAt(mine, courseId, k))
  {
    match SearchCourse(mine, courseId)
    case Hit(k) => Some(mine[k])
    case Miss => None
    case Throws(_) => None
  }

  /** With the reply for a store without orphaned enrollments, the page finds
      an enrollment exactly when the student has one in the course. */
  lemma FindEnrollmentWithoutOrphans(db: Db, ids: seq<Id>, courseId: Id)
    requires forall i :: 0 <= i < |ids| ==> ids[i] in db.enrollments
    requires NoOrphans(db)
    ensures FindEnrollment(Populate(db, ids), courseId).Some?
      <==> exists i :: 0 <= i < |ids| && db.enrollments[ids[i]].course == courseId
  {
    SearchWithoutOrphans(db, ids, courseId);
  }

  /** isModuleCompleted: false without an enrollment or without a progress
      entry for the module; otherwise the first such entry's flag. */
  function IsModuleCompleted(e: Option<Enrollment>, moduleId: Id): (done: bool)
    ensures done ==> e.Some? && exists i :: 0 <= i < |e.value.progress| && e.value.progress[i].moduleId == moduleId
    ensures e.Some? && FindModule(e.value.progress, moduleId).Some?
      ==> done == e.value.progress[FindModule(e.value.progress, moduleId).value].completed
  {
    if e.None? then false
    else
      match FindModule(e.value.progress, moduleId)
      case None => false
      case Some(k) => e.value.progress[k].completed
  }

  /** Changing one entry other than the looked-up module's does not move
      the lookup. */
  lemma OtherLookupUnchanged(a: seq<ModuleProgress>, b: seq<ModuleProgress>, k: nat, other: Id)
    requires |a| == |b| && k < |a| && a[k].moduleId == b[k].moduleId && a[k].moduleId != other
    requires forall j :: 0 <= j < |a| && j != k ==> b[j] == a[j]
    ensures FindModule(b, other) == FindModule(a, other)
    ensures FindModule(a, other).Some? ==> b[FindModule(a, other).value] == a[FindModule(a, other).value]
  {
    assert forall j :: 0 <= j < |a| ==> (b[j].moduleId == other <==> a[j].moduleId == other);
    match FindModule(a, other)
    case None =>
    case Some(j) =>
      assert FindModule(b, other) == Some(j);
  }

  /** The page reads what the server wrote: after a successful progress
      update, the module shows as completed exactly when the update asked for
      it, and every other module shows as before. */
  lemma CompletionReflectsUpdate(db: Db, caller: Caller, enrollmentId: Id, moduleId: Id, other: Id, completed: bool, now: Time)
    requires UpdateProgress(db, caller, enrollmentId, moduleId, completed, now).Ok?
    ensures var e' := UpdateProgress(db, caller, enrollmentId, moduleId, completed, now).value.1;
      && IsModuleCompleted(Some(e'), moduleId) == completed
      && (other != moduleId ==>
            IsModuleCompleted(Some(e'), other) == IsModuleCompleted(Some(db.enrollments[enrollmentId]), other))
  {
    var e := db.enrollments[enrollmentId];
    var e' := UpdateProgress(db, caller, enrollmentId, moduleId, completed, now).value.1;
    var k := FindModule(e.progress, moduleId).value;
    FindModuleStable(e.progress, e'.progress, moduleId, k);
    if other != moduleId {
      OtherLookupUnchanged(e.progress, e'.progress, k, other);
    }
  }

  /** The request the toggle button sends for the current module. */
  datatype ProgressRequest = ProgressRequest(enrollmentId: Id, moduleId: Id, completed: bool)

  /** handleModuleComplete for the current module: nothing without an
      enrollment; otherwise the negation of the module's shown completion. */
  function ToggleRequest(current: Option<Listed>, moduleId: Id): (r: Option<ProgressRequest>)
    ensures r.Some? <==> current.Some?
    ensures r.Some? ==>
      (&& r.value.enrollmentId == current.value.id && r.value.moduleId == moduleId
       && r.value.completed != IsModuleCompleted(Some(current.value.enrollment), moduleId))
  {
    match current
    case None => None
    case Some(l) => Some(ProgressRequest(l.id, moduleId, !IsModuleCompleted(Some(l.enrollment), moduleId)))
  }

  /** Sending the toggle flips what the page shows for that module, when the
      server accepts it. */
  lemma ToggleFlips(db: Db, caller: Caller, l: Listed, moduleId: Id, now: Time)
    requires l.id in db.enrollments && db.enrollments[l.id] == l.enrollment
    requires var req := ToggleRequest(Some(l), moduleId).value;
      UpdateProgress(db, caller, req.enrollmentId, req.moduleId, req.completed, now).Ok?
    ensures var req := ToggleRequest(Some(l), moduleId).value;
      IsModuleCompleted(Some(UpdateProgress(db, caller, req.enrollmentId, req.moduleId, req.completed, now).value.1), moduleId)
        == !IsModuleCompleted(Some(l.enrollment), moduleId)
  {
    var req := ToggleRequest(Some(l), moduleId).value;
    CompletionReflectsUpdate(db, caller, req.enrollmentId, req.moduleId, req.moduleId, req.completed, now);
  }

  /** goToNextModule: forward only when a later module exists. */
  function Next(index: int, count: nat): (i: int)
    ensures i == index + 1 || i == index
    ensures i == index + 1 <==> index < count - 1
  {
    if index < count - 1 then index + 1 else index
  }

  /** goToPreviousModule: back only when an earlier module exists. */
  function Previous(index: int): (i: int)
    ensures i == index - 1 || i == index
    ensures i == index - 1 <==> index > 0
  {
    if index > 0 then index - 1 else index
  }

  /** Starting from 0, any sequence of moves keeps the index on a module of a
      non-empty course, and a step forward is undone by a step back. */
  lemma NavigationStaysInRange(index: int, count: nat)
    requires 0 <= index < count
    ensures 0 <= Next(index, count) < count
    ensures 0 <= Previous(index) < count
    ensures index < count - 1 ==> Previous(Next(index, count)) == index
    ensures index > 0 ==> Next(Previous(index), count) == index
  {
  }

  function ModuleOrder(m: CourseModule): int {
    m.order
  }

  /** The modules in ascending `order`, as the page lists them. */
  function SortedModules(modules: seq<CourseModule>): (r: seq<CourseModule>)
    ensures SortedBy(r, ModuleOrder) && multiset(r) == multiset(modules)
    ensures |r| == |modules|
  {
    var r := SortBy(modules, ModuleOrder);
    assert |multiset(r)| == |multiset(modules)|;
    r
  }

  /** What the page shows once loading is over; `RenderError` is the
      exception rendering raises. */
  datatype Screen = NotFound | Playing(current: CourseModule, index: nat) | RenderError

  /** The not-found view without a course or an enrollment; otherwise the
      sorted module at the current index. With no module at the index (a
      course without modules), rendering reads the title of an undefined
      module and fails. */
  function Show(course: Option<Course>, mine: seq<Listed>, courseId: Id, index: nat): (s: Screen)
    ensures s == NotFound <==> course.None? || FindEnrollment(mine, courseId).None?
    ensures s == RenderError <==>
      course.Some? && FindEnrollment(mine, courseId).Some? && index >= |course.value.modules|
    ensures s.Playing? ==>
      (&& index < |course.value.modules|
       && s.current == SortedModules(course.value.modules)[index]
       && s.current in course.value.modules)
  {
    if course.None? || FindEnrollment(mine, courseId).None? then NotFound
    else
      var sorted := SortedModules(course.value.modules);
      if index < |sorted| then
        assert sorted[index] in multiset(course.value.modules);
        Playing(sorted[index], index)
      else RenderError
  }

  /** A listed enrollment whose course has been deleted, ahead of the
      student's enrollment in this course, leaves the page on "Course not
      found" even though the student is enrolled. */
  lemma OrphanHidesCourse(course: Option<Course>, mine: seq<Listed>, courseId: Id, index: nat, k: nat)
    requires ThrowsAt(mine, courseId, k)
    ensures FindEnrollment(mine, courseId).None?
    ensures Show(course, mine, courseId, index) == NotFound
  {
    OrphanBeforeMatchThrows(mine, courseId, k);
  }
}
