/** The my-enrollments reply as the client pages receive it, and the search
    both pages run over it. The route populates each enrollment's course
    (server/routes/enrollments.js:59-61); a course that is no longer stored
    populates as null. The pages then look for the course with
    `enrollment.course._id === courseId` (client/src/pages/CourseViewer.tsx:56-58,
    client/src/pages/CourseDetails.tsx:58), which throws a TypeError on the
    first null course it reaches before a match. */
module Listing {
  import opened Common
  import opened EnrollmentModel
  import opened Store

  /** One element of the reply: the enrollment's id, the enrollment, and its
      populated course's id, None when the course is gone. */
  datatype Listed = Listed(id: Id, enrollment: Enrollment, course: Option<Id>)

  /** populate('course') over the listed enrollment ids. */
  function Populate(db: Db, ids: seq<Id>): (r: seq<Listed>)
    requires forall i :: 0 <= i < |ids| ==> ids[i] in db.enrollments
    ensures |r| == |ids|
    ensures forall i :: 0 <= i < |r| ==>
      (&& r[i].id == ids[i] && r[i].enrollment == db.enrollments[ids[i]]
       && (r[i].course.Some? <==> db.enrollments[ids[i]].course in db.courses)
       && (r[i].course.Some? ==> r[i].course.value == db.enrollments[ids[i]].course))
  {
    seq(|ids|, i requires 0 <= i < |ids| =>
      var e := db.enrollments[ids[i]];
      Listed(ids[i], e, if e.course in db.courses then Some(e.course) else None))
  }

  /** Every stored enrollment's course is still stored. Deleting a course
      keeps this; deleting an instructor does not. */
  predicate NoOrphans(db: Db) {
    forall id :: id in db.enrollments ==> db.enrollments[id].course in db.courses
  }

  /** The search callback answers "not this course" without throwing. */
  predicate OtherCourse(l: Listed, courseId: Id) {
    l.course.Some? && l.course.value != courseId
  }

  /** The first listed enrollment that is not in another course is in this
      one: the search answers there. */
  predicate FoundAt(mine: seq<Listed>, courseId: Id, k: int) {
    && 0 <= k < |mine| && mine[k].course == Some(courseId)
    && forall i :: 0 <= i < k ==> OtherCourse(mine[i], courseId)
  }

  /** The first listed enrollment that is not in another course has lost its
      course: the search throws there. */
  predicate ThrowsAt(mine: seq<Listed>, courseId: Id, k: int) {
    && 0 <= k < |mine| && mine[k].course.None?
    && forall i :: 0 <= i < k ==> OtherCourse(mine[i], courseId)
  }

  /** How `find` or `some` with that callback ends: at the first match, with
      no match at all, or with the TypeError raised at a null course. */
  datatype Search = Hit(at: nat) | Miss | Throws(at: nat)

  /** The search, element by element from the front. */
  function SearchCourse(mine: seq<Listed>, courseId: Id): (s: Search)
    ensures s.Hit? ==> FoundAt(mine, courseId, s.at)
    ensures s.Throws? ==> ThrowsAt(mine, courseId, s.at)
    ensures s.Miss? <==> forall i :: 0 <= i < |mine| ==> OtherCourse(mine[i], courseId)
    decreases |mine|
  {
    if |mine| == 0 then Miss
    else if mine[0].course.None? then Throws(0)
    else if mine[0].course.value == courseId then Hit(0)
    else
      match SearchCourse(mine[1..], courseId)
      case Hit(k) => Hit(k + 1)
      case Miss => Miss
      case Throws(k) => Throws(k + 1)
  }

  /** Over a store without orphaned enrollments the search never throws, and
      it finds the course exactly when one of the listed enrollments is in
      it. */
  lemma {:induction false} SearchWithoutOrphans(db: Db, ids: seq<Id>, courseId: Id)
    requires forall i :: 0 <= i < |ids| ==> ids[i] in db.enrollments
    requires NoOrphans(db)
    ensures !SearchCourse(Populate(db, ids), courseId).Throws?
    ensures SearchCourse(Populate(db, ids), courseId).Hit?
      <==> exists i :: 0 <= i < |ids| && db.enrollments[ids[i]].course == courseId
  {
    var mine := Populate(db, ids);
    var s := SearchCourse(mine, courseId);
    if s.Throws? {
      assert false;
    }
    if s.Hit? {
      assert db.enrollments[ids[s.at]].course == courseId;
    }
    if exists i :: 0 <= i < |ids| && db.enrollments[ids[i]].course == courseId {
      var i :| 0 <= i < |ids| && db.enrollments[ids[i]].course == courseId;
      assert !OtherCourse(mine[i], courseId);
    }
  }

  /** A listed enrollment whose course is gone, met before any match, makes
      the search throw there, whatever else the listing holds. */
  lemma OrphanBeforeMatchThrows(mine: seq<Listed>, courseId: Id, k: nat)
    requires ThrowsAt(mine, courseId, k)
    ensures SearchCourse(mine, courseId) == Throws(k)
  {
    var s := SearchCourse(mine, courseId);
    assert !s.Miss? by {
      assert !OtherCourse(mine[k], courseId);
    }
  }
}
