/** The server's document store: users, courses and enrollments, each a
    collection keyed by document id. The course and user schemas
    (server/models/Course.js, server/models/User.js) are not part of this
    model; their fields are the ones the routes and pages read. */
module Store {
  import opened Common
  import opened Seqs
  import opened EnrollmentModel

  /** A course module (lesson). Its id is the one the request body carries:
      the routes store the body's modules as given, and the fresh ids the
      database would assign to new modules are not modelled. */
  datatype CourseModule = CourseModule(
    id: Id,
    title: string,
    description: string,
    content: string,
    videoUrl: string,
    duration: nat,
    order: int)

  datatype Course = Course(
    title: string,
    description: string,
    category: string,
    level: string,
    thumbnail: string,
    instructor: Id,
    modules: seq<CourseModule>,
    enrolledStudents: seq<Id>,
    isPublished: bool,
    createdAt: Time)

  datatype User = User(name: string, email: string, role: Role, createdAt: Time)

  datatype Db = Db(users: map<Id, User>, courses: map<Id, Course>, enrollments: map<Id, Enrollment>)

  /** `r` lists documents of `m` with the largest `stamp` first (a
      `.sort({ field: -1 })` query). */
  predicate NewestFirst<T>(r: seq<Id>, m: map<Id, T>, stamp: T -> int) {
    forall i, j :: 0 <= i < j < |r| ==> r[i] in m && r[j] in m && stamp(m[r[i]]) >= stamp(m[r[j]])
  }

  /** A `find(filter).sort({ stamp: -1 })` query: the ids of exactly the
      documents `keep` selects, each once, newest first. Documents with equal
      stamps may come in any order. */
  method ListNewestFirst<T>(m: map<Id, T>, keep: T -> bool, stamp: T -> int) returns (r: seq<Id>)
    ensures forall k :: k in r <==> k in m && keep(m[k])
    ensures NoDuplicates(r)
    ensures NewestFirst(r, m, stamp)
  {
    var key := (k: Id) => if k in m then -stamp(m[k]) else 0;
    var pending := set k | k in m && keep(m[k]);
    r := [];
    while pending != {}
      invariant forall k :: k in pending ==> k in m && keep(m[k])
      invariant forall k :: k in r ==> k in m && keep(m[k]) && k !in pending
      invariant forall k :: k in m && keep(m[k]) ==> k in r || k in pending
      invariant NoDuplicates(r)
      invariant SortedBy(r, key)
      decreases pending
    {
      var k :| k in pending;
      InsertSortedNoDuplicates(r, k, key);
      r := InsertSorted(r, k, key);
      pending := pending - {k};
    }
    assert forall i :: 0 <= i < |r| ==> r[i] in m;
  }
}
