/** The course catalogue of client/src/pages/BrowseCourses.tsx: three
    optional filters (a case-insensitive search, a category and a level)
    applied one after another, the category choices, and clearing. */
module Browse {
  import opened Common
  import opened Seqs

  /** A published course as the catalogue receives it, with the instructor's
      name filled in. */
  datatype Card = Card(
    id: Id,
    title: string,
    description: string,
    instructorName: string,
    category: string,
    level: string)

  /** The filter inputs; the empty string means "no filter". */
  datatype Filters = Filters(search: string, category: string, level: string)

  /** The level choices the page offers. */
  const LEVELS: seq<string> := ["beginner", "intermediate", "advanced"]

  /** The search term occurs, ignoring case, in the title, the description
      or the instructor's name. */
  predicate MatchesSearch(c: Card, term: string) {
    || IncludesIgnoringCase(c.title, term)
    || IncludesIgnoringCase(c.description, term)
    || IncludesIgnoringCase(c.instructorName, term)
  }

  /** The condition each shown card meets: every non-empty filter matches. */
  predicate Visible(c: Card, f: Filters) {
    && (f.search == "" || MatchesSearch(c, f.search))
    && (f.category == "" || c.category == f.category)
    && (f.level == "" || c.level == f.level)
  }

  function SearchFilter(term: string): Card -> bool {
    c => MatchesSearch(c, term)
  }

  function CategoryFilter(category: string): Card -> bool {
    (c: Card) => c.category == category
  }

  function LevelFilter(level: string): Card -> bool {
    (c: Card) => c.level == level
  }

  /** The filtered list as the page computes it: each non-empty filter in
      turn, search first, then category, then level. */
  function Shown(courses: seq<Card>, f: Filters): (r: seq<Card>)
    ensures forall c :: c in r <==> c in courses && Visible(c, f)
    ensures |r| <= |courses|
  {
    var bySearch := if f.search != "" then Filter(courses, SearchFilter(f.search)) else courses;
    var byCategory := if f.category != "" then Filter(bySearch, CategoryFilter(f.category)) else bySearch;
    if f.level != "" then Filter(byCategory, LevelFilter(f.level)) else byCategory
  }

  /** The conditions met after the first `stage` filters. */
  predicate PassesUpTo(c: Card, f: Filters, stage: nat) {
    && (stage >= 1 ==> f.search == "" || MatchesSearch(c, f.search))
    && (stage >= 2 ==> f.category == "" || c.category == f.category)
    && (stage >= 3 ==> f.level == "" || c.level == f.level)
  }

  function UpTo(f: Filters, stage: nat): Card -> bool {
    c => PassesUpTo(c, f, stage)
  }

  /** The page's three successive filters are one filter by `Visible`: the
      shown cards are those that pass every active filter, in catalogue
      order, each as often as it is listed, whatever order the filters are
      applied in. */
  lemma {:induction false} ShownIsOneFilter(courses: seq<Card>, f: Filters)
    ensures Shown(courses, f) == Filter(courses, c => Visible(c, f))
    ensures IsSubsequence(Shown(courses, f), courses)
    ensures forall c :: multiset(Shown(courses, f))[c] == if Visible(c, f) then multiset(courses)[c] else 0
  {
    FilterAll(courses, UpTo(f, 0));
    var bySearch := if f.search != "" then Filter(courses, SearchFilter(f.search)) else courses;
    FilterStage(courses, courses, UpTo(f, 0), UpTo(f, 1), f.search != "", SearchFilter(f.search));
    var byCategory := if f.category != "" then Filter(bySearch, CategoryFilter(f.category)) else bySearch;
    FilterStage(courses, bySearch, UpTo(f, 1), UpTo(f, 2), f.category != "", CategoryFilter(f.category));
    FilterStage(courses, byCategory, UpTo(f, 2), UpTo(f, 3), f.level != "", LevelFilter(f.level));
    FilterCongruent(courses, UpTo(f, 3), c => Visible(c, f));
  }

  /** An empty search term would match every card, so skipping the search
      when the box is empty shows the same cards as searching for "". */
  lemma EmptySearchMatchesAll(c: Card)
    ensures MatchesSearch(c, "")
  {
    assert Lower("") == [];
    ContainsEmpty(Lower(c.title));
  }

  /** Clear Filters: all three inputs emptied. */
  function Cleared(): (f: Filters)
    ensures forall c :: Visible(c, f)
  {
    Filters("", "", "")
  }

  /** After clearing, the whole catalogue is shown, in its order. */
  lemma ClearedShowsAll(courses: seq<Card>)
    ensures Shown(courses, Cleared()) == courses
  {
  }

  /** The category of each listed course, in catalogue order. */
  function CategoryColumn(courses: seq<Card>): (r: seq<string>)
    ensures |r| == |courses| && forall i :: 0 <= i < |r| ==> r[i] == courses[i].category
  {
    seq(|courses|, i requires 0 <= i < |courses| => courses[i].category)
  }

  /** The categories of the listed courses, each once, in order of first
      appearance. */
  function Categories(courses: seq<Card>): (r: seq<string>)
    ensures NoDuplicates(r)
    ensures forall x :: x in r <==> exists i :: 0 <= i < |courses| && courses[i].category == x
    ensures forall x :: x in r <==> x in CategoryColumn(courses)
    ensures forall i, j :: 0 <= i < j < |r| ==> FirstIndex(CategoryColumn(courses), r[i]) < FirstIndex(CategoryColumn(courses), r[j])
  {
    var all := CategoryColumn(courses);
    assert forall x :: x in all <==> exists i :: 0 <= i < |courses| && courses[i].category == x by {
      forall x
        ensures x in all <==> exists i :: 0 <= i < |courses| && courses[i].category == x
      {
        if x in all {
          var i :| 0 <= i < |all| && all[i] == x;
        }
        if exists i :: 0 <= i < |courses| && courses[i].category == x {
          var i :| 0 <= i < |courses| && courses[i].category == x;
          assert all[i] == x;
        }
      }
    }
    Dedup(all)
  }

  /** Every offered category shows at least one course when chosen alone. */
  lemma OfferedCategoryIsNonEmpty(courses: seq<Card>, category: string)
    requires category in Categories(courses)
    ensures |Shown(courses, Filters("", category, ""))| > 0
  {
    var i :| 0 <= i < |courses| && courses[i].category == category;
    assert courses[i] in Shown(courses, Filters("", category, ""));
  }
}
