/** Sequence and string vocabulary used throughout the model: JavaScript's
    `filter`, `reduce`-style sums, de-duplication in first-occurrence order,
    stable sorting by a key, ASCII lower-casing and substring search. */
module Seqs {

  /** `a` is an order-preserving subsequence of `b`. */
  predicate IsSubsequence<T(==)>(a: seq<T>, b: seq<T>)
    decreases |b|
  {
    |a| <= |b| &&
    (|a| == 0
     || (a[0] == b[0] && IsSubsequence(a[1..], b[1..]))
     || IsSubsequence(a, b[1..]))
  }

  /** JavaScript's `Array.prototype.filter`: the elements satisfying `p`,
      in their original order, each kept as often as it occurs. */
  function Filter<T(==,!new)>(s: seq<T>, p: T -> bool): (r: seq<T>)
    ensures |r| <= |s|
    ensures forall x :: x in r <==> x in s && p(x)
    ensures forall x :: multiset(r)[x] == if p(x) then multiset(s)[x] else 0
    ensures IsSubsequence(r, s)
    decreases |s|
  {
    if |s| == 0 then []
    else
      assert s == [s[0]] + s[1..];
      if p(s[0]) then [s[0]] + Filter(s[1..], p) else Filter(s[1..], p)
  }

  /** Filtering twice is filtering once by the conjunction, so the order in
      which independent filters are applied does not matter. */
  lemma {:induction false} FilterFilter<T(!new)>(s: seq<T>, p: T -> bool, q: T -> bool)
    ensures Filter(Filter(s, p), q) == Filter(s, x => p(x) && q(x))
    decreases |s|
  {
    if |s| > 0 {
      FilterFilter(s[1..], p, q);
    }
  }

  /** Filtering a sequence with a given first element. */
  lemma FilterCons<T(!new)>(x: T, s: seq<T>, p: T -> bool)
    ensures Filter([x] + s, p) == if p(x) then [x] + Filter(s, p) else Filter(s, p)
  {
    assert ([x] + s)[0] == x && ([x] + s)[1..] == s;
  }

  /** Filtering a concatenation filters each part. */
  lemma {:induction false} FilterAppend<T(!new)>(a: seq<T>, b: seq<T>, p: T -> bool)
    ensures Filter(a + b, p) == Filter(a, p) + Filter(b, p)
    decreases |a|
  {
    if |a| == 0 {
      assert a + b == b;
    } else {
      FilterAppend(a[1..], b, p);
      FilterAppendStep(a[0], a[1..], b, p);
      ConsSplit(a);
      ConcatAssociative([a[0]], a[1..], b);
    }
  }

  /** The inductive step of `FilterAppend`: one more element in front. */
  lemma FilterAppendStep<T(!new)>(x: T, rest: seq<T>, b: seq<T>, p: T -> bool)
    requires Filter(rest + b, p) == Filter(rest, p) + Filter(b, p)
    ensures Filter([x] + (rest + b), p) == Filter([x] + rest, p) + Filter(b, p)
  {
    var fr, fb := Filter(rest, p), Filter(b, p);
    assert Filter([x] + (rest + b), p) == (if p(x) then [x] + (fr + fb) else fr + fb) by {
      FilterCons(x, rest + b, p);
    }
    assert Filter([x] + rest, p) == (if p(x) then [x] + fr else fr) by {
      FilterCons(x, rest, p);
    }
    ConcatAssociative([x], fr, fb);
  }

  lemma ConsSplit<T>(a: seq<T>)
    requires |a| > 0
    ensures [a[0]] + a[1..] == a
  {
  }

  lemma ConcatAssociative<T>(a: seq<T>, b: seq<T>, c: seq<T>)
    ensures a + (b + c) == (a + b) + c
  {
  }

  /** One stage of a filter pipeline: applying `q` when `active` (and
      nothing otherwise) to the result of filtering by `p` filters by `next`,
      the conjunction of `p` with the stage's condition. */
  lemma FilterStage<T(!new)>(s: seq<T>, before: seq<T>, p: T -> bool, next: T -> bool, active: bool, q: T -> bool)
    requires before == Filter(s, p)
    requires forall x :: next(x) == (p(x) && (!active || q(x)))
    ensures (if active then Filter(before, q) else before) == Filter(s, next)
  {
    if active {
      FilterFilter(s, p, q);
      FilterCongruent(s, x => p(x) && q(x), next);
    } else {
      FilterCongruent(s, p, next);
    }
  }

  /** Independent filters commute. */
  lemma FilterCommutes<T(!new)>(s: seq<T>, p: T -> bool, q: T -> bool)
    ensures Filter(Filter(s, p), q) == Filter(Filter(s, q), p)
  {
    FilterFilter(s, p, q);
    FilterFilter(s, q, p);
    FilterCongruent(s, x => p(x) && q(x), x => q(x) && p(x));
  }

  /** A filter that every element passes returns its input. */
  lemma {:induction false} FilterAll<T(!new)>(s: seq<T>, p: T -> bool)
    requires forall i :: 0 <= i < |s| ==> p(s[i])
    ensures Filter(s, p) == s
    decreases |s|
  {
    if |s| > 0 {
      FilterAll(s[1..], p);
    }
  }

  /** Two predicates that agree on the elements of `s` filter it alike. */
  lemma {:induction false} FilterCongruent<T(!new)>(s: seq<T>, p: T -> bool, q: T -> bool)
    requires forall i :: 0 <= i < |s| ==> p(s[i]) == q(s[i])
    ensures Filter(s, p) == Filter(s, q)
    decreases |s|
  {
    if |s| > 0 {
      FilterCongruent(s[1..], p, q);
    }
  }

  /** The elements of `s` that satisfy `p`, as a set. */
  function SetWhere<T>(s: set<T>, p: T -> bool): set<T> {
    set x | x in s && p(x)
  }

  /** A duplicate-free listing of a set is as long as the set is large. */
  lemma ListingSize<T(!new)>(r: seq<T>, s: set<T>)
    requires NoDuplicates(r)
    requires forall x :: x in r <==> x in s
    ensures |r| == |s|
  {
    var all := (x: T) => true;
    CountOfListing(r, s, all);
    FilterAll(r, all);
    assert SetWhere(s, all) == s;
  }

  /** Counting the matches in any duplicate-free listing of a set gives the
      number of matching elements of the set. */
  lemma {:induction false} CountOfListing<T(!new)>(r: seq<T>, s: set<T>, p: T -> bool)
    requires NoDuplicates(r)
    requires forall x :: x in r <==> x in s
    ensures |Filter(r, p)| == |SetWhere(s, p)|
    decreases |r|
  {
    if |r| == 0 {
      assert s == {};
    } else {
      var x := r[0];
      var s' := s - {x};
      forall y ensures y in r[1..] <==> y in s' {
        if y in r[1..] {
          var j :| 0 <= j < |r[1..]| && r[1..][j] == y;
          assert r[j + 1] == y;
        }
        if y in s' {
          var j :| 0 <= j < |r| && r[j] == y;
          assert j != 0;
          assert r[1..][j - 1] == y;
        }
      }
      CountOfListing(r[1..], s', p);
      if p(x) {
        assert SetWhere(s, p) == SetWhere(s', p) + {x};
      } else {
        assert SetWhere(s, p) == SetWhere(s', p);
      }
    }
  }

  /** The sum of `f` over the elements of `s` (a left fold from 0). */
  function Sum<T>(s: seq<T>, f: T -> int): int
    decreases |s|
  {
    if |s| == 0 then 0 else f(s[0]) + Sum(s[1..], f)
  }

  lemma {:induction false} SumAppend<T>(a: seq<T>, b: seq<T>, f: T -> int)
    ensures Sum(a + b, f) == Sum(a, f) + Sum(b, f)
    decreases |a|
  {
    if |a| > 0 {
      assert (a + b)[0] == a[0];
      assert (a + b)[1..] == a[1..] + b;
      SumAppend(a[1..], b, f);
    } else {
      assert a + b == b;
    }
  }

  /** A sum does not depend on the order of its terms. */
  lemma {:induction false} SumPermutation<T>(a: seq<T>, b: seq<T>, f: T -> int)
    requires multiset(a) == multiset(b)
    ensures Sum(a, f) == Sum(b, f)
    decreases |a|
  {
    if |a| == 0 {
      assert |b| == |multiset(b)| == 0;
    } else {
      var x := a[0];
      assert a == [x] + a[1..];
      assert x in multiset(b);
      var k :| 0 <= k < |b| && b[k] == x;
      var rest := b[..k] + b[k + 1..];
      assert b == b[..k] + [x] + b[k + 1..];
      assert multiset(b) == multiset(b[..k]) + multiset{x} + multiset(b[k + 1..]);
      assert multiset(a) == multiset{x} + multiset(a[1..]);
      assert multiset(rest) == multiset(b[..k]) + multiset(b[k + 1..]);
      forall y ensures multiset(a[1..])[y] == multiset(rest)[y] {
        assert multiset(a)[y] == multiset(b)[y];
      }
      assert multiset(a[1..]) == multiset(rest);
      SumPermutation(a[1..], rest, f);
      assert b == b[..k] + ([x] + b[k + 1..]);
      SumAppend(b[..k], [x] + b[k + 1..], f);
      SumAppend([x], b[k + 1..], f);
      assert Sum([x], f) == f(x) by {
        assert [x][1..] == [];
      }
      SumAppend(b[..k], b[k + 1..], f);
    }
  }

  /** No element occurs twice. */
  predicate NoDuplicates<T(==)>(s: seq<T>) {
    forall i, j :: 0 <= i < j < |s| ==> s[i] != s[j]
  }

  /** The position of the first occurrence of `x` in `s`. */
  function FirstIndex<T(==)>(s: seq<T>, x: T): (k: nat)
    requires x in s
    ensures k < |s| && s[k] == x
    ensures forall i :: 0 <= i < k ==> s[i] != x
    decreases |s|
  {
    if s[0] == x then 0 else 1 + FirstIndex(s[1..], x)
  }

  /** A first occurrence inside a prefix is the first occurrence overall. */
  lemma {:induction false} FirstIndexPrefix<T>(s: seq<T>, n: nat, x: T)
    requires n <= |s| && x in s[..n]
    ensures FirstIndex(s, x) == FirstIndex(s[..n], x)
    decreases n
  {
    if s[0] != x {
      assert s[..n][0] == s[0];
      assert s[..n][1..] == s[1..][..n - 1];
      FirstIndexPrefix(s[1..], n - 1, x);
    }
  }

  /** The distinct elements of `s`, each where it first occurs (the order in
      which a JavaScript `Set` built from `s` iterates). */
  function Dedup<T(==,!new)>(s: seq<T>): (r: seq<T>)
    ensures NoDuplicates(r)
    ensures forall x :: x in r <==> x in s
    ensures forall i, j :: 0 <= i < j < |r| ==> FirstIndex(s, r[i]) < FirstIndex(s, r[j])
    decreases |s|
  {
    if |s| == 0 then []
    else
      var init := s[..|s| - 1];
      var last := s[|s| - 1];
      var d := Dedup(init);
      assert s == init + [last];
      forall y | y in d
        ensures FirstIndex(s, y) == FirstIndex(init, y)
      {
        FirstIndexPrefix(s, |s| - 1, y);
      }
      if last in init then d
      else
        assert FirstIndex(s, last) == |s| - 1;
        d + [last]
  }

  /** `s` is sorted ascending by `key`. */
  predicate SortedBy<T>(s: seq<T>, key: T -> int) {
    forall i, j :: 0 <= i < j < |s| ==> key(s[i]) <= key(s[j])
  }

  /** Inserts `x` into the sorted `r` after every element whose key is at most
      `key(x)`, so that earlier equal keys stay in front. */
  function InsertSorted<T(==,!new)>(r: seq<T>, x: T, key: T -> int): (r': seq<T>)
    requires SortedBy(r, key)
    ensures SortedBy(r', key)
    ensures multiset(r') == multiset(r) + multiset{x}
    ensures forall y :: y in r' <==> y in r || y == x
    decreases |r|
  {
    if |r| == 0 then [x]
    else if key(r[|r| - 1]) <= key(x) then r + [x]
    else
      var init := r[..|r| - 1];
      var last := r[|r| - 1];
      assert r == init + [last];
      var rec := InsertSorted(init, x, key);
      assert forall i :: 0 <= i < |rec| ==> key(rec[i]) <= key(last) by {
        forall i | 0 <= i < |rec|
          ensures key(rec[i]) <= key(last)
        {
          if rec[i] != x {
            assert rec[i] in rec;
            var j :| 0 <= j < |init| && init[j] == rec[i];
            assert r[j] == init[j];
          }
        }
      }
      rec + [last]
  }

  /** Inserting a new element into a duplicate-free sequence keeps it
      duplicate-free. */
  lemma {:induction false} InsertSortedNoDuplicates<T(!new)>(r: seq<T>, x: T, key: T -> int)
    requires SortedBy(r, key) && NoDuplicates(r) && x !in r
    ensures NoDuplicates(InsertSorted(r, x, key))
    decreases |r|
  {
    if |r| > 0 {
      var init := r[..|r| - 1];
      var last := r[|r| - 1];
      assert r == init + [last];
      if key(last) > key(x) {
        InsertSortedNoDuplicates(init, x, key);
        var rec := InsertSorted(init, x, key);
        assert InsertSorted(r, x, key) == rec + [last];
        assert last !in init;
        assert last !in rec;
      }
    }
  }

  /** Insertion sort by `key`: JavaScript's stable `sort` with the comparator
      `(a, b) => key(a) - key(b)`. */
  function SortBy<T(==,!new)>(s: seq<T>, key: T -> int): (r: seq<T>)
    ensures SortedBy(r, key)
    ensures multiset(r) == multiset(s)
    decreases |s|
  {
    if |s| == 0 then []
    else
      assert s == s[..|s| - 1] + [s[|s| - 1]];
      InsertSorted(SortBy(s[..|s| - 1], key), s[|s| - 1], key)
  }

  /** ASCII lower-casing of one character. */
  function LowerChar(c: char): char {
    if 'A' <= c <= 'Z' then (c as int + 32) as char else c
  }

  /** ASCII lower-casing of a string (JavaScript's `toLowerCase`). */
  function Lower(s: string): (r: string)
    ensures |r| == |s|
    ensures forall i :: 0 <= i < |s| ==> r[i] == LowerChar(s[i])
  {
    seq(|s|, i requires 0 <= i < |s| => LowerChar(s[i]))
  }

  /** `needle` occurs in `hay` starting at position `i`. */
  predicate OccursAt<T(==)>(hay: seq<T>, needle: seq<T>, i: int) {
    0 <= i && i + |needle| <= |hay| && hay[i..i + |needle|] == needle
  }

  /** JavaScript's `includes` on strings: `needle` is a substring of `hay`. */
  predicate Contains<T(==)>(hay: seq<T>, needle: seq<T>) {
    exists i :: 0 <= i <= |hay| && OccursAt(hay, needle, i)
  }

  /** The empty string is contained in every string. */
  lemma ContainsEmpty<T>(hay: seq<T>)
    ensures Contains(hay, [])
  {
    assert OccursAt(hay, [], 0);
  }

  /** Case-insensitive substring test: `hay.toLowerCase().includes(needle.toLowerCase())`. */
  predicate IncludesIgnoringCase(hay: string, needle: string) {
    Contains(Lower(hay), Lower(needle))
  }
}
