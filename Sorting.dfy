/**
 * `Collections.sort` with a `Comparator`: a stable sort, written here as an
 * insertion sort. The comparator's contract (`compare(a, b) <= 0` is total and
 * transitive) is what `Collections.sort` demands of its callers.
 */
module Sorting {
  import opened Lists

  /** The part of `java.util.Comparator`'s contract a sort relies on. */
  ghost predicate TotalPreorder<T(!new)>(cmp: (T, T) -> int) {
    && (forall a, b :: cmp(a, b) <= 0 || cmp(b, a) <= 0)
    && (forall a, b, c :: cmp(a, b) <= 0 && cmp(b, c) <= 0 ==> cmp(a, c) <= 0)
  }

  predicate Sorted<T>(cmp: (T, T) -> int, s: seq<T>) {
    forall i, j :: 0 <= i < j < |s| ==> cmp(s[i], s[j]) <= 0
  }

  /** Places `x` after every leading element that does not compare above it. */
  function Insert<T>(cmp: (T, T) -> int, x: T, s: seq<T>): (r: seq<T>)
    ensures multiset(r) == multiset(s) + multiset{x}
  {
    if s == [] then [x]
    else if cmp(s[0], x) <= 0 then
      assert s == [s[0]] + s[1..];
      [s[0]] + Insert(cmp, x, s[1..])
    else [x] + s
  }

  /** The list `Collections.sort(list, cmp)` leaves behind. */
  function SortBy<T>(cmp: (T, T) -> int, s: seq<T>): (r: seq<T>)
    ensures multiset(r) == multiset(s)
  {
    if s == [] then []
    else
      assert s == s[..|s| - 1] + [s[|s| - 1]];
      Insert(cmp, s[|s| - 1], SortBy(cmp, s[..|s| - 1]))
  }

  lemma SortedCons<T>(cmp: (T, T) -> int, h: T, t: seq<T>)
    requires Sorted(cmp, t)
    requires forall y :: y in t ==> cmp(h, y) <= 0
    ensures Sorted(cmp, [h] + t)
  {
    var r := [h] + t;
    forall i, j | 0 <= i < j < |r| ensures cmp(r[i], r[j]) <= 0 {
      assert r[j] == t[j - 1];
      if i > 0 {
        assert r[i] == t[i - 1];
      }
    }
  }

  lemma {:induction false} InsertSorted<T(!new)>(cmp: (T, T) -> int, x: T, s: seq<T>)
    requires TotalPreorder(cmp) && Sorted(cmp, s)
    ensures Sorted(cmp, Insert(cmp, x, s))
  {
    if s == [] {
    } else if cmp(s[0], x) <= 0 {
      var t := Insert(cmp, x, s[1..]);
      assert Sorted(cmp, s[1..]) by {
        forall i, j | 0 <= i < j < |s[1..]| ensures cmp(s[1..][i], s[1..][j]) <= 0 {
          assert s[1..][i] == s[i + 1] && s[1..][j] == s[j + 1];
        }
      }
      InsertSorted(cmp, x, s[1..]);
      forall y | y in t ensures cmp(s[0], y) <= 0 {
        assert y in multiset(t);
        if y != x {
          var k :| 0 <= k < |s[1..]| && s[1..][k] == y;
          assert y == s[k + 1];
        }
      }
      SortedCons(cmp, s[0], t);
    } else {
      assert cmp(x, s[0]) <= 0;
      forall y | y in s ensures cmp(x, y) <= 0 {
        var k :| 0 <= k < |s| && s[k] == y;
        if k > 0 {
          assert cmp(s[0], s[k]) <= 0;
        }
      }
      SortedCons(cmp, x, s);
    }
  }

  lemma {:induction false} SortBySorted<T(!new)>(cmp: (T, T) -> int, s: seq<T>)
    requires TotalPreorder(cmp)
    ensures Sorted(cmp, SortBy(cmp, s))
  {
    if s != [] {
      SortBySorted(cmp, s[..|s| - 1]);
      InsertSorted(cmp, s[|s| - 1], SortBy(cmp, s[..|s| - 1]));
    }
  }

  /** Sorting a duplicate-free list only reorders it. */
  lemma SortByDistinct<T>(cmp: (T, T) -> int, s: seq<T>)
    requires NoDuplicates(s)
    ensures NoDuplicates(SortBy(cmp, s)) && Elements(SortBy(cmp, s)) == Elements(s)
    ensures |SortBy(cmp, s)| == |s|
  {
    PermutationOfDistinct(s, SortBy(cmp, s));
    assert |multiset(SortBy(cmp, s))| == |multiset(s)|;
  }
}
