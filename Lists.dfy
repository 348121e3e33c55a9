/**
 * The `java.util.List` operations the core uses, on sequences: `indexOf`,
 * positional removal, filtering, and the facts about duplicate-free lists
 * that the `VariableList` invariant is built from.
 */
module Lists {

  predicate NoDuplicates<T(==)>(s: seq<T>) {
    forall i, j :: 0 <= i < j < |s| ==> s[i] != s[j]
  }

  function Elements<T>(s: seq<T>): set<T> {
    set x | x in s
  }

  lemma ElementsAppend<T>(a: seq<T>, b: seq<T>)
    ensures Elements(a + b) == Elements(a) + Elements(b)
  {
  }

  /** `List.indexOf`: the first position holding `x`, or -1. */
  function IndexOf<T(==)>(s: seq<T>, x: T): (i: int)
    ensures -1 <= i < |s|
    ensures i == -1 <==> x !in s
    ensures 0 <= i ==> s[i] == x && x !in s[..i]
  {
    if s == [] then -1
    else if s[0] == x then 0
    else
      var j := IndexOf(s[1..], x);
      if j == -1 then -1
      else
        assert s[..j + 1] == [s[0]] + s[1..][..j];
        j + 1
  }

  /** A position holding `y` with no `y` before it is the one `indexOf` reports. */
  lemma IndexOfUnique<T>(t: seq<T>, y: T, j: int)
    requires 0 <= j < |t| && t[j] == y && y !in t[..j]
    ensures IndexOf(t, y) == j
  {
    assert y in t;
    var k := IndexOf(t, y);
    assert forall m :: 0 <= m < j ==> t[..j][m] == t[m];
    assert forall m :: 0 <= m < k ==> t[..k][m] == t[m];
  }

  /** Appending an element leaves the position of an element already present unchanged. */
  lemma IndexOfExtend<T>(s: seq<T>, x: T, y: T)
    requires y in s
    ensures IndexOf(s + [x], y) == IndexOf(s, y)
  {
    var i := IndexOf(s, y);
    assert (s + [x])[..i] == s[..i];
    IndexOfUnique(s + [x], y, i);
  }

  /** The elements of `s` that satisfy `p`, in their original order. */
  function Filter<T>(s: seq<T>, p: T -> bool): (r: seq<T>)
    ensures |r| <= |s|
  {
    if s == [] then []
    else Filter(s[..|s| - 1], p) + (if p(s[|s| - 1]) then [s[|s| - 1]] else [])
  }

  lemma {:induction false} FilterMembers<T>(s: seq<T>, p: T -> bool)
    ensures Elements(Filter(s, p)) == set y | y in s && p(y)
  {
    if s != [] {
      var t, x := s[..|s| - 1], s[|s| - 1];
      FilterMembers(t, p);
      assert s == t + [x];
      var tail := if p(x) then [x] else [];
      assert Filter(s, p) == Filter(t, p) + tail;
      assert Elements(Filter(s, p)) == Elements(Filter(t, p)) + Elements(tail);
    }
  }

  lemma {:induction false} FilterAppend<T>(a: seq<T>, b: seq<T>, p: T -> bool)
    ensures Filter(a + b, p) == Filter(a, p) + Filter(b, p)
  {
    if b != [] {
      var c := b[..|b| - 1];
      assert (a + b)[..|a + b| - 1] == a + c;
      FilterAppend(a, c, p);
    } else {
      assert a + b == a;
    }
  }

  lemma {:induction false} FilterAll<T>(s: seq<T>, p: T -> bool)
    requires forall y :: y in s ==> p(y)
    ensures Filter(s, p) == s
  {
    if s != [] {
      var t := s[..|s| - 1];
      FilterAll(t, p);
      assert s == t + [s[|s| - 1]];
    }
  }

  function Differs<T(==)>(x: T): T -> bool {
    y => y != x
  }

  /** `s` with every occurrence of `x` taken out. */
  function Without<T(==)>(s: seq<T>, x: T): (r: seq<T>)
    ensures Elements(r) == Elements(s) - {x}
    ensures x !in r
  {
    FilterMembers(s, Differs(x));
    assert (set y | y in s && Differs(x)(y)) == Elements(s) - {x};
    assert x !in Elements(Filter(s, Differs(x)));
    Filter(s, Differs(x))
  }

  lemma WithoutAppend<T>(a: seq<T>, b: seq<T>, x: T)
    ensures Without(a + b, x) == Without(a, x) + Without(b, x)
  {
    FilterAppend(a, b, Differs(x));
  }

  lemma WithoutAbsent<T>(s: seq<T>, x: T)
    requires x !in s
    ensures Without(s, x) == s
  {
    FilterAll(s, Differs(x));
  }

  lemma WithoutSelf<T>(x: T)
    ensures Without([x], x) == []
  {
    assert [x][..0] == [];
  }

  /** Taking out `x` around an occurrence of `x`. */
  lemma WithoutAround<T>(a: seq<T>, x: T, b: seq<T>)
    ensures Without(a + [x] + b, x) == Without(a, x) + Without(b, x)
  {
    WithoutAppend(a + [x], b, x);
    WithoutAppend(a, [x], x);
    WithoutSelf(x);
  }

  lemma WithoutSplit<T>(s: seq<T>, i: int, x: T)
    requires 0 <= i <= |s|
    ensures Without(s, x) == Without(s[..i], x) + Without(s[i..], x)
  {
    assert s == s[..i] + s[i..];
    WithoutAppend(s[..i], s[i..], x);
  }

  /** In a duplicate-free list the value at `i` occurs in no slice that leaves out `i`. */
  lemma NotElsewhere<T>(s: seq<T>, i: int, lo: int, hi: int)
    requires NoDuplicates(s) && 0 <= i < |s| && 0 <= lo <= hi <= |s| && (i < lo || hi <= i)
    ensures s[i] !in s[lo..hi]
  {
    forall k | 0 <= k < hi - lo ensures s[lo..hi][k] != s[i] {
      assert s[lo..hi][k] == s[lo + k];
    }
  }

  lemma {:induction false} DistinctCardinality<T>(s: seq<T>)
    requires NoDuplicates(s)
    ensures |Elements(s)| == |s|
  {
    if s != [] {
      var t := s[..|s| - 1];
      var x := s[|s| - 1];
      assert Elements(s) == Elements(t) + {x};
      assert x !in Elements(t);
      DistinctCardinality(t);
    }
  }

  lemma {:induction false} DistinctCounts<T>(s: seq<T>)
    requires NoDuplicates(s)
    ensures forall v :: multiset(s)[v] <= 1
  {
    if s != [] {
      var t := s[..|s| - 1];
      var x := s[|s| - 1];
      DistinctCounts(t);
      assert s == t + [x];
      assert x !in t;
    }
  }

  /** A permutation of a duplicate-free list is duplicate-free and has the same elements. */
  lemma PermutationOfDistinct<T>(s: seq<T>, t: seq<T>)
    requires NoDuplicates(s) && multiset(s) == multiset(t)
    ensures NoDuplicates(t) && Elements(t) == Elements(s)
  {
    DistinctCounts(s);
    forall i, j | 0 <= i < j < |t| ensures t[i] != t[j] {
      RepeatedCount(t, i, j);
    }
    assert forall x :: x in t <==> x in multiset(t);
  }

  lemma RepeatedCount<T>(t: seq<T>, i: int, j: int)
    requires 0 <= i < j < |t|
    ensures t[i] == t[j] ==> multiset(t)[t[j]] >= 2
  {
    assert t == t[..j] + [t[j]] + t[j + 1..];
    assert t[i] in t[..j];
  }

  /** Removing one position of a duplicate-free list keeps it duplicate-free. */
  lemma RemoveAtDistinct<T>(s: seq<T>, i: int)
    requires NoDuplicates(s) && 0 <= i < |s|
    ensures NoDuplicates(s[..i] + s[i + 1..])
    ensures Elements(s[..i] + s[i + 1..]) == Elements(s) - {s[i]}
  {
    var r := s[..i] + s[i + 1..];
    forall a, b | 0 <= a < b < |r| ensures r[a] != r[b] {
      var a' := if a < i then a else a + 1;
      var b' := if b < i then b else b + 1;
      assert r[a] == s[a'] && r[b] == s[b'];
    }
    assert s == s[..i] + [s[i]] + s[i + 1..];
  }

  /** Inserting a new value into a duplicate-free list keeps it duplicate-free. */
  lemma InsertDistinct<T>(s: seq<T>, i: int, x: T)
    requires NoDuplicates(s) && 0 <= i <= |s| && x !in s
    ensures NoDuplicates(s[..i] + [x] + s[i..])
    ensures Elements(s[..i] + [x] + s[i..]) == Elements(s) + {x}
  {
    var r := s[..i] + [x] + s[i..];
    forall a, b | 0 <= a < b < |r| ensures r[a] != r[b] {
      if a != i && b != i {
        var a' := if a < i then a else a - 1;
        var b' := if b < i then b else b - 1;
        assert r[a] == s[a'] && r[b] == s[b'];
      } else if a == i {
        assert r[b] == s[b - 1];
      } else {
        assert r[a] == s[a];
      }
    }
    assert s == s[..i] + s[i..];
  }
}
