/**
 * `CommonUtils`: generic collection helpers — positional lookup in an
 * iterable, add-or-remove, the difference of two maps, a null-aware
 * comparator, partitioned execution, grouped-list construction, in-place
 * filtering and the conversion between enum constants and their ordinals.
 *
 * Java `null` is `None`. A callback the helpers invoke (a partition action,
 * a group mapper, a comparator) is a pure function parameter; what the
 * helpers hand to a callback with side effects is returned as a trace.
 */
module CommonUtils {
  import opened Optional
  import opened Strings
  import opened Lists
  import Sorting

  // ---------------------------------------------------------------------------
  // get / first
  // ---------------------------------------------------------------------------

  /**
   * The three kinds of `Iterable` `get` distinguishes: a `List` (random
   * access), another `Collection` (known size, walked), and any other
   * iterable (walked without a size).
   */
  datatype Iterable<T> = ListOf(elems: seq<T>) | CollectionOf(elems: seq<T>) | WalkOnly(elems: seq<T>)

  /** The element at `idx`, or nothing for a null iterable or an index out of range. */
  method Get<T>(iterable: Option<Iterable<T>>, idx: int) returns (r: Option<T>)
    ensures r.Some? <==> iterable.Some? && 0 <= idx < |iterable.value.elems|
    ensures r.Some? ==> r.value == iterable.value.elems[idx]
  {
    if iterable.None? || idx < 0 {
      return None;
    }
    var it := iterable.value;
    if !it.WalkOnly? {
      if idx >= |it.elems| {
        return None;
      }
      if it.ListOf? {
        return Some(it.elems[idx]);
      }
    }
    var i := 0;
    while i < |it.elems|
      invariant 0 <= i <= |it.elems| && i <= idx
    {
      if i == idx {
        return Some(it.elems[i]);
      }
      i := i + 1;
    }
    return None;
  }

  /** The first element, or nothing for a null or empty iterable. */
  method First<T>(iterable: Option<Iterable<T>>) returns (r: Option<T>)
    ensures r.Some? <==> iterable.Some? && iterable.value.elems != []
    ensures r.Some? ==> r.value == iterable.value.elems[0]
  {
    r := Get(iterable, 0);
  }

  // ---------------------------------------------------------------------------
  // addRemove / filterCollection
  // ---------------------------------------------------------------------------

  /** A mutable `Collection` with list semantics: `add` appends, `remove` drops the first equal element. */
  class Collection<T(==)> {
    var elems: seq<T>

    constructor (init: seq<T>)
      ensures elems == init
    {
      elems := init;
    }

    method Add(item: T) returns (changed: bool)
      modifies this
      ensures changed
      ensures elems == old(elems) + [item]
    {
      elems := elems + [item];
      return true;
    }

    method Remove(item: T) returns (changed: bool)
      modifies this
      ensures changed <==> item in old(elems)
      ensures !changed ==> elems == old(elems)
      ensures changed ==>
        var i := IndexOf(old(elems), item);
        elems == old(elems)[..i] + old(elems)[i + 1..]
      ensures multiset(elems) == multiset(old(elems)) - multiset{item}
    {
      var i := IndexOf(elems, item);
      if i < 0 {
        return false;
      }
      assert elems == elems[..i] + [item] + elems[i + 1..];
      elems := elems[..i] + elems[i + 1..];
      return true;
    }
  }

  /** Removes `item` when `remove` holds, adds it otherwise; reports whether the collection changed. */
  method AddRemove<T(==)>(coll: Collection<T>, item: T, remove: bool) returns (changed: bool)
    modifies coll
    ensures remove ==> (changed <==> item in old(coll.elems))
    ensures remove ==> multiset(coll.elems) == multiset(old(coll.elems)) - multiset{item}
    ensures remove && changed ==>
      var i := IndexOf(old(coll.elems), item);
      coll.elems == old(coll.elems)[..i] + old(coll.elems)[i + 1..]
    ensures remove && !changed ==> coll.elems == old(coll.elems)
    ensures !remove ==> changed && coll.elems == old(coll.elems) + [item]
  {
    if remove {
      changed := coll.Remove(item);
      return;
    }
    changed := coll.Add(item);
  }

  /** Removes, in place, every element that fails `retain`; a null collection is left alone. */
  method FilterCollection<T(==)>(coll: Collection?<T>, retain: T -> bool)
    modifies coll
    ensures coll != null ==> coll.elems == Filter(old(coll.elems), retain)
  {
    if coll == null {
      return;
    }
    ghost var orig := coll.elems;
    ghost var k := 0;
    var i := 0;
    while i < |coll.elems|
      invariant 0 <= k <= |orig| && 0 <= i <= |coll.elems|
      invariant coll.elems[..i] == Filter(orig[..k], retain)
      invariant coll.elems[i..] == orig[k..]
      decreases |coll.elems| - i
    {
      var item := coll.elems[i];
      assert item == orig[k];
      assert orig[..k + 1] == orig[..k] + [item];
      if !retain(item) {
        coll.elems := coll.elems[..i] + coll.elems[i + 1..];
      } else {
        i := i + 1;
      }
      k := k + 1;
    }
    assert orig[..k] == orig;
  }

  /** The complement of a predicate. */
  function Not<T>(p: T -> bool): T -> bool {
    x => !p(x)
  }

  /** Filtering removes exactly the elements failing the predicate. */
  lemma {:induction false} FilterPartition<T>(s: seq<T>, p: T -> bool)
    ensures multiset(Filter(s, p)) + multiset(Filter(s, Not(p))) == multiset(s)
    ensures forall x :: x in Filter(s, p) ==> p(x)
    ensures forall x :: x in Filter(s, Not(p)) ==> !p(x)
  {
    if s != [] {
      var t, x := s[..|s| - 1], s[|s| - 1];
      FilterPartition(t, p);
      assert s == t + [x];
    }
  }

  // ---------------------------------------------------------------------------
  // compare
  // ---------------------------------------------------------------------------

  /** `map.get`: the value under `k`, or null. */
  function Lookup<K, V>(m: map<K, V>, k: K): (r: Option<V>)
    ensures r.Some? <==> k in m
    ensures r.Some? ==> r.value == m[k]
  {
    if k in m then Some(m[k]) else None
  }

  /** A null map behaves as the empty map. */
  function OrEmpty<K, V>(m: Option<map<K, V>>): map<K, V> {
    if m.None? then map[] else m.value
  }

  /**
   * The difference of two maps: an entry `(m1.get(k), m2.get(k))` for every
   * key under which the two hold different values, an absent key counting as null.
   */
  function Diff<K, V(==)>(m1: map<K, V>, m2: map<K, V>): map<K, (Option<V>, Option<V>)> {
    map k | k in m1.Keys + m2.Keys && Lookup(m1, k) != Lookup(m2, k) :: (Lookup(m1, k), Lookup(m2, k))
  }

  /** The entries the walk over `keys` has put so far. */
  ghost predicate DiffOver<K(!new), V>(result: map<K, (Option<V>, Option<V>)>, m1: map<K, V>, m2: map<K, V>, keys: set<K>) {
    && (forall k :: k in result <==> k in keys && Lookup(m1, k) != Lookup(m2, k))
    && (forall k :: k in result ==> result[k] == (Lookup(m1, k), Lookup(m2, k)))
  }

  /** `compare`: walks the keys of the first map, then those of the second. */
  method Compare<K(!new), V(==)>(m1: Option<map<K, V>>, m2: Option<map<K, V>>) returns (result: map<K, (Option<V>, Option<V>)>)
    ensures result == Diff(OrEmpty(m1), OrEmpty(m2))
  {
    var map1, map2 := OrEmpty(m1), OrEmpty(m2);
    result := map[];
    var todo := map1.Keys;
    while todo != {}
      invariant todo <= map1.Keys
      invariant DiffOver(result, map1, map2, map1.Keys - todo)
      decreases todo
    {
      var k :| k in todo;
      var m2Value := Lookup(map2, k);
      if Some(map1[k]) != m2Value {
        result := result[k := (Some(map1[k]), m2Value)];
      }
      todo := todo - {k};
    }
    todo := map2.Keys;
    while todo != {}
      invariant todo <= map2.Keys
      invariant DiffOver(result, map1, map2, map1.Keys + (map2.Keys - todo))
      decreases todo
    {
      var k :| k in todo;
      var m1Value := Lookup(map1, k);
      if m1Value != Some(map2[k]) {
        result := result[k := (m1Value, Some(map2[k]))];
      }
      todo := todo - {k};
    }
    assert result == Diff(map1, map2);
  }

  /** Two maps have no difference exactly when they are equal. */
  lemma DiffEmpty<K, V>(m1: map<K, V>, m2: map<K, V>)
    ensures Diff(m1, m2) == map[] <==> m1 == m2
  {
    if Diff(m1, m2) == map[] {
      forall k | k in m1.Keys + m2.Keys ensures Lookup(m1, k) == Lookup(m2, k) {
        assert k !in Diff(m1, m2);
      }
      assert m1.Keys == m2.Keys;
    }
  }

  /** Comparing the other way round gives the same keys with the pair sides swapped. */
  lemma DiffSwapped<K, V>(m1: map<K, V>, m2: map<K, V>)
    ensures Diff(m2, m1).Keys == Diff(m1, m2).Keys
    ensures forall k :: k in Diff(m1, m2) ==> Diff(m2, m1)[k] == (Diff(m1, m2)[k].1, Diff(m1, m2)[k].0)
  {
  }

  // ---------------------------------------------------------------------------
  // getNullHandlingComparator
  // ---------------------------------------------------------------------------

  /**
   * The null-aware comparison: equal arguments compare as 0, null goes first
   * (`sortNullTop`) or last, and two other values are compared by `source`,
   * or by their `toString` when there is no `source`.
   */
  function NullHandlingCompare<T(==)>(source: Option<(T, T) -> int>, toStr: T -> string, sortNullTop: bool,
                                      g1: Option<T>, g2: Option<T>): (c: int)
    ensures g1 == g2 ==> c == 0
    ensures g1 != g2 && g1.None? ==> c == if sortNullTop then -1 else 1
    ensures g1 != g2 && g2.None? ==> c == if sortNullTop then 1 else -1
    ensures g1 != g2 && g1.Some? && g2.Some? && source.Some? ==> c == source.value(g1.value, g2.value)
    ensures g1 != g2 && g1.Some? && g2.Some? && source.None? ==> c == CompareStrings(toStr(g1.value), toStr(g2.value))
  {
    if g1 == g2 then 0
    else if g1.None? then (if sortNullTop then -1 else 1)
    else if g2.None? then (if sortNullTop then 1 else -1)
    else if source.None? then CompareStrings(toStr(g1.value), toStr(g2.value))
    else source.value(g1.value, g2.value)
  }

  /**
   * `getNullHandlingComparator(source, sortNullTop)` as a comparator value:
   * null sorts before every value exactly when `sortNullTop`, after it otherwise.
   */
  function NullHandlingComparator<T(==,!new)>(source: Option<(T, T) -> int>, toStr: T -> string, sortNullTop: bool): (cmp: (Option<T>, Option<T>) -> int)
    ensures forall g :: cmp(g, g) == 0
    ensures forall v :: cmp(None, Some(v)) < 0 <==> sortNullTop
    ensures forall v :: cmp(Some(v), None) < 0 <==> !sortNullTop
  {
    (g1, g2) => NullHandlingCompare(source, toStr, sortNullTop, g1, g2)
  }

  /** The `toString` order is a total preorder. */
  lemma ToStringOrder<T(!new)>(toStr: T -> string)
    ensures Sorting.TotalPreorder((a: T, b: T) => CompareStrings(toStr(a), toStr(b)))
  {
    forall a: T, b: T ensures CompareStrings(toStr(a), toStr(b)) <= 0 || CompareStrings(toStr(b), toStr(a)) <= 0 {
      CompareStringsAntisymmetric(toStr(a), toStr(b));
    }
    forall a: T, b: T, c: T | CompareStrings(toStr(a), toStr(b)) <= 0 && CompareStrings(toStr(b), toStr(c)) <= 0
      ensures CompareStrings(toStr(a), toStr(c)) <= 0
    {
      CompareStringsTransitive(toStr(a), toStr(b), toStr(c));
    }
  }

  /** The comparator the null-aware one delegates to for two non-null values. */
  function Delegate<T>(source: Option<(T, T) -> int>, toStr: T -> string): (T, T) -> int {
    if source.None? then (a: T, b: T) => CompareStrings(toStr(a), toStr(b)) else source.value
  }

  /** Two distinct values compare as the delegate compares them. */
  lemma NullHandlingDelegates<T>(source: Option<(T, T) -> int>, toStr: T -> string, sortNullTop: bool, a: T, b: T)
    requires a != b
    ensures NullHandlingCompare(source, toStr, sortNullTop, Some(a), Some(b)) == Delegate(source, toStr)(a, b)
  {
  }

  /** The null-aware comparison is transitive when its delegate is a total preorder. */
  lemma NullHandlingTransitive<T(!new)>(source: Option<(T, T) -> int>, toStr: T -> string, sortNullTop: bool,
                                        a: Option<T>, b: Option<T>, c: Option<T>)
    requires Sorting.TotalPreorder(Delegate(source, toStr))
    requires NullHandlingCompare(source, toStr, sortNullTop, a, b) <= 0
    requires NullHandlingCompare(source, toStr, sortNullTop, b, c) <= 0
    ensures NullHandlingCompare(source, toStr, sortNullTop, a, c) <= 0
  {
    if a != c && a != b && b != c && a.Some? && b.Some? && c.Some? {
      NullHandlingDelegates(source, toStr, sortNullTop, a.value, b.value);
      NullHandlingDelegates(source, toStr, sortNullTop, b.value, c.value);
      NullHandlingDelegates(source, toStr, sortNullTop, a.value, c.value);
    }
  }

  /** Wrapping a total preorder keeps it one, whichever side null goes to. */
  lemma NullHandlingPreorder<T(!new)>(source: Option<(T, T) -> int>, toStr: T -> string, sortNullTop: bool)
    requires source.Some? ==> Sorting.TotalPreorder(source.value)
    ensures Sorting.TotalPreorder(NullHandlingComparator(source, toStr, sortNullTop))
  {
    var cmp := NullHandlingComparator(source, toStr, sortNullTop);
    var d := Delegate(source, toStr);
    if source.None? {
      ToStringOrder(toStr);
    }
    assert Sorting.TotalPreorder(d);
    forall a: Option<T>, b: Option<T> ensures cmp(a, b) <= 0 || cmp(b, a) <= 0 {
      if a.Some? && b.Some? && a != b {
        NullHandlingDelegates(source, toStr, sortNullTop, a.value, b.value);
        NullHandlingDelegates(source, toStr, sortNullTop, b.value, a.value);
      }
    }
    forall a: Option<T>, b: Option<T>, c: Option<T> | cmp(a, b) <= 0 && cmp(b, c) <= 0
      ensures cmp(a, c) <= 0
    {
      NullHandlingTransitive(source, toStr, sortNullTop, a, b, c);
    }
  }

  // ---------------------------------------------------------------------------
  // executeOnPartitions
  // ---------------------------------------------------------------------------

  /** How a call ends: normally, or with the `IllegalArgumentException` of a negative capacity. */
  datatype Outcome = Completed | IllegalArgument

  /**
   * The lists `executeOnPartitions` hands to the action, in call order. The
   * element counter is never reset, so only the first `partitionSize`
   * elements form a partition of their own; when the action returns true on
   * it, everything after it goes to one final call.
   */
  function PartitionCalls<T>(coll: seq<T>, partitionSize: nat, action: seq<T> -> Option<bool>): seq<seq<T>> {
    if partitionSize == 0 || |coll| < partitionSize then
      (if coll == [] then [] else [coll])
    else if action(coll[..partitionSize]) != Some(true) then [coll[..partitionSize]]
    else [coll[..partitionSize]] + (if |coll| == partitionSize then [] else [coll[partitionSize..]])
  }

  /**
   * `executeOnPartitions`: the lists passed to `action`, in call order. A
   * result other than `TRUE` (false or null) from a full partition stops the walk.
   */
  method ExecuteOnPartitions<T>(coll: seq<T>, partitionSize: int, action: seq<T> -> Option<bool>)
    returns (calls: seq<seq<T>>, outcome: Outcome)
    ensures outcome == IllegalArgument <==> partitionSize < 0
    ensures outcome == IllegalArgument ==> calls == []
    ensures outcome == Completed ==> calls == PartitionCalls(coll, partitionSize, action)
  {
    if partitionSize < 0 {
      return [], IllegalArgument;
    }
    outcome := Completed;
    var sublist: seq<T> := [];
    var cnt := 0;
    calls := [];
    while cnt < |coll|
      invariant 0 <= cnt <= |coll|
      invariant partitionSize == 0 || cnt < partitionSize ==> calls == [] && sublist == coll[..cnt]
      invariant 0 < partitionSize <= cnt ==>
        && action(coll[..partitionSize]) == Some(true)
        && calls == [coll[..partitionSize]] && sublist == coll[partitionSize..cnt]
    {
      sublist := sublist + [coll[cnt]];
      cnt := cnt + 1;
      if cnt == partitionSize {
        assert sublist == coll[..partitionSize];
        var cont := action(sublist);
        calls := calls + [sublist];
        if cont != Some(true) {
          return;
        }
        sublist := [];
      }
    }
    if sublist != [] {
      var _ := action(sublist);
      calls := calls + [sublist];
    }
    assert coll[..cnt] == coll;
  }

  function Flatten<T>(ss: seq<seq<T>>): seq<T> {
    if ss == [] then [] else ss[0] + Flatten(ss[1..])
  }

  /**
   * The action runs at most twice, never on an empty list; the lists it gets
   * are consecutive pieces of the collection, and they cover all of it
   * unless the action stopped the walk after the first partition.
   */
  lemma PartitionCallsShape<T>(coll: seq<T>, partitionSize: nat, action: seq<T> -> Option<bool>)
    ensures var calls := PartitionCalls(coll, partitionSize, action);
            && |calls| <= 2
            && (forall c :: c in calls ==> c != [])
            && Flatten(calls) <= coll
    ensures var calls := PartitionCalls(coll, partitionSize, action);
            0 < partitionSize <= |coll| ==> calls[0] == coll[..partitionSize]
    ensures var calls := PartitionCalls(coll, partitionSize, action);
            (partitionSize == 0 || |coll| < partitionSize || action(coll[..partitionSize]) == Some(true)) ==> Flatten(calls) == coll
  {
    var calls := PartitionCalls(coll, partitionSize, action);
    if partitionSize == 0 || |coll| < partitionSize {
      if coll != [] {
        assert Flatten(calls) == coll + Flatten([]);
      }
    } else {
      var n := partitionSize;
      assert coll == coll[..n] + coll[n..];
      if action(coll[..n]) == Some(true) && |coll| != n {
        assert calls[1..] == [coll[n..]];
        assert Flatten(calls[1..]) == coll[n..] + Flatten([]);
      } else {
        assert Flatten(calls) == coll[..n] + Flatten([]);
      }
    }
  }

  // ---------------------------------------------------------------------------
  // groupList
  // ---------------------------------------------------------------------------

  /**
   * How `groupList` assigns groups: the optional mapper from item to group,
   * the minimum size a group needs to be kept, and the group that takes the
   * items without one.
   */
  datatype GroupRule<!T, G> = GroupRule(groupMapper: Option<T -> Option<G>>, minCountPerGroup: int, defaultGroup: Option<G>)

  /**
   * One call `groupList` makes: `groupAdder(group, firstItemIdx, count)` or
   * `itemAdder(item, pos, itemGroup, groupIdx)`.
   */
  datatype GroupEvent<T, G> =
    | GroupRow(group: G, firstItemIdx: int, count: int)
    | ItemRow(item: T, pos: int, itemGroup: Option<G>, groupIdx: int)

  /** The group the mapper gives an item; none without a mapper. */
  function RawGroup<T, G>(rule: GroupRule<T, G>, item: T): Option<G> {
    if rule.groupMapper.None? then None else rule.groupMapper.value(item)
  }

  /** The group an item is counted under: its own, or the default group. */
  function CountedGroup<T, G>(rule: GroupRule<T, G>, item: T): Option<G> {
    var g := RawGroup(rule, item);
    if g.None? then rule.defaultGroup else g
  }

  /** The per-group item counts of the first pass. */
  function Counts<T, G(==)>(items: seq<T>, rule: GroupRule<T, G>): map<Option<G>, int> {
    if items == [] then map[]
    else
      var m := Counts(items[..|items| - 1], rule);
      var g := CountedGroup(rule, items[|items| - 1]);
      m[g := if g in m then m[g] + 1 else 1]
  }

  function CountedGroups<T, G(==)>(items: seq<T>, rule: GroupRule<T, G>): seq<Option<G>> {
    seq(|items|, p requires 0 <= p < |items| => CountedGroup(rule, items[p]))
  }

  /** The first pass counts, for each group, the items counted under it. */
  lemma {:induction false} CountsAreCounts<T, G>(items: seq<T>, rule: GroupRule<T, G>)
    ensures Counts(items, rule).Keys == set g | g in multiset(CountedGroups(items, rule))
    ensures forall g :: g in Counts(items, rule) ==> Counts(items, rule)[g] == multiset(CountedGroups(items, rule))[g]
  {
    if items != [] {
      var init := items[..|items| - 1];
      CountsAreCounts(init, rule);
      assert CountedGroups(items, rule) == CountedGroups(init, rule) + [CountedGroup(rule, items[|items| - 1])];
    }
  }

  /**
   * The group an item ends up in: the default group when it has no group of
   * its own or when its own group was counted fewer than `minCountPerGroup` times.
   */
  function AssignedGroup<T, G(==)>(items: seq<T>, rule: GroupRule<T, G>, item: T): Option<G> {
    var counts := Counts(items, rule);
    var g := RawGroup(rule, item);
    if g.None? || (g in counts && counts[g] < rule.minCountPerGroup) then rule.defaultGroup else g
  }

  /** The per-group lists of `(position, item)` the second pass builds from the first `n` items. */
  function GroupedUpTo<T, G(==)>(items: seq<T>, rule: GroupRule<T, G>, n: nat): map<Option<G>, seq<(int, T)>>
    requires n <= |items|
  {
    if n == 0 then map[]
    else
      var m := GroupedUpTo(items, rule, n - 1);
      var g := AssignedGroup(items, rule, items[n - 1]);
      m[g := (if g in m then m[g] else []) + [(n - 1, items[n - 1])]]
  }

  function Grouped<T, G(==)>(items: seq<T>, rule: GroupRule<T, G>): map<Option<G>, seq<(int, T)>> {
    GroupedUpTo(items, rule, |items|)
  }

  /** The list of a group: empty when the group has none. */
  function Members<T, G(==)>(grouped: map<Option<G>, seq<(int, T)>>, g: Option<G>): seq<(int, T)> {
    if g in grouped then grouped[g] else []
  }

  /** The item rows of one group's list. */
  function ItemRows<T, G>(members: seq<(int, T)>, g: Option<G>, groupIdx: int): (r: seq<GroupEvent<T, G>>)
    ensures |r| == |members|
  {
    seq(|members|, k requires 0 <= k < |members| => ItemRow(members[k].1, members[k].0, g, groupIdx))
  }

  /**
   * Where the emission stands: the calls made so far, the number of rows
   * emitted (`listIdx`) and the index of the last group row (`groupIdx`).
   */
  datatype EmitState<T, G> = EmitState(events: seq<GroupEvent<T, G>>, listIdx: int, groupIdx: int)

  /** The group row a group gets: one for a non-null group, none for the null group. */
  function Header<T, G>(g: Option<G>, listIdx: int, count: int): seq<GroupEvent<T, G>> {
    if g.Some? then [GroupRow(g.value, listIdx + 1, count)] else []
  }

  /** The index of the last group row once `g` has been started. */
  function GroupIdxAfter<G>(g: Option<G>, listIdx: int, groupIdx: int): int {
    if g.Some? then listIdx else groupIdx
  }

  /** Emitting one group: its group row when it is non-null, then one row per item. */
  function EmitGroup<T, G(==)>(grouped: map<Option<G>, seq<(int, T)>>, st: EmitState<T, G>, g: Option<G>): EmitState<T, G> {
    var members := Members(grouped, g);
    var header := Header(g, st.listIdx, |members|);
    var gi := GroupIdxAfter(g, st.listIdx, st.groupIdx);
    EmitState(st.events + header + ItemRows(members, g, gi), st.listIdx + |header| + |members|, gi)
  }

  /** Emitting the groups `groups` in order, from no rows and no group row. */
  function EmitAll<T, G(==)>(grouped: map<Option<G>, seq<(int, T)>>, groups: seq<Option<G>>): EmitState<T, G> {
    if groups == [] then EmitState([], 0, -1)
    else EmitGroup(grouped, EmitAll(grouped, groups[..|groups| - 1]), groups[|groups| - 1])
  }

  /**
   * `groupList`: the calls to `groupAdder` and `itemAdder`, in order. The
   * groups are put in the order `Collections.sort` gives them under the
   * null-first comparator; which order of equal-ranking groups the hash map
   * presented is left open, and `sortedGroups` names the order taken.
   */
  method GroupList<T, G(==, !new)>(items: seq<T>, rule: GroupRule<T, G>, groupOrder: Option<(G, G) -> int>, toStr: G -> string)
    returns (events: seq<GroupEvent<T, G>>, ghost sortedGroups: seq<Option<G>>)
    ensures NoDuplicates(sortedGroups) && Elements(sortedGroups) == Grouped(items, rule).Keys
    ensures (groupOrder.Some? ==> Sorting.TotalPreorder(groupOrder.value)) ==>
              Sorting.Sorted(NullHandlingComparator(groupOrder, toStr, true), sortedGroups)
    ensures events == GroupListEvents(items, rule, sortedGroups)
  {
    var groupCounts := CountGroups(items, rule);
    var groupedListMap := BuildGroupLists(items, rule, groupCounts);
    // the hash map hands over its keys in an unspecified order
    var keyList := KeyList(groupedListMap);
    var cmp := NullHandlingComparator(groupOrder, toStr, true);
    var sortedGroupList := Sorting.SortBy(cmp, keyList);
    Sorting.SortByDistinct(cmp, keyList);
    if groupOrder.Some? ==> Sorting.TotalPreorder(groupOrder.value) {
      NullHandlingPreorder(groupOrder, toStr, true);
      Sorting.SortBySorted(cmp, keyList);
    }
    sortedGroups := sortedGroupList;
    events := EmitGroups(groupedListMap, sortedGroupList);
  }

  /** The first loop of `groupList`: counts the items per group. */
  method CountGroups<T, G(==)>(items: seq<T>, rule: GroupRule<T, G>) returns (groupCounts: map<Option<G>, int>)
    ensures groupCounts == Counts(items, rule)
  {
    groupCounts := map[];
    var i := 0;
    while i < |items|
      invariant 0 <= i <= |items|
      invariant groupCounts == Counts(items[..i], rule)
    {
      var group := RawGroup(rule, items[i]);
      if group.None? {
        group := rule.defaultGroup;
      }
      if group in groupCounts {
        groupCounts := groupCounts[group := groupCounts[group] + 1];
      } else {
        groupCounts := groupCounts[group := 1];
      }
      assert items[..i + 1][..i] == items[..i];
      i := i + 1;
    }
    assert items[..i] == items;
  }

  /** The second loop of `groupList`: the list of `(position, item)` of each group. */
  method BuildGroupLists<T, G(==)>(items: seq<T>, rule: GroupRule<T, G>, groupCounts: map<Option<G>, int>)
    returns (groupedListMap: map<Option<G>, seq<(int, T)>>)
    requires groupCounts == Counts(items, rule)
    ensures groupedListMap == Grouped(items, rule)
  {
    groupedListMap := map[];
    var pos := 0;
    while pos < |items|
      invariant 0 <= pos <= |items|
      invariant groupedListMap == GroupedUpTo(items, rule, pos)
    {
      var value := items[pos];
      var group := RawGroup(rule, value);
      if group.None? || (group in groupCounts && groupCounts[group] < rule.minCountPerGroup) {
        group := rule.defaultGroup;
      }
      var groupList := if group in groupedListMap then groupedListMap[group] else [];
      groupedListMap := groupedListMap[group := groupList + [(pos, value)]];
      pos := pos + 1;
    }
  }

  /** The keys of a hash map, in whichever order it iterates them. */
  method KeyList<K, V>(m: map<K, V>) returns (keyList: seq<K>)
    ensures NoDuplicates(keyList) && Elements(keyList) == m.Keys
  {
    var keys := m.Keys;
    keyList := [];
    while keys != {}
      invariant NoDuplicates(keyList)
      invariant Elements(keyList) !! keys
      invariant Elements(keyList) + keys == m.Keys
      decreases keys
    {
      var k :| k in keys;
      keyList := keyList + [k];
      keys := keys - {k};
    }
  }

  /**
   * The last loop of `groupList`: walks the sorted groups and, for each,
   * calls `groupAdder` for a non-null group and then `itemAdder` for each of
   * its items.
   */
  method EmitGroups<T, G(==)>(groupedListMap: map<Option<G>, seq<(int, T)>>, sortedGroupList: seq<Option<G>>)
    returns (events: seq<GroupEvent<T, G>>)
    requires Elements(sortedGroupList) <= groupedListMap.Keys
    ensures events == EmitAll(groupedListMap, sortedGroupList).events
  {
    events := [];
    var listIdx := 0;
    var groupIdx := -1;
    var j := 0;
    while j < |sortedGroupList|
      invariant 0 <= j <= |sortedGroupList|
      invariant EmitState(events, listIdx, groupIdx) == EmitAll(groupedListMap, sortedGroupList[..j])
    {
      var group := sortedGroupList[j];
      assert group in Elements(sortedGroupList);
      var members := groupedListMap[group];
      if group.Some? {
        events := events + [GroupRow(group.value, listIdx + 1, |members|)];
        groupIdx := listIdx;
        listIdx := listIdx + 1;
      }
      ghost var headed, first := events, listIdx;
      var k := 0;
      while k < |members|
        invariant 0 <= k <= |members|
        invariant listIdx == first + k
        invariant events == headed + ItemRows(members[..k], group, groupIdx)
      {
        ItemRowsSnoc(members, k, group, groupIdx);
        Associative(headed, ItemRows(members[..k], group, groupIdx), [ItemRow(members[k].1, members[k].0, group, groupIdx)]);
        events := events + [ItemRow(members[k].1, members[k].0, group, groupIdx)];
        listIdx := listIdx + 1;
        k := k + 1;
      }
      assert members[..k] == members;
      EmitAllSnoc(groupedListMap, sortedGroupList, j);
      j := j + 1;
    }
    assert sortedGroupList[..j] == sortedGroupList;
  }

  lemma EmitAllSnoc<T, G>(grouped: map<Option<G>, seq<(int, T)>>, groups: seq<Option<G>>, j: int)
    requires 0 <= j < |groups|
    ensures EmitAll(grouped, groups[..j + 1]) == EmitGroup(grouped, EmitAll(grouped, groups[..j]), groups[j])
  {
    assert groups[..j + 1][..j] == groups[..j];
  }

  lemma ItemRowsSnoc<T, G>(members: seq<(int, T)>, k: int, g: Option<G>, groupIdx: int)
    requires 0 <= k < |members|
    ensures ItemRows(members[..k + 1], g, groupIdx) == ItemRows(members[..k], g, groupIdx) + [ItemRow(members[k].1, members[k].0, g, groupIdx)]
  {
  }

  lemma Associative<E>(a: seq<E>, b: seq<E>, c: seq<E>)
    ensures (a + b) + c == a + (b + c)
  {
  }


  // Properties of the grouping.

  /** The number of items assigned to `g` among the first `n`. */
  function AssignedCount<T, G(==)>(items: seq<T>, rule: GroupRule<T, G>, g: Option<G>, n: nat): nat
    requires n <= |items|
  {
    if n == 0 then 0
    else AssignedCount(items, rule, g, n - 1) + (if AssignedGroup(items, rule, items[n - 1]) == g then 1 else 0)
  }

  /**
   * An item without a group of its own, or whose group holds fewer than
   * `minCountPerGroup` items, goes to the default group; any other item
   * keeps its own group.
   */
  lemma AssignedGroupRule<T, G>(items: seq<T>, rule: GroupRule<T, G>, p: int)
    requires 0 <= p < |items|
    ensures var own := RawGroup(rule, items[p]);
            AssignedGroup(items, rule, items[p]) ==
              if own.None? || multiset(CountedGroups(items, rule))[own] < rule.minCountPerGroup then rule.defaultGroup else own
  {
    CountsAreCounts(items, rule);
    var own := RawGroup(rule, items[p]);
    if own.Some? {
      assert CountedGroups(items, rule)[p] == own;
      assert own in multiset(CountedGroups(items, rule));
    }
  }

  /** Each entry of a group list is an item below `n`, at its position, assigned to that group. */
  ghost predicate EntriesBelow<T, G>(items: seq<T>, rule: GroupRule<T, G>, grouped: map<Option<G>, seq<(int, T)>>, n: int) {
    forall g, k :: g in grouped && 0 <= k < |grouped[g]| ==>
      0 <= grouped[g][k].0 < n && grouped[g][k].0 < |items| && grouped[g][k].1 == items[grouped[g][k].0] &&
      AssignedGroup(items, rule, items[grouped[g][k].0]) == g
  }

  /** Each group list holds its positions in ascending order. */
  ghost predicate Ascending<T, G>(grouped: map<Option<G>, seq<(int, T)>>) {
    forall g, k1, k2 :: g in grouped && 0 <= k1 < k2 < |grouped[g]| ==> grouped[g][k1].0 < grouped[g][k2].0
  }

  lemma {:induction false} GroupedEntries<T, G>(items: seq<T>, rule: GroupRule<T, G>, n: nat)
    requires n <= |items|
    ensures EntriesBelow(items, rule, GroupedUpTo(items, rule, n), n)
  {
    if n > 0 {
      GroupedEntries(items, rule, n - 1);
    }
  }

  lemma {:induction false} GroupedAscending<T, G>(items: seq<T>, rule: GroupRule<T, G>, n: nat)
    requires n <= |items|
    ensures Ascending(GroupedUpTo(items, rule, n))
  {
    if n > 0 {
      GroupedAscending(items, rule, n - 1);
      GroupedEntries(items, rule, n - 1);
    }
  }

  /** Every item below `n` is in the list of the group it is assigned to. */
  lemma {:induction false} GroupedCovers<T, G>(items: seq<T>, rule: GroupRule<T, G>, n: nat)
    requires n <= |items|
    ensures forall p :: 0 <= p < n ==>
              var g := AssignedGroup(items, rule, items[p]);
              g in GroupedUpTo(items, rule, n) && exists k :: 0 <= k < |GroupedUpTo(items, rule, n)[g]| && GroupedUpTo(items, rule, n)[g][k].0 == p
  {
    if n > 0 {
      GroupedCovers(items, rule, n - 1);
      var m: map<Option<G>, seq<(int, T)>> := GroupedUpTo(items, rule, n - 1);
      var m': map<Option<G>, seq<(int, T)>> := GroupedUpTo(items, rule, n);
      forall p | 0 <= p < n
        ensures var g := AssignedGroup(items, rule, items[p]);
                g in m' && exists k :: 0 <= k < |m'[g]| && m'[g][k].0 == p
      {
        var g := AssignedGroup(items, rule, items[p]);
        if p == n - 1 {
          assert m'[g][|m'[g]| - 1].0 == p;
        } else {
          var k :| 0 <= k < |m[g]| && m[g][k].0 == p;
          assert m'[g][k] == m[g][k];
        }
      }
    }
  }

  /** Each group list holds as many entries as items are assigned to the group. */
  lemma {:induction false} GroupedSizes<T, G>(items: seq<T>, rule: GroupRule<T, G>, n: nat)
    requires n <= |items|
    ensures forall g :: |Members(GroupedUpTo(items, rule, n), g)| == AssignedCount(items, rule, g, n)
  {
    if n > 0 {
      GroupedSizes(items, rule, n - 1);
    }
  }

  /** Every group list holds at least one entry. */
  lemma {:induction false} GroupedNonEmpty<T, G>(items: seq<T>, rule: GroupRule<T, G>, n: nat)
    requires n <= |items|
    ensures forall g :: g in GroupedUpTo(items, rule, n) ==> GroupedUpTo(items, rule, n)[g] != []
  {
    if n > 0 {
      GroupedNonEmpty(items, rule, n - 1);
    }
  }

  lemma {:induction false} EmitIndex<T, G>(grouped: map<Option<G>, seq<(int, T)>>, groups: seq<Option<G>>)
    ensures EmitAll(grouped, groups).listIdx == |EmitAll(grouped, groups).events|
  {
    if groups != [] {
      EmitIndex(grouped, groups[..|groups| - 1]);
    }
  }

  /** The number of rows before the item rows of `g` when it is emitted after `st`. */
  function RowsBefore<T, G>(st: EmitState<T, G>, g: Option<G>): int {
    |st.events| + if g.Some? then 1 else 0
  }

  lemma EmitLength<T, G>(grouped: map<Option<G>, seq<(int, T)>>, st: EmitState<T, G>, g: Option<G>)
    ensures |EmitGroup(grouped, st, g).events| == RowsBefore(st, g) + |Members(grouped, g)|
  {
  }

  /** Emitting a group keeps the rows emitted before. */
  lemma EmitKeeps<T, G>(grouped: map<Option<G>, seq<(int, T)>>, st: EmitState<T, G>, g: Option<G>, x: int)
    requires 0 <= x < |st.events|
    ensures x < |EmitGroup(grouped, st, g).events| && EmitGroup(grouped, st, g).events[x] == st.events[x]
  {
  }

  /** A non-null group's row comes first. */
  lemma EmitHeaderAt<T, G>(grouped: map<Option<G>, seq<(int, T)>>, st: EmitState<T, G>, g: Option<G>)
    requires g.Some?
    ensures |st.events| < |EmitGroup(grouped, st, g).events|
    ensures EmitGroup(grouped, st, g).events[|st.events|] == GroupRow(g.value, st.listIdx + 1, |Members(grouped, g)|)
  {
  }

  /** The row of entry `k` of the group's list. */
  lemma EmitRowAt<T, G>(grouped: map<Option<G>, seq<(int, T)>>, st: EmitState<T, G>, g: Option<G>, k: int)
    requires 0 <= k < |Members(grouped, g)|
    ensures RowsBefore(st, g) + k < |EmitGroup(grouped, st, g).events|
    ensures EmitGroup(grouped, st, g).events[RowsBefore(st, g) + k] ==
              ItemRow(Members(grouped, g)[k].1, Members(grouped, g)[k].0, g, GroupIdxAfter(g, st.listIdx, st.groupIdx))
  {
  }

  /** Every item row comes from the list of its group, and that group is one of `groups`. */
  ghost predicate RowsFromLists<T, G>(grouped: map<Option<G>, seq<(int, T)>>, groups: seq<Option<G>>, evs: seq<GroupEvent<T, G>>) {
    forall x :: 0 <= x < |evs| && evs[x].ItemRow? ==>
      evs[x].itemGroup in groups && (evs[x].pos, evs[x].item) in Members(grouped, evs[x].itemGroup)
  }

  lemma {:induction false} EmitRowsFromLists<T, G>(grouped: map<Option<G>, seq<(int, T)>>, groups: seq<Option<G>>)
    ensures RowsFromLists(grouped, groups, EmitAll(grouped, groups).events)
  {
    if groups != [] {
      var init, g := groups[..|groups| - 1], groups[|groups| - 1];
      EmitRowsFromLists(grouped, init);
      var st := EmitAll(grouped, init);
      assert RowsFromLists(grouped, init, st.events);
      var evs := EmitAll(grouped, groups).events;
      EmitLength(grouped, st, g);
      forall x | 0 <= x < |evs| && evs[x].ItemRow?
        ensures evs[x].itemGroup in groups && (evs[x].pos, evs[x].item) in Members(grouped, evs[x].itemGroup)
      {
        if x < |st.events| {
          EmitKeeps(grouped, st, g, x);
          assert st.events[x].itemGroup in init;
        } else if x < RowsBefore(st, g) {
          EmitHeaderAt(grouped, st, g);
        } else {
          EmitRowAt(grouped, st, g, x - RowsBefore(st, g));
        }
      }
    }
  }

  /** The item row of entry `k` of the list of group `g`, one of `groups`. */
  lemma {:induction false} EmitRowOf<T, G>(grouped: map<Option<G>, seq<(int, T)>>, groups: seq<Option<G>>, g: Option<G>, k: int)
    returns (x: int)
    requires g in groups && 0 <= k < |Members(grouped, g)|
    ensures 0 <= x < |EmitAll(grouped, groups).events|
    ensures EmitAll(grouped, groups).events[x].ItemRow?
    ensures EmitAll(grouped, groups).events[x].pos == Members(grouped, g)[k].0
    ensures EmitAll(grouped, groups).events[x].itemGroup == g
  {
    var init, last := groups[..|groups| - 1], groups[|groups| - 1];
    var st := EmitAll(grouped, init);
    if g == last {
      x := RowsBefore(st, g) + k;
      EmitRowAt(grouped, st, g, k);
    } else {
      var i :| 0 <= i < |groups| && groups[i] == g;
      assert init[i] == g;
      x := EmitRowOf(grouped, init, g, k);
      EmitKeeps(grouped, st, last, x);
    }
  }

  /** The item rows of one group appear in ascending position order. */
  ghost predicate KeepsOrder<T, G>(evs: seq<GroupEvent<T, G>>) {
    forall a, b :: 0 <= a < b < |evs| && evs[a].ItemRow? && evs[b].ItemRow? ==>
      (evs[a].itemGroup == evs[b].itemGroup ==> evs[a].pos < evs[b].pos)
  }

  lemma {:induction false} EmitKeepsOrder<T, G>(grouped: map<Option<G>, seq<(int, T)>>, groups: seq<Option<G>>)
    requires NoDuplicates(groups) && Ascending(grouped)
    ensures KeepsOrder(EmitAll(grouped, groups).events)
  {
    if groups != [] {
      var init, g := groups[..|groups| - 1], groups[|groups| - 1];
      assert NoDuplicates(init);
      EmitKeepsOrder(grouped, init);
      EmitRowsFromLists(grouped, init);
      var st := EmitAll(grouped, init);
      assert KeepsOrder(st.events) && RowsFromLists(grouped, init, st.events);
      var evs := EmitAll(grouped, groups).events;
      EmitLength(grouped, st, g);
      var base := RowsBefore(st, g);
      forall a, b | 0 <= a < b < |evs| && evs[a].ItemRow? && evs[b].ItemRow?
        ensures evs[a].itemGroup == evs[b].itemGroup ==> evs[a].pos < evs[b].pos
      {
        if b < |st.events| {
          EmitKeeps(grouped, st, g, a);
          EmitKeeps(grouped, st, g, b);
        } else if b < base {
          EmitHeaderAt(grouped, st, g);
        } else if a < |st.events| {
          EmitKeeps(grouped, st, g, a);
          EmitRowAt(grouped, st, g, b - base);
          assert evs[a].itemGroup in init;
          assert g !in init;
        } else if a < base {
          EmitHeaderAt(grouped, st, g);
        } else {
          EmitRowAt(grouped, st, g, a - base);
          EmitRowAt(grouped, st, g, b - base);
        }
      }
    }
  }

  /** Each group row stands just before the first item of its group and carries the size of the group's list. */
  ghost predicate GroupRowsCounted<T, G>(grouped: map<Option<G>, seq<(int, T)>>, evs: seq<GroupEvent<T, G>>) {
    forall x :: 0 <= x < |evs| && evs[x].GroupRow? ==>
      evs[x].firstItemIdx == x + 1 && evs[x].count == |Members(grouped, Some(evs[x].group))|
  }

  /** Each item row of a non-null group points back at the row of its group, which stands before it. */
  ghost predicate ItemRowsLinked<T, G>(grouped: map<Option<G>, seq<(int, T)>>, evs: seq<GroupEvent<T, G>>) {
    forall x :: 0 <= x < |evs| && evs[x].ItemRow? && evs[x].itemGroup.Some? ==>
      0 <= evs[x].groupIdx < x &&
      evs[evs[x].groupIdx] == GroupRow(evs[x].itemGroup.value, evs[x].groupIdx + 1, |Members(grouped, evs[x].itemGroup)|)
  }

  lemma {:induction false} EmitGroupRows<T, G>(grouped: map<Option<G>, seq<(int, T)>>, groups: seq<Option<G>>)
    ensures GroupRowsCounted(grouped, EmitAll(grouped, groups).events)
  {
    if groups != [] {
      var init, g := groups[..|groups| - 1], groups[|groups| - 1];
      EmitGroupRows(grouped, init);
      EmitIndex(grouped, init);
      var st := EmitAll(grouped, init);
      assert GroupRowsCounted(grouped, st.events);
      var evs := EmitAll(grouped, groups).events;
      EmitLength(grouped, st, g);
      forall x | 0 <= x < |evs| && evs[x].GroupRow?
        ensures evs[x].firstItemIdx == x + 1 && evs[x].count == |Members(grouped, Some(evs[x].group))|
      {
        if x < |st.events| {
          EmitKeeps(grouped, st, g, x);
        } else if x < RowsBefore(st, g) {
          EmitHeaderAt(grouped, st, g);
        } else {
          EmitRowAt(grouped, st, g, x - RowsBefore(st, g));
        }
      }
    }
  }

  /** One row of `EmitGroup(grouped, st, g)` keeps `ItemRowsLinked` when `st` has it. */
  lemma EmitItemRowLinked<T, G>(grouped: map<Option<G>, seq<(int, T)>>, st: EmitState<T, G>, g: Option<G>, x: int)
    requires ItemRowsLinked(grouped, st.events) && st.listIdx == |st.events|
    requires var evs := EmitGroup(grouped, st, g).events; 0 <= x < |evs| && evs[x].ItemRow? && evs[x].itemGroup.Some?
    ensures var evs := EmitGroup(grouped, st, g).events;
            0 <= evs[x].groupIdx < x &&
            evs[evs[x].groupIdx] == GroupRow(evs[x].itemGroup.value, evs[x].groupIdx + 1, |Members(grouped, evs[x].itemGroup)|)
  {
    EmitLength(grouped, st, g);
    if x < |st.events| {
      EmitKeeps(grouped, st, g, x);
      EmitKeeps(grouped, st, g, st.events[x].groupIdx);
    } else if x < RowsBefore(st, g) {
      EmitHeaderAt(grouped, st, g);
    } else {
      EmitRowAt(grouped, st, g, x - RowsBefore(st, g));
      EmitHeaderAt(grouped, st, g);
    }
  }

  lemma EmitGroupLinked<T, G>(grouped: map<Option<G>, seq<(int, T)>>, st: EmitState<T, G>, g: Option<G>)
    requires ItemRowsLinked(grouped, st.events) && st.listIdx == |st.events|
    ensures ItemRowsLinked(grouped, EmitGroup(grouped, st, g).events)
  {
    var evs := EmitGroup(grouped, st, g).events;
    forall x | 0 <= x < |evs| && evs[x].ItemRow? && evs[x].itemGroup.Some?
      ensures 0 <= evs[x].groupIdx < x
      ensures evs[evs[x].groupIdx] == GroupRow(evs[x].itemGroup.value, evs[x].groupIdx + 1, |Members(grouped, evs[x].itemGroup)|)
    {
      EmitItemRowLinked(grouped, st, g, x);
    }
  }

  lemma {:induction false} EmitItemRows<T, G>(grouped: map<Option<G>, seq<(int, T)>>, groups: seq<Option<G>>)
    ensures ItemRowsLinked(grouped, EmitAll(grouped, groups).events)
  {
    if groups != [] {
      var init := groups[..|groups| - 1];
      EmitItemRows(grouped, init);
      EmitIndex(grouped, init);
      EmitGroupLinked(grouped, EmitAll(grouped, init), groups[|groups| - 1]);
    }
  }

  /** The item rows of the null group carry group index -1. */
  ghost predicate NullRowsUngrouped<T, G>(evs: seq<GroupEvent<T, G>>) {
    forall x :: 0 <= x < |evs| && evs[x].ItemRow? && evs[x].itemGroup.None? ==> evs[x].groupIdx == -1
  }

  /** When only the first group may be the null group, its item rows carry group index -1. */
  lemma {:induction false} EmitNullGroupUngrouped<T, G>(grouped: map<Option<G>, seq<(int, T)>>, groups: seq<Option<G>>)
    requires forall i :: 0 < i < |groups| ==> groups[i].Some?
    ensures NullRowsUngrouped(EmitAll(grouped, groups).events)
  {
    if groups != [] {
      var init, g := groups[..|groups| - 1], groups[|groups| - 1];
      EmitNullGroupUngrouped(grouped, init);
      var st := EmitAll(grouped, init);
      assert NullRowsUngrouped(st.events);
      var evs := EmitAll(grouped, groups).events;
      EmitLength(grouped, st, g);
      forall x | 0 <= x < |evs| && evs[x].ItemRow? && evs[x].itemGroup.None?
        ensures evs[x].groupIdx == -1
      {
        if x < |st.events| {
          EmitKeeps(grouped, st, g, x);
        } else if x < RowsBefore(st, g) {
          EmitHeaderAt(grouped, st, g);
        } else {
          EmitRowAt(grouped, st, g, x - RowsBefore(st, g));
        }
      }
    }
  }

  /** Every group row belongs to one of `groups`, and the group rows follow the order of `groups`. */
  ghost predicate HeadersInOrder<T, G>(groups: seq<Option<G>>, evs: seq<GroupEvent<T, G>>) {
    && (forall x :: 0 <= x < |evs| && evs[x].GroupRow? ==> Some(evs[x].group) in groups)
    && (forall a, b :: 0 <= a < b < |evs| && evs[a].GroupRow? && evs[b].GroupRow? ==>
          IndexOf(groups, Some(evs[a].group)) < IndexOf(groups, Some(evs[b].group)))
  }

  /** Where a group row of `EmitGroup(grouped, st, g)` ranks among `init + [g]`. */
  lemma EmitHeaderRank<T, G>(grouped: map<Option<G>, seq<(int, T)>>, st: EmitState<T, G>, init: seq<Option<G>>, g: Option<G>, x: int)
    requires HeadersInOrder(init, st.events) && g !in init
    requires var evs := EmitGroup(grouped, st, g).events; 0 <= x < |evs| && evs[x].GroupRow?
    ensures var evs := EmitGroup(grouped, st, g).events;
            x < |st.events| ==>
              st.events[x] == evs[x] && Some(evs[x].group) in init &&
              IndexOf(init + [g], Some(evs[x].group)) == IndexOf(init, Some(evs[x].group))
    ensures var evs := EmitGroup(grouped, st, g).events;
            |st.events| <= x ==> Some(evs[x].group) == g && IndexOf(init + [g], g) == |init|
  {
    var evs := EmitGroup(grouped, st, g).events;
    EmitLength(grouped, st, g);
    if x < |st.events| {
      EmitKeeps(grouped, st, g, x);
      IndexOfExtend(init, g, Some(evs[x].group));
    } else {
      if x < RowsBefore(st, g) {
        EmitHeaderAt(grouped, st, g);
      } else {
        EmitRowAt(grouped, st, g, x - RowsBefore(st, g));
      }
      assert (init + [g])[..|init|] == init;
      IndexOfUnique(init + [g], g, |init|);
    }
  }

  lemma {:induction false} EmitHeadersInOrder<T, G>(grouped: map<Option<G>, seq<(int, T)>>, groups: seq<Option<G>>)
    requires NoDuplicates(groups)
    ensures HeadersInOrder(groups, EmitAll(grouped, groups).events)
  {
    if groups != [] {
      var init, g := groups[..|groups| - 1], groups[|groups| - 1];
      assert groups == init + [g];
      assert NoDuplicates(init);
      assert g !in init by {
        forall k | 0 <= k < |init| ensures init[k] != g {
          assert init[k] == groups[k];
        }
      }
      EmitHeadersInOrder(grouped, init);
      var st := EmitAll(grouped, init);
      var evs := EmitAll(grouped, groups).events;
      forall x | 0 <= x < |evs| && evs[x].GroupRow?
        ensures Some(evs[x].group) in groups
      {
        EmitHeaderRank(grouped, st, init, g, x);
      }
      forall a, b | 0 <= a < b < |evs| && evs[a].GroupRow? && evs[b].GroupRow?
        ensures IndexOf(groups, Some(evs[a].group)) < IndexOf(groups, Some(evs[b].group))
      {
        EmitHeaderRank(grouped, st, init, g, a);
        EmitHeaderRank(grouped, st, init, g, b);
      }
    }
  }

  /** The row after each group row is an item row of that group. */
  ghost predicate HeadersFollowed<T, G>(evs: seq<GroupEvent<T, G>>) {
    forall x :: 0 <= x < |evs| && evs[x].GroupRow? ==>
      x + 1 < |evs| && evs[x + 1].ItemRow? && evs[x + 1].itemGroup == Some(evs[x].group)
  }

  lemma {:induction false} EmitHeadersFollowed<T, G>(grouped: map<Option<G>, seq<(int, T)>>, groups: seq<Option<G>>)
    requires forall i :: 0 <= i < |groups| ==> Members(grouped, groups[i]) != []
    ensures HeadersFollowed(EmitAll(grouped, groups).events)
  {
    if groups != [] {
      var init, g := groups[..|groups| - 1], groups[|groups| - 1];
      assert forall i :: 0 <= i < |init| ==> init[i] == groups[i];
      EmitHeadersFollowed(grouped, init);
      var st := EmitAll(grouped, init);
      assert HeadersFollowed(st.events);
      var evs := EmitAll(grouped, groups).events;
      EmitLength(grouped, st, g);
      forall x | 0 <= x < |evs| && evs[x].GroupRow?
        ensures x + 1 < |evs| && evs[x + 1].ItemRow? && evs[x + 1].itemGroup == Some(evs[x].group)
      {
        if x < |st.events| {
          EmitKeeps(grouped, st, g, x);
          EmitKeeps(grouped, st, g, x + 1);
        } else if x < RowsBefore(st, g) {
          EmitHeaderAt(grouped, st, g);
          EmitRowAt(grouped, st, g, 0);
        } else {
          EmitRowAt(grouped, st, g, x - RowsBefore(st, g));
        }
      }
    }
  }

  /** The group row of group `g`, one of `groups`. */
  lemma {:induction false} EmitHeaderOf<T, G>(grouped: map<Option<G>, seq<(int, T)>>, groups: seq<Option<G>>, g: G)
    returns (x: int)
    requires Some(g) in groups
    ensures 0 <= x < |EmitAll(grouped, groups).events|
    ensures EmitAll(grouped, groups).events[x] == GroupRow(g, x + 1, |Members(grouped, Some(g))|)
  {
    var init, last := groups[..|groups| - 1], groups[|groups| - 1];
    var st := EmitAll(grouped, init);
    if Some(g) == last {
      x := |st.events|;
      EmitHeaderAt(grouped, st, last);
      EmitIndex(grouped, init);
    } else {
      var i :| 0 <= i < |groups| && groups[i] == Some(g);
      assert init[i] == Some(g);
      x := EmitHeaderOf(grouped, init, g);
      EmitKeeps(grouped, st, last, x);
    }
  }

  /** Under the null-first comparator the null group can only come first. */
  lemma NullGroupFirst<G(!new)>(source: Option<(G, G) -> int>, toStr: G -> string, groups: seq<Option<G>>)
    requires Sorting.Sorted(NullHandlingComparator(source, toStr, true), groups) && NoDuplicates(groups)
    ensures forall i :: 0 < i < |groups| ==> groups[i].Some?
  {
    forall i | 0 < i < |groups|
      ensures groups[i].Some?
    {
      assert NullHandlingComparator(source, toStr, true)(groups[0], groups[i]) <= 0;
    }
  }

  /** The calls `groupList` makes for the groups in the order `order`. */
  function GroupListEvents<T, G(==)>(items: seq<T>, rule: GroupRule<T, G>, order: seq<Option<G>>): seq<GroupEvent<T, G>> {
    EmitAll(Grouped(items, rule), order).events
  }

  /** Each `itemAdder` call passes an item with its original index and the group it was assigned to. */
  lemma GroupListRowsFaithful<T, G>(items: seq<T>, rule: GroupRule<T, G>, order: seq<Option<G>>)
    requires Elements(order) == Grouped(items, rule).Keys
    ensures var evs := GroupListEvents(items, rule, order);
            forall x :: 0 <= x < |evs| && evs[x].ItemRow? ==>
              0 <= evs[x].pos < |items| && evs[x].item == items[evs[x].pos] &&
              evs[x].itemGroup == AssignedGroup(items, rule, items[evs[x].pos])
  {
    var grouped: map<Option<G>, seq<(int, T)>> := Grouped(items, rule);
    var evs: seq<GroupEvent<T, G>> := GroupListEvents(items, rule, order);
    EmitRowsFromLists(grouped, order);
    assert RowsFromLists(grouped, order, evs);
    GroupedEntries(items, rule, |items|);
    assert EntriesBelow(items, rule, grouped, |items|);
    forall x | 0 <= x < |evs| && evs[x].ItemRow?
      ensures 0 <= evs[x].pos < |items| && evs[x].item == items[evs[x].pos]
      ensures evs[x].itemGroup == AssignedGroup(items, rule, items[evs[x].pos])
    {
      var g := evs[x].itemGroup;
      var k :| 0 <= k < |Members(grouped, g)| && Members(grouped, g)[k] == (evs[x].pos, evs[x].item);
      assert g in grouped;
      assert grouped[g][k].0 == evs[x].pos;
    }
  }

  /** Item `p` is passed to `itemAdder` by one of the calls `evs`, with its index and its assigned group. */
  ghost predicate ItemPassed<T, G>(items: seq<T>, rule: GroupRule<T, G>, evs: seq<GroupEvent<T, G>>, p: int)
    requires 0 <= p < |items|
  {
    exists x :: 0 <= x < |evs| && evs[x].ItemRow? && evs[x].pos == p && evs[x].item == items[p] &&
      evs[x].itemGroup == AssignedGroup(items, rule, items[p])
  }

  /** The item call of input item `p`, at the returned index. */
  lemma GroupListRowOf<T, G>(items: seq<T>, rule: GroupRule<T, G>, order: seq<Option<G>>, p: int) returns (x: int)
    requires Elements(order) == Grouped(items, rule).Keys && 0 <= p < |items|
    ensures var evs := GroupListEvents(items, rule, order);
            0 <= x < |evs| && evs[x].ItemRow? && evs[x].pos == p && evs[x].item == items[p] &&
            evs[x].itemGroup == AssignedGroup(items, rule, items[p])
  {
    var grouped: map<Option<G>, seq<(int, T)>> := Grouped(items, rule);
    GroupedCovers(items, rule, |items|);
    GroupListRowsFaithful(items, rule, order);
    var g := AssignedGroup(items, rule, items[p]);
    var k :| 0 <= k < |grouped[g]| && grouped[g][k].0 == p;
    assert g in Elements(order);
    x := EmitRowOf(grouped, order, g, k);
  }

  /** Every item is passed to `itemAdder`, with its original index. */
  lemma GroupListCoversItems<T, G>(items: seq<T>, rule: GroupRule<T, G>, order: seq<Option<G>>)
    requires Elements(order) == Grouped(items, rule).Keys
    ensures forall p :: 0 <= p < |items| ==> ItemPassed(items, rule, GroupListEvents(items, rule, order), p)
  {
    forall p | 0 <= p < |items|
      ensures ItemPassed(items, rule, GroupListEvents(items, rule, order), p)
    {
      var x := GroupListRowOf(items, rule, order, p);
    }
  }

  /** No item is passed to `itemAdder` twice. */
  lemma GroupListItemsOnce<T, G>(items: seq<T>, rule: GroupRule<T, G>, order: seq<Option<G>>)
    requires NoDuplicates(order) && Elements(order) == Grouped(items, rule).Keys
    ensures var evs := GroupListEvents(items, rule, order);
            forall a, b :: 0 <= a < b < |evs| && evs[a].ItemRow? && evs[b].ItemRow? ==> evs[a].pos != evs[b].pos
  {
    var evs: seq<GroupEvent<T, G>> := GroupListEvents(items, rule, order);
    GroupListRowsFaithful(items, rule, order);
    GroupedAscending(items, rule, |items|);
    EmitKeepsOrder(Grouped(items, rule), order);
    assert KeepsOrder(evs);
  }

  /** Within each group, `itemAdder` sees the items in their original order. */
  lemma GroupListKeepsOrder<T, G>(items: seq<T>, rule: GroupRule<T, G>, order: seq<Option<G>>)
    requires NoDuplicates(order)
    ensures var evs := GroupListEvents(items, rule, order);
            forall a, b :: 0 <= a < b < |evs| && evs[a].ItemRow? && evs[b].ItemRow? && evs[a].itemGroup == evs[b].itemGroup ==>
              evs[a].pos < evs[b].pos
  {
    GroupedAscending(items, rule, |items|);
    EmitKeepsOrder(Grouped(items, rule), order);
    assert KeepsOrder(GroupListEvents(items, rule, order));
  }

  /**
   * Each non-null group gets one `groupAdder` call, placed just before its
   * items and carrying the number of items assigned to it; each of its items
   * is passed the index of that call.
   */
  lemma GroupListHeaders<T, G>(items: seq<T>, rule: GroupRule<T, G>, order: seq<Option<G>>)
    ensures var evs := GroupListEvents(items, rule, order);
            forall x :: 0 <= x < |evs| && evs[x].GroupRow? ==>
              evs[x].firstItemIdx == x + 1 && evs[x].count == AssignedCount(items, rule, Some(evs[x].group), |items|)
    ensures var evs := GroupListEvents(items, rule, order);
            forall x :: 0 <= x < |evs| && evs[x].ItemRow? && evs[x].itemGroup.Some? ==>
              0 <= evs[x].groupIdx < x &&
              evs[evs[x].groupIdx] == GroupRow(evs[x].itemGroup.value, evs[x].groupIdx + 1, AssignedCount(items, rule, evs[x].itemGroup, |items|))
  {
    var grouped: map<Option<G>, seq<(int, T)>> := Grouped(items, rule);
    var evs: seq<GroupEvent<T, G>> := GroupListEvents(items, rule, order);
    GroupedSizes(items, rule, |items|);
    EmitGroupRows(grouped, order);
    EmitItemRows(grouped, order);
    assert GroupRowsCounted(grouped, evs) && ItemRowsLinked(grouped, evs);
  }

  /**
   * Under the null-first order the null group comes first, with no
   * `groupAdder` call, so its items are passed group index -1.
   */
  lemma GroupListNullGroupFirst<T, G(!new)>(items: seq<T>, rule: GroupRule<T, G>, order: seq<Option<G>>,
                                      groupOrder: Option<(G, G) -> int>, toStr: G -> string)
    requires NoDuplicates(order) && Sorting.Sorted(NullHandlingComparator(groupOrder, toStr, true), order)
    ensures forall i :: 0 <= i < |order| && order[i].None? ==> i == 0
    ensures var evs := GroupListEvents(items, rule, order);
            forall x :: 0 <= x < |evs| && evs[x].ItemRow? && evs[x].itemGroup.None? ==> evs[x].groupIdx == -1
  {
    NullGroupFirst(groupOrder, toStr, order);
    EmitNullGroupUngrouped(Grouped(items, rule), order);
    assert NullRowsUngrouped(GroupListEvents(items, rule, order));
  }

  /**
   * Every non-null group gets exactly one `groupAdder` call, the calls come
   * in the order of `order`, and each is directly followed by an item of its
   * group.
   */
  lemma GroupListGroupRows<T, G>(items: seq<T>, rule: GroupRule<T, G>, order: seq<Option<G>>)
    requires NoDuplicates(order) && Elements(order) == Grouped(items, rule).Keys
    ensures var evs := GroupListEvents(items, rule, order);
            forall i :: 0 <= i < |order| && order[i].Some? ==>
              exists x :: 0 <= x < |evs| && evs[x] == GroupRow(order[i].value, x + 1, AssignedCount(items, rule, order[i], |items|))
    ensures var evs := GroupListEvents(items, rule, order);
            forall a, b :: 0 <= a < b < |evs| && evs[a].GroupRow? && evs[b].GroupRow? ==>
              IndexOf(order, Some(evs[a].group)) < IndexOf(order, Some(evs[b].group)) && evs[a].group != evs[b].group
    ensures var evs := GroupListEvents(items, rule, order);
            forall x :: 0 <= x < |evs| && evs[x].GroupRow? ==>
              x + 1 < |evs| && evs[x + 1].ItemRow? && evs[x + 1].itemGroup == Some(evs[x].group)
  {
    var grouped: map<Option<G>, seq<(int, T)>> := Grouped(items, rule);
    var evs: seq<GroupEvent<T, G>> := GroupListEvents(items, rule, order);
    GroupedSizes(items, rule, |items|);
    forall i | 0 <= i < |order| && order[i].Some?
      ensures exists x :: 0 <= x < |evs| && evs[x] == GroupRow(order[i].value, x + 1, AssignedCount(items, rule, order[i], |items|))
    {
      var x := EmitHeaderOf(grouped, order, order[i].value);
    }
    EmitHeadersInOrder(grouped, order);
    assert HeadersInOrder(order, evs);
    GroupedNonEmpty(items, rule, |items|);
    forall i | 0 <= i < |order| ensures Members(grouped, order[i]) != [] {
      assert order[i] in Elements(order);
    }
    EmitHeadersFollowed(grouped, order);
    assert HeadersFollowed(evs);
  }

  /** The `groupAdder` calls come in the order of the null-first comparator. */
  lemma GroupListGroupsSorted<T, G(!new)>(items: seq<T>, rule: GroupRule<T, G>, order: seq<Option<G>>,
                                    groupOrder: Option<(G, G) -> int>, toStr: G -> string)
    requires NoDuplicates(order) && Elements(order) == Grouped(items, rule).Keys
    requires Sorting.Sorted(NullHandlingComparator(groupOrder, toStr, true), order)
    ensures var evs := GroupListEvents(items, rule, order);
            forall a, b :: 0 <= a < b < |evs| && evs[a].GroupRow? && evs[b].GroupRow? ==>
              NullHandlingCompare(groupOrder, toStr, true, Some(evs[a].group), Some(evs[b].group)) <= 0
  {
    var evs: seq<GroupEvent<T, G>> := GroupListEvents(items, rule, order);
    EmitHeadersInOrder(Grouped(items, rule), order);
    assert HeadersInOrder(order, evs);
    forall a, b | 0 <= a < b < |evs| && evs[a].GroupRow? && evs[b].GroupRow?
      ensures NullHandlingCompare(groupOrder, toStr, true, Some(evs[a].group), Some(evs[b].group)) <= 0
    {
      var i, j := IndexOf(order, Some(evs[a].group)), IndexOf(order, Some(evs[b].group));
      assert NullHandlingComparator(groupOrder, toStr, true)(order[i], order[j]) <= 0;
    }
  }

  // ---------------------------------------------------------------------------
  // enumToInt / intToEnum
  // ---------------------------------------------------------------------------

  /** `enumToInt`: the ordinal of a constant among `constants`, or -1 for null. */
  function EnumToInt<E(==)>(constants: seq<E>, value: Option<E>): (r: int)
    requires value.Some? ==> value.value in constants
    ensures value.None? <==> r == -1
    ensures value.Some? ==> 0 <= r < |constants| && constants[r] == value.value
  {
    if value.None? then -1 else IndexOf(constants, value.value)
  }

  /**
   * `intToEnum`: the constant with ordinal `value`, or `defaultValue` when
   * the value is out of range or the class has no constants (not an enum).
   */
  function IntToEnum<E>(constants: Option<seq<E>>, value: int, defaultValue: Option<E>): (r: Option<E>)
    ensures value < 0 || constants.None? || value >= |constants.value| ==> r == defaultValue
    ensures 0 <= value && constants.Some? && value < |constants.value| ==> r == Some(constants.value[value])
  {
    if value < 0 || constants.None? || value >= |constants.value| then defaultValue
    else Some(constants.value[value])
  }

  /** The two-argument `intToEnum`: null as the default. */
  function IntToEnumOrNull<E>(constants: Option<seq<E>>, value: int): (r: Option<E>)
    ensures r.Some? <==> constants.Some? && 0 <= value < |constants.value|
    ensures r.Some? ==> r.value == constants.value[value]
  {
    IntToEnum(constants, value, None)
  }

  /** A constant survives the trip through its ordinal, and null maps to -1 and back to the default. */
  lemma EnumRoundTrip<E>(constants: seq<E>, value: Option<E>, defaultValue: Option<E>)
    requires value.Some? ==> value.value in constants
    ensures value.Some? ==> IntToEnum(Some(constants), EnumToInt(constants, value), defaultValue) == value
    ensures value.None? ==> IntToEnum(Some(constants), EnumToInt(constants, value), defaultValue) == defaultValue
  {
  }

  /** An ordinal survives the trip through its constant, the constants being distinct. */
  lemma OrdinalRoundTrip<E>(constants: seq<E>, value: int)
    requires NoDuplicates(constants) && 0 <= value < |constants|
    ensures EnumToInt(constants, IntToEnumOrNull(Some(constants), value)) == value
  {
    var e := constants[value];
    var i := IndexOf(constants, e);
    assert constants[i] == e;
  }
}
