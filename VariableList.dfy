/**
 * `VariableList`: the ordered, persistable list of formula variables.
 *
 * It keeps three structures in step: the ordered list of names, a map from
 * each listed name to its persisted id, and the formula store (`VariableMap`),
 * plus a dirty flag that tells the persistence layer whether a save is due.
 * The formula store is modelled as a map from name to formula text; how it
 * evaluates formulas is not part of this model.
 */
module Formulas {
  import opened Optional
  import opened Strings
  import opened Lists
  import Sorting

  /** Names starting with this character are synthesized by the engine and never shown. */
  const InvisibleVarPrefix: char := '_'

  /** A row as the persistence layer loads and stores it; id -1 means "not yet persisted". */
  datatype VariableEntry = VariableEntry(id: int, varname: string, formula: string)

  // ---------------------------------------------------------------------------
  // Key generation of the formula store (`VariableMap.createNonContainedKey`)
  // ---------------------------------------------------------------------------

  function KeyCandidate(prefix: string, n: nat): string {
    prefix + NatToString(n)
  }

  lemma KeyCandidateInjective(prefix: string, m: nat, n: nat)
    requires m != n
    ensures KeyCandidate(prefix, m) != KeyCandidate(prefix, n)
  {
    NatToStringInjective(m, n);
    assert KeyCandidate(prefix, m)[|prefix|..] == NatToString(m);
    assert KeyCandidate(prefix, n)[|prefix|..] == NatToString(n);
  }

  /** The smallest number from `from` on whose candidate key is not taken. */
  function FreeIndex(keys: set<string>, prefix: string, from: nat): (n: nat)
    ensures from <= n
    ensures KeyCandidate(prefix, n) !in keys
    ensures forall i :: from <= i < n ==> KeyCandidate(prefix, i) in keys
    decreases |keys|
  {
    var c := KeyCandidate(prefix, from);
    if c !in keys then from
    else
      var n := FreeIndex(keys - {c}, prefix, from + 1);
      KeyCandidateInjective(prefix, from, n);
      n
  }

  /**
   * A key that the store does not hold yet, made of `prefix` and the smallest
   * positive number that gives a new key.
   */
  function CreateNonContainedKey(keys: set<string>, prefix: string): (key: string)
    ensures key !in keys
    ensures |prefix| < |key| && key[..|prefix|] == prefix
  {
    KeyCandidate(prefix, FreeIndex(keys, prefix, 1))
  }

  // ---------------------------------------------------------------------------
  // Naming
  // ---------------------------------------------------------------------------

  /** A name is shown to the user unless it is blank or starts with the invisible prefix. */
  predicate IsVisible(varname: string): (b: bool)
    ensures b <==>
      && (exists i :: 0 <= i < |varname| && !IsWhitespace(varname[i]))
      && varname[0] != InvisibleVarPrefix
  {
    !IsBlank(varname) && varname[0] != InvisibleVarPrefix
  }

  /** The names the list synthesizes for an unnamed variable are never visible. */
  lemma SynthesizedNameInvisible(keys: set<string>)
    ensures !IsVisible(CreateNonContainedKey(keys, [InvisibleVarPrefix]))
    ensures CreateNonContainedKey(keys, [InvisibleVarPrefix]) !in keys
  {
    var key := CreateNonContainedKey(keys, [InvisibleVarPrefix]);
    assert key[0] == key[..1][0];
  }

  /** The one-letter name of a letter. */
  function Letter(d: char): string {
    [d]
  }

  // ---------------------------------------------------------------------------
  // Placement of a (re-)added name
  // ---------------------------------------------------------------------------

  /** `Math.min(size, Math.max(0, ppos))`. */
  function Clamp(ppos: int, size: nat): (pos: nat)
    ensures pos <= size
    ensures ppos < 0 ==> pos == 0
    ensures ppos > size ==> pos == size
    ensures 0 <= ppos <= size ==> pos == ppos
  {
    if ppos < 0 then 0 else if ppos > size then size else ppos
  }

  /**
   * The intended order after adding `name` at position `pos` of `s`: `name`
   * directly follows the other names that stood before `pos`, and all other
   * names keep their order.
   */
  function Reinserted(s: seq<string>, name: string, pos: nat): (r: seq<string>)
    requires pos <= |s|
  {
    Without(s[..pos], name) + [name] + Without(s[pos..], name)
  }

  /** Re-adding a name moves only that name: the others keep their relative order. */
  lemma ReinsertedKeepsOthers(s: seq<string>, name: string, pos: nat)
    requires pos <= |s|
    ensures name in Reinserted(s, name, pos)
    ensures Without(Reinserted(s, name, pos), name) == Without(s, name)
  {
    var a, b := Without(s[..pos], name), Without(s[pos..], name);
    assert Reinserted(s, name, pos)[|a|] == name;
    WithoutAround(a, name, b);
    WithoutAbsent(a, name);
    WithoutAbsent(b, name);
    WithoutSplit(s, pos, name);
  }

  /** The worked example: `[A, B, C]` with `A` re-added at position 2 gives `[B, A, C]`. */
  lemma ReinsertedExample()
    ensures Reinserted(["A", "B", "C"], "A", 2) == ["B", "A", "C"]
  {
    var s := ["A", "B", "C"];
    assert s[..2] == ["A"] + ["B"];
    WithoutAppend(["A"], ["B"], "A");
    WithoutSelf("A");
    WithoutAbsent(["B"], "A");
    WithoutAbsent(s[2..], "A");
  }

  /** Inserting a name the list does not hold, at `pos`. */
  lemma ReinsertFresh(s: seq<string>, x: string, pos: nat)
    requires x !in s && pos <= |s|
    ensures s[..pos] + [x] + s[pos..] == Reinserted(s, x, pos)
  {
    WithoutAbsent(s[..pos], x);
    WithoutAbsent(s[pos..], x);
  }

  /**
   * Removing the name at `i` and inserting it one slot earlier when it stood
   * before `pos` yields the intended order.
   */
  lemma ReinsertAfterRemoval(s: seq<string>, i: nat, pos: nat)
    requires NoDuplicates(s) && i < |s| && pos <= |s|
    ensures var rest := s[..i] + s[i + 1..];
            var at := if i < pos then pos - 1 else pos;
            at <= |rest| && rest[..at] + [s[i]] + rest[at..] == Reinserted(s, s[i], pos)
  {
    var rest := s[..i] + s[i + 1..];
    if i < pos {
      ReinsertMovedBack(s, i, pos);
      assert rest[..pos - 1] == s[..i] + s[i + 1..pos];
      assert rest[pos - 1..] == s[pos..];
    } else {
      ReinsertMovedForward(s, i, pos);
      assert rest[..pos] == s[..pos];
      assert rest[pos..] == s[pos..i] + s[i + 1..];
    }
  }

  lemma ReinsertMovedBack(s: seq<string>, i: nat, pos: nat)
    requires NoDuplicates(s) && i < pos <= |s|
    ensures Reinserted(s, s[i], pos) == s[..i] + s[i + 1..pos] + [s[i]] + s[pos..]
  {
    var x := s[i];
    NotElsewhere(s, i, 0, i);
    NotElsewhere(s, i, i + 1, pos);
    NotElsewhere(s, i, pos, |s|);
    assert s[..pos] == s[..i] + [x] + s[i + 1..pos];
    WithoutAround(s[..i], x, s[i + 1..pos]);
    WithoutAbsent(s[..i], x);
    WithoutAbsent(s[i + 1..pos], x);
    WithoutAbsent(s[pos..], x);
  }

  lemma ReinsertMovedForward(s: seq<string>, i: nat, pos: nat)
    requires NoDuplicates(s) && pos <= i < |s|
    ensures Reinserted(s, s[i], pos) == s[..pos] + [s[i]] + s[pos..i] + s[i + 1..]
  {
    var x := s[i];
    NotElsewhere(s, i, 0, pos);
    NotElsewhere(s, i, pos, i);
    NotElsewhere(s, i, i + 1, |s|);
    assert s[pos..] == s[pos..i] + [x] + s[i + 1..];
    WithoutAround(s[pos..i], x, s[i + 1..]);
    WithoutAbsent(s[..pos], x);
    WithoutAbsent(s[pos..i], x);
    WithoutAbsent(s[i + 1..], x);
  }

  /** Re-adding keeps a duplicate-free list duplicate-free and adds just the name. */
  lemma ReinsertedDistinct(s: seq<string>, name: string, pos: nat)
    requires NoDuplicates(s) && pos <= |s|
    ensures NoDuplicates(Reinserted(s, name, pos))
    ensures Elements(Reinserted(s, name, pos)) == Elements(s) + {name}
  {
    if name in s {
      var i := IndexOf(s, name);
      var rest := s[..i] + s[i + 1..];
      var at := if i < pos then pos - 1 else pos;
      ReinsertAfterRemoval(s, i, pos);
      RemoveAtDistinct(s, i);
      InsertDistinct(rest, at, name);
    } else {
      ReinsertFresh(s, name, pos);
      InsertDistinct(s, pos, name);
    }
  }

  /** Re-adding a name keeps the list, the id map and the formula store in step. */
  lemma ReinsertedInStep(before: seq<string>, ids: map<string, Option<int>>, formulas: map<string, string>,
                         name: string, pos: nat, formula: string)
    requires NoDuplicates(before) && Elements(before) == ids.Keys && ids.Keys <= formulas.Keys
    requires pos <= |before|
    ensures NoDuplicates(Reinserted(before, name, pos))
    ensures Elements(Reinserted(before, name, pos)) == ids[name := None].Keys
    ensures ids[name := None].Keys <= formulas[name := formula].Keys
  {
    ReinsertedDistinct(before, name, pos);
  }

  /** The list `addVariable` builds, after removing an old entry of the name, is the intended order. */
  lemma AddedListIsReinserted(before: seq<string>, name: string, pos0: nat, after: seq<string>, removeIdx: int, pos: int)
    requires NoDuplicates(before) && pos0 <= |before|
    requires name in before ==>
      && 0 <= removeIdx < |before| && before[removeIdx] == name
      && after == before[..removeIdx] + before[removeIdx + 1..]
      && pos == (if removeIdx < pos0 then pos0 - 1 else pos0)
    requires name !in before ==> after == before && pos == pos0
    ensures 0 <= pos <= |after|
    ensures after[..pos] + [name] + after[pos..] == Reinserted(before, name, pos0)
  {
    if name in before {
      ReinsertAfterRemoval(before, removeIdx, pos0);
    } else {
      ReinsertFresh(before, name, pos0);
    }
  }

  /** Overwriting a key after removing it is the same as overwriting it. */
  lemma RemovePut<K, V>(m: map<K, V>, k: K, v: V)
    ensures (m - {k})[k := v] == m[k := v]
  {
  }

  lemma MergeNothing(base: map<string, string>)
    ensures base + FormulaMap([]) == base
  {
  }

  /** Overwriting a key of a merged map overwrites it in the map merged last. */
  lemma MergePut<K, V>(base: map<K, V>, m: map<K, V>, k: K, v: V)
    ensures (base + m)[k := v] == base + m[k := v]
  {
  }

  // ---------------------------------------------------------------------------
  // Persistence rows
  // ---------------------------------------------------------------------------

  function Names(es: seq<VariableEntry>): (r: seq<string>)
    ensures |r| == |es|
    ensures forall k :: 0 <= k < |es| ==> r[k] == es[k].varname
  {
    seq(|es|, k requires 0 <= k < |es| => es[k].varname)
  }

  /** The entries a bulk load keeps: the first entry of each name, in input order. */
  function FirstOccurrences(es: seq<VariableEntry>): (r: seq<VariableEntry>)
    ensures NoDuplicates(Names(r))
    ensures Elements(Names(r)) == Elements(Names(es))
  {
    if es == [] then []
    else
      var d := FirstOccurrences(es[..|es| - 1]);
      var e := es[|es| - 1];
      assert Names(es) == Names(es[..|es| - 1]) + [e.varname];
      ElementsAppend(Names(es[..|es| - 1]), [e.varname]);
      if e.varname in Names(d) then d
      else
        assert Names(d + [e]) == Names(d) + [e.varname];
        ElementsAppend(Names(d), [e.varname]);
        InsertDistinct(Names(d), |d|, e.varname);
        assert Names(d)[..|d|] + [e.varname] + Names(d)[|d|..] == Names(d) + [e.varname];
        d + [e]
  }

  /** The persisted ids a list of entries with distinct names records. */
  function IdMap(d: seq<VariableEntry>): (m: map<string, Option<int>>)
    ensures m.Keys == Elements(Names(d))
  {
    if d == [] then map[]
    else
      assert Names(d) == Names(d[..|d| - 1]) + [d[|d| - 1].varname];
      IdMap(d[..|d| - 1])[d[|d| - 1].varname := Some(d[|d| - 1].id)]
  }

  /** The formulas a list of entries with distinct names stores. */
  function FormulaMap(d: seq<VariableEntry>): (m: map<string, string>)
    ensures m.Keys == Elements(Names(d))
  {
    if d == [] then map[]
    else
      assert Names(d) == Names(d[..|d| - 1]) + [d[|d| - 1].varname];
      FormulaMap(d[..|d| - 1])[d[|d| - 1].varname := d[|d| - 1].formula]
  }

  /** The row stored for a listed name; a name never persisted reports id -1. */
  function EntryOf(v: string, ids: map<string, Option<int>>, formulas: map<string, string>): VariableEntry
    requires v in ids && v in formulas
  {
    VariableEntry(if ids[v].None? then -1 else ids[v].value, v, formulas[v])
  }

  /** The rows a list with these names, ids and formulas saves, in list order. */
  function StoredEntries(names: seq<string>, ids: map<string, Option<int>>, formulas: map<string, string>): (rows: seq<VariableEntry>)
    requires Elements(names) <= ids.Keys && ids.Keys <= formulas.Keys
    ensures |rows| == |names|
  {
    seq(|names|, k requires 0 <= k < |names| => EntryOf(names[k], ids, formulas))
  }

  lemma {:induction false} StoredEntriesOfLoaded(d: seq<VariableEntry>, base: map<string, string>, k: int)
    requires NoDuplicates(Names(d)) && 0 <= k < |d|
    ensures IdMap(d)[d[k].varname] == Some(d[k].id)
    ensures (base + FormulaMap(d))[d[k].varname] == d[k].formula
  {
    var n := |d| - 1;
    if k < n {
      var d' := d[..n];
      assert Names(d') == Names(d)[..n];
      assert NoDuplicates(Names(d'));
      assert d'[k] == d[k];
      assert Names(d)[k] != Names(d)[n];
      StoredEntriesOfLoaded(d', base, k);
    }
  }

  /** Loading a list of entries with distinct names and saving it gives the same rows back. */
  lemma LoadStoreRoundTrip(d: seq<VariableEntry>, base: map<string, string>)
    requires NoDuplicates(Names(d))
    ensures StoredEntries(Names(d), IdMap(d), base + FormulaMap(d)) == d
  {
    var rows := StoredEntries(Names(d), IdMap(d), base + FormulaMap(d));
    forall k | 0 <= k < |d| ensures rows[k] == d[k] {
      StoredEntriesOfLoaded(d, base, k);
    }
  }

  /** One step of a bulk load: an entry whose name is taken is dropped, any other is appended. */
  lemma LoadStep(es: seq<VariableEntry>, e: VariableEntry)
    ensures var d := FirstOccurrences(es);
            FirstOccurrences(es + [e]) == if e.varname in Elements(Names(d)) then d else d + [e]
  {
    assert (es + [e])[..|es|] == es;
  }

  lemma LoadStepAt(vars: seq<VariableEntry>, i: int)
    requires 0 <= i < |vars|
    ensures var d := FirstOccurrences(vars[..i]);
            FirstOccurrences(vars[..i + 1]) == if vars[i].varname in Elements(Names(d)) then d else d + [vars[i]]
  {
    assert vars[..i + 1] == vars[..i] + [vars[i]];
    LoadStep(vars[..i], vars[i]);
  }

  /** Loading an entry with a new name extends the list, the ids and the formulas by it. */
  lemma AppendEntry(d: seq<VariableEntry>, e: VariableEntry, base: map<string, string>)
    ensures Names(d + [e]) == Names(d) + [e.varname]
    ensures IdMap(d + [e]) == IdMap(d)[e.varname := Some(e.id)]
    ensures base + FormulaMap(d + [e]) == (base + FormulaMap(d))[e.varname := e.formula]
  {
    assert (d + [e])[..|d|] == d;
    MergePut(base, FormulaMap(d), e.varname, e.formula);
  }

  /**
   * A bulk load keeps, for every name, exactly the first entry of that name,
   * and keeps those entries in their input order.
   */
  ghost predicate KeptFirst(es: seq<VariableEntry>, r: seq<VariableEntry>) {
    forall k :: 0 <= k < |r| ==> 0 <= IndexOf(Names(es), r[k].varname) && es[IndexOf(Names(es), r[k].varname)] == r[k]
  }

  ghost predicate InFirstIndexOrder(es: seq<VariableEntry>, r: seq<VariableEntry>) {
    forall a, b :: 0 <= a < b < |r| ==> IndexOf(Names(es), r[a].varname) < IndexOf(Names(es), r[b].varname)
  }

  /** Appending an entry does not move the first position of a name already present. */
  lemma FirstIndicesKept(es: seq<VariableEntry>, e: VariableEntry, d: seq<VariableEntry>)
    requires Elements(Names(d)) == Elements(Names(es))
    ensures forall k :: 0 <= k < |d| ==> IndexOf(Names(es + [e]), d[k].varname) == IndexOf(Names(es), d[k].varname)
  {
    assert Names(es + [e]) == Names(es) + [e.varname];
    forall k | 0 <= k < |d|
      ensures IndexOf(Names(es + [e]), d[k].varname) == IndexOf(Names(es), d[k].varname)
    {
      assert d[k].varname == Names(d)[k];
      assert d[k].varname in Elements(Names(d));
      IndexOfExtend(Names(es), e.varname, d[k].varname);
    }
  }

  /** A bulk load keeps, for every name, exactly the first entry of that name. */
  lemma {:induction false} FirstOccurrencesAreFirst(es: seq<VariableEntry>)
    ensures KeptFirst(es, FirstOccurrences(es))
  {
    if es != [] {
      var es', e := es[..|es| - 1], es[|es| - 1];
      assert es == es' + [e];
      var d := FirstOccurrences(es');
      FirstOccurrencesAreFirst(es');
      LoadStep(es', e);
      FirstIndicesKept(es', e, d);
      forall k | 0 <= k < |d|
        ensures 0 <= IndexOf(Names(es), d[k].varname) && es[IndexOf(Names(es), d[k].varname)] == d[k]
      {
        var j := IndexOf(Names(es'), d[k].varname);
        assert es[j] == es'[j];
      }
      if e.varname !in Elements(Names(d)) {
        LastIsFirst(es', e);
      }
    }
  }

  /** A bulk load keeps the entries it takes in their input order. */
  lemma {:induction false} FirstOccurrencesInOrder(es: seq<VariableEntry>)
    ensures InFirstIndexOrder(es, FirstOccurrences(es))
  {
    if es != [] {
      var es', e := es[..|es| - 1], es[|es| - 1];
      assert es == es' + [e];
      var d := FirstOccurrences(es');
      FirstOccurrencesInOrder(es');
      LoadStep(es', e);
      FirstIndicesKept(es', e, d);
      if e.varname !in Elements(Names(d)) {
        var r := d + [e];
        LastIsFirst(es', e);
        forall a, b | 0 <= a < b < |r|
          ensures IndexOf(Names(es), r[a].varname) < IndexOf(Names(es), r[b].varname)
        {
          assert r[a] == d[a];
          if b < |d| {
            assert r[b] == d[b];
          } else {
            assert IndexOf(Names(es'), d[a].varname) < |Names(es')|;
          }
        }
      }
    }
  }

  /** A name that first appears in the last entry is found there. */
  lemma LastIsFirst(es: seq<VariableEntry>, e: VariableEntry)
    requires e.varname !in Elements(Names(es))
    ensures IndexOf(Names(es + [e]), e.varname) == |es|
  {
    assert Names(es + [e]) == Names(es) + [e.varname];
    assert Names(es + [e])[..|es|] == Names(es);
    IndexOfUnique(Names(es + [e]), e.varname, |es|);
  }

  // ---------------------------------------------------------------------------
  // Known names
  // ---------------------------------------------------------------------------

  /**
   * The names a formula store knows: the names it holds formulas for and every
   * name one of those formulas mentions. `mentions` stands for the formula parser.
   */
  function KnownNames(store: map<string, string>, mentions: string -> set<string>): (names: set<string>)
    ensures store.Keys <= names
    ensures forall v :: v in store ==> mentions(store[v]) <= names
    ensures forall n :: n in names ==> n in store || exists v :: v in store && n in mentions(store[v])
  {
    store.Keys + set v, n | v in store && n in mentions(store[v]) :: n
  }

  /** A formula that mentions an unlisted name makes that name missing. */
  lemma MissingExample()
    ensures var mentions := (f: string) => if f == "B+1" then {"B"} else {};
            KnownNames(map["A" := "B+1"], mentions) - {"A"} == {"B"}
  {
    var mentions := (f: string) => if f == "B+1" then {"B"} else {};
    var known := KnownNames(map["A" := "B+1"], mentions);
    assert "B" in mentions(map["A" := "B+1"]["A"]);
    assert "A" != "B";
    forall n | n in known - {"A"} ensures n == "B" {
      var v :| v in map["A" := "B+1"] && n in mentions(map["A" := "B+1"][v]);
    }
  }

  // ---------------------------------------------------------------------------
  // The list
  // ---------------------------------------------------------------------------

  class VariableList {
    /** The formula store: name to formula text. */
    var variableMap: map<string, string>
    /** The names a formula text refers to, as the formula parser finds them. */
    const mentions: string -> set<string>
    /** The listed names, in order. */
    var variableList: seq<string>
    /** Each listed name's persisted id; `None` for a name never persisted. */
    var variablesSet: map<string, Option<int>>
    var wasModified: bool

    /** The ordered list and the id map hold the same names, each once, all of them stored. */
    ghost predicate Valid()
      reads this
    {
      && NoDuplicates(variableList)
      && Elements(variableList) == variablesSet.Keys
      && variablesSet.Keys <= variableMap.Keys
    }

    constructor (mentions: string -> set<string>)
      ensures Valid()
      ensures variableMap == map[] && variableList == [] && variablesSet == map[]
      ensures !wasModified && this.mentions == mentions
    {
      this.mentions := mentions;
      variableMap := map[];
      variableList := [];
      variablesSet := map[];
      wasModified := false;
    }

    function Contains(v: string): (b: bool)
      reads this
      requires Valid()
      ensures b <==> v in variableList
    {
      v in variablesSet
    }

    function Size(): (n: nat)
      reads this
      requires Valid()
      ensures n == |variablesSet|
    {
      DistinctCardinality(variableList);
      |variableList|
    }

    /** The listed names, in order. */
    function AsList(): (names: seq<string>)
      reads this
      requires Valid()
      ensures NoDuplicates(names) && Elements(names) == variablesSet.Keys
    {
      variableList
    }

    /** The listed names as a set. */
    function AsSet(): (names: set<string>)
      reads this
      requires Valid()
      ensures names == Elements(variableList)
    {
      variablesSet.Keys
    }

    function WasModified(): (b: bool)
      reads this
      ensures b == wasModified
    {
      wasModified
    }

    /** Marks the current state as saved. */
    method ResetModified()
      modifies this
      ensures !wasModified
      ensures variableMap == old(variableMap) && variableList == old(variableList) && variablesSet == old(variablesSet)
    {
      wasModified := false;
    }

    function IsEmpty(): (b: bool)
      reads this
      requires Valid()
      ensures b <==> variablesSet == map[]
    {
      Size() == 0
    }

    /** Empties all three structures; an empty list is left as it is, dirty flag included. */
    method Clear()
      requires Valid()
      modifies this
      ensures Valid()
      ensures old(variableList) == [] ==> unchanged(this)
      ensures old(variableList) != [] ==>
        && variableMap == map[] && variableList == [] && variablesSet == map[]
        && wasModified
    {
      if |variableList| == 0 {
        return;
      }
      variableMap := map[];
      variableList := [];
      variablesSet := map[];
      wasModified := true;
    }

    /**
     * Stores `formula` under `v` (or under a fresh invisible name when `v` is
     * absent) at position `ppos`, clamped to the list, replacing an existing
     * variable of that name. Its persisted id is forgotten.
     */
    method AddVariable(v: Option<string>, formula: string, ppos: int) returns (varname: string)
      requires Valid()
      modifies this
      ensures Valid()
      ensures v.Some? ==> varname == v.value
      ensures v.None? ==> varname == CreateNonContainedKey(old(variableMap).Keys, [InvisibleVarPrefix])
      ensures variableList == Reinserted(old(variableList), varname, Clamp(ppos, |old(variableList)|))
      ensures variableMap == old(variableMap)[varname := formula]
      ensures variablesSet == old(variablesSet)[varname := None]
      ensures wasModified
    {
      var pos := Clamp(ppos, |variableList|);
      ghost var before, pos0 := variableList, pos;
      ghost var oldMap, oldIds := variableMap, variablesSet;
      ghost var removeIdx := -1;
      varname := if v.None? then CreateNonContainedKey(variableMap.Keys, [InvisibleVarPrefix]) else v.value;
      if varname in variablesSet {
        var idx := RemoveVariable(varname);
        removeIdx := idx;
        RemovePut(oldMap, varname, formula);
        RemovePut(oldIds, varname, None);
        if idx >= 0 && idx < pos {
          pos := pos - 1;
        }
      }
      AddedListIsReinserted(before, varname, pos0, variableList, removeIdx, pos);
      ReinsertedInStep(before, oldIds, oldMap, varname, pos0, formula);
      variableMap := variableMap[varname := formula];
      variableList := variableList[..pos] + [varname] + variableList[pos..];
      variablesSet := variablesSet[varname := None];
      wasModified := true;
    }

    /** Replaces the formula of a listed variable; reports whether anything changed. */
    method ChangeVariable(v: string, formula: string) returns (changed: bool)
      requires Valid()
      modifies this
      ensures Valid()
      ensures changed <==> v in old(variablesSet) && old(variableMap)[v] != formula
      ensures changed ==>
        && variableMap == old(variableMap)[v := formula]
        && variableList == old(variableList) && variablesSet == old(variablesSet)
        && wasModified
      ensures !changed ==> unchanged(this)
    {
      if v !in variablesSet || variableMap[v] == formula {
        return false;
      }
      variableMap := variableMap[v := formula];
      wasModified := true;
      return true;
    }

    /** Removes a listed variable from all three structures and reports where it stood, or -1. */
    method RemoveVariable(v: string) returns (idx: int)
      requires Valid()
      modifies this
      ensures Valid()
      ensures v !in old(variablesSet) ==> idx == -1 && unchanged(this)
      ensures v in old(variablesSet) ==>
        && 0 <= idx < |old(variableList)| && old(variableList)[idx] == v
        && variableList == old(variableList)[..idx] + old(variableList)[idx + 1..]
        && variableMap == old(variableMap) - {v}
        && variablesSet == old(variablesSet) - {v}
        && wasModified
    {
      if v !in variablesSet {
        return -1;
      }
      idx := IndexOf(variableList, v);
      RemoveAtDistinct(variableList, idx);
      variableList := variableList[..idx] + variableList[idx + 1..];
      variableMap := variableMap - {v};
      variablesSet := variablesSet - {v};
      wasModified := true;
    }

    /**
     * Reorders the names with `comp`; the stored formulas and ids stay as they are.
     * Java's `null` comparator, the natural `String` order, is `Strings.CompareStrings`.
     */
    method SortVariables(comp: (string, string) -> int)
      requires Valid()
      modifies this
      ensures Valid()
      ensures variableList == Sorting.SortBy(comp, old(variableList))
      ensures multiset(variableList) == multiset(old(variableList))
      ensures Sorting.TotalPreorder(comp) ==> Sorting.Sorted(comp, variableList)
      ensures variableMap == old(variableMap) && variablesSet == old(variablesSet)
      ensures wasModified
    {
      Sorting.SortByDistinct(comp, variableList);
      if Sorting.TotalPreorder(comp) {
        Sorting.SortBySorted(comp, variableList);
      }
      variableList := Sorting.SortBy(comp, variableList);
      wasModified := true;
    }

    /**
     * The names the formula store knows, its formulas' references included,
     * that are not listed: each once, in the order of `collate`.
     */
    method GetAllMissingVars(collate: (string, string) -> int) returns (missing: seq<string>)
      requires Valid()
      ensures NoDuplicates(missing)
      ensures Elements(missing) == KnownNames(variableMap, mentions) - Elements(variableList)
      ensures Sorting.TotalPreorder(collate) ==> Sorting.Sorted(collate, missing)
    {
      var rest := KnownNames(variableMap, mentions) - Elements(variableList);
      var found := [];
      while rest != {}
        invariant NoDuplicates(found)
        invariant Elements(found) !! rest
        invariant Elements(found) + rest == KnownNames(variableMap, mentions) - Elements(variableList)
        decreases rest
      {
        var x :| x in rest;
        found := found + [x];
        rest := rest - {x};
      }
      Sorting.SortByDistinct(collate, found);
      if Sorting.TotalPreorder(collate) {
        Sorting.SortBySorted(collate, found);
      }
      missing := Sorting.SortBy(collate, found);
    }

    /**
     * Bulk load: clears the list, then takes each entry whose name is not
     * taken yet. A bulk load does not count as a modification.
     */
    method SetEntries(vars: seq<VariableEntry>)
      requires Valid()
      modifies this
      ensures Valid()
      ensures variableList == Names(FirstOccurrences(vars))
      ensures variablesSet == IdMap(FirstOccurrences(vars))
      ensures variableMap == (if old(variableList) == [] then old(variableMap) else map[]) + FormulaMap(FirstOccurrences(vars))
      ensures !wasModified
    {
      Clear();
      ghost var base := variableMap;
      ghost var d: seq<VariableEntry> := [];
      MergeNothing(base);
      var i := 0;
      while i < |vars|
        invariant 0 <= i <= |vars|
        invariant d == FirstOccurrences(vars[..i])
        invariant variableList == Names(d)
        invariant variablesSet == IdMap(d)
        invariant variableMap == base + FormulaMap(d)
      {
        var entry := vars[i];
        LoadStepAt(vars, i);
        if entry.varname in variablesSet {
          i := i + 1;
          continue;
        }
        AppendEntry(d, entry, base);
        variableMap := variableMap[entry.varname := entry.formula];
        variableList := variableList + [entry.varname];
        variablesSet := variablesSet[entry.varname := Some(entry.id)];
        d := d + [entry];
        i := i + 1;
      }
      assert vars[..i] == vars;
      wasModified := false;
    }

    /** Save: one row per listed name, in list order, with -1 for a name never persisted. */
    method GetEntries() returns (rows: seq<VariableEntry>)
      requires Valid()
      ensures rows == StoredEntries(variableList, variablesSet, variableMap)
    {
      rows := [];
      var k := 0;
      while k < |variableList|
        invariant 0 <= k <= |variableList|
        invariant rows == StoredEntries(variableList[..k], variablesSet, variableMap)
      {
        var v := variableList[k];
        var id := if variablesSet[v].None? then -1 else variablesSet[v].value;
        rows := rows + [VariableEntry(id, v, variableMap[v])];
        k := k + 1;
        assert variableList[..k] == variableList[..k - 1] + [v];
      }
      assert variableList[..k] == variableList;
    }

    /**
     * The letter after the run of one-letter names `A`, `B`, ... that starts at
     * `A`: `A` itself when `A` is free, nothing when the run reaches `Z`. Gaps
     * after the first one are not looked at.
     */
    method GetLowestMissingChar() returns (c: Option<char>)
      ensures c.None? <==> forall d :: 'A' <= d <= 'Z' ==> Letter(d) in variablesSet
      ensures c.Some? ==> 'A' <= c.value <= 'Z' && Letter(c.value) !in variablesSet
      ensures c.Some? ==> forall d :: 'A' <= d < c.value ==> Letter(d) in variablesSet
    {
      if Letter('A') !in variablesSet {
        return Some('A');
      }
      var lowestContChar: int := 'A' as int;
      while lowestContChar < 'Z' as int && Letter((lowestContChar + 1) as char) in variablesSet
        invariant 'A' as int <= lowestContChar <= 'Z' as int
        invariant forall d :: 'A' <= d && d as int <= lowestContChar ==> Letter(d) in variablesSet
      {
        lowestContChar := lowestContChar + 1;
      }
      if lowestContChar == 'Z' as int {
        return None;
      }
      return Some((lowestContChar + 1) as char);
    }
  }
}
