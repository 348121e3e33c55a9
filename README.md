# Formula variables of c:geo, modelled in Dafny

This project models three classes of c:geo's formula engine and proves what they promise.

- **`VariableList`** is the ordered, persistable list of formula variables of a cache or waypoint. It keeps three structures in step:
  - the ordered list of names;
  - a map from each name to its database id (or none for a name added since the last load);
  - the store of formulas behind those names.

  It also keeps a flag that records unsaved changes.
- **`CommonUtils`** holds the generic collection helpers the engine and its screens use:
  - positional lookup;
  - add-or-remove;
  - map difference;
  - a null-aware comparator;
  - partitioned execution;
  - construction of a grouped list;
  - in-place filtering;
  - enum/ordinal conversion.
- **`CalculatorException`** is the typed evaluation error. It has a closed set of kinds with fallback message formats, context fields set by the evaluator, and two renderings: one for the user and one for logs.

Modules:

- `Optional`: Java `null` as `None`.
- `Strings`: decimal rendering of integers and its inverse, `String.compareTo`, `isBlank`.
- `Lists`: `indexOf`, filtering, removal, duplicate-freedom.
- `Sorting`: `Collections.sort`, modelled as a stable insertion sort with its sortedness and permutation lemmas.
- `Formulas`: `VariableList`.
- `CommonUtils`.
- `Calc`: `CalculatorException`.

Callbacks that the Java code invokes are modelled in two ways:

- A callback whose result the code uses is a pure function parameter. This covers comparators, the group mapper, the partition action and the localization lookup.
- Calls to the callbacks that only receive output (`groupAdder`, `itemAdder`, the partition action) are returned as a trace, in call order.

Where the documentation and the code disagree, the model follows the code:

- `CommonUtils.compare` puts the first map's value first in each pair. Its doc comment states the sides the other way round for keys present in only one map.
- `executeOnPartitions` never resets its element counter. So the action sees the first `partitionSize` elements, then at most once more all the rest (only if the first call returned true). The doc comment speaks of one call per chunk.
- The `groupList` doc comment describes a `minGroupCount` parameter that the method does not have. Nothing is modelled for it.
- The `CalculatorException` setters overwrite an earlier value on every call. Context is not attached only once.
- Unset context fields print as `null` in `getMessage`.

## Model

| member | source | states |
|---|---|---|
| Formulas.CreateNonContainedKey | main/src/cgeo/geocaching/utils/formulas/VariableList.java:95 | the generated name is not a key of the store and starts with the requested prefix |
| Formulas.FreeIndex | main/src/cgeo/geocaching/utils/formulas/VariableList.java:95 | the counter found is the first one at or after the start whose candidate name is free; every earlier candidate is taken |
| Formulas.KeyCandidateInjective | main/src/cgeo/geocaching/utils/formulas/VariableList.java:95 | different counters give different candidate names |
| Formulas.IsVisible | main/src/cgeo/geocaching/utils/formulas/VariableList.java:121-123 | a name is visible exactly when it has a non-whitespace character and does not start with `_` (what the list relies on, that its generated names are invisible, is `Formulas.SynthesizedNameInvisible`) |
| Formulas.SynthesizedNameInvisible | main/src/cgeo/geocaching/utils/formulas/VariableList.java:121-123 | a name generated with the `_` prefix is not visible and is new |
| Formulas.Clamp | main/src/cgeo/geocaching/utils/formulas/VariableList.java:94 | the insert position is `ppos` clamped to `[0, size]`: 0 below, `size` above, `ppos` itself inside |
| Formulas.ReinsertedKeepsOthers | main/src/cgeo/geocaching/utils/formulas/VariableList.java:96-104 | after re-adding, the name is in the list and every other name keeps its relative order |
| Formulas.ReinsertedExample | main/src/cgeo/geocaching/utils/formulas/VariableList.java:93-108 | re-adding `A` at 2 in `[A,B,C]` gives `[B,A,C]` |
| Formulas.ReinsertFresh | main/src/cgeo/geocaching/utils/formulas/VariableList.java:103-104 | a new name is inserted exactly at the clamped position |
| Formulas.ReinsertAfterRemoval | main/src/cgeo/geocaching/utils/formulas/VariableList.java:96-104 | removing a present name at `i`, then inserting it at `pos - 1` when `i < pos` and at `pos` otherwise, gives the re-added list |
| Formulas.ReinsertMovedBack | main/src/cgeo/geocaching/utils/formulas/VariableList.java:97-104 | a name moved towards the end lands just before the element that was at `pos` |
| Formulas.ReinsertMovedForward | main/src/cgeo/geocaching/utils/formulas/VariableList.java:97-104 | a name moved towards the front lands at `pos` |
| Formulas.ReinsertedDistinct | main/src/cgeo/geocaching/utils/formulas/VariableList.java:96-105 | the list stays duplicate-free and gains exactly the added name |
| Formulas.ReinsertedInStep | main/src/cgeo/geocaching/utils/formulas/VariableList.java:103-105 | after an add, the list and the id map agree as sets, and the formula store covers both |
| Formulas.AddedListIsReinserted | main/src/cgeo/geocaching/utils/formulas/VariableList.java:96-104 | the remove-then-insert steps of `addVariable` produce the re-added list |
| Formulas.FirstOccurrences | main/src/cgeo/geocaching/utils/formulas/VariableList.java:155-163 | the loaded entries have distinct names and cover every name of the input |
| Formulas.LoadStep | main/src/cgeo/geocaching/utils/formulas/VariableList.java:155-163 | one more input entry is dropped if its name was loaded already, and appended otherwise |
| Formulas.FirstOccurrencesAreFirst | main/src/cgeo/geocaching/utils/formulas/VariableList.java:156-159 | every loaded entry is the first input entry with its name |
| Formulas.FirstOccurrencesInOrder | main/src/cgeo/geocaching/utils/formulas/VariableList.java:155-163 | loaded entries appear in the order of their first occurrence in the input |
| Formulas.StoredEntriesOfLoaded | main/src/cgeo/geocaching/utils/formulas/VariableList.java:160-162 | after loading, each entry's name maps to its id and to its formula |
| Formulas.LoadStoreRoundTrip | main/src/cgeo/geocaching/utils/formulas/VariableList.java:153-183 | saving right after loading a duplicate-free input yields that input: same ids, names and formulas, in the same order |
| Formulas.VariableList.constructor | main/src/cgeo/geocaching/utils/formulas/VariableList.java:29-33 | a new list is empty in all three structures and unmodified, and keeps the given formula parser |
| Formulas.VariableList.Contains | main/src/cgeo/geocaching/utils/formulas/VariableList.java:53-55 | true exactly when the name is in the list |
| Formulas.VariableList.Size | main/src/cgeo/geocaching/utils/formulas/VariableList.java:62-64 | the number of names, which equals the number of ids |
| Formulas.VariableList.IsEmpty | main/src/cgeo/geocaching/utils/formulas/VariableList.java:66-68 | true exactly when there is no variable |
| Formulas.VariableList.AsList | main/src/cgeo/geocaching/utils/formulas/VariableList.java:70-72 | the names are duplicate-free and are exactly the keys of the id map |
| Formulas.VariableList.AsSet | main/src/cgeo/geocaching/utils/formulas/VariableList.java:74-76 | the key set is exactly the set of listed names |
| Formulas.VariableList.Clear | main/src/cgeo/geocaching/utils/formulas/VariableList.java:78-86 | nothing changes on an empty list, the modified flag included; otherwise all three structures are emptied and the list is marked modified |
| Formulas.VariableList.AddVariable | main/src/cgeo/geocaching/utils/formulas/VariableList.java:93-108 | returns the given name or a fresh invisible one; the list becomes the re-added list at the clamped position; the formula is stored; the id becomes none; the list is marked modified; the structures stay in step |
| Formulas.VariableList.ChangeVariable | main/src/cgeo/geocaching/utils/formulas/VariableList.java:111-119 | true exactly when the name is present with a different formula; then only that formula changes and the list is marked modified; otherwise nothing changes |
| Formulas.VariableList.RemoveVariable | main/src/cgeo/geocaching/utils/formulas/VariableList.java:126-136 | -1 and no change for an absent name; otherwise the former index, with the name dropped from all three structures and the list marked modified |
| Formulas.VariableList.SortVariables | main/src/cgeo/geocaching/utils/formulas/VariableList.java:138-141 | the list becomes a permutation of itself, sorted when the comparator is a total preorder; the maps are untouched; the list is marked modified |
| Formulas.KnownNames | main/src/cgeo/geocaching/utils/formulas/VariableList.java:147 | the store knows exactly its own names and every name one of its formulas mentions |
| Formulas.MissingExample | main/src/cgeo/geocaching/utils/formulas/VariableList.java:146-151 | a store holding `A := B+1` with only `A` listed is missing exactly `B` |
| Formulas.VariableList.GetAllMissingVars | main/src/cgeo/geocaching/utils/formulas/VariableList.java:146-151 | exactly the known names that are not listed, each once, sorted when the collation is a total preorder |
| Formulas.VariableList.SetEntries | main/src/cgeo/geocaching/utils/formulas/VariableList.java:153-165 | the list, ids and formulas become those of the first occurrence of each name, in input order; the store is cleared first only if the list was non-empty; the list is unmodified afterwards |
| Formulas.VariableList.GetEntries | main/src/cgeo/geocaching/utils/formulas/VariableList.java:175-183 | one row per listed name, in list order, with its id (-1 when none) and its formula |
| Formulas.VariableList.WasModified | main/src/cgeo/geocaching/utils/formulas/VariableList.java:167-169 | reports the modified flag |
| Formulas.VariableList.ResetModified | main/src/cgeo/geocaching/utils/formulas/VariableList.java:171-173 | clears the flag and nothing else |
| Formulas.VariableList.GetLowestMissingChar | main/src/cgeo/geocaching/utils/formulas/VariableList.java:186-195 | none exactly when `A`..`Z` are all present; otherwise a missing letter all of whose predecessors from `A` are present (so `A` when `A` is absent, and never a later gap) |
| CommonUtils.Get | main/src/main/java/cgeo/geocaching/utils/CommonUtils.java:39-60 | an element exactly when the iterable is non-null and the index is within `[0, size)`, and then the element at that index |
| CommonUtils.First | main/src/main/java/cgeo/geocaching/utils/CommonUtils.java:62-64 | the first element, or none for a null or empty iterable |
| CommonUtils.Collection.Add | main/src/main/java/cgeo/geocaching/utils/CommonUtils.java:74 | appends the item and reports a change |
| Lists.IndexOf | main/src/cgeo/geocaching/utils/formulas/VariableList.java:130 | -1 exactly for an absent element; otherwise an index holding it with no earlier occurrence |
| Lists.IndexOfExtend | main/src/cgeo/geocaching/utils/formulas/VariableList.java:130 | appending to a list keeps the position of an element already present |
| CommonUtils.Collection.Remove | main/src/main/java/cgeo/geocaching/utils/CommonUtils.java:72 | reports a change exactly when the item was present; drops its first occurrence and nothing else |
| CommonUtils.AddRemove | main/src/main/java/cgeo/geocaching/utils/CommonUtils.java:70-75 | with `remove`: changed exactly when the item was present, and then its first occurrence is dropped and nothing else, otherwise nothing changes; without: appends the item and reports a change |
| CommonUtils.FilterCollection | main/src/main/java/cgeo/geocaching/utils/CommonUtils.java:255-266 | a null collection is untouched; otherwise the collection becomes its elements that pass the predicate, in their original order |
| CommonUtils.FilterPartition | main/src/main/java/cgeo/geocaching/utils/CommonUtils.java:259-265 | the kept and the removed elements together are the original elements; all kept ones pass and all removed ones fail |
| CommonUtils.Lookup | main/src/main/java/cgeo/geocaching/utils/CommonUtils.java:88 | `Map.get`: the value for a present key, none for an absent one |
| CommonUtils.Compare | main/src/main/java/cgeo/geocaching/utils/CommonUtils.java:83-100 | null maps count as empty; the result has exactly the keys whose lookups differ, each mapped to the pair (value in the first map, value in the second) |
| CommonUtils.DiffEmpty | main/src/main/java/cgeo/geocaching/utils/CommonUtils.java:83-100 | the difference is empty exactly when the maps are equal |
| CommonUtils.DiffSwapped | main/src/main/java/cgeo/geocaching/utils/CommonUtils.java:83-100 | swapping the maps keeps the keys and swaps the sides of every pair |
| CommonUtils.NullHandlingCompare | main/src/main/java/cgeo/geocaching/utils/CommonUtils.java:102-115 | 0 for equal arguments; null is -1 against a value with `sortNullTop` and +1 otherwise (and the mirror image); two values are compared by the source comparator, or by their `toString` without one |
| CommonUtils.ToStringOrder | main/src/main/java/cgeo/geocaching/utils/CommonUtils.java:113 | the `toString` order is a total preorder |
| CommonUtils.NullHandlingComparator | main/src/main/java/cgeo/geocaching/utils/CommonUtils.java:102-115 | every group compares 0 with itself; null sorts before every value exactly when `sortNullTop`, and after it otherwise |
| CommonUtils.NullHandlingTransitive | main/src/main/java/cgeo/geocaching/utils/CommonUtils.java:102-115 | the null-aware comparison is transitive when the comparator it delegates to is a total preorder |
| CommonUtils.NullHandlingPreorder | main/src/main/java/cgeo/geocaching/utils/CommonUtils.java:102-115 | the null-aware comparator is a total preorder whenever its source comparator is |
| CommonUtils.ExecuteOnPartitions | main/src/main/java/cgeo/geocaching/utils/CommonUtils.java:136-153 | a negative size fails before any call; otherwise the calls are exactly those of the never-reset counter |
| CommonUtils.PartitionCallsShape | main/src/main/java/cgeo/geocaching/utils/CommonUtils.java:136-153 | at most two calls, none on an empty list; the first gets the first `partitionSize` elements; the calls together are a prefix of the collection, and all of it unless the first call stopped the run |
| CommonUtils.CountGroups | main/src/main/java/cgeo/geocaching/utils/CommonUtils.java:179-191 | the counting loop builds the count map of the specification |
| CommonUtils.CountsAreCounts | main/src/main/java/cgeo/geocaching/utils/CommonUtils.java:179-191 | the count map has exactly the groups that occur (default group for items without one), each with its number of items |
| CommonUtils.AssignedGroupRule | main/src/main/java/cgeo/geocaching/utils/CommonUtils.java:196-200 | an item goes to the default group when it has no group, or when its group has fewer than `minCountPerGroup` items; otherwise to its own group |
| CommonUtils.BuildGroupLists | main/src/main/java/cgeo/geocaching/utils/CommonUtils.java:193-208 | the second loop builds the group lists of the specification |
| CommonUtils.GroupedEntries | main/src/main/java/cgeo/geocaching/utils/CommonUtils.java:196-207 | every list entry is an (index, item) pair of the input, filed under the item's assigned group |
| CommonUtils.GroupedAscending | main/src/main/java/cgeo/geocaching/utils/CommonUtils.java:195-207 | within each group list the original indices ascend |
| CommonUtils.GroupedCovers | main/src/main/java/cgeo/geocaching/utils/CommonUtils.java:196-207 | every input index appears in the list of its assigned group |
| CommonUtils.GroupedSizes | main/src/main/java/cgeo/geocaching/utils/CommonUtils.java:201-206 | each group list holds as many entries as items are assigned to the group |
| CommonUtils.KeyList | main/src/main/java/cgeo/geocaching/utils/CommonUtils.java:211 | the key list holds every key of the map exactly once |
| CommonUtils.EmitGroups | main/src/main/java/cgeo/geocaching/utils/CommonUtils.java:214-231 | the output loop makes exactly the calls of the emission specification |
| CommonUtils.GroupList | main/src/main/java/cgeo/geocaching/utils/CommonUtils.java:170-232 | the groups are emitted in an order that holds each group once and, for a total-preorder comparator, is sorted null first; the calls are those of that order |
| CommonUtils.EmitIndex | main/src/main/java/cgeo/geocaching/utils/CommonUtils.java:215-230 | `listIdx` always equals the number of calls made so far |
| CommonUtils.EmitHeaderAt | main/src/main/java/cgeo/geocaching/utils/CommonUtils.java:220-224 | a non-null group starts with one header call that carries the next list index and the group's size |
| CommonUtils.EmitRowAt | main/src/main/java/cgeo/geocaching/utils/CommonUtils.java:227-230 | the group's items follow its header, in list order, with the group and the header index |
| CommonUtils.EmitRowsFromLists | main/src/main/java/cgeo/geocaching/utils/CommonUtils.java:217-230 | every item call comes from the list of an emitted group |
| CommonUtils.EmitRowOf | main/src/main/java/cgeo/geocaching/utils/CommonUtils.java:217-230 | every entry of an emitted group's list has an item call, found at the returned index |
| CommonUtils.EmitKeepsOrder | main/src/main/java/cgeo/geocaching/utils/CommonUtils.java:217-230 | item calls of one group come in ascending original index |
| CommonUtils.EmitGroupRows | main/src/main/java/cgeo/geocaching/utils/CommonUtils.java:220-224 | each header call names the position of its first item and the size of its group |
| CommonUtils.EmitItemRows | main/src/main/java/cgeo/geocaching/utils/CommonUtils.java:220-228 | each item call of a non-null group points back to its group's header call |
| CommonUtils.EmitNullGroupUngrouped | main/src/main/java/cgeo/geocaching/utils/CommonUtils.java:216-228 | when only the first group may be null, the items of the null group carry group index -1 |
| CommonUtils.NullGroupFirst | main/src/main/java/cgeo/geocaching/utils/CommonUtils.java:211-212 | sorting with the null-first comparator leaves the null group, if any, in front |
| CommonUtils.GroupListRowsFaithful | main/src/main/java/cgeo/geocaching/utils/CommonUtils.java:193-228 | every item call passes an input item with its own index and its assigned group |
| CommonUtils.GroupListRowOf | main/src/main/java/cgeo/geocaching/utils/CommonUtils.java:196-228 | input item `p` has an item call with its index, the item and its assigned group, at the returned index |
| CommonUtils.GroupListCoversItems | main/src/main/java/cgeo/geocaching/utils/CommonUtils.java:196-228 | every input item gets an item call with its index and its assigned group |
| CommonUtils.GroupListItemsOnce | main/src/main/java/cgeo/geocaching/utils/CommonUtils.java:217-230 | no index is passed to two item calls |
| CommonUtils.GroupListKeepsOrder | main/src/main/java/cgeo/geocaching/utils/CommonUtils.java:206-228 | within a group the items keep their original order |
| CommonUtils.GroupListHeaders | main/src/main/java/cgeo/geocaching/utils/CommonUtils.java:220-228 | a header call sits just before its first item and carries the number of items assigned to its group; every grouped item points to it |
| CommonUtils.GroupListNullGroupFirst | main/src/main/java/cgeo/geocaching/utils/CommonUtils.java:211-228 | in the sorted order the null group can only come first, and its items carry group index -1 |
| CommonUtils.GroupedNonEmpty | main/src/main/java/cgeo/geocaching/utils/CommonUtils.java:201-206 | every group list holds at least one item |
| CommonUtils.EmitHeaderRank | main/src/main/java/cgeo/geocaching/utils/CommonUtils.java:217-224 | a header call of the last emitted group ranks last in the group order; earlier header calls keep their rank |
| CommonUtils.EmitHeadersInOrder | main/src/main/java/cgeo/geocaching/utils/CommonUtils.java:217-224 | header calls name groups of the order, in the order of that sequence |
| CommonUtils.EmitHeadersFollowed | main/src/main/java/cgeo/geocaching/utils/CommonUtils.java:220-228 | when no group list is empty, each header call is followed by an item call of its group |
| CommonUtils.EmitHeaderOf | main/src/main/java/cgeo/geocaching/utils/CommonUtils.java:220-224 | every non-null group of the order gets a header call, at the returned index |
| CommonUtils.GroupListGroupRows | main/src/main/java/cgeo/geocaching/utils/CommonUtils.java:211-231 | for the sorted key list: every non-null group gets exactly one header call, with its first item index and its size; header calls follow the key order; each is directly followed by an item of its group |
| CommonUtils.GroupListGroupsSorted | main/src/main/java/cgeo/geocaching/utils/CommonUtils.java:211-224 | for a key list sorted null first, the header calls come in the comparator's order |
| CommonUtils.EnumToInt | main/src/main/java/cgeo/geocaching/utils/CommonUtils.java:270-272 | -1 exactly for null; otherwise the constant's ordinal |
| CommonUtils.IntToEnum | main/src/main/java/cgeo/geocaching/utils/CommonUtils.java:278-281 | the default for a negative value, a non-enum class or a value at least the number of constants; otherwise the constant with that ordinal |
| CommonUtils.IntToEnumOrNull | main/src/main/java/cgeo/geocaching/utils/CommonUtils.java:274-276 | a constant exactly when the value is a valid ordinal, and then the constant with that ordinal |
| CommonUtils.EnumRoundTrip | main/src/main/java/cgeo/geocaching/utils/CommonUtils.java:270-281 | converting a constant to its ordinal and back gives the constant; null comes back as the default |
| CommonUtils.OrdinalRoundTrip | main/src/main/java/cgeo/geocaching/utils/CommonUtils.java:270-281 | converting a valid ordinal to its constant and back gives the ordinal |
| Strings.CompareStringsZero | main/src/main/java/cgeo/geocaching/utils/CommonUtils.java:113 | `compareTo` is 0 exactly for equal strings |
| Strings.CompareStringsAntisymmetric | main/src/main/java/cgeo/geocaching/utils/CommonUtils.java:113 | swapping the arguments of `compareTo` negates the result |
| Strings.CompareStringsTransitive | main/src/main/java/cgeo/geocaching/utils/CommonUtils.java:113 | the `compareTo` order is transitive |
| Sorting.SortBy | main/src/main/java/cgeo/geocaching/utils/CommonUtils.java:212 | the result is a permutation of the input |
| Sorting.SortBySorted | main/src/main/java/cgeo/geocaching/utils/CommonUtils.java:212 | the sort result is sorted under a total-preorder comparator |
| Sorting.SortByDistinct | main/src/main/java/cgeo/geocaching/utils/CommonUtils.java:211-212 | sorting a duplicate-free list keeps it duplicate-free, with the same elements |
| Calc.NamesDistinct | main/src/cgeo/geocaching/utils/calc/CalculatorException.java:11-17 | different error kinds print different names |
| Calc.Template | main/src/cgeo/geocaching/utils/calc/CalculatorException.java:13-17 | no placeholder of a kind's fallback format goes past the number of arguments the kind takes |
| Calc.FallbackParameters | main/src/cgeo/geocaching/utils/calc/CalculatorException.java:13-17 | each kind's fallback format refers to exactly the arguments 1 to its parameter count: 1, 3, 3, 1, 1 |
| Calc.PlaceholderRendered | main/src/cgeo/geocaching/utils/calc/CalculatorException.java:13-17 | every placeholder of a format appears in the string it spells, at the returned offset |
| Calc.ParamRendered | main/src/cgeo/geocaching/utils/calc/CalculatorException.java:13-17 | every argument a format refers to has its `%n$s` in the format string |
| Calc.MessageFallback | main/src/cgeo/geocaching/utils/calc/CalculatorException.java:13-17 | each fallback message contains the placeholder `%n$s` of every argument its kind takes |
| Calc.FunctionContextRoundTrip | main/src/cgeo/geocaching/utils/calc/CalculatorException.java:57-59 | the function name, as printed, can be read back from the recorded function context |
| Calc.ParsingContextRoundTrip | main/src/cgeo/geocaching/utils/calc/CalculatorException.java:61-63 | the character and the position can both be read back from the recorded parsing context |
| Calc.ParsingContextInjective | main/src/cgeo/geocaching/utils/calc/CalculatorException.java:61-63 | two parsing contexts are equal only for the same character and position |
| Calc.CalculatorException.constructor | main/src/cgeo/geocaching/utils/calc/CalculatorException.java:39-47 | the kind is fixed (a constant, so it never changes); the localized message comes from the kind's resource id, its fallback and the arguments; the base message is the bracketed kind name followed by it; all context is unset |
| Calc.CalculatorException.GetErrorType | main/src/cgeo/geocaching/utils/calc/CalculatorException.java:49-51 | the kind fixed at construction |
| Calc.CalculatorException.SetExpression | main/src/cgeo/geocaching/utils/calc/CalculatorException.java:53-55 | replaces the expression and nothing else |
| Calc.CalculatorException.SetFunction | main/src/cgeo/geocaching/utils/calc/CalculatorException.java:57-59 | the function context becomes `Function '<name>'` whatever it was before; nothing else changes |
| Calc.CalculatorException.SetParsingContext | main/src/cgeo/geocaching/utils/calc/CalculatorException.java:61-63 | the parsing context becomes `(while parsing '<c>' at position <p>)` whatever it was before; nothing else changes |
| Calc.CalculatorException.SetEvaluationContext | main/src/cgeo/geocaching/utils/calc/CalculatorException.java:65-67 | replaces the evaluation variables and nothing else |
| Calc.CalculatorException.UserDisplayableString | main/src/cgeo/geocaching/utils/calc/CalculatorException.java:69-72 | the localized message sits right after the optional function prefix; with no function and no parsing context it is the whole message |
| Calc.DisplayStartsWithFunction | main/src/cgeo/geocaching/utils/calc/CalculatorException.java:69-72 | after `setFunction(f)` the user message starts with `Function '<f>': ` |
| Calc.DisplayEndsWithParsingContext | main/src/cgeo/geocaching/utils/calc/CalculatorException.java:69-72 | after `setParsingContext(c, p)` the user message ends with ` (while parsing '<c>' at position <p>)` |
| Calc.MessageWhenUnset | main/src/cgeo/geocaching/utils/calc/CalculatorException.java:74-77 | with nothing set, the log message still has every part: base message, `/null/null[null: null]` |
| Calc.CalculatorException.GetMessage | main/src/cgeo/geocaching/utils/calc/CalculatorException.java:74-77 | the log message starts with the superclass message (the bracketed kind and the localized message, by the constructor) and `/`, and ends with `]` |

## Left out

- `VariableMap` is not part of this model. Its formula store is a map from name to formula string. The names it knows (`getVars`) are its own names plus every name its formulas mention. The formula parser that finds those mentions is a function fixed at construction. Lazy evaluation, values, `getValue`/`getState` (lines 47-60) and cycle detection are left out.
- Formulas.KnownNames: the known names are recomputed from the current formulas. How `VariableMap` keeps referenced names after a variable is removed is not modelled.
- Formulas.CreateNonContainedKey: the real numbering lives in `VariableMap`. The model uses the smallest counter from 1 whose name is free, and only its contract matters: the name is new and has the prefix.
- Formulas.VariableList.AddVariable: a null formula is not modelled; formulas are non-null strings.
- Formulas.VariableList.ChangeVariable: a null formula is not modelled; formulas are non-null strings.
- Formulas.VariableList.GetAllMissingVars: the locale-aware collation is a foreign library. It is a comparator parameter, and the stable sort of `Sorting` is applied with it.
- Formulas.VariableList.AsList: Java returns the live `variableList`, and a caller could change it behind the object's back. The model returns a copy (a value).
- Formulas.VariableList.AsSet: Java returns the live key set of `variablesSet`, and a caller could change it. The model returns a copy (a value).
- Formulas.VariableList.SortVariables: `Collections.sort` is a stable insertion sort here. Java may throw for a comparator that is not a total preorder, which is not modelled. A `null` comparator (natural `String` order in Java) has no separate case: the caller passes `Strings.CompareStrings`.
- Calc.CalculatorException.SetParsingContext: a Java `char` is a UTF-16 code unit and may be a lone surrogate, which a Dafny `char` cannot hold. Such characters are not modelled.
- Database ids are unbounded integers; Java `long` overflow is not modelled. List positions are unbounded too; `int` overflow cannot occur at realistic sizes and is not modelled.
- CommonUtils.Get: all three kinds of iterable are modelled on one sequence. Lazy, infinite or concurrently modified iterables are left out.
- CommonUtils.Collection.Remove: collections have list semantics. Set semantics (`add` returning false for a present element) are not modelled.
- CommonUtils.Compare: maps here hold no null values, so a key mapped to null is not distinguished from an absent key.
- CommonUtils.NullHandlingCompare: the reference test `g1 == g2` is value equality here. `String.compareTo` compares by character, not by UTF-16 code unit.
- CommonUtils.GroupList:
  - the group mapper is a pure function;
  - the HashMap key order is any order (`KeyList` picks the keys one at a time), named by a ghost out-parameter;
  - the method is split into one method per loop of the Java method.
- CommonUtils.ExecuteOnPartitions: Java hands the same `sublist` object to each call and clears it between calls (lines 137 and 146), so an action that keeps the reference sees it change. The model records a copy per call.
- `threadLocalWithInitial`: thread-local state and a platform version check.
- `getReferencedClasses`: Java reflection.
- Calc.CalculatorException.constructor:
  - the `Throwable` cause is not modelled;
  - the localization lookup is a function parameter;
  - `Map.toString` of the evaluation variables is an opaque string.
- Calc.MessageFallback: each fallback format is kept as its sequence of text pieces and `%n$s` placeholders. The pieces spell the literals of lines 13-17.
