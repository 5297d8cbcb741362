# Desbordante core pieces, modelled in Dafny

This project models six pieces of the Desbordante data-profiling library and
proves properties of the model.

- **HyUCC inductor** (`inductor.dfy`, module `HyUccInductor`). Each non-UCC
  witness (a set of attributes on which two sampled rows agree) invalidates every
  stored UCC candidate that is a subset of it. Each invalidated candidate is
  replaced by its one-attribute extensions that leave the witness, unless the
  tree already stores a subset of the extension. The UCC tree is modelled
  through its interface as the finite set of stored attribute sets.
- **ORDER**, the level-wise discovery of list-based order dependencies
  lhs -> rhs. It spans four files:
  - `order_lists.dfy` (module `OrderLists`): the pure list helpers.
  - `order_partitions.dfy` (module `SortedPartitions`): sorted partitions and
    the swap check on two of them.
  - `order_lattice.dfy` (module `OrderLattice`): the specifications of the
    state changes between levels.
  - `order.dfy` (module `OrderDiscovery`): class `Order`, whose methods update
    the partition, candidate, valid and merge-invalidated maps in place.
- **Index-list option** (`indices_option.dfy`, module `IndicesOption`).
  - `NormalizeIndices` sorts the vector in place and erases repeated indices.
  - The value check rejects an empty list unless emptiness is allowed, and
    validates only the largest index.
- **FastOD data frame** (`data_frame.dfy`, module `FastodData`). It transposes
  typed columns into a row-major matrix of schema values.
- **Removal-set union** (`removal_set.dfy`, module `RemovalSets`).
- **RangeToString** (`range_to_string.dfy`, module `RangeFormat`).
- **`sorting.dfy`** (module `Sorting`): an in-place sort under a strict weak
  order. It stands for `std::sort`, which the source calls in `NormalizeIndices`
  and in `CreateSortedPartitions`.

## Abstractions

- **Column comparator:** `Type::Compare` / `CompareAsStrings` is a rank
  function `V -> int`, so it is a total preorder. Rows compare by the rank of
  their value. Sorting uses the strict order "rank below".
- **Partition product:** `SortedPartition::operator*` is the uninterpreted
  parameter `product`.
- **Option callbacks:** `ValidateIndex`, the column-count callback and the
  user's value check are parameters.
- **Data frame:** `SchemaValue::FromTypedColumnData` and `GetNumRows` are
  parameters.
- **Equal column lengths:** the partitions are built for a table whose
  columns all hold `numRows` cells (`Rectangular()`). The source does not
  check this: it reads each column's own `GetNumRows()` (order.cpp:40) and
  `byte_data.size()` (order.cpp:54). The typed relation that
  `LoadDataInternal` builds gives every column the same number of rows.
- **Range rendering:** each element's stream output is the parameter `toStr`.
- **Unordered containers:** a loop over one is a loop that picks an arbitrary
  remaining element (`:|`). Every contract therefore holds whatever the
  iteration order.

## Model

| member | source | states |
|---|---|---|
| HyUccInductor.UCCTree.GetUCCAndGeneralizations | src/algorithms/ucc/hyucc/inductor.cpp:18 | the returned list holds every stored subset of the argument exactly once and nothing else |
| HyUccInductor.UCCTree.FindUCCOrGeneralization | src/algorithms/ucc/hyucc/inductor.cpp:28 | true iff the tree stores a subset of the argument |
| HyUccInductor.UCCTree.Remove | src/algorithms/ucc/hyucc/inductor.cpp:21 | the stored sets lose exactly the argument |
| HyUccInductor.UCCTree.AddUCC | src/algorithms/ucc/hyucc/inductor.cpp:29 | the stored sets gain exactly the argument |
| HyUccInductor.Inductor.SpecializeUCCTree | src/algorithms/ucc/hyucc/inductor.cpp:16-35 | new tree = removing the stored generalizations in the listed order, each followed by its attribute loop. Afterwards: no stored set is a subset of the witness; every set that was not a subset is kept; every added set is a removed generalization plus one attribute outside the witness; every such extension has a stored subset; no set gains a stored subset it lacked; an antichain stays an antichain |
| HyUccInductor.Inductor.UpdateUCCTree | src/algorithms/ucc/hyucc/inductor.cpp:5-14 | witnesses are visited level by level from GetDepth() down to 1, and the new tree is the chain of SpecializeUCCTree calls on them (SpecializedAlong). Afterwards: no stored set is a subset of any visited witness; sets contained in no witness are kept; every stored set contains a set stored before; every set over the attributes that contained a stored set and lies in no witness still contains one; an antichain stays one |
| HyUccInductor.Inductor.HandleLevel | src/algorithms/ucc/hyucc/inductor.cpp:10-12 | the inner loop hands one level's witnesses in order, extending the handled witnesses and the chain of calls by exactly that level |
| HyUccInductor.Inductor.HandleWitness | src/algorithms/ucc/hyucc/inductor.cpp:11 | one SpecializeUCCTree call extends the handled witnesses and the chain of calls by that witness |
| HyUccInductor.SpecializedAlongStep | src/algorithms/ucc/hyucc/inductor.cpp:10-11 | one more call's outcome extends the chain of SpecializeUCCTree calls |
| HyUccInductor.SpecializeFromFacts | src/algorithms/ucc/hyucc/inductor.cpp:23-31 | the attribute loop only adds sets; each added set is u plus one attribute outside the witness and is added only when no subset is stored; every such extension ends up covered; an antichain is preserved |
| HyUccInductor.SpecializeAllSurvivors | src/algorithms/ucc/hyucc/inductor.cpp:18-31 | the subsets of the witness still stored are exactly the stored ones not handled; everything else stored stays |
| HyUccInductor.SpecializeAllAdditions | src/algorithms/ucc/hyucc/inductor.cpp:20-31 | every added set is a handled invalid UCC plus exactly one attribute whose bit is not set in the witness |
| HyUccInductor.SpecializeAllCoverage | src/algorithms/ucc/hyucc/inductor.cpp:23-31 | every one-attribute specialization of a handled invalid UCC has a stored subset afterwards |
| HyUccInductor.SpecializeAllAntichain | src/algorithms/ucc/hyucc/inductor.cpp:18-31 | handling keeps the stored sets an antichain |
| HyUccInductor.SpecializeAllKeepsNonGeneralizations | src/algorithms/ucc/hyucc/inductor.cpp:20-31 | a set with no stored subset still has none afterwards |
| HyUccInductor.SpecializeFromKeepsNonGeneralizations | src/algorithms/ucc/hyucc/inductor.cpp:23-31 | the attribute loop adds only supersets of u, so a set not containing u gains no stored subset |
| HyUccInductor.SubsetOfExtension | src/algorithms/ucc/hyucc/inductor.cpp:26-27 | a subset of the witness contained in v plus an attribute outside the witness is contained in v |
| HyUccInductor.SpecializeRemovesAllGeneralizations | src/algorithms/ucc/hyucc/inductor.cpp:18-21 | after handling all stored generalizations of the witness, none remains, and every stored non-generalization stays |
| HyUccInductor.HandledStep | src/algorithms/ucc/hyucc/inductor.cpp:10-11 | handling one more witness extends what the visited witnesses have handled: none has a stored subset, untouched sets stay, every stored set contains a starting set, coverage of the sets in no witness is kept, an antichain stays one |
| HyUccInductor.SplitLast | src/algorithms/ucc/hyucc/inductor.cpp:20 | dropping the last handled invalid UCC keeps the list distinct and stored below the witness |
| HyUccInductor.LevelsDownFromMembers | src/algorithms/ucc/hyucc/inductor.cpp:8-12 | a witness is visited iff it lies on a level between 1 and GetDepth(); level 0 never is |
| HyUccInductor.DeepestLevelFirst | src/algorithms/ucc/hyucc/inductor.cpp:6-10 | the witnesses of the deepest level are visited first |
| OrderLists.InUnorderedMap | src/core/algorithms/order/order.cpp:182-191 | lhs -> rhs is recorded iff rhs is in the set read for lhs; an lhs without an entry records nothing |
| OrderLists.Lookup | src/core/algorithms/order/order.cpp:345 | `operator[]` read of a map of sets: a key without an entry reads as the empty set, a key with one as its stored set |
| OrderLists.MaxPrefix | src/core/algorithms/order/order.cpp:165-167 | drops exactly the last element |
| OrderLists.GetPrefixes | src/core/algorithms/order/order.cpp:156-163 | the n-1 proper non-empty prefixes, by increasing length |
| OrderLists.PrefixesMembers | src/core/algorithms/order/order.cpp:156-163 | p is among the prefixes iff 0 < \|p\| < \|node\| and p is a prefix of node |
| OrderLists.ObtainCandidates | src/core/algorithms/order/order.cpp:171-180 | the n-1 splits, lhs of length i+1 and rhs non-empty, with lhs ++ rhs == node |
| OrderLists.CandidatesSplitAtPrefixes | src/core/algorithms/order/order.cpp:171-180 | the lhs of the i-th split is the i-th prefix |
| OrderLists.AreDisjoint | src/core/algorithms/order/order.cpp:268-277 | true iff no attribute of a equals an attribute of b |
| OrderLists.StartsWith | src/core/algorithms/order/order.cpp:359-366 | true iff rhs is a prefix of the candidate, whose length the caller guarantees |
| OrderLists.JoinNodes | src/core/algorithms/order/order.cpp:444-448 | l extended by the last attribute of r: one longer, max prefix l |
| OrderLists.Extend | src/core/algorithms/order/order.cpp:279-290 | e is produced iff e is rhs plus the attribute of a single attribute disjoint from lhs and rhs; at most one per single attribute |
| OrderLists.ExtendAddsForeignAttribute | src/core/algorithms/order/order.cpp:283-286 | every extension is rhs plus one attribute not in lhs |
| OrderLists.Search | src/core/algorithms/order/order.cpp:296-303 | std::search: the first position of the pattern within the range, or the range's end when there is none |
| OrderLists.FirstOccurrenceUnique | src/core/algorithms/order/order.cpp:296 | a first occurrence is unique |
| OrderLists.ShowsNonMinimalMeaning | src/core/algorithms/order/order.cpp:296-305 | the search-based test succeeds iff rhs occurs in a and, counting from its first occurrence, lhs occurs after it or lhs's first occurrence before it ends exactly where rhs starts |
| OrderLists.ShowsNonMinimalMeaningAll | src/core/algorithms/order/order.cpp:296-305 | the same equivalence for every lhs and rhs |
| OrderLists.IsMinimal | src/core/algorithms/order/order.cpp:292-309 | false iff some recorded valid lhs -> rhs is contradicted by a in that positional sense |
| SortedPartitions.Group | src/core/algorithms/order/order.cpp:80-88 | between one class and one class per row |
| SortedPartitions.GroupCovers | src/core/algorithms/order/order.cpp:80-88 | classes are non-empty and hold exactly the rows; the last row lies in the last class |
| SortedPartitions.JoinLastClass | src/core/algorithms/order/order.cpp:83-84 | adding an equal row to the last class keeps equal keys within classes and ascending keys across them |
| SortedPartitions.OpenClass | src/core/algorithms/order/order.cpp:85-86 | opening a class for a strictly larger row keeps both properties |
| SortedPartitions.LastKeyIsLargest | src/core/algorithms/order/order.cpp:79 | in a sorted row list the last row has the largest key |
| SortedPartitions.GroupOrdersKeys | src/core/algorithms/order/order.cpp:79-88 | grouping sorted rows gives classes with equal keys within and strictly ascending keys across |
| SortedPartitions.GroupIsSortedPartition | src/core/algorithms/order/order.cpp:79-88 | grouping sorted rows gives a sorted partition of their set: non-empty, pairwise disjoint, covering, ordered classes |
| SortedPartitions.CollectRows | src/core/algorithms/order/order.cpp:51-59 | the collected rows are exactly the rows below the row count that are not null rows |
| SortedPartitions.GroupSorted | src/core/algorithms/order/order.cpp:80-88 | the class loop computes Group of the sorted rows |
| SortedPartitions.KeyOrderIsStrictWeak | src/core/algorithms/order/order.cpp:63-70 | "rank below" is a strict weak order, as std::sort needs |
| SortedPartitions.SortedByKeyOrder | src/core/algorithms/order/order.cpp:79 | a list sorted under that order has non-decreasing keys |
| SortedPartitions.SortedPartitionOfColumn | src/core/algorithms/order/order.cpp:51-89 | the classes are a sorted partition of exactly the non-null rows under the column's comparator, and there is no class iff there is no such row (corrected; see Findings) |
| SortedPartitions.GroupAsWritten | src/core/algorithms/order/order.cpp:80-88 | the grouping as written reads `front()` of an empty vector iff no row was collected; otherwise its classes are non-empty and hold exactly the collected rows |
| SortedPartitions.GroupAsWrittenNeedsARow | src/core/algorithms/order/order.cpp:80-81 | the grouping as written reads the front of an empty vector iff every row is null (or there are no rows) |
| SortedPartitions.SubsetSetDifference | src/core/algorithms/order/order.cpp:104-114 | true iff a is a subset of b, and b is then b minus a; on false, b has lost only elements of a |
| SortedPartitions.WalkStepsBound | src/core/algorithms/order/order.cpp:122-152 | every iteration advances a cursor, so the walk takes at most \|l\|+\|r\| iterations |
| SortedPartitions.WalkIdentical | src/core/algorithms/order/order.cpp:122-153 | walking a partition against itself from aligned cursors ends valid |
| SortedPartitions.SwapVerdictIdentical | src/core/algorithms/order/order.cpp:116-154 | the swap check of a partition against itself is valid |
| SortedPartitions.WalkNeverRevertsToValid | src/core/algorithms/order/order.cpp:129-153 | once merge is set, the verdict can only end as merge or swap |
| SortedPartitions.CheckForSwap | src/core/algorithms/order/order.cpp:116-154 | the cursor loop returns the verdict of the walk and takes at most \|l\|+\|r\| iterations |
| Sorting.Swap | src/core/algorithms/order/order.cpp:79 | exchanges two cells and keeps the multiset |
| Sorting.Sort | src/core/config/indices/option.cpp:12 | std::sort: afterwards sorted under the strict weak order, and a permutation of the input |
| OrderLattice.AddPair | src/core/algorithms/order/order.cpp:244-248 | the map records exactly the old pairs plus lhs -> rhs, keeping all keys |
| OrderLattice.RemovePair | src/core/algorithms/order/order.cpp:250-253 | the map records exactly the old pairs except lhs -> rhs, keeping all keys |
| OrderLattice.DisjointSidesIncluded | src/core/algorithms/order/order.cpp:211-213 | recording fewer pairs keeps non-empty, disjoint sides |
| OrderLattice.WithPartition | src/core/algorithms/order/order.cpp:93-102 | the list gains a partition if it had none; no other entry changes |
| OrderLattice.ProductOfSingletonsAgree | src/core/algorithms/order/order.cpp:97-100 | the product of a list's columns depends only on the single-column partitions |
| OrderLattice.BuiltFromTrans | src/core/algorithms/order/order.cpp:93-102 | partitions added by two rounds of `CreateSortedPartitionsFromSingletons` calls are products of the columns' partitions from before the first round |
| OrderLattice.BuiltPartitionsAreProducts | src/core/algorithms/order/order.cpp:93-102 | when every partition was built from single-column ones, a swap check passed on the stored partitions is passed on the products of the sides' column partitions |
| OrderLattice.WithPartitionBuiltFrom | src/core/algorithms/order/order.cpp:93-102 | adding a list's partition keeps every added partition the product of its columns', and gives the list that product unless it already had a partition |
| OrderLattice.NextCandidates | src/core/algorithms/order/order.cpp:311-357 | only current lhs with a non-empty next candidate set are kept |
| OrderLattice.ExtensionStaysDisjoint | src/core/algorithms/order/order.cpp:283-286 | extending a rhs disjoint from lhs by an attribute outside lhs keeps it disjoint |
| OrderLattice.ExtendedStaysDisjoint | src/core/algorithms/order/order.cpp:322-324 | every result of Extend is disjoint from lhs |
| OrderLattice.NextCandidateDisjoint | src/core/algorithms/order/order.cpp:316-353 | each next candidate has a non-empty lhs and rhs sharing no attribute |
| OrderLattice.NextCandidatesKeepDisjointSides | src/core/algorithms/order/order.cpp:311-357 | the next level's candidates again have non-empty, disjoint sides |
| OrderLattice.NextCandidatesExtendByOne | src/core/algorithms/order/order.cpp:316-340 | for an lhs not of length level-1, each next candidate is minimal and is a not-yet-valid current rhs plus one attribute foreign to lhs and rhs |
| OrderLattice.NextCandidatesInheritFromPrefix | src/core/algorithms/order/order.cpp:341-348 | an lhs of length level-1 gets e iff it is minimal and e is a candidate of its max prefix disjoint from it |
| OrderLattice.AllPrefixCandidatesEmptyMeaning | src/core/algorithms/order/order.cpp:402-415 | a node is pruned iff it is at least two long and every proper non-empty prefix has no candidates |
| OrderLattice.WithoutEmpty | src/core/algorithms/order/order.cpp:417-424 | no key maps to an empty set and every recorded pair is kept |
| OrderLattice.PassedSwapCheckGrows | src/core/algorithms/order/order.cpp:93-102 | adding partitions keeps the swap-check invariant of the valid dependencies |
| OrderLattice.MergePrunedStep | src/core/algorithms/order/order.cpp:383-389 | dropping one more qualifying candidate keeps the merge-prune relation |
| OrderLattice.MergePrunedTrans | src/core/algorithms/order/order.cpp:372-395 | the merge-prune relation composes over the lhs handled one after another |
| OrderLattice.MergePrunableIncluded | src/core/algorithms/order/order.cpp:378-387 | a candidate prunable in the candidate sets is still prunable once other candidates are dropped, since the prefix's candidates only shrink |
| OrderLattice.JoinInBlock | src/core/algorithms/order/order.cpp:452-462 | a join of two level nodes with the same max prefix is a join within their block |
| OrderLattice.BlockJoinInLevel | src/core/algorithms/order/order.cpp:452-462 | a join within a block is a join of two different level nodes with equal max prefixes |
| OrderLattice.BlockMember | src/core/algorithms/order/order.cpp:432-442 | a node listed in a prefix block is a node of the level whose max prefix is the block's key |
| OrderLattice.JoinIsJoin | src/core/algorithms/order/order.cpp:444-463 | joining two different level nodes with equal max prefixes gives a node of the next level |
| OrderLattice.JoinsFromBlocks | src/core/algorithms/order/order.cpp:450-463 | joining within all prefix blocks yields exactly the joins of the level |
| OrderLattice.JoinShape | src/core/algorithms/order/order.cpp:444-448 | a join of two different nodes with the same max prefix is one longer, with pairwise different attributes from the same pool |
| OrderLattice.JoinsShape | src/core/algorithms/order/order.cpp:450-463 | the next level has length k+1 nodes with distinct attributes |
| OrderLattice.DistinctAttributesBound | src/core/algorithms/order/order.cpp:506-511 | a node with distinct attributes is at most as long as the attribute pool, which bounds the number of levels |
| OrderDiscovery.OrderedSingles | src/core/algorithms/order/order.cpp:46-50 | [i] is a single attribute iff column i is ordered, in ascending column order |
| OrderDiscovery.Order.constructor | src/core/algorithms/order/order.cpp:14-17 | a fresh algorithm has no partitions, candidates or dependencies |
| OrderDiscovery.Order.CreateSortedPartitions | src/core/algorithms/order/order.cpp:33-91 | ordered columns, and only those, get a single attribute and a partition; each partition is a sorted partition of the rows non-null in every ordered column, with no class when there is no such row |
| OrderDiscovery.Order.CollectNullRows | src/core/algorithms/order/order.cpp:34-44 | a row is collected iff it is null or empty in some ordered column |
| OrderDiscovery.Order.CreateSortedPartitionsFromSingletons | src/core/algorithms/order/order.cpp:93-102 | partitions become WithPartition: a missing list gets the left-to-right product of its columns' partitions |
| OrderDiscovery.Order.CheckCandidate | src/core/algorithms/order/order.cpp:211-262 | a non-candidate, or one with a valid rhs prefix, changes nothing. Otherwise both partitions are built and then: swap drops the candidate; merge records it; valid records it unless an lhs prefix is merge-invalidated, dropping it when lhs has one class per row. The new state is CheckOutcome of the old |
| OrderDiscovery.Order.HasValidRhsPrefix | src/core/algorithms/order/order.cpp:215-224 | true iff a proper prefix of rhs is valid for lhs |
| OrderDiscovery.Order.HasMergeInvalidatedLhsPrefix | src/core/algorithms/order/order.cpp:230-239 | true iff a proper prefix of lhs is merge-invalidated for rhs |
| OrderDiscovery.Order.RecordVerdict | src/core/algorithms/order/order.cpp:227-261 | the map updates for each verdict, as in CheckCandidate |
| OrderDiscovery.Order.ComputeDependencies | src/core/algorithms/order/order.cpp:203-266 | nothing below level 2. Otherwise, with s the state after UpdateCandidateSets: the previous candidate sets are the old candidate sets from level 3 on; valid gains exactly the splits of level nodes that are candidates in s, have no valid rhs prefix in s, pass the swap check on the products of their columns' partitions, and have no merge-invalidated lhs prefix in s; merge-invalidated gains exactly such splits whose verdict is merge; the candidate sets lose exactly the swap splits and the newly valid ones whose lhs has one class per row (at level 2 that is the result), then what MergePrune drops, which includes every candidate prunable in the checks' result; partitions are only added, each the product of its columns' partitions; disjoint sides and the swap-check invariant are kept |
| OrderDiscovery.Order.CheckNode | src/core/algorithms/order/order.cpp:210-262 | the inner loop checks every split of one node: the checked splits grow by exactly that node's splits, and the state is what those checks give |
| OrderDiscovery.Order.CheckStep | src/core/algorithms/order/order.cpp:211-262 | one candidate check moves the state from "splits in done checked" to "done plus this split checked", keeping disjoint sides and the swap-check invariant |
| OrderDiscovery.Order.CheckOutcomeStep | src/core/algorithms/order/order.cpp:211-262 | the outcome of one more check, from a state where the checked splits are done, is the state where done plus that split are checked |
| OrderDiscovery.Order.CheckOutcomeValid | src/core/algorithms/order/order.cpp:227-247 | the check adds lhs -> rhs to valid iff the level records it as newly valid, and nothing else |
| OrderDiscovery.Order.CheckOutcomeMerge | src/core/algorithms/order/order.cpp:254-259 | the check adds lhs -> rhs to merge-invalidated iff its verdict is merge, and nothing else |
| OrderDiscovery.Order.CheckOutcomeCandidates | src/core/algorithms/order/order.cpp:243-253 | the check drops lhs -> rhs from the candidates iff it is a swap or newly valid with a unique lhs, keeping every key |
| OrderDiscovery.Order.CheckedPartitions | src/core/algorithms/order/order.cpp:225-227 | building both sides' partitions keeps them products of the level's partitions, so the swap check sees the level's verdict |
| OrderDiscovery.Order.PrefixTestsStable | src/core/algorithms/order/order.cpp:215-239 | the prefix tests read only pairs shorter than the level, so they answer as at the start of the level whatever the node order |
| OrderDiscovery.Order.ValidStep | src/core/algorithms/order/order.cpp:241-244 | helper: one recorded split extends the valid progress |
| OrderDiscovery.Order.MergeStep | src/core/algorithms/order/order.cpp:255-258 | helper: one recorded split extends the merge-invalidated progress |
| OrderDiscovery.Order.CandidateStep | src/core/algorithms/order/order.cpp:245-251 | helper: one dropped split extends the candidate progress |
| OrderDiscovery.Order.SplitsOfNode | src/core/algorithms/order/order.cpp:210-211 | two splits of one node with equally long lhs are the same split |
| OrderDiscovery.Order.AllChecked | src/core/algorithms/order/order.cpp:209-264 | once every split of every node is checked, the candidate sets are AfterChecks and valid and merge-invalidated hold exactly the recorded splits |
| OrderDiscovery.Order.AfterChecks | src/core/algorithms/order/order.cpp:209-264 | the candidate sets after the checks keep every key and hold a pair iff it was a candidate and the checks did not drop it |
| OrderDiscovery.Order.UpdateCandidateSets | src/core/algorithms/order/order.cpp:311-357 | nothing below level 3; otherwise the previous sets are the old ones and the new ones are NextCandidates |
| OrderDiscovery.Order.CandidatesFor | src/core/algorithms/order/order.cpp:316-353 | the loop for one lhs computes its next candidate set |
| OrderDiscovery.Order.MergePrune | src/core/algorithms/order/order.cpp:368-396 | nothing below level 3. Otherwise keys stay; a dropped candidate has \|lhs\|>1, its max prefix merge-invalidated for rhs, and no remaining candidate of that prefix with max prefix rhs; every candidate with those properties in the old sets is dropped; all candidates without the first two are kept |
| OrderDiscovery.Order.PruneLhs | src/core/algorithms/order/order.cpp:375-394 | the same for the candidates of one lhs, including that every candidate of lhs prunable in the old sets is dropped; other lhs unchanged |
| OrderDiscovery.Order.Prune | src/core/algorithms/order/order.cpp:398-427 | nothing below level 2; otherwise a node is dropped iff it has prefixes whose candidate sets are all empty, and empty candidate sets are erased |
| OrderDiscovery.Order.GenerateNextLevel | src/core/algorithms/order/order.cpp:450-470 | the next level is exactly the joins of different nodes with equal max prefixes; from level 2, with candidates present, each old node gets an empty candidate set and other entries stay |
| OrderDiscovery.JoinLevel | src/core/algorithms/order/order.cpp:451-463 | the block loops compute the joins of the level |
| OrderDiscovery.JoinBlocks | src/core/algorithms/order/order.cpp:451-463 | the outer loop collects exactly the joins within every prefix block |
| OrderDiscovery.GetPrefixBlocks | src/core/algorithms/order/order.cpp:432-442 | each max prefix of a node maps to exactly the nodes with that max prefix, each once |
| OrderDiscovery.JoinPrefixBlock | src/core/algorithms/order/order.cpp:454-462 | adds exactly the joins of two different nodes of the block |
| OrderDiscovery.Order.ExecuteInternal | src/core/algorithms/order/order.cpp:492-511 | the level loop ends. Every valid dependency has non-empty disjoint sides built from distinct ordered columns and passed the swap check; each side's partition is the product of its columns' partitions; every ordered column keeps its sorted partition |
| OrderDiscovery.Order.Start | src/core/algorithms/order/order.cpp:494-505 | after the partitions and the first loop: level 1 of ordered singles with disjoint candidates, nothing valid, and partitions only for the ordered single columns |
| OrderDiscovery.Order.FirstLevel | src/core/algorithms/order/order.cpp:495-504 | level 1 is the single attributes; each is a candidate lhs for exactly the other singles |
| OrderDiscovery.Order.FirstLevelShape | src/core/algorithms/order/order.cpp:495-504 | level 1 has single ordered columns as nodes and disjoint candidate sides |
| OrderDiscovery.Order.NextLevel | src/core/algorithms/order/order.cpp:507-510 | one round keeps the loop invariants and yields a level one longer; every partition it adds is the product of its columns' partitions |
| OrderDiscovery.Order.PruneAndJoin | src/core/algorithms/order/order.cpp:508-509 | pruning and joining a level of nodes of length k gives a level of length k+1 nodes and keeps the candidates' sides disjoint |
| OrderDiscovery.Order.ColumnsPartitionedKept | src/core/algorithms/order/order.cpp:93-102 | later partitions never replace a column's partition |
| IndicesOption.NormalizeIndices | src/core/config/indices/option.cpp:11-14 | the vector's contents afterwards are Normalized of the input: its distinct indices in increasing order |
| IndicesOption.Unique | src/core/config/indices/option.cpp:13 | std::unique on a sorted vector leaves a strictly increasing prefix with the same elements |
| IndicesOption.NormalizedShape | src/core/config/indices/option.cpp:11-14 | sorted ascending, without duplicates, with exactly the input's elements |
| IndicesOption.NormalizeIdempotent | src/core/config/indices/option.cpp:11-14 | normalizing twice equals normalizing once |
| IndicesOption.StrictlyAscendingUnique | src/core/config/indices/option.cpp:11-14 | two strictly increasing lists with the same elements are equal |
| IndicesOption.MinOf | src/core/config/indices/option.cpp:12 | the least element of a non-empty index set: a member no larger than any other |
| IndicesOption.SortedElements | src/core/config/indices/option.cpp:11-14 | the elements of an index set, listed strictly ascending |
| IndicesOption.HeadIsLeast | src/core/config/indices/option.cpp:12 | the head of a strictly increasing list is its least element |
| IndicesOption.CheckIndices | src/core/config/indices/option.cpp:37-47 | empty and not allowed: "<name> cannot be empty"; otherwise ValidateIndex on the last index and the column count decides, then the user's check |
| IndicesOption.LastIndexSuffices | src/core/config/indices/option.cpp:42-45 | on a sorted list, passing ValidateIndex for the largest index covers every index when ValidateIndex is downward closed |
| IndicesOption.EmptySkipsValidateIndex | src/core/config/indices/option.cpp:38-45 | an empty list never consults ValidateIndex; with emptiness allowed only the user's check decides |
| IndicesOption.UserCheckRunsLast | src/core/config/indices/option.cpp:38-46 | when a built-in check fails the user's check is irrelevant |
| IndicesOption.NormalizedMeetsCheck | src/core/config/indices/option.cpp:11-14 | a normalized list is sorted, as the check asserts, and is empty iff the input is |
| FastodData.DataFrame.constructor | src/algorithms/fastod/data/data_frame.cpp:16-27 | requires a column; data_ has one row per row of column 0, one cell per column, and cell [i][col] is FromTypedColumnData(column col, row i) |
| FastodData.DataFrame.GetValue | src/algorithms/fastod/data/data_frame.cpp:29-35 | the cell is FromTypedColumnData of that column and row; in-range indices are the caller's duty |
| FastodData.DataFrame.GetColumnCount | src/algorithms/fastod/data/data_frame.cpp:37-39 | the number of columns, which is the width of every row |
| FastodData.DataFrame.GetTupleCount | src/algorithms/fastod/data/data_frame.cpp:41-45 | the height of the matrix; the 0-without-columns clause mirrors the source's defensive conditional, which no constructed frame reaches |
| RemovalSets.InsertAll | src/core/algorithms/od/fastod/model/removal_set.cpp:6-7 | inserting a vector adds exactly its elements |
| RemovalSets.UnionRemovalSets | src/core/algorithms/od/fastod/model/removal_set.cpp:5-9 | every index of either vector is in the result, and nothing else |
| RemovalSets.UnionCommutes | src/core/algorithms/od/fastod/model/removal_set.cpp:6-7 | the union does not depend on argument order |
| RemovalSets.UnionWithEmpty | src/core/algorithms/od/fastod/model/removal_set.cpp:6-7 | union with an empty vector is the other vector's element set |
| RemovalSets.ElementsSize | src/core/algorithms/od/fastod/model/removal_set.h:10-13 | a vector has at least as many positions as distinct elements, exactly as many when its indices are unique |
| RemovalSets.SubsetSize | src/core/algorithms/od/fastod/model/removal_set.h:10-13 | helper for UnionSize's lower bound: a subset is no larger than its superset |
| RemovalSets.UnionSize | src/core/algorithms/od/fastod/model/removal_set.h:10-13 | the result has at most \|vec1\|+\|vec2\| indices, and at least as many as a vector with unique indices |
| RangeFormat.JoinedSnoc | src/core/util/range_to_string.h:17-22 | appending an element adds ", " (unless first) and its text |
| RangeFormat.RangeToString | src/core/util/range_to_string.h:14-25 | the stream loop produces Render: "[" + elements joined by ", " + "]" |
| RangeFormat.RenderBracketed | src/core/util/range_to_string.h:16-23 | the output starts with '[' and ends with ']' |
| RangeFormat.RenderEmpty | src/core/util/range_to_string.h:15-24 | an empty range gives "[]" |
| RangeFormat.RenderSingle | src/core/util/range_to_string.h:17-22 | one element gives "[" + its text + "]" |
| RangeFormat.JoinedConcat | src/core/util/range_to_string.h:17-22 | elements keep their order, separated by exactly one ", " |
| RangeFormat.RenderConcat | src/core/util/range_to_string.h:16-23 | the output for two ranges is the first's output without "]", one ", ", and the second's without "[" |
| RangeFormat.RenderLength | src/core/util/range_to_string.h:16-23 | for n >= 1 elements the length is 2 + the element lengths + 2(n-1) |

## Left out

- Printing and timing in the ORDER algorithm are not modelled. This covers `PrintOD`, `PrintValidOD`, the output in `ComputeDependencies` and the clock in `ExecuteInternal`. `ExecuteInternal` returns nothing here, where the source returns the elapsed milliseconds.
- Option registration and table loading (`RegisterOptions`, `LoadDataInternal`) are framework plumbing. The typed relation is the constructor's `columns` and `numRows`.
- The set-based verifier, `CanonicalOD`, the column-index option, the samplers and validator of HyUCC (thread pools) and `types.h` are not part of this model. They are declarations, foreign calls, floating point or concurrency.
- `src/algorithms/order/order.h` is a stale header. The `Order` class fields follow the usage in `order.cpp` instead.
- `DataFrame::FromCsv` is CSV file input and is not modelled. Neither is the global `ASIterator::MAX_COLS` it sets.
- The internals of the UCC prefix tree are not modelled; neither are those of the non-UCC list beyond `GetDepth` and `GetLevel`.
- `operator[]` on `sorted_partitions_` and `candidate_sets_` is modelled as a plain lookup with an empty default. The source inserts the default entry, sometimes while it iterates the same map. The erased entries are empty, so the candidate sets after `Prune` agree with the model. Iterator invalidation is not modelled.
- OrderDiscovery.Order.Prune: it returns the pruned level rather than erasing from the caller's set in place. `ExecuteInternal` passes that result on, as the source passes the erased set.
- SortedPartitions.CheckForSwap: its verdict is specified by the recursive walk `SwapVerdict`. Whether the verdict matches the order-dependency semantics of the two partitions is not stated, because `operator*` is not part of this model.
- OrderDiscovery.Order.ExecuteInternal: which dependencies are found is not characterised completely. No completeness statement relates valid dependencies to the data; the model proves soundness facts only (swap check passed, disjoint sides, ordered columns).
- FastodData.DataFrame.constructor: it does not require every column to have as many rows as column 0. The source reads the other columns at those rows, and what happens on a shorter column is up to `FromTypedColumnData`.
- The checks the ORDER source leaves to the caller are preconditions here. `GetPrefixes`, `MaxPrefix`, `ObtainCandidates` and `JoinNodes` are never called on an empty list, and `StartsWith` reads as many elements of the candidate as `rhs` has.
- OrderDiscovery.Order.ComputeDependencies: it requires every node of the level to have length `level`, which `ExecuteInternal` guarantees; on other node sets the outcome would depend on the iteration order of the unordered level. From level 3 the candidate sets are bounded on both sides by MergePrune's contract rather than given exactly (see the next line).
- OrderDiscovery.Order.MergePrune: the candidates it drops are given between two bounds, not exactly. Every candidate prunable in the old sets is dropped, and every dropped one was prunable when it was met. A candidate that becomes prunable only after an earlier drop under its max prefix may or may not be dropped. That depends on the iteration order of the unordered map, which the model leaves open.
- Container sizes are unbounded integers. No 32- or 64-bit overflow is modelled; none is reachable with indices below the column count.

## Findings

| source | as written | input that shows it | evidently intended | confidence | as-written member | corrected member |
|---|---|---|---|---|---|---|
| src/core/algorithms/order/order.cpp:80-81 | the first class is opened with `indexed_byte_data.front()` before the number of collected rows is looked at | a table with an ordered column and zero rows, or with a null in every row: no row is collected and `front()` of the empty vector is undefined | an empty partition (no class) for that column | medium, not executed | SortedPartitions.GroupAsWrittenNeedsARow | SortedPartitions.SortedPartitionOfColumn |
