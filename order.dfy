/**
 * The ORDER algorithm: level-wise discovery of list-based order dependencies
 * lhs -> rhs over the ordered columns of a relation.  Level k of the lattice
 * holds attribute lists of length k; each level's candidates are checked on
 * the sorted partitions of their sides, the level is pruned, and the next
 * level is generated by joining nodes that share their max prefix.
 */
module OrderDiscovery {
  import opened OrderLists
  import opened SortedPartitions
  import opened OrderLattice

  /**
   * What the checks of one lattice level start from: candidate sets, valid
   * and merge-invalidated dependencies, and sorted partitions.
   */
  datatype LevelState = LevelState(candidateSets: OrderDependencies, valid: OrderDependencies,
                                   mergeInvalidated: OrderDependencies,
                                   sortedPartitions: map<AttributeList, SortedPartition>)

  /** A cell of a typed column: null or empty, or a value. */
  datatype Cell<V> = NullOrEmpty | Value(v: V)

  /**
   * A typed column: whether its type is ordered, its cells, and its comparator,
   * given as a rank: one value compares less than, equal to or greater than
   * another exactly as its rank does, which makes the comparator a total preorder.
   */
  datatype Column<!V> = Column(isOrdered: bool, cells: seq<Cell<V>>, rank: V -> int)

  /** Rows compared by the column's value at them. */
  function ColumnKey<V>(column: Column<V>): RowId -> int {
    (k: RowId) => if k < |column.cells| && column.cells[k].Value? then column.rank(column.cells[k].v) else 0
  }

  /** The single-attribute lists [i] of the ordered columns among the first `n`, in column order. */
  function OrderedSingles<V>(columns: seq<Column<V>>, n: nat): (singles: seq<AttributeList>)
    requires n <= |columns|
    ensures forall s :: s in singles <==> exists i :: 0 <= i < n && columns[i].isOrdered && s == [i]
    ensures forall a :: 0 <= a < |singles| ==> |singles[a]| == 1
    ensures forall a, b :: 0 <= a < b < |singles| ==> singles[a][0] < singles[b][0]
  {
    if n == 0 then []
    else
      var earlier := OrderedSingles(columns, n - 1);
      assert forall a :: 0 <= a < |earlier| ==> earlier[a][0] < n - 1 by {
        forall a | 0 <= a < |earlier| ensures earlier[a][0] < n - 1 {
          assert earlier[a] in earlier;
        }
      }
      earlier + (if columns[n - 1].isOrdered then [[n - 1]] else [])
  }

  class Order<V> {
    /** The columns of the relation. */
    const columns: seq<Column<V>>
    /** typed_relation_->GetNumRows(). */
    const numRows: nat
    /** SortedPartition::operator*, whose definition is not part of this model. */
    const product: (SortedPartition, SortedPartition) -> SortedPartition

    var sortedPartitions: map<AttributeList, SortedPartition>
    var singleAttributes: seq<AttributeList>
    var candidateSets: OrderDependencies
    var previousCandidateSets: OrderDependencies
    var valid: OrderDependencies
    var mergeInvalidated: OrderDependencies
    var level: nat

    constructor (columns: seq<Column<V>>, numRows: nat,
                 product: (SortedPartition, SortedPartition) -> SortedPartition)
      ensures this.columns == columns && this.numRows == numRows && this.product == product
      ensures Initial()
    {
      this.columns := columns;
      this.numRows := numRows;
      this.product := product;
      sortedPartitions := map[];
      singleAttributes := [];
      candidateSets := map[];
      previousCandidateSets := map[];
      valid := map[];
      mergeInvalidated := map[];
      level := 0;
    }

    /** Nothing computed yet. */
    ghost predicate Initial()
      reads this
    {
      && sortedPartitions == map[] && singleAttributes == [] && candidateSets == map[]
      && valid == map[] && mergeInvalidated == map[]
    }

    /** Every column has a cell for every row. */
    ghost predicate Rectangular() {
      forall i :: 0 <= i < |columns| ==> |columns[i].cells| == numRows
    }

    /** Row `k` is null or empty in one of the first `n` columns that are ordered. */
    ghost predicate NullAmong(n: nat, k: RowId) {
      exists i :: 0 <= i < n && i < |columns| && columns[i].isOrdered &&
        k < |columns[i].cells| && columns[i].cells[k].NullOrEmpty?
    }

    /** The rows that are non-null in every ordered column. */
    ghost function NonNullRows(): set<RowId> {
      set k: RowId | k < numRows && !NullAmong(|columns|, k)
    }

    /** The indices of the ordered columns. */
    ghost function OrderedColumns(): set<nat> {
      set i | 0 <= i < |columns| && columns[i].isOrdered
    }

    /** The first loop of CreateSortedPartitions: the rows null or empty in some ordered column. */
    method CollectNullRows() returns (nullRows: set<RowId>)
      ensures forall k: RowId :: k in nullRows <==> NullAmong(|columns|, k)
    {
      nullRows := {};
      for i := 0 to |columns|
        invariant forall k: RowId :: k in nullRows <==> NullAmong(i, k)
      {
        if columns[i].isOrdered {
          for k := 0 to |columns[i].cells|
            invariant forall r: RowId :: r in nullRows <==> NullAmong(i, r) || (r < k && columns[i].cells[r].NullOrEmpty?)
          {
            if columns[i].cells[k].NullOrEmpty? {
              nullRows := nullRows + {k};
            }
          }
        }
        assert forall r: RowId :: NullAmong(i + 1, r) <==>
          (NullAmong(i, r) || (columns[i].isOrdered && r < |columns[i].cells| && columns[i].cells[r].NullOrEmpty?));
      }
    }

    /**
     * CreateSortedPartitions: the rows null in some ordered column are set
     * aside; then each ordered column, in order, gets its single-attribute
     * list and the sorted partition of the remaining rows by its values.
     */
    method CreateSortedPartitions()
      modifies this`sortedPartitions, this`singleAttributes
      requires Rectangular()
      ensures singleAttributes == old(singleAttributes) + OrderedSingles(columns, |columns|)
      ensures forall i :: 0 <= i < |columns| && columns[i].isOrdered ==>
                [i] in sortedPartitions &&
                IsSortedPartition(sortedPartitions[[i]].sortedPartition, NonNullRows(), ColumnKey(columns[i]))
      ensures forall l :: l in sortedPartitions ==> l in old(sortedPartitions) || l in OrderedSingles(columns, |columns|)
    {
      var nullRows := CollectNullRows();
      ghost var rows := NonNullRows();
      assert forall k: RowId :: k in rows <==> k < numRows && k !in nullRows;
      for i := 0 to |columns|
        invariant singleAttributes == old(singleAttributes) + OrderedSingles(columns, i)
        invariant forall j :: 0 <= j < i && columns[j].isOrdered ==>
                    [j] in sortedPartitions &&
                    IsSortedPartition(sortedPartitions[[j]].sortedPartition, rows, ColumnKey(columns[j]))
        invariant forall l :: l in sortedPartitions ==> l in old(sortedPartitions) || l in OrderedSingles(columns, i)
      {
        if columns[i].isOrdered {
          singleAttributes := singleAttributes + [[i]];
          var classes := SortedPartitionOfColumn(|columns[i].cells|, nullRows, ColumnKey(columns[i]), rows);
          sortedPartitions := sortedPartitions[[i] := SortedPartition(classes)];
        }
      }
    }

    /** CreateSortedPartitionsFromSingletons: a list without a partition gets the product of its columns' partitions. */
    method CreateSortedPartitionsFromSingletons(attrList: AttributeList)
      modifies this`sortedPartitions
      requires |attrList| > 0
      ensures sortedPartitions == WithPartition(product, old(sortedPartitions), attrList)
    {
      if attrList in sortedPartitions {
        return;
      }
      var res := PartitionAt(sortedPartitions, [attrList[0]]);
      for i := 1 to |attrList|
        invariant res == ProductOfSingletons(product, sortedPartitions, attrList[..i])
      {
        assert MaxPrefix(attrList[..i + 1]) == attrList[..i];
        res := product(res, PartitionAt(sortedPartitions, [attrList[i]]));
      }
      assert attrList[..|attrList|] == attrList;
      sortedPartitions := sortedPartitions[attrList := res];
    }

    /** The maps the checks of a level read and update. */
    ghost function State(): LevelState
      reads this
    {
      LevelState(candidateSets, valid, mergeInvalidated, sortedPartitions)
    }

    /**
     * The state after the check of lhs -> rhs starting from `st`: unchanged
     * when the pair is not a candidate or a proper prefix of rhs is valid;
     * otherwise both sides get their partitions and the swap check's verdict
     * decides which map changes.
     */
    ghost function CheckOutcome(st: LevelState, lhs: AttributeList, rhs: AttributeList): LevelState
      requires |lhs| > 0 && |rhs| > 0
    {
      if !InUnorderedMap(st.candidateSets, lhs, rhs) || RhsPrefixValid(st.valid, lhs, rhs) then st
      else
        var sp := WithPartition(product, WithPartition(product, st.sortedPartitions, lhs), rhs);
        match SwapVerdict(sp[lhs], sp[rhs])
        case Swap => st.(candidateSets := RemovePair(st.candidateSets, lhs, rhs), sortedPartitions := sp)
        case Merge => st.(mergeInvalidated := AddPair(st.mergeInvalidated, lhs, rhs), sortedPartitions := sp)
        case Valid =>
          if LhsPrefixMergeInvalidated(st.mergeInvalidated, lhs, rhs) then st.(sortedPartitions := sp)
          else st.(candidateSets := if numRows == |sp[lhs].sortedPartition|
                                    then RemovePair(st.candidateSets, lhs, rhs) else st.candidateSets,
                   valid := AddPair(st.valid, lhs, rhs), sortedPartitions := sp)
    }

    /**
     * The check of one candidate split lhs -> rhs of a node in
     * ComputeDependencies.  A pair that is no longer a candidate, or for which
     * a proper prefix of rhs is already valid, is skipped.  Otherwise both
     * sides get their sorted partitions and the swap check decides: a swap
     * drops the candidate; a merge records the pair as merge-invalidated; a
     * valid pair is recorded as valid unless a proper prefix of lhs is
     * merge-invalidated for rhs, and is then dropped from the candidates when
     * lhs has one class per row.
     */
    method CheckCandidate(lhs: AttributeList, rhs: AttributeList)
      modifies this`sortedPartitions, this`candidateSets, this`valid, this`mergeInvalidated
      requires |lhs| > 0 && |rhs| > 0
      ensures !InUnorderedMap(old(candidateSets), lhs, rhs) || RhsPrefixValid(old(valid), lhs, rhs) ==>
                && sortedPartitions == old(sortedPartitions) && candidateSets == old(candidateSets)
                && valid == old(valid) && mergeInvalidated == old(mergeInvalidated)
      ensures InUnorderedMap(old(candidateSets), lhs, rhs) && !RhsPrefixValid(old(valid), lhs, rhs) ==>
                && sortedPartitions == WithPartition(product, WithPartition(product, old(sortedPartitions), lhs), rhs)
                && var verdict := SwapVerdict(sortedPartitions[lhs], sortedPartitions[rhs]);
                && (verdict == Swap ==>
                      && candidateSets == RemovePair(old(candidateSets), lhs, rhs)
                      && valid == old(valid) && mergeInvalidated == old(mergeInvalidated))
                && (verdict == Merge ==>
                      && mergeInvalidated == AddPair(old(mergeInvalidated), lhs, rhs)
                      && candidateSets == old(candidateSets) && valid == old(valid))
                && (verdict == Valid && LhsPrefixMergeInvalidated(old(mergeInvalidated), lhs, rhs) ==>
                      && candidateSets == old(candidateSets)
                      && valid == old(valid) && mergeInvalidated == old(mergeInvalidated))
                && (verdict == Valid && !LhsPrefixMergeInvalidated(old(mergeInvalidated), lhs, rhs) ==>
                      && valid == AddPair(old(valid), lhs, rhs) && mergeInvalidated == old(mergeInvalidated)
                      && candidateSets == if numRows == |sortedPartitions[lhs].sortedPartition|
                                          then RemovePair(old(candidateSets), lhs, rhs)
                                          else old(candidateSets))
      ensures State() == CheckOutcome(old(State()), lhs, rhs)
      ensures Included(candidateSets, old(candidateSets))
      ensures Included(old(valid), valid) && Included(old(mergeInvalidated), mergeInvalidated)
      ensures forall l :: l in old(sortedPartitions) ==> l in sortedPartitions && sortedPartitions[l] == old(sortedPartitions)[l]
      ensures forall l, r :: InUnorderedMap(valid, l, r) && !InUnorderedMap(old(valid), l, r) ==>
                && l == lhs && r == rhs && InUnorderedMap(old(candidateSets), lhs, rhs)
                && lhs in sortedPartitions && rhs in sortedPartitions
                && SwapVerdict(sortedPartitions[lhs], sortedPartitions[rhs]) == Valid
      ensures forall l, r :: InUnorderedMap(mergeInvalidated, l, r) && !InUnorderedMap(old(mergeInvalidated), l, r) ==>
                && l == lhs && r == rhs
                && lhs in sortedPartitions && rhs in sortedPartitions
                && SwapVerdict(sortedPartitions[lhs], sortedPartitions[rhs]) == Merge
    {
      if !InUnorderedMap(candidateSets, lhs, rhs) {
        return;
      }
      var prefixValid := HasValidRhsPrefix(lhs, rhs);
      if prefixValid {
        return;
      }
      CreateSortedPartitionsFromSingletons(lhs);
      CreateSortedPartitionsFromSingletons(rhs);
      var candidateValidity;
      ghost var steps;
      candidateValidity, steps := CheckForSwap(sortedPartitions[lhs], sortedPartitions[rhs]);
      RecordVerdict(lhs, rhs, candidateValidity);
    }

    /** The first prefix loop of ComputeDependencies: some proper prefix of rhs is valid for lhs. */
    method HasValidRhsPrefix(lhs: AttributeList, rhs: AttributeList) returns (prefixValid: bool)
      requires |rhs| > 0
      ensures prefixValid <==> RhsPrefixValid(valid, lhs, rhs)
    {
      prefixValid := false;
      var rhsPrefixes := GetPrefixes(rhs);
      var j := 0;
      while j < |rhsPrefixes|
        invariant 0 <= j <= |rhsPrefixes|
        invariant forall j' :: 0 <= j' < j ==> !InUnorderedMap(valid, lhs, rhsPrefixes[j'])
      {
        if InUnorderedMap(valid, lhs, rhsPrefixes[j]) {
          prefixValid := true;
          assert rhsPrefixes[j] in rhsPrefixes;
          return;
        }
        j := j + 1;
      }
    }

    /** The second prefix loop of ComputeDependencies: some proper prefix of lhs is merge-invalidated for rhs. */
    method HasMergeInvalidatedLhsPrefix(lhs: AttributeList, rhs: AttributeList) returns (nonMinimalByMerge: bool)
      requires |lhs| > 0
      ensures nonMinimalByMerge <==> LhsPrefixMergeInvalidated(mergeInvalidated, lhs, rhs)
    {
      nonMinimalByMerge := false;
      var lhsPrefixes := GetPrefixes(lhs);
      var m := 0;
      while m < |lhsPrefixes|
        invariant 0 <= m <= |lhsPrefixes|
        invariant forall m' :: 0 <= m' < m ==> !InUnorderedMap(mergeInvalidated, lhsPrefixes[m'], rhs)
      {
        if InUnorderedMap(mergeInvalidated, lhsPrefixes[m], rhs) {
          nonMinimalByMerge := true;
          assert lhsPrefixes[m] in lhsPrefixes;
          return;
        }
        m := m + 1;
      }
    }

    /** What ComputeDependencies does with the verdict of the swap check on a candidate lhs -> rhs. */
    method RecordVerdict(lhs: AttributeList, rhs: AttributeList, candidateValidity: ValidityType)
      modifies this`candidateSets, this`valid, this`mergeInvalidated
      requires |lhs| > 0 && InUnorderedMap(candidateSets, lhs, rhs) && lhs in sortedPartitions
      ensures candidateValidity == Swap ==>
                && candidateSets == RemovePair(old(candidateSets), lhs, rhs)
                && valid == old(valid) && mergeInvalidated == old(mergeInvalidated)
      ensures candidateValidity == Merge ==>
                && mergeInvalidated == AddPair(old(mergeInvalidated), lhs, rhs)
                && candidateSets == old(candidateSets) && valid == old(valid)
      ensures candidateValidity == Valid && LhsPrefixMergeInvalidated(old(mergeInvalidated), lhs, rhs) ==>
                && candidateSets == old(candidateSets)
                && valid == old(valid) && mergeInvalidated == old(mergeInvalidated)
      ensures candidateValidity == Valid && !LhsPrefixMergeInvalidated(old(mergeInvalidated), lhs, rhs) ==>
                && valid == AddPair(old(valid), lhs, rhs) && mergeInvalidated == old(mergeInvalidated)
                && candidateSets == if numRows == |sortedPartitions[lhs].sortedPartition|
                                    then RemovePair(old(candidateSets), lhs, rhs)
                                    else old(candidateSets)
    {
      if candidateValidity == Valid {
        var nonMinimalByMerge := HasMergeInvalidatedLhsPrefix(lhs, rhs);
        if nonMinimalByMerge {
          return;
        }
        if lhs !in valid {
          valid := valid[lhs := {}];
        }
        valid := valid[lhs := valid[lhs] + {rhs}];
        var lhsUnique := numRows == |sortedPartitions[lhs].sortedPartition|;
        if lhsUnique {
          candidateSets := candidateSets[lhs := candidateSets[lhs] - {rhs}];
        }
      } else if candidateValidity == Swap {
        candidateSets := candidateSets[lhs := candidateSets[lhs] - {rhs}];
      } else {
        if lhs !in mergeInvalidated {
          mergeInvalidated := mergeInvalidated[lhs := {}];
        }
        mergeInvalidated := mergeInvalidated[lhs := mergeInvalidated[lhs] + {rhs}];
      }
    }

    /**
     * The state the checks of a level read: the candidate sets as
     * UpdateCandidateSets leaves them, and the valid dependencies, the
     * merge-invalidated ones and the sorted partitions as the level finds them.
     */
    ghost function StateForChecks(): LevelState
      reads this
      requires forall s :: s in singleAttributes ==> |s| > 0
    {
      LevelState(if level >= 3 then NextCandidates(candidateSets, valid, singleAttributes, level) else candidateSets,
                 valid, mergeInvalidated, sortedPartitions)
    }

    /** lhs -> rhs splits a node of the level, is a candidate, and no proper prefix of rhs is valid for lhs. */
    ghost predicate Checked(latticeLevel: set<Node>, s: LevelState, lhs: AttributeList, rhs: AttributeList) {
      && |lhs| > 0 && |rhs| > 0 && lhs + rhs in latticeLevel
      && InUnorderedMap(s.candidateSets, lhs, rhs) && !RhsPrefixValid(s.valid, lhs, rhs)
    }

    /** The swap check's verdict on the partitions the two sides get from the level's partitions. */
    ghost function Verdict(s: LevelState, lhs: AttributeList, rhs: AttributeList): ValidityType
      requires |lhs| > 0 && |rhs| > 0
    {
      SwapVerdict(PartitionOf(product, s.sortedPartitions, lhs), PartitionOf(product, s.sortedPartitions, rhs))
    }

    /** A checked split that the level records as valid: verdict valid, and no proper prefix of lhs merge-invalidated for rhs. */
    ghost predicate NewlyValid(latticeLevel: set<Node>, s: LevelState, lhs: AttributeList, rhs: AttributeList) {
      && Checked(latticeLevel, s, lhs, rhs) && Verdict(s, lhs, rhs) == Valid
      && !LhsPrefixMergeInvalidated(s.mergeInvalidated, lhs, rhs)
    }

    /** A checked split that the level records as merge-invalidated. */
    ghost predicate NewlyMergeInvalidated(latticeLevel: set<Node>, s: LevelState, lhs: AttributeList, rhs: AttributeList) {
      Checked(latticeLevel, s, lhs, rhs) && Verdict(s, lhs, rhs) == Merge
    }

    /** A checked split that the level drops from the candidates: a swap, or newly valid with one class per row of lhs. */
    ghost predicate DroppedByCheck(latticeLevel: set<Node>, s: LevelState, lhs: AttributeList, rhs: AttributeList) {
      && Checked(latticeLevel, s, lhs, rhs)
      && (|| Verdict(s, lhs, rhs) == Swap
          || (NewlyValid(latticeLevel, s, lhs, rhs) &&
              numRows == |PartitionOf(product, s.sortedPartitions, lhs).sortedPartition|))
    }

    /** The candidate sets once every split of the level is checked, before MergePrune. */
    ghost function AfterChecks(latticeLevel: set<Node>, s: LevelState): (cs: OrderDependencies)
      ensures cs.Keys == s.candidateSets.Keys
      ensures forall l, r :: InUnorderedMap(cs, l, r) <==>
                InUnorderedMap(s.candidateSets, l, r) && !DroppedByCheck(latticeLevel, s, l, r)
    {
      map l | l in s.candidateSets :: set r | r in s.candidateSets[l] && !DroppedByCheck(latticeLevel, s, l, r)
    }

    /** The valid dependencies `v` once the splits in `done` are checked. */
    ghost predicate ValidProgress(v: OrderDependencies, latticeLevel: set<Node>, s: LevelState, done: set<CandidatePair>) {
      forall l, r :: InUnorderedMap(v, l, r) <==>
        InUnorderedMap(s.valid, l, r) || ((l, r) in done && NewlyValid(latticeLevel, s, l, r))
    }

    /** The merge-invalidated dependencies `m` once the splits in `done` are checked. */
    ghost predicate MergeProgress(m: OrderDependencies, latticeLevel: set<Node>, s: LevelState, done: set<CandidatePair>) {
      forall l, r :: InUnorderedMap(m, l, r) <==>
        InUnorderedMap(s.mergeInvalidated, l, r) || ((l, r) in done && NewlyMergeInvalidated(latticeLevel, s, l, r))
    }

    /** The candidate sets `cs` once the splits in `done` are checked. */
    ghost predicate CandidateProgress(cs: OrderDependencies, latticeLevel: set<Node>, s: LevelState, done: set<CandidatePair>) {
      && cs.Keys == s.candidateSets.Keys
      && forall l, r :: InUnorderedMap(cs, l, r) <==>
           InUnorderedMap(s.candidateSets, l, r) && !((l, r) in done && DroppedByCheck(latticeLevel, s, l, r))
    }

    /** The state `st` once exactly the splits in `done`, all of the level, are checked. */
    ghost predicate CheckedUpTo(st: LevelState, latticeLevel: set<Node>, s: LevelState, done: set<CandidatePair>) {
      && (forall l, r :: (l, r) in done ==> |l| > 0 && |r| > 0 && l + r in latticeLevel)
      && ValidProgress(st.valid, latticeLevel, s, done) && MergeProgress(st.mergeInvalidated, latticeLevel, s, done)
      && CandidateProgress(st.candidateSets, latticeLevel, s, done)
      && BuiltFrom(product, s.sortedPartitions, st.sortedPartitions)
    }

    /** Both sides get the partitions the level's partitions give them, so the swap check gives the level's verdict. */
    lemma CheckedPartitions(st: LevelState, s: LevelState, lhs: AttributeList, rhs: AttributeList)
      requires |lhs| > 0 && |rhs| > 0
      requires BuiltFrom(product, s.sortedPartitions, st.sortedPartitions)
      ensures var sp := WithPartition(product, WithPartition(product, st.sortedPartitions, lhs), rhs);
              && BuiltFrom(product, s.sortedPartitions, sp)
              && sp[lhs] == PartitionOf(product, s.sortedPartitions, lhs)
              && SwapVerdict(sp[lhs], sp[rhs]) == Verdict(s, lhs, rhs)
    {
      var sp := WithPartition(product, st.sortedPartitions, lhs);
      WithPartitionBuiltFrom(product, s.sortedPartitions, st.sortedPartitions, lhs);
      WithPartitionBuiltFrom(product, s.sortedPartitions, sp, rhs);
    }

    /** The check of one split of the level adds it to valid exactly when the level records it as valid. */
    lemma CheckOutcomeValid(st: LevelState, latticeLevel: set<Node>, s: LevelState, lhs: AttributeList, rhs: AttributeList)
      requires |lhs| > 0 && |rhs| > 0 && lhs + rhs in latticeLevel
      requires InUnorderedMap(st.candidateSets, lhs, rhs) <==> InUnorderedMap(s.candidateSets, lhs, rhs)
      requires RhsPrefixValid(st.valid, lhs, rhs) <==> RhsPrefixValid(s.valid, lhs, rhs)
      requires LhsPrefixMergeInvalidated(st.mergeInvalidated, lhs, rhs) <==> LhsPrefixMergeInvalidated(s.mergeInvalidated, lhs, rhs)
      requires BuiltFrom(product, s.sortedPartitions, st.sortedPartitions)
      ensures forall l, r :: InUnorderedMap(CheckOutcome(st, lhs, rhs).valid, l, r) <==>
                InUnorderedMap(st.valid, l, r) || ((l, r) == (lhs, rhs) && NewlyValid(latticeLevel, s, lhs, rhs))
    {
      CheckedPartitions(st, s, lhs, rhs);
    }

    /** The check of one split of the level adds it to merge-invalidated exactly when the level records it so. */
    lemma CheckOutcomeMerge(st: LevelState, latticeLevel: set<Node>, s: LevelState, lhs: AttributeList, rhs: AttributeList)
      requires |lhs| > 0 && |rhs| > 0 && lhs + rhs in latticeLevel
      requires InUnorderedMap(st.candidateSets, lhs, rhs) <==> InUnorderedMap(s.candidateSets, lhs, rhs)
      requires RhsPrefixValid(st.valid, lhs, rhs) <==> RhsPrefixValid(s.valid, lhs, rhs)
      requires BuiltFrom(product, s.sortedPartitions, st.sortedPartitions)
      ensures forall l, r :: InUnorderedMap(CheckOutcome(st, lhs, rhs).mergeInvalidated, l, r) <==>
                InUnorderedMap(st.mergeInvalidated, l, r) || ((l, r) == (lhs, rhs) && NewlyMergeInvalidated(latticeLevel, s, lhs, rhs))
    {
      CheckedPartitions(st, s, lhs, rhs);
    }

    /** The check of one split of the level drops it from the candidates exactly when the level drops it. */
    lemma CheckOutcomeCandidates(st: LevelState, latticeLevel: set<Node>, s: LevelState, lhs: AttributeList, rhs: AttributeList)
      requires |lhs| > 0 && |rhs| > 0 && lhs + rhs in latticeLevel
      requires InUnorderedMap(st.candidateSets, lhs, rhs) <==> InUnorderedMap(s.candidateSets, lhs, rhs)
      requires RhsPrefixValid(st.valid, lhs, rhs) <==> RhsPrefixValid(s.valid, lhs, rhs)
      requires LhsPrefixMergeInvalidated(st.mergeInvalidated, lhs, rhs) <==> LhsPrefixMergeInvalidated(s.mergeInvalidated, lhs, rhs)
      requires BuiltFrom(product, s.sortedPartitions, st.sortedPartitions)
      ensures CheckOutcome(st, lhs, rhs).candidateSets.Keys == st.candidateSets.Keys
      ensures forall l, r :: InUnorderedMap(CheckOutcome(st, lhs, rhs).candidateSets, l, r) <==>
                InUnorderedMap(st.candidateSets, l, r) && !((l, r) == (lhs, rhs) && DroppedByCheck(latticeLevel, s, lhs, rhs))
    {
      CheckedPartitions(st, s, lhs, rhs);
    }

    /**
     * Checking one more split of the level takes a state that has checked
     * `done` to one that has checked `done` and the split.
     */
    lemma CheckOutcomeStep(st: LevelState, latticeLevel: set<Node>, s: LevelState, done: set<CandidatePair>,
                           lhs: AttributeList, rhs: AttributeList)
      requires |lhs| > 0 && |rhs| > 0 && lhs + rhs in latticeLevel && (lhs, rhs) !in done
      requires forall n :: n in latticeLevel ==> |n| == |lhs + rhs|
      requires CheckedUpTo(st, latticeLevel, s, done)
      ensures CheckedUpTo(CheckOutcome(st, lhs, rhs), latticeLevel, s, done + {(lhs, rhs)})
    {
      PrefixTestsStable(lhs, rhs, latticeLevel, s, done, st.valid, st.mergeInvalidated);
      CheckOutcomeValid(st, latticeLevel, s, lhs, rhs);
      CheckOutcomeMerge(st, latticeLevel, s, lhs, rhs);
      CheckOutcomeCandidates(st, latticeLevel, s, lhs, rhs);
      CheckedPartitions(st, s, lhs, rhs);
      var next := CheckOutcome(st, lhs, rhs);
      ValidStep(latticeLevel, s, done, lhs, rhs, st.valid, next.valid);
      MergeStep(latticeLevel, s, done, lhs, rhs, st.mergeInvalidated, next.mergeInvalidated);
      CandidateStep(latticeLevel, s, done, lhs, rhs, st.candidateSets, next.candidateSets);
    }

    /** Checking one more split adds it to valid exactly when the level records it as valid. */
    lemma ValidStep(latticeLevel: set<Node>, s: LevelState, done: set<CandidatePair>,
                    lhs: AttributeList, rhs: AttributeList, before: OrderDependencies, after: OrderDependencies)
      requires ValidProgress(before, latticeLevel, s, done)
      requires forall l, r :: InUnorderedMap(after, l, r) <==>
                 InUnorderedMap(before, l, r) || ((l, r) == (lhs, rhs) && NewlyValid(latticeLevel, s, lhs, rhs))
      ensures ValidProgress(after, latticeLevel, s, done + {(lhs, rhs)})
    {
    }

    /** Checking one more split adds it to merge-invalidated exactly when the level records it so. */
    lemma MergeStep(latticeLevel: set<Node>, s: LevelState, done: set<CandidatePair>,
                    lhs: AttributeList, rhs: AttributeList, before: OrderDependencies, after: OrderDependencies)
      requires MergeProgress(before, latticeLevel, s, done)
      requires forall l, r :: InUnorderedMap(after, l, r) <==>
                 InUnorderedMap(before, l, r) || ((l, r) == (lhs, rhs) && NewlyMergeInvalidated(latticeLevel, s, lhs, rhs))
      ensures MergeProgress(after, latticeLevel, s, done + {(lhs, rhs)})
    {
    }

    /** Checking one more split drops it from the candidates exactly when the level drops it. */
    lemma CandidateStep(latticeLevel: set<Node>, s: LevelState, done: set<CandidatePair>,
                        lhs: AttributeList, rhs: AttributeList, before: OrderDependencies, after: OrderDependencies)
      requires CandidateProgress(before, latticeLevel, s, done) && after.Keys == before.Keys
      requires (lhs, rhs) !in done
      requires forall l, r :: InUnorderedMap(after, l, r) <==>
                 InUnorderedMap(before, l, r) && !((l, r) == (lhs, rhs) && DroppedByCheck(latticeLevel, s, lhs, rhs))
      ensures CandidateProgress(after, latticeLevel, s, done + {(lhs, rhs)})
    {
    }

    /**
     * ComputeDependencies: from level 2 on, the candidate sets are brought to
     * this level, every candidate split of every node of the level is checked,
     * and the candidates are merge-pruned.  The prefix tests read only
     * dependencies shorter than the level, which its checks never add, so the
     * outcome does not depend on the order of the nodes: valid and
     * merge-invalidated gain exactly the splits the checks record, the
     * candidate sets lose exactly the splits the checks drop and then what
     * MergePrune drops, and the partitions gain only products of columns.
     */
    method ComputeDependencies(latticeLevel: set<Node>)
      modifies this`sortedPartitions, this`candidateSets, this`previousCandidateSets, this`valid, this`mergeInvalidated
      requires forall node :: node in latticeLevel ==> |node| > 0 && |node| == level
      requires forall s :: s in singleAttributes ==> |s| > 0
      requires DisjointSides(candidateSets) && DisjointSides(valid)
      requires PassedSwapCheck(valid, sortedPartitions)
      ensures level < 2 ==>
                && sortedPartitions == old(sortedPartitions) && candidateSets == old(candidateSets)
                && previousCandidateSets == old(previousCandidateSets)
                && valid == old(valid) && mergeInvalidated == old(mergeInvalidated)
      ensures level >= 2 ==>
                previousCandidateSets == if level >= 3 then old(candidateSets) else old(previousCandidateSets)
      ensures level >= 2 ==> forall l, r :: InUnorderedMap(valid, l, r) <==>
                InUnorderedMap(old(valid), l, r) || NewlyValid(latticeLevel, old(StateForChecks()), l, r)
      ensures level >= 2 ==> forall l, r :: InUnorderedMap(mergeInvalidated, l, r) <==>
                InUnorderedMap(old(mergeInvalidated), l, r) || NewlyMergeInvalidated(latticeLevel, old(StateForChecks()), l, r)
      ensures level == 2 ==> candidateSets == AfterChecks(latticeLevel, old(StateForChecks()))
      ensures level >= 3 ==>
                && candidateSets.Keys == old(StateForChecks()).candidateSets.Keys
                && Included(candidateSets, AfterChecks(latticeLevel, old(StateForChecks())))
                && MergePruned(AfterChecks(latticeLevel, old(StateForChecks())), candidateSets, mergeInvalidated)
                && forall l, r :: MergePrunable(AfterChecks(latticeLevel, old(StateForChecks())), mergeInvalidated, l, r) ==>
                     !InUnorderedMap(candidateSets, l, r)
      ensures BuiltFrom(product, old(sortedPartitions), sortedPartitions)
      ensures DisjointSides(candidateSets) && DisjointSides(valid)
      ensures PassedSwapCheck(valid, sortedPartitions)
      ensures forall l, r :: InUnorderedMap(valid, l, r) && !InUnorderedMap(old(valid), l, r) ==> l + r in latticeLevel
    {
      if level < 2 {
        return;
      }
      ghost var s := StateForChecks();
      UpdateCandidateSets();
      if level >= 3 {
        NextCandidatesKeepDisjointSides(previousCandidateSets, valid, singleAttributes, level);
      }
      ghost var previous := previousCandidateSets;
      var pending := latticeLevel;
      ghost var done: set<CandidatePair> := {};
      while pending != {}
        invariant pending <= latticeLevel && previousCandidateSets == previous
        invariant forall l, r :: (l, r) in done <==> |l| > 0 && |r| > 0 && l + r in latticeLevel && l + r !in pending
        invariant CheckedUpTo(State(), latticeLevel, s, done)
        invariant DisjointSides(candidateSets) && DisjointSides(valid)
        invariant PassedSwapCheck(valid, sortedPartitions)
        decreases pending
      {
        var node :| node in pending;
        done := CheckNode(node, latticeLevel, s, done);
        pending := pending - {node};
      }
      ghost var checked := candidateSets;
      AllChecked(latticeLevel, s, done);
      MergePrune();
      assert checked == AfterChecks(latticeLevel, s);
    }

    /** The inner loop of ComputeDependencies: every candidate split of one node of the level is checked. */
    method CheckNode(node: Node, ghost latticeLevel: set<Node>, ghost s: LevelState, ghost done0: set<CandidatePair>)
      returns (ghost done: set<CandidatePair>)
      modifies this`sortedPartitions, this`candidateSets, this`valid, this`mergeInvalidated
      requires node in latticeLevel && |node| > 0
      requires forall n :: n in latticeLevel ==> |n| == |node|
      requires forall l, r :: (l, r) in done0 ==> l + r != node
      requires CheckedUpTo(State(), latticeLevel, s, done0)
      requires DisjointSides(candidateSets) && DisjointSides(valid)
      requires PassedSwapCheck(valid, sortedPartitions)
      ensures forall l, r :: (l, r) in done <==> (l, r) in done0 || (|l| > 0 && |r| > 0 && l + r == node)
      ensures CheckedUpTo(State(), latticeLevel, s, done)
      ensures DisjointSides(candidateSets) && DisjointSides(valid)
      ensures PassedSwapCheck(valid, sortedPartitions)
    {
      done := done0;
      var candidatePairs := ObtainCandidates(node);
      for i := 0 to |candidatePairs|
        invariant forall l, r :: (l, r) in done <==> (l, r) in done0 || (|l| > 0 && |r| > 0 && l + r == node && |l| <= i)
        invariant CheckedUpTo(State(), latticeLevel, s, done)
        invariant DisjointSides(candidateSets) && DisjointSides(valid)
        invariant PassedSwapCheck(valid, sortedPartitions)
      {
        var (lhs, rhs) := candidatePairs[i];
        CheckStep(lhs, rhs, latticeLevel, s, done);
        SplitsOfNode(node, lhs, rhs);
        done := done + {(lhs, rhs)};
      }
    }

    /** Once every split of the level is checked, the state is what the checks of the level give. */
    lemma AllChecked(latticeLevel: set<Node>, s: LevelState, done: set<CandidatePair>)
      requires CheckedUpTo(State(), latticeLevel, s, done)
      requires forall l, r :: (l, r) in done <==> |l| > 0 && |r| > 0 && l + r in latticeLevel
      ensures candidateSets == AfterChecks(latticeLevel, s)
      ensures forall l, r :: InUnorderedMap(valid, l, r) <==> InUnorderedMap(s.valid, l, r) || NewlyValid(latticeLevel, s, l, r)
      ensures forall l, r :: InUnorderedMap(mergeInvalidated, l, r) <==>
                InUnorderedMap(s.mergeInvalidated, l, r) || NewlyMergeInvalidated(latticeLevel, s, l, r)
    {
      var cs := AfterChecks(latticeLevel, s);
      forall l | l in cs ensures candidateSets[l] == cs[l] {
        assert forall r :: r in candidateSets[l] <==> InUnorderedMap(candidateSets, l, r);
        assert forall r :: r in cs[l] <==> InUnorderedMap(cs, l, r);
      }
    }

    /** Two splits of one node with equally long left sides are the same split. */
    static lemma SplitsOfNode(node: Node, lhs: AttributeList, rhs: AttributeList)
      requires lhs + rhs == node
      ensures forall l, r :: l + r == node && |l| == |lhs| ==> l == lhs && r == rhs
    {
      forall l, r | l + r == node && |l| == |lhs| ensures l == lhs && r == rhs {
        assert l == node[..|l|] && lhs == node[..|l|];
        assert r == node[|l|..] && rhs == node[|l|..];
      }
    }

    /**
     * The prefix tests of a split of the level read dependencies shorter than
     * the level, which the checks of the level never add: they answer as at
     * the start of the level.
     */
    lemma PrefixTestsStable(lhs: AttributeList, rhs: AttributeList, latticeLevel: set<Node>, s: LevelState,
                            done: set<CandidatePair>, v: OrderDependencies, m: OrderDependencies)
      requires |lhs| > 0 && |rhs| > 0 && lhs + rhs in latticeLevel
      requires forall n :: n in latticeLevel ==> |n| == |lhs + rhs|
      requires ValidProgress(v, latticeLevel, s, done) && MergeProgress(m, latticeLevel, s, done)
      ensures RhsPrefixValid(v, lhs, rhs) <==> RhsPrefixValid(s.valid, lhs, rhs)
      ensures LhsPrefixMergeInvalidated(m, lhs, rhs) <==> LhsPrefixMergeInvalidated(s.mergeInvalidated, lhs, rhs)
    {
      forall p | p in GetPrefixes(rhs) ensures InUnorderedMap(v, lhs, p) <==> InUnorderedMap(s.valid, lhs, p) {
        PrefixesMembers(rhs, p);
        assert lhs + p !in latticeLevel by {
          assert |lhs + p| < |lhs + rhs|;
        }
      }
      forall p | p in GetPrefixes(lhs)
        ensures InUnorderedMap(m, p, rhs) <==> InUnorderedMap(s.mergeInvalidated, p, rhs)
      {
        PrefixesMembers(lhs, p);
        assert p + rhs !in latticeLevel by {
          assert |p + rhs| < |lhs + rhs|;
        }
      }
    }

    /** One CheckCandidate inside ComputeDependencies: the split joins the checked ones. */
    method CheckStep(lhs: AttributeList, rhs: AttributeList, ghost latticeLevel: set<Node>, ghost s: LevelState,
                     ghost done: set<CandidatePair>)
      modifies this`sortedPartitions, this`candidateSets, this`valid, this`mergeInvalidated
      requires |lhs| > 0 && |rhs| > 0 && lhs + rhs in latticeLevel && (lhs, rhs) !in done
      requires forall n :: n in latticeLevel ==> |n| == |lhs + rhs|
      requires CheckedUpTo(State(), latticeLevel, s, done)
      requires DisjointSides(candidateSets) && DisjointSides(valid)
      requires PassedSwapCheck(valid, sortedPartitions)
      ensures CheckedUpTo(State(), latticeLevel, s, done + {(lhs, rhs)})
      ensures DisjointSides(candidateSets) && DisjointSides(valid)
      ensures PassedSwapCheck(valid, sortedPartitions)
    {
      CheckOutcomeStep(State(), latticeLevel, s, done, lhs, rhs);
      CheckCandidate(lhs, rhs);
      PassedSwapCheckGrows(old(valid), old(sortedPartitions), sortedPartitions);
      DisjointSidesIncluded(candidateSets, old(candidateSets));
    }

    /**
     * UpdateCandidateSets: from level 3 on, the candidate sets are replaced by
     * those of the next level and the current ones are kept as the previous
     * candidate sets.
     */
    method UpdateCandidateSets()
      modifies this`candidateSets, this`previousCandidateSets
      requires forall s :: s in singleAttributes ==> |s| > 0
      ensures level < 3 ==> candidateSets == old(candidateSets) && previousCandidateSets == old(previousCandidateSets)
      ensures level >= 3 ==>
                && previousCandidateSets == old(candidateSets)
                && candidateSets == NextCandidates(old(candidateSets), valid, singleAttributes, level)
    {
      if level < 3 {
        return;
      }
      var nextCandidates: OrderDependencies := map[];
      var pending := candidateSets.Keys;
      while pending != {}
        invariant candidateSets == old(candidateSets) && previousCandidateSets == old(previousCandidateSets)
        invariant pending <= candidateSets.Keys
        invariant forall l :: l in nextCandidates <==>
                    l in candidateSets && l !in pending && NextCandidateSet(candidateSets, valid, singleAttributes, level, l) != {}
        invariant forall l :: l in nextCandidates ==>
                    l in candidateSets && nextCandidates[l] == NextCandidateSet(candidateSets, valid, singleAttributes, level, l)
        decreases pending
      {
        var lhs :| lhs in pending;
        var lhsCandidates := CandidatesFor(lhs);
        nextCandidates := nextCandidates[lhs := lhsCandidates];
        if nextCandidates[lhs] == {} {
          nextCandidates := nextCandidates - {lhs};
        }
        pending := pending - {lhs};
      }
      ghost var expected := NextCandidates(candidateSets, valid, singleAttributes, level);
      assert nextCandidates.Keys == expected.Keys;
      previousCandidateSets := candidateSets;
      candidateSets := nextCandidates;
    }

    /** The body of UpdateCandidateSets for one lhs: its next candidate set. */
    method CandidatesFor(lhs: AttributeList) returns (next: set<AttributeList>)
      requires lhs in candidateSets && level >= 3
      requires forall s :: s in singleAttributes ==> |s| > 0
      ensures next == NextCandidateSet(candidateSets, valid, singleAttributes, level, lhs)
    {
      next := {};
      if |lhs| != level - 1 {
        var pending := candidateSets[lhs];
        while pending != {}
          invariant pending <= candidateSets[lhs]
          invariant forall e :: e in next <==>
                      exists rhs :: rhs in candidateSets[lhs] && rhs !in pending &&
                        e in Extend(singleAttributes, lhs, rhs) && Yields(candidateSets, valid, singleAttributes, lhs, rhs, e)
          decreases pending
        {
          var rhs :| rhs in pending;
          if !InUnorderedMap(valid, lhs, rhs) {
            var extendedRhss := Extend(singleAttributes, lhs, rhs);
            for k := 0 to |extendedRhss|
              invariant forall e :: e in next <==>
                          || (exists r :: r in candidateSets[lhs] && r !in pending &&
                                e in Extend(singleAttributes, lhs, r) && Yields(candidateSets, valid, singleAttributes, lhs, r, e))
                          || (e in extendedRhss[..k] && Yields(candidateSets, valid, singleAttributes, lhs, rhs, e))
            {
              var extended := extendedRhss[k];
              if ExtensionKept(candidateSets, valid, lhs, extended) && IsMinimal(valid, extended) {
                next := next + {extended};
              }
            }
            assert extendedRhss[..|extendedRhss|] == extendedRhss;
          }
          pending := pending - {rhs};
        }
      } else if IsMinimal(valid, lhs) {
        var lhsMaxPrefix := MaxPrefix(lhs);
        var pending := Lookup(candidateSets, lhsMaxPrefix);
        while pending != {}
          invariant pending <= Lookup(candidateSets, lhsMaxPrefix)
          invariant forall e :: e in next <==> e in Lookup(candidateSets, lhsMaxPrefix) && e !in pending && AreDisjoint(lhs, e)
          decreases pending
        {
          var rhs :| rhs in pending;
          if AreDisjoint(lhs, rhs) {
            next := next + {rhs};
          }
          pending := pending - {rhs};
        }
      }
    }

    /**
     * MergePrune: from level 3 on, a candidate lhs -> rhs with |lhs| > 1 is
     * dropped when the max prefix of lhs is merge-invalidated for rhs and no
     * candidate of that max prefix has rhs as its own max prefix.
     */
    method MergePrune()
      modifies this`candidateSets
      requires DisjointSides(candidateSets)
      ensures level < 3 ==> candidateSets == old(candidateSets)
      ensures candidateSets.Keys == old(candidateSets).Keys
      ensures Included(candidateSets, old(candidateSets))
      ensures MergePruned(old(candidateSets), candidateSets, mergeInvalidated)
      ensures level >= 3 ==> forall l, r :: MergePrunable(old(candidateSets), mergeInvalidated, l, r) ==>
                !InUnorderedMap(candidateSets, l, r)
    {
      if level < 3 {
        return;
      }
      var pendingKeys := candidateSets.Keys;
      while pendingKeys != {}
        invariant candidateSets.Keys == old(candidateSets).Keys && pendingKeys <= candidateSets.Keys
        invariant Included(candidateSets, old(candidateSets)) && DisjointSides(candidateSets)
        invariant forall l :: l in pendingKeys ==> candidateSets[l] == old(candidateSets)[l]
        invariant MergePruned(old(candidateSets), candidateSets, mergeInvalidated)
        invariant forall l, r :: l !in pendingKeys && MergePrunable(old(candidateSets), mergeInvalidated, l, r) ==>
                    !InUnorderedMap(candidateSets, l, r)
        decreases pendingKeys
      {
        var lhs :| lhs in pendingKeys;
        if |lhs| > 1 {
          ghost var before := candidateSets;
          PruneLhs(lhs);
          MergePrunedTrans(old(candidateSets), before, candidateSets, mergeInvalidated);
          DisjointSidesIncluded(candidateSets, before);
          forall r | MergePrunable(old(candidateSets), mergeInvalidated, lhs, r)
            ensures !InUnorderedMap(candidateSets, lhs, r)
          {
            if InUnorderedMap(before, lhs, r) {
              MergePrunableIncluded(old(candidateSets), before, mergeInvalidated, lhs, r);
            }
          }
        }
        pendingKeys := pendingKeys - {lhs};
      }
    }

    /** The inner loop of MergePrune over the candidates of one lhs. */
    method PruneLhs(lhs: AttributeList)
      modifies this`candidateSets
      requires |lhs| > 1 && lhs in candidateSets
      requires DisjointSides(candidateSets)
      ensures candidateSets.Keys == old(candidateSets).Keys
      ensures Included(candidateSets, old(candidateSets))
      ensures forall l :: l in old(candidateSets) && l != lhs ==> candidateSets[l] == old(candidateSets)[l]
      ensures MergePruned(old(candidateSets), candidateSets, mergeInvalidated)
      ensures forall r :: MergePrunable(old(candidateSets), mergeInvalidated, lhs, r) ==> !InUnorderedMap(candidateSets, lhs, r)
    {
      var rhsList := candidateSets[lhs];
      var lhsMaxPrefix := MaxPrefix(lhs);
      while rhsList != {}
        invariant candidateSets.Keys == old(candidateSets).Keys
        invariant rhsList <= candidateSets[lhs]
        invariant Included(candidateSets, old(candidateSets)) && DisjointSides(candidateSets)
        invariant forall l :: l in old(candidateSets) && l != lhs ==> candidateSets[l] == old(candidateSets)[l]
        invariant MergePruned(old(candidateSets), candidateSets, mergeInvalidated)
        invariant forall r :: r !in rhsList && MergePrunable(old(candidateSets), mergeInvalidated, lhs, r) ==>
                    !InUnorderedMap(candidateSets, lhs, r)
        decreases rhsList
      {
        var rhs :| rhs in rhsList;
        if InUnorderedMap(mergeInvalidated, lhsMaxPrefix, rhs) {
          var prunable := true;
          var others := Lookup(candidateSets, lhsMaxPrefix);
          while others != {}
            invariant others <= Lookup(candidateSets, lhsMaxPrefix)
            invariant forall o :: o in Lookup(candidateSets, lhsMaxPrefix) && o !in others && |o| > 0 ==> MaxPrefix(o) != rhs
            decreases others
          {
            var other :| other in others;
            assert InUnorderedMap(candidateSets, lhsMaxPrefix, other);
            if MaxPrefix(other) == rhs {
              assert Lookup(candidateSets, lhsMaxPrefix) == Lookup(old(candidateSets), lhsMaxPrefix);
              assert ExtendedBy(old(candidateSets), lhsMaxPrefix, rhs);
              prunable := false;
              break;
            }
            others := others - {other};
          }
          if prunable {
            MergePrunedStep(old(candidateSets), candidateSets, mergeInvalidated, lhs, rhs);
            candidateSets := candidateSets[lhs := candidateSets[lhs] - {rhs}];
          }
        }
        rhsList := rhsList - {rhs};
      }
    }

    /**
     * Prune: from level 2 on, the nodes of the level whose proper prefixes all
     * have empty candidate sets are removed, then the empty candidate sets.
     */
    method Prune(latticeLevel: set<Node>) returns (pruned: set<Node>)
      modifies this`candidateSets
      requires forall node :: node in latticeLevel ==> |node| > 0
      ensures pruned <= latticeLevel
      ensures level < 2 ==> pruned == latticeLevel && candidateSets == old(candidateSets)
      ensures level >= 2 ==> forall node :: node in latticeLevel ==>
                (node in pruned <==> !AllPrefixCandidatesEmpty(old(candidateSets), node))
      ensures level >= 2 ==> candidateSets == WithoutEmpty(old(candidateSets))
    {
      if level < 2 {
        return latticeLevel;
      }
      pruned := latticeLevel;
      var pending := latticeLevel;
      while pending != {}
        invariant pending <= pruned <= latticeLevel
        invariant forall node :: node in latticeLevel && node !in pending ==>
                    (node in pruned <==> !AllPrefixCandidatesEmpty(candidateSets, node))
        decreases pending
      {
        var node :| node in pending;
        var allCandidatesEmpty := false;
        var prefixes := GetPrefixes(node);
        var i := 0;
        while i < |prefixes|
          invariant 0 <= i <= |prefixes|
          invariant allCandidatesEmpty <==> i > 0
          invariant forall j :: 0 <= j < i ==> Lookup(candidateSets, prefixes[j]) == {}
        {
          if Lookup(candidateSets, prefixes[i]) != {} {
            allCandidatesEmpty := false;
            assert prefixes[i] in prefixes;
            break;
          }
          allCandidatesEmpty := true;
          i := i + 1;
        }
        if allCandidatesEmpty {
          pruned := pruned - {node};
        }
        pending := pending - {node};
      }
      var keys := candidateSets.Keys;
      while keys != {}
        invariant keys <= candidateSets.Keys
        invariant forall l :: l in candidateSets <==> l in old(candidateSets) && (l in keys || old(candidateSets)[l] != {})
        invariant forall l :: l in candidateSets ==> candidateSets[l] == old(candidateSets)[l]
        decreases keys
      {
        var l :| l in keys;
        if candidateSets[l] == {} {
          candidateSets := candidateSets - {l};
        }
        keys := keys - {l};
      }
    }

    /**
     * GenerateNextLevel: the joins of every two different nodes of the level
     * that share their max prefix; from level 2 on, while candidates remain,
     * every node of the level is also given an empty candidate set.
     */
    method GenerateNextLevel(l: set<Node>) returns (next: set<Node>)
      modifies this`candidateSets
      requires forall n :: n in l ==> |n| > 0
      ensures next == Joins(l)
      ensures level > 1 && old(candidateSets) != map[] ==>
                && (forall k :: k in candidateSets <==> k in old(candidateSets) || k in l)
                && (forall k :: k in candidateSets ==> candidateSets[k] == if k in l then {} else old(candidateSets)[k])
      ensures !(level > 1 && old(candidateSets) != map[]) ==> candidateSets == old(candidateSets)
    {
      next := JoinLevel(l);
      if level > 1 && candidateSets != map[] {
        var rest := l;
        while rest != {}
          invariant rest <= l
          invariant forall k :: k in candidateSets <==> k in old(candidateSets) || k in l - rest
          invariant forall k :: k in candidateSets ==> candidateSets[k] == if k in l - rest then {} else old(candidateSets)[k]
          decreases rest
        {
          var node :| node in rest;
          candidateSets := candidateSets[node := {}];
          rest := rest - {node};
        }
      }
    }

    /**
     * ExecuteInternal: the sorted partitions of the ordered columns are built;
     * level 1 holds every ordered single attribute, each with every other one
     * as its candidates; then each level is checked, pruned and joined into the
     * next, until a level is empty.  Every valid dependency found has sides
     * with no attribute in common, built from pairwise different ordered
     * columns, and passed the swap check on its sides' sorted partitions,
     * which are the products of their columns' partitions; the partition of
     * every ordered column is its sorted partition over the rows with no null
     * in an ordered column.
     */
    method ExecuteInternal()
      modifies this`sortedPartitions, this`singleAttributes, this`candidateSets, this`previousCandidateSets
      modifies this`valid, this`mergeInvalidated, this`level
      requires Initial() && Rectangular()
      ensures DisjointSides(valid)
      ensures OverAttributes(valid, OrderedColumns())
      ensures PassedSwapCheck(valid, sortedPartitions)
      ensures ColumnsPartitioned(sortedPartitions)
      ensures forall lhs, rhs :: InUnorderedMap(valid, lhs, rhs) ==>
        |lhs| > 0 && |rhs| > 0 &&
        SwapVerdict(ProductOfSingletons(product, sortedPartitions, lhs), ProductOfSingletons(product, sortedPartitions, rhs)) == Valid
    {
      var latticeLevel := Start();
      ghost var singlePartitions := sortedPartitions;
      ghost var attrs := OrderedColumns();
      while latticeLevel != {}
        invariant level >= 1
        invariant LevelShape(latticeLevel, level, attrs)
        invariant singleAttributes == OrderedSingles(columns, |columns|)
        invariant DisjointSides(candidateSets) && DisjointSides(valid)
        invariant OverAttributes(valid, attrs)
        invariant PassedSwapCheck(valid, sortedPartitions)
        invariant BuiltFrom(product, singlePartitions, sortedPartitions)
        decreases |attrs| + 1 - level
      {
        ghost var n :| n in latticeLevel;
        DistinctAttributesBound(n, attrs);
        ghost var before := sortedPartitions;
        latticeLevel := NextLevel(latticeLevel, attrs);
        BuiltFromTrans(product, singlePartitions, before, sortedPartitions);
      }
      ColumnsPartitionedKept(singlePartitions, sortedPartitions);
      BuiltPartitionsAreProducts(product, singlePartitions, sortedPartitions, valid);
    }

    /** Every ordered column has its sorted partition over the rows with no null in an ordered column. */
    ghost predicate ColumnsPartitioned(sp: map<AttributeList, SortedPartition>) {
      forall i :: 0 <= i < |columns| && columns[i].isOrdered ==>
        [i] in sp && IsSortedPartition(sp[[i]].sortedPartition, NonNullRows(), ColumnKey(columns[i]))
    }

    /** Adding partitions, none changed, keeps the column partitions. */
    lemma ColumnsPartitionedKept(sp: map<AttributeList, SortedPartition>, sp': map<AttributeList, SortedPartition>)
      requires ColumnsPartitioned(sp)
      requires forall l :: l in sp ==> l in sp' && sp'[l] == sp[l]
      ensures ColumnsPartitioned(sp')
    {
      forall i | 0 <= i < |columns| && columns[i].isOrdered
        ensures [i] in sp' && IsSortedPartition(sp'[[i]].sortedPartition, NonNullRows(), ColumnKey(columns[i]))
      {
        assert [i] in sp;
      }
    }

    /** ExecuteInternal up to its level loop: the partitions of the columns and the first level, at level 1. */
    method Start() returns (latticeLevel: set<Node>)
      modifies this`sortedPartitions, this`singleAttributes, this`candidateSets, this`level
      requires Initial() && Rectangular()
      ensures level == 1 && LevelShape(latticeLevel, 1, OrderedColumns())
      ensures singleAttributes == OrderedSingles(columns, |columns|)
      ensures DisjointSides(candidateSets) && valid == map[]
      ensures ColumnsPartitioned(sortedPartitions)
      ensures forall l :: l in sortedPartitions ==> l in OrderedSingles(columns, |columns|)
    {
      CreateSortedPartitions();
      assert ColumnsPartitioned(sortedPartitions);
      latticeLevel := FirstLevel();
      FirstLevelShape(latticeLevel);
      level := 1;
    }

    /**
     * The first loop of ExecuteInternal: level 1 holds every single attribute,
     * and each one has every other single attribute as its candidates.
     */
    method FirstLevel() returns (latticeLevel: set<Node>)
      modifies this`candidateSets
      requires candidateSets == map[]
      ensures forall n :: n in latticeLevel <==> n in singleAttributes
      ensures forall k :: k in candidateSets <==> k in singleAttributes
      ensures forall k, r :: InUnorderedMap(candidateSets, k, r) <==> k in singleAttributes && r in singleAttributes && r != k
    {
      latticeLevel := {};
      for a := 0 to |singleAttributes|
        invariant forall n :: n in latticeLevel <==> n in singleAttributes[..a]
        invariant forall k :: k in candidateSets <==> k in singleAttributes[..a]
        invariant forall k, r :: InUnorderedMap(candidateSets, k, r) <==> k in singleAttributes[..a] && r in singleAttributes && r != k
      {
        var singleAttribute := singleAttributes[a];
        latticeLevel := latticeLevel + {singleAttribute};
        var others := {};
        for b := 0 to |singleAttributes|
          invariant forall r :: r in others <==> r in singleAttributes[..b] && r != singleAttribute
        {
          if singleAttribute != singleAttributes[b] {
            others := others + {singleAttributes[b]};
          }
        }
        assert singleAttributes[..|singleAttributes|] == singleAttributes;
        assert singleAttributes[..a + 1] == singleAttributes[..a] + [singleAttribute];
        ghost var earlier := candidateSets;
        candidateSets := candidateSets[singleAttribute := others];
        forall k, r ensures InUnorderedMap(candidateSets, k, r) <==>
                              k in singleAttributes[..a + 1] && r in singleAttributes && r != k
        {
          if k != singleAttribute {
            assert InUnorderedMap(candidateSets, k, r) <==> InUnorderedMap(earlier, k, r);
          }
        }
      }
      assert singleAttributes[..|singleAttributes|] == singleAttributes;
    }

    /** The first level of the ordered singles has the shape of a level, and its candidates disjoint sides. */
    lemma FirstLevelShape(latticeLevel: set<Node>)
      requires singleAttributes == OrderedSingles(columns, |columns|)
      requires forall n :: n in latticeLevel <==> n in singleAttributes
      requires forall k, r :: InUnorderedMap(candidateSets, k, r) <==> k in singleAttributes && r in singleAttributes && r != k
      ensures LevelShape(latticeLevel, 1, OrderedColumns())
      ensures DisjointSides(candidateSets)
    {
      forall n | n in latticeLevel
        ensures |n| == 1 && DistinctAttributes(n) && forall i :: 0 <= i < |n| ==> n[i] in OrderedColumns()
      {
        assert n in OrderedSingles(columns, |columns|);
      }
      forall k, r | InUnorderedMap(candidateSets, k, r) ensures |k| > 0 && |r| > 0 && AreDisjoint(k, r) {
        assert k in OrderedSingles(columns, |columns|) && r in OrderedSingles(columns, |columns|);
      }
    }

    /** One round of the level loop of ExecuteInternal: check, prune, join, and move to the next level. */
    method NextLevel(latticeLevel: set<Node>, ghost attrs: set<nat>) returns (next: set<Node>)
      modifies this`sortedPartitions, this`candidateSets, this`previousCandidateSets
      modifies this`valid, this`mergeInvalidated, this`level
      requires level >= 1 && LevelShape(latticeLevel, level, attrs)
      requires forall s :: s in singleAttributes ==> |s| > 0
      requires DisjointSides(candidateSets) && DisjointSides(valid)
      requires OverAttributes(valid, attrs)
      requires PassedSwapCheck(valid, sortedPartitions)
      ensures level == old(level) + 1 && LevelShape(next, level, attrs)
      ensures DisjointSides(candidateSets) && DisjointSides(valid)
      ensures OverAttributes(valid, attrs)
      ensures PassedSwapCheck(valid, sortedPartitions)
      ensures BuiltFrom(product, old(sortedPartitions), sortedPartitions)
    {
      ghost var validBefore := valid;
      ComputeDependencies(latticeLevel);
      OverAttributesGrow(validBefore, valid, latticeLevel, level, attrs);
      next := PruneAndJoin(latticeLevel, attrs);
      level := level + 1;
    }

    /** The second half of a round of the level loop: prune the level, then join it into the next one. */
    method PruneAndJoin(latticeLevel: set<Node>, ghost attrs: set<nat>) returns (next: set<Node>)
      modifies this`candidateSets
      requires level >= 1 && LevelShape(latticeLevel, level, attrs)
      requires DisjointSides(candidateSets)
      ensures LevelShape(next, level + 1, attrs)
      ensures DisjointSides(candidateSets)
    {
      ghost var unpruned := candidateSets;
      var pruned := Prune(latticeLevel);
      DisjointSidesIncluded(candidateSets, unpruned);
      assert LevelShape(pruned, level, attrs);
      ghost var beforeJoin := candidateSets;
      next := GenerateNextLevel(pruned);
      assert Included(candidateSets, beforeJoin);
      DisjointSidesIncluded(candidateSets, beforeJoin);
      JoinsShape(pruned, level, attrs);
    }
  }

  /** The join loops of GenerateNextLevel, over the prefix blocks of the level. */
  method JoinLevel(l: set<Node>) returns (next: set<Node>)
    requires forall n :: n in l ==> |n| > 0
    ensures next == Joins(l)
  {
    var prefixBlocks := GetPrefixBlocks(l);
    forall p, x | p in prefixBlocks && 0 <= x < |prefixBlocks[p]| ensures |prefixBlocks[p][x]| > 0 {
      BlockMember(l, prefixBlocks, p, x);
    }
    next := JoinBlocks(prefixBlocks);
    JoinsFromBlocks(l, prefixBlocks);
    assert forall j :: j in next <==> j in Joins(l);
  }

  /** The outer loop of GenerateNextLevel: the joins within every prefix block. */
  method JoinBlocks(prefixBlocks: map<AttributeList, seq<Node>>) returns (next: set<Node>)
    requires forall p, x :: p in prefixBlocks && 0 <= x < |prefixBlocks[p]| ==> |prefixBlocks[p][x]| > 0
    ensures forall j :: j in next <==> exists p :: p in prefixBlocks && InBlockJoins(prefixBlocks[p], j)
  {
    next := {};
    var pending := prefixBlocks.Keys;
    while pending != {}
      invariant pending <= prefixBlocks.Keys
      invariant forall j :: j in next <==> exists p :: p in prefixBlocks && p !in pending && InBlockJoins(prefixBlocks[p], j)
      decreases pending
    {
      var prefix :| prefix in pending;
      next := JoinPrefixBlock(prefixBlocks[prefix], next);
      pending := pending - {prefix};
    }
  }

  /** GetPrefixBlocks: the nodes of a level grouped by their max prefix. */
  method GetPrefixBlocks(l: set<Node>) returns (blocks: map<AttributeList, seq<Node>>)
    requires forall n :: n in l ==> |n| > 0
    ensures IsPrefixBlocks(l, blocks)
  {
    blocks := map[];
    var pending := l;
    while pending != {}
      invariant pending <= l
      invariant forall p :: p in blocks <==> exists n :: n in l - pending && MaxPrefix(n) == p
      invariant forall p, n :: p in blocks ==> (n in blocks[p] <==> n in l - pending && MaxPrefix(n) == p)
      invariant forall p :: p in blocks ==> forall x, y :: 0 <= x < y < |blocks[p]| ==> blocks[p][x] != blocks[p][y]
      decreases pending
    {
      var node :| node in pending;
      var nodePrefix := MaxPrefix(node);
      if nodePrefix !in blocks {
        blocks := blocks[nodePrefix := []];
      }
      blocks := blocks[nodePrefix := blocks[nodePrefix] + [node]];
      pending := pending - {node};
    }
    assert l - pending == l;
  }

  /** The two inner loops of GenerateNextLevel: every join of two different nodes of one block is added. */
  method JoinPrefixBlock(block: seq<Node>, next: set<Node>) returns (result: set<Node>)
    requires forall x :: 0 <= x < |block| ==> |block[x]| > 0
    ensures forall j :: j in result <==> j in next || InBlockJoins(block, j)
  {
    result := next;
    for a := 0 to |block|
      invariant forall j :: j in result <==>
                  || j in next
                  || exists x, y :: 0 <= x < a && 0 <= y < |block| && block[x] != block[y] && j == JoinNodes(block[x], block[y])
    {
      for b := 0 to |block|
        invariant forall j :: j in result <==>
                    || j in next
                    || (exists x, y :: 0 <= x < a && 0 <= y < |block| && block[x] != block[y] && j == JoinNodes(block[x], block[y]))
                    || (exists y :: 0 <= y < b && block[a] != block[y] && j == JoinNodes(block[a], block[y]))
      {
        if block[a] == block[b] {
          continue;
        }
        var joined := JoinNodes(block[a], block[b]);
        result := result + {joined};
      }
    }
  }
}
