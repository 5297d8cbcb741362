/**
 * Specifications of the state changes the ORDER algorithm makes between lattice
 * levels: adding and removing recorded dependencies, building a list's sorted
 * partition from single-column ones, computing the candidate sets of the next
 * level, pruning a level and joining nodes of one prefix block; together with
 * the invariants the level-wise search keeps.
 */
module OrderLattice {
  import opened OrderLists
  import opened SortedPartitions

  /** `m[lhs].insert(rhs)`, creating the entry when missing. */
  function AddPair(m: OrderDependencies, lhs: AttributeList, rhs: AttributeList): (r: OrderDependencies)
    ensures forall l, x :: InUnorderedMap(r, l, x) <==> InUnorderedMap(m, l, x) || (l == lhs && x == rhs)
    ensures forall l :: l in m ==> l in r
  {
    m[lhs := Lookup(m, lhs) + {rhs}]
  }

  /** `m[lhs].erase(rhs)`. */
  function RemovePair(m: OrderDependencies, lhs: AttributeList, rhs: AttributeList): (r: OrderDependencies)
    ensures forall l, x :: InUnorderedMap(r, l, x) <==> InUnorderedMap(m, l, x) && (l, x) != (lhs, rhs)
    ensures r.Keys == m.Keys + {lhs}
  {
    m[lhs := Lookup(m, lhs) - {rhs}]
  }

  /** Every recorded dependency has a non-empty lhs and rhs with no attribute in common. */
  ghost predicate DisjointSides(m: OrderDependencies) {
    forall lhs, rhs :: InUnorderedMap(m, lhs, rhs) ==> |lhs| > 0 && |rhs| > 0 && AreDisjoint(lhs, rhs)
  }

  /** Every pair recorded in `small` is recorded in `large`. */
  ghost predicate Included(small: OrderDependencies, large: OrderDependencies) {
    forall lhs, rhs :: InUnorderedMap(small, lhs, rhs) ==> InUnorderedMap(large, lhs, rhs)
  }

  /** Recording fewer pairs keeps DisjointSides. */
  lemma DisjointSidesIncluded(small: OrderDependencies, large: OrderDependencies)
    requires Included(small, large) && DisjointSides(large)
    ensures DisjointSides(small)
  {
  }

  /** The sorted partition stored for a list; an empty partition when none is (what operator[] reads). */
  function PartitionAt(sp: map<AttributeList, SortedPartition>, list: AttributeList): SortedPartition {
    if list in sp then sp[list] else SortedPartition([])
  }

  /**
   * The sorted partition of a list built from single-column partitions: the
   * first column's partition multiplied, left to right, by the partition of
   * each further column.
   */
  function ProductOfSingletons(product: (SortedPartition, SortedPartition) -> SortedPartition,
                               sp: map<AttributeList, SortedPartition>, list: AttributeList): SortedPartition
    requires |list| > 0
    decreases |list|
  {
    if |list| == 1 then PartitionAt(sp, [list[0]])
    else product(ProductOfSingletons(product, sp, MaxPrefix(list)), PartitionAt(sp, [list[|list| - 1]]))
  }

  /**
   * The partitions after CreateSortedPartitionsFromSingletons(list): a list
   * that already has a partition keeps it; otherwise its product of singletons
   * is added.  No other entry changes.
   */
  function WithPartition(product: (SortedPartition, SortedPartition) -> SortedPartition,
                         sp: map<AttributeList, SortedPartition>, list: AttributeList): (r: map<AttributeList, SortedPartition>)
    requires |list| > 0
    ensures list in r
    ensures forall l :: l in sp ==> l in r && r[l] == sp[l]
    ensures forall l :: l in r ==> l in sp || l == list
  {
    if list in sp then sp else sp[list := ProductOfSingletons(product, sp, list)]
  }

  /**
   * The sorted partition a list has once CreateSortedPartitionsFromSingletons
   * has run on it, starting from the partitions `sp`.
   */
  function PartitionOf(product: (SortedPartition, SortedPartition) -> SortedPartition,
                       sp: map<AttributeList, SortedPartition>, list: AttributeList): SortedPartition
    requires |list| > 0
  {
    if list in sp then sp[list] else ProductOfSingletons(product, sp, list)
  }

  /**
   * `built` arises from `sp` by CreateSortedPartitionsFromSingletons calls:
   * every entry of `sp` is kept, and every added list holds the product of the
   * partitions its columns have in `sp`.
   */
  ghost predicate BuiltFrom(product: (SortedPartition, SortedPartition) -> SortedPartition,
                            sp: map<AttributeList, SortedPartition>, built: map<AttributeList, SortedPartition>) {
    && (forall l :: l in sp ==> l in built && built[l] == sp[l])
    && (forall l :: l in built && l !in sp ==> |l| > 0 && built[l] == ProductOfSingletons(product, sp, l))
  }

  /** Two partition maps that agree on every single column give every list the same product. */
  lemma {:induction false} ProductOfSingletonsAgree(product: (SortedPartition, SortedPartition) -> SortedPartition,
                                                    sp: map<AttributeList, SortedPartition>,
                                                    sp': map<AttributeList, SortedPartition>, list: AttributeList)
    requires |list| > 0
    requires forall i :: 0 <= i < |list| ==> PartitionAt(sp, [list[i]]) == PartitionAt(sp', [list[i]])
    ensures ProductOfSingletons(product, sp, list) == ProductOfSingletons(product, sp', list)
    decreases |list|
  {
    if |list| > 1 {
      var prefix := MaxPrefix(list);
      assert forall i :: 0 <= i < |prefix| ==> prefix[i] == list[i];
      ProductOfSingletonsAgree(product, sp, sp', prefix);
      assert PartitionAt(sp, [list[|list| - 1]]) == PartitionAt(sp', [list[|list| - 1]]);
    } else {
      assert PartitionAt(sp, [list[0]]) == PartitionAt(sp', [list[0]]);
    }
  }

  /**
   * A further CreateSortedPartitionsFromSingletons keeps the partitions built
   * from `sp`, and the list's partition is the one it would get from `sp`: the
   * order of the calls does not matter.
   */
  lemma WithPartitionBuiltFrom(product: (SortedPartition, SortedPartition) -> SortedPartition,
                               sp: map<AttributeList, SortedPartition>, built: map<AttributeList, SortedPartition>,
                               list: AttributeList)
    requires |list| > 0 && BuiltFrom(product, sp, built)
    ensures BuiltFrom(product, sp, WithPartition(product, built, list))
    ensures WithPartition(product, built, list)[list] == PartitionOf(product, sp, list)
  {
    if list !in built {
      forall i | 0 <= i < |list| ensures PartitionAt(built, [list[i]]) == PartitionAt(sp, [list[i]]) {
        var single := [list[i]];
        if single in built && single !in sp {
          assert ProductOfSingletons(product, sp, single) == PartitionAt(sp, [single[0]]);
        }
      }
      ProductOfSingletonsAgree(product, built, sp, list);
    }
  }

  /** Two rounds of CreateSortedPartitionsFromSingletons calls are one: BuiltFrom is transitive. */
  lemma BuiltFromTrans(product: (SortedPartition, SortedPartition) -> SortedPartition,
                       a: map<AttributeList, SortedPartition>, b: map<AttributeList, SortedPartition>,
                       c: map<AttributeList, SortedPartition>)
    requires BuiltFrom(product, a, b) && BuiltFrom(product, b, c)
    ensures BuiltFrom(product, a, c)
  {
    forall l | l in c && l !in a ensures |l| > 0 && c[l] == ProductOfSingletons(product, a, l) {
      if l !in b {
        forall i | 0 <= i < |l| ensures PartitionAt(b, [l[i]]) == PartitionAt(a, [l[i]]) {
          var single := [l[i]];
          if single in b && single !in a {
            assert ProductOfSingletons(product, a, single) == PartitionAt(a, [single[0]]);
          }
        }
        ProductOfSingletonsAgree(product, b, a, l);
      }
    }
  }

  /**
   * When every partition was built from the single-column partitions, the
   * partition of each list is the product of its columns' partitions, so a
   * swap check passed on the stored partitions is passed on those products.
   */
  lemma {:induction false} BuiltPartitionsAreProducts(product: (SortedPartition, SortedPartition) -> SortedPartition,
                                                      singles: map<AttributeList, SortedPartition>,
                                                      sp: map<AttributeList, SortedPartition>, valid: OrderDependencies)
    requires forall l :: l in singles ==> |l| == 1
    requires BuiltFrom(product, singles, sp)
    requires PassedSwapCheck(valid, sp)
    ensures forall lhs, rhs :: InUnorderedMap(valid, lhs, rhs) ==>
      |lhs| > 0 && |rhs| > 0 &&
      SwapVerdict(ProductOfSingletons(product, sp, lhs), ProductOfSingletons(product, sp, rhs)) == Valid
  {
    forall l | l in sp ensures |l| > 0 && sp[l] == ProductOfSingletons(product, sp, l) {
      if l in singles {
        assert l == [l[0]];
      } else {
        forall i | 0 <= i < |l| ensures PartitionAt(singles, [l[i]]) == PartitionAt(sp, [l[i]]) {
          var single := [l[i]];
          if single in sp && single !in singles {
            assert ProductOfSingletons(product, singles, single) == PartitionAt(singles, [single[0]]);
          }
        }
        ProductOfSingletonsAgree(product, singles, sp, l);
      }
    }
  }

  /** A proper prefix of `rhs` is already recorded as valid for `lhs`. */
  predicate RhsPrefixValid(valid: OrderDependencies, lhs: AttributeList, rhs: AttributeList)
    requires |rhs| > 0
  {
    exists p :: p in GetPrefixes(rhs) && InUnorderedMap(valid, lhs, p)
  }

  /** Some proper prefix of `lhs` is recorded as merge-invalidated for `rhs`. */
  predicate LhsPrefixMergeInvalidated(mergeInvalidated: OrderDependencies, lhs: AttributeList, rhs: AttributeList)
    requires |lhs| > 0
  {
    exists p :: p in GetPrefixes(lhs) && InUnorderedMap(mergeInvalidated, p, rhs)
  }

  /**
   * The filter UpdateCandidateSets applies to an extended rhs `e` of a
   * candidate lhs -> rhs with |lhs| > 1: some prefix of `e` is valid for the
   * max prefix of lhs, or `e` is itself a candidate for that max prefix.
   */
  predicate ExtensionKept(cs: OrderDependencies, valid: OrderDependencies, lhs: AttributeList, e: AttributeList) {
    || |lhs| <= 1
    || (|e| > 0 && exists p :: p in GetPrefixes(e) && InUnorderedMap(valid, MaxPrefix(lhs), p))
    || InUnorderedMap(cs, MaxPrefix(lhs), e)
  }

  /**
   * `e` is kept as a next candidate for lhs because of rhs: rhs is not yet
   * valid for lhs, `e` extends it by one foreign single attribute, passes
   * ExtensionKept and is minimal.
   */
  predicate Yields(cs: OrderDependencies, valid: OrderDependencies, singles: seq<AttributeList>,
                   lhs: AttributeList, rhs: AttributeList, e: AttributeList)
    requires forall s :: s in singles ==> |s| > 0
  {
    !InUnorderedMap(valid, lhs, rhs) && e in Extend(singles, lhs, rhs) &&
    ExtensionKept(cs, valid, lhs, e) && IsMinimal(valid, e)
  }

  /**
   * The next candidate set of `lhs` (level >= 3).  For an lhs shorter or
   * longer than level - 1: every rhs not yet valid for lhs, extended by each
   * single attribute foreign to lhs and rhs, when the extension passes
   * ExtensionKept and is minimal.  For an lhs of length level - 1 that is
   * minimal: the candidates of its max prefix that are disjoint from it.
   */
  function NextCandidateSet(cs: OrderDependencies, valid: OrderDependencies, singles: seq<AttributeList>,
                            level: nat, lhs: AttributeList): set<AttributeList>
    requires lhs in cs && level >= 3
    requires forall s :: s in singles ==> |s| > 0
  {
    if |lhs| != level - 1 then
      set rhs, e | rhs in cs[lhs] && e in Extend(singles, lhs, rhs) && Yields(cs, valid, singles, lhs, rhs, e) :: e
    else if IsMinimal(valid, lhs) then
      set rhs | rhs in Lookup(cs, MaxPrefix(lhs)) && AreDisjoint(lhs, rhs)
    else
      {}
  }

  /** UpdateCandidateSets: every lhs with a non-empty next candidate set, mapped to it. */
  function NextCandidates(cs: OrderDependencies, valid: OrderDependencies, singles: seq<AttributeList>,
                          level: nat): (next: OrderDependencies)
    requires level >= 3
    requires forall s :: s in singles ==> |s| > 0
    ensures forall lhs :: lhs in next ==> lhs in cs && next[lhs] != {}
  {
    map lhs | lhs in cs && NextCandidateSet(cs, valid, singles, level, lhs) != {} ::
      NextCandidateSet(cs, valid, singles, level, lhs)
  }

  /** Extending a rhs disjoint from lhs by an attribute foreign to lhs keeps it disjoint. */
  lemma ExtensionStaysDisjoint(lhs: AttributeList, rhs: AttributeList, a: nat)
    requires AreDisjoint(lhs, rhs)
    requires a !in lhs
    ensures AreDisjoint(lhs, rhs + [a])
  {
    var e := rhs + [a];
    forall i, j | 0 <= i < |lhs| && 0 <= j < |e| ensures lhs[i] != e[j] {
      if j < |rhs| {
        assert e[j] == rhs[j];
      }
    }
  }

  /** Every extension of a rhs disjoint from lhs is non-empty and disjoint from lhs. */
  lemma ExtendedStaysDisjoint(singles: seq<AttributeList>, lhs: AttributeList, rhs: AttributeList, e: AttributeList)
    requires forall s :: s in singles ==> |s| > 0
    requires AreDisjoint(lhs, rhs)
    requires e in Extend(singles, lhs, rhs)
    ensures |e| > 0 && AreDisjoint(lhs, e)
  {
    ExtendAddsForeignAttribute(singles, lhs, rhs, e);
    var a :| a !in lhs && e == rhs + [a];
    ExtensionStaysDisjoint(lhs, rhs, a);
  }

  /** One candidate of the next level has non-empty, disjoint sides. */
  lemma NextCandidateDisjoint(cs: OrderDependencies, valid: OrderDependencies,
                              singles: seq<AttributeList>, level: nat, lhs: AttributeList, e: AttributeList)
    requires level >= 3
    requires forall s :: s in singles ==> |s| > 0
    requires DisjointSides(cs)
    requires lhs in cs && e in NextCandidateSet(cs, valid, singles, level, lhs)
    ensures |lhs| > 0 && |e| > 0 && AreDisjoint(lhs, e)
  {
    if |lhs| != level - 1 {
      var rhs :| rhs in cs[lhs] && e in Extend(singles, lhs, rhs);
      assert InUnorderedMap(cs, lhs, rhs);
      ExtendedStaysDisjoint(singles, lhs, rhs, e);
    } else {
      assert InUnorderedMap(cs, MaxPrefix(lhs), e);
    }
  }

  /** The candidates of the next level again have non-empty, disjoint sides. */
  lemma NextCandidatesKeepDisjointSides(cs: OrderDependencies, valid: OrderDependencies,
                                        singles: seq<AttributeList>, level: nat)
    requires level >= 3
    requires forall s :: s in singles ==> |s| > 0
    requires DisjointSides(cs)
    ensures DisjointSides(NextCandidates(cs, valid, singles, level))
  {
    var next := NextCandidates(cs, valid, singles, level);
    forall lhs, e | InUnorderedMap(next, lhs, e)
      ensures |lhs| > 0 && |e| > 0 && AreDisjoint(lhs, e)
    {
      NextCandidateDisjoint(cs, valid, singles, level, lhs, e);
    }
  }

  /** Every candidate extended in the next level is an extension of a current candidate by one foreign attribute. */
  lemma NextCandidatesExtendByOne(cs: OrderDependencies, valid: OrderDependencies,
                                  singles: seq<AttributeList>, level: nat, lhs: AttributeList, e: AttributeList)
    requires level >= 3
    requires forall s :: s in singles ==> |s| > 0
    requires InUnorderedMap(NextCandidates(cs, valid, singles, level), lhs, e)
    requires |lhs| != level - 1
    ensures IsMinimal(valid, e)
    ensures exists rhs, s :: InUnorderedMap(cs, lhs, rhs) && !InUnorderedMap(valid, lhs, rhs) &&
              s in singles && AreDisjoint(s, lhs) && AreDisjoint(s, rhs) && e == rhs + [s[0]]
  {
    assert e in NextCandidateSet(cs, valid, singles, level, lhs);
    var rhs :| rhs in cs[lhs] && e in Extend(singles, lhs, rhs) && Yields(cs, valid, singles, lhs, rhs, e);
    var s :| s in singles && AreDisjoint(s, lhs) && AreDisjoint(s, rhs) && e == rhs + [s[0]];
  }

  /** The lhs of length level - 1 inherit the candidates of their max prefix, and only when minimal. */
  lemma NextCandidatesInheritFromPrefix(cs: OrderDependencies, valid: OrderDependencies,
                                        singles: seq<AttributeList>, level: nat, lhs: AttributeList, e: AttributeList)
    requires level >= 3
    requires forall s :: s in singles ==> |s| > 0
    requires lhs in cs && |lhs| == level - 1
    ensures InUnorderedMap(NextCandidates(cs, valid, singles, level), lhs, e) <==>
              IsMinimal(valid, lhs) && InUnorderedMap(cs, MaxPrefix(lhs), e) && AreDisjoint(lhs, e)
  {
    if IsMinimal(valid, lhs) && InUnorderedMap(cs, MaxPrefix(lhs), e) && AreDisjoint(lhs, e) {
      assert e in NextCandidateSet(cs, valid, singles, level, lhs);
    }
  }

  /** Some candidate of `prefix` has `rhs` as its max prefix. */
  ghost predicate ExtendedBy(cs: OrderDependencies, prefix: AttributeList, rhs: AttributeList) {
    exists o :: o in Lookup(cs, prefix) && |o| > 0 && MaxPrefix(o) == rhs
  }

  /**
   * MergePrune took `before` to `after`: every dropped candidate lhs -> rhs has
   * |lhs| > 1, the max prefix of lhs merge-invalidated for rhs and no candidate
   * of that max prefix extending rhs; every other candidate is kept.
   */
  ghost predicate MergePruned(before: OrderDependencies, after: OrderDependencies, mergeInvalidated: OrderDependencies) {
    && (forall l, r :: InUnorderedMap(before, l, r) && !InUnorderedMap(after, l, r) ==>
          |l| > 1 && InUnorderedMap(mergeInvalidated, MaxPrefix(l), r) && !ExtendedBy(after, MaxPrefix(l), r))
    && (forall l, r :: (InUnorderedMap(before, l, r) && (|l| <= 1 || !InUnorderedMap(mergeInvalidated, MaxPrefix(l), r))) ==>
          InUnorderedMap(after, l, r))
  }

  /** Dropping one more candidate lhs -> rhs that meets the condition keeps MergePruned. */
  lemma MergePrunedStep(before: OrderDependencies, after: OrderDependencies, mergeInvalidated: OrderDependencies,
                        lhs: AttributeList, rhs: AttributeList)
    requires MergePruned(before, after, mergeInvalidated)
    requires |lhs| > 1 && lhs in after
    requires InUnorderedMap(mergeInvalidated, MaxPrefix(lhs), rhs) && !ExtendedBy(after, MaxPrefix(lhs), rhs)
    ensures MergePruned(before, after[lhs := after[lhs] - {rhs}], mergeInvalidated)
  {
    var after' := after[lhs := after[lhs] - {rhs}];
    assert MaxPrefix(lhs) != lhs;
    assert Lookup(after', MaxPrefix(lhs)) == Lookup(after, MaxPrefix(lhs));
    forall p, r | !ExtendedBy(after, p, r) ensures !ExtendedBy(after', p, r) {
      assert Lookup(after', p) <= Lookup(after, p);
    }
  }

  /** MergePruned composes along a shrinking sequence of candidate sets. */
  lemma MergePrunedTrans(a: OrderDependencies, b: OrderDependencies, c: OrderDependencies,
                         mergeInvalidated: OrderDependencies)
    requires MergePruned(a, b, mergeInvalidated) && MergePruned(b, c, mergeInvalidated) && Included(c, b)
    ensures MergePruned(a, c, mergeInvalidated)
  {
    forall p, r | !ExtendedBy(b, p, r) ensures !ExtendedBy(c, p, r) {
      forall o | o in Lookup(c, p) ensures o in Lookup(b, p) {
        assert InUnorderedMap(c, p, o);
      }
    }
  }
  /**
   * A candidate lhs -> rhs of `cs` that MergePrune drops when it meets it in
   * `cs`: lhs has at least two attributes, its max prefix is merge-invalidated
   * for rhs, and no candidate of that max prefix has rhs as its max prefix.
   */
  ghost predicate MergePrunable(cs: OrderDependencies, mergeInvalidated: OrderDependencies, l: AttributeList, r: AttributeList) {
    && InUnorderedMap(cs, l, r) && |l| > 1
    && InUnorderedMap(mergeInvalidated, MaxPrefix(l), r) && !ExtendedBy(cs, MaxPrefix(l), r)
  }

  /** A prunable candidate that is still a candidate after others were dropped is still prunable. */
  lemma MergePrunableIncluded(large: OrderDependencies, small: OrderDependencies, mergeInvalidated: OrderDependencies,
                              l: AttributeList, r: AttributeList)
    requires Included(small, large) && MergePrunable(large, mergeInvalidated, l, r) && InUnorderedMap(small, l, r)
    ensures MergePrunable(small, mergeInvalidated, l, r)
  {
    forall o | o in Lookup(small, MaxPrefix(l)) ensures o in Lookup(large, MaxPrefix(l)) {
      assert InUnorderedMap(small, MaxPrefix(l), o);
    }
  }


  /** The node has proper prefixes and the candidate set of every one of them is empty. */
  predicate AllPrefixCandidatesEmpty(cs: OrderDependencies, node: Node)
    requires |node| > 0
  {
    |node| > 1 && forall p :: p in GetPrefixes(node) ==> Lookup(cs, p) == {}
  }

  /** A node is dropped by Prune iff it is at least two long and every non-empty proper prefix has no candidates. */
  lemma AllPrefixCandidatesEmptyMeaning(cs: OrderDependencies, node: Node)
    requires |node| > 0
    ensures AllPrefixCandidatesEmpty(cs, node) <==>
              |node| > 1 && forall k :: 0 < k < |node| ==> Lookup(cs, node[..k]) == {}
  {
    forall k | 0 < k < |node| ensures node[..k] in GetPrefixes(node) {
      PrefixesMembers(node, node[..k]);
    }
    forall p | p in GetPrefixes(node) ensures exists k :: 0 < k < |node| && p == node[..k] {
      PrefixesMembers(node, p);
    }
  }

  /** The candidate sets without the entries that are empty. */
  function WithoutEmpty(cs: OrderDependencies): (r: OrderDependencies)
    ensures forall l :: l in r ==> r[l] != {}
    ensures forall l, x :: InUnorderedMap(r, l, x) <==> InUnorderedMap(cs, l, x)
  {
    map l | l in cs && cs[l] != {} :: cs[l]
  }

  /**
   * Every recorded valid dependency has sorted partitions for both sides, and
   * the swap check on them returned valid.
   */
  ghost predicate PassedSwapCheck(valid: OrderDependencies, sp: map<AttributeList, SortedPartition>) {
    forall lhs, rhs :: InUnorderedMap(valid, lhs, rhs) ==>
      lhs in sp && rhs in sp && SwapVerdict(sp[lhs], sp[rhs]) == Valid
  }

  /** Adding entries to the partitions, none changed, keeps PassedSwapCheck. */
  lemma PassedSwapCheckGrows(valid: OrderDependencies, sp: map<AttributeList, SortedPartition>,
                             sp': map<AttributeList, SortedPartition>)
    requires PassedSwapCheck(valid, sp)
    requires forall l :: l in sp ==> l in sp' && sp'[l] == sp[l]
    ensures PassedSwapCheck(valid, sp')
  {
  }

  /**
   * GetPrefixBlocks: `blocks` maps the max prefix of every node of `l` to the
   * nodes of `l` with that max prefix, each listed once.
   */
  ghost predicate IsPrefixBlocks(l: set<Node>, blocks: map<AttributeList, seq<Node>>) {
    && (forall p :: p in blocks <==> exists n :: n in l && |n| > 0 && MaxPrefix(n) == p)
    && (forall p, n :: p in blocks ==> (n in blocks[p] <==> n in l && |n| > 0 && MaxPrefix(n) == p))
    && (forall p :: p in blocks ==> forall x, y :: 0 <= x < y < |blocks[p]| ==> blocks[p][x] != blocks[p][y])
  }

  /** `j` joins two different nodes of one block. */
  ghost predicate InBlockJoins(block: seq<Node>, j: Node) {
    exists x, y :: 0 <= x < |block| && 0 <= y < |block| && block[x] != block[y] && |block[y]| > 0 &&
      j == JoinNodes(block[x], block[y])
  }

  /** A join of the level is a join within the block of its shared prefix. */
  lemma JoinInBlock(l: set<Node>, blocks: map<AttributeList, seq<Node>>, n: Node, m: Node)
    requires IsPrefixBlocks(l, blocks)
    requires n in l && m in l && |n| > 0 && |m| > 0 && n != m && MaxPrefix(n) == MaxPrefix(m)
    ensures MaxPrefix(n) in blocks && InBlockJoins(blocks[MaxPrefix(n)], JoinNodes(n, m))
  {
    var p := MaxPrefix(n);
    assert p in blocks;
    assert n in blocks[p] && m in blocks[p];
    var x :| 0 <= x < |blocks[p]| && blocks[p][x] == n;
    var y :| 0 <= y < |blocks[p]| && blocks[p][y] == m;
  }

  /** A join within a block is a join of the level. */
  lemma BlockJoinInLevel(l: set<Node>, blocks: map<AttributeList, seq<Node>>, p: AttributeList, j: Node)
    requires IsPrefixBlocks(l, blocks)
    requires p in blocks && InBlockJoins(blocks[p], j)
    ensures j in Joins(l)
  {
    var x, y :| 0 <= x < |blocks[p]| && 0 <= y < |blocks[p]| && blocks[p][x] != blocks[p][y] &&
      |blocks[p][y]| > 0 && j == JoinNodes(blocks[p][x], blocks[p][y]);
    var n, m := blocks[p][x], blocks[p][y];
    BlockMember(l, blocks, p, x);
    BlockMember(l, blocks, p, y);
    JoinIsJoin(l, n, m);
  }

  /** A node listed in a prefix block is a node of the level with that max prefix. */
  lemma BlockMember(l: set<Node>, blocks: map<AttributeList, seq<Node>>, p: AttributeList, x: nat)
    requires IsPrefixBlocks(l, blocks)
    requires p in blocks && x < |blocks[p]|
    ensures blocks[p][x] in l && |blocks[p][x]| > 0 && MaxPrefix(blocks[p][x]) == p
  {
    assert blocks[p][x] in blocks[p];
  }

  lemma JoinIsJoin(l: set<Node>, n: Node, m: Node)
    requires n in l && m in l && |n| > 0 && |m| > 0 && n != m && MaxPrefix(n) == MaxPrefix(m)
    ensures JoinNodes(n, m) in Joins(l)
  {
  }

  /** Joining within every prefix block yields exactly the joins of the level. */
  lemma JoinsFromBlocks(l: set<Node>, blocks: map<AttributeList, seq<Node>>)
    requires IsPrefixBlocks(l, blocks)
    ensures forall j :: j in Joins(l) <==> exists p :: p in blocks && InBlockJoins(blocks[p], j)
  {
    forall j | j in Joins(l) ensures exists p :: p in blocks && InBlockJoins(blocks[p], j) {
      var n, m :| n in l && m in l && |n| > 0 && |m| > 0 && n != m && MaxPrefix(n) == MaxPrefix(m) && j == JoinNodes(n, m);
      JoinInBlock(l, blocks, n, m);
    }
    forall j, p | p in blocks && InBlockJoins(blocks[p], j) ensures j in Joins(l) {
      BlockJoinInLevel(l, blocks, p, j);
    }
  }

  /** Attributes of a list are pairwise different. */
  predicate DistinctAttributes(s: AttributeList) {
    forall i, j :: 0 <= i < j < |s| ==> s[i] != s[j]
  }

  /** The joins of two different nodes of one prefix block: the candidates of the next level. */
  ghost function Joins(l: set<Node>): set<Node> {
    set n, m | n in l && m in l && |n| > 0 && |m| > 0 && n != m && MaxPrefix(n) == MaxPrefix(m) :: JoinNodes(n, m)
  }

  /** Every node of a level has length `k`, pairwise different attributes, all of them in `attrs`. */
  ghost predicate LevelShape(l: set<Node>, k: nat, attrs: set<nat>) {
    forall n :: n in l ==> |n| == k && DistinctAttributes(n) && forall i :: 0 <= i < |n| ==> n[i] in attrs
  }

  /** Every recorded dependency lhs -> rhs has pairwise different attributes, all of them in `attrs`. */
  ghost predicate OverAttributes(m: OrderDependencies, attrs: set<nat>) {
    forall lhs, rhs :: InUnorderedMap(m, lhs, rhs) ==>
      DistinctAttributes(lhs + rhs) && forall i :: 0 <= i < |lhs + rhs| ==> (lhs + rhs)[i] in attrs
  }

  /**
   * Recording dependencies that each split a node of a level keeps every
   * recorded dependency over pairwise different attributes of the pool.
   */
  lemma OverAttributesGrow(before: OrderDependencies, after: OrderDependencies, l: set<Node>, k: nat, attrs: set<nat>)
    requires OverAttributes(before, attrs) && LevelShape(l, k, attrs)
    requires forall lhs, rhs :: InUnorderedMap(after, lhs, rhs) && !InUnorderedMap(before, lhs, rhs) ==> lhs + rhs in l
    ensures OverAttributes(after, attrs)
  {
    forall lhs, rhs | InUnorderedMap(after, lhs, rhs)
      ensures DistinctAttributes(lhs + rhs) && forall i :: 0 <= i < |lhs + rhs| ==> (lhs + rhs)[i] in attrs
    {
      if !InUnorderedMap(before, lhs, rhs) {
        assert lhs + rhs in l;
      }
    }
  }

  /** Joining two different nodes of one prefix block gives a node one longer with pairwise different attributes. */
  lemma JoinShape(n: Node, m: Node, k: nat, attrs: set<nat>)
    requires k > 0 && |n| == k && |m| == k && n != m && MaxPrefix(n) == MaxPrefix(m)
    requires DistinctAttributes(n) && DistinctAttributes(m)
    requires (forall i :: 0 <= i < k ==> n[i] in attrs) && (forall i :: 0 <= i < k ==> m[i] in attrs)
    ensures var j := JoinNodes(n, m);
            |j| == k + 1 && DistinctAttributes(j) && forall i :: 0 <= i < |j| ==> j[i] in attrs
  {
    var p := MaxPrefix(n);
    assert n == p + [n[k - 1]] && m == p + [m[k - 1]];
    assert m[k - 1] != n[k - 1];
    forall i | 0 <= i < k - 1 ensures n[i] != m[k - 1] {
      assert n[i] == p[i] == m[i];
    }
    var j := JoinNodes(n, m);
    assert j == n + [m[k - 1]];
    forall a, b | 0 <= a < b < |j| ensures j[a] != j[b] {
      if b < k {
        assert j[a] == n[a] && j[b] == n[b];
      }
    }
  }

  /** Joining keeps the shape of a level, one attribute longer. */
  lemma JoinsShape(l: set<Node>, k: nat, attrs: set<nat>)
    requires k > 0
    requires LevelShape(l, k, attrs)
    ensures LevelShape(Joins(l), k + 1, attrs)
  {
    forall j | j in Joins(l)
      ensures |j| == k + 1 && DistinctAttributes(j) && forall i :: 0 <= i < |j| ==> j[i] in attrs
    {
      var n, m :| n in l && m in l && |n| > 0 && |m| > 0 && n != m && MaxPrefix(n) == MaxPrefix(m) && j == JoinNodes(n, m);
      JoinShape(n, m, k, attrs);
    }
  }

  /** A list of pairwise different attributes from `attrs` is at most |attrs| long. */
  lemma {:induction false} DistinctAttributesBound(s: AttributeList, attrs: set<nat>)
    requires DistinctAttributes(s)
    requires forall i :: 0 <= i < |s| ==> s[i] in attrs
    ensures |s| <= |attrs|
    decreases |s|
  {
    if s != [] {
      var last := s[|s| - 1];
      var rest := s[..|s| - 1];
      forall i | 0 <= i < |rest| ensures rest[i] in attrs - {last} {
        assert rest[i] == s[i];
      }
      DistinctAttributesBound(rest, attrs - {last});
    }
  }
}
