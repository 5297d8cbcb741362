/**
 * Sorted partitions of the ORDER algorithm: the rows of a relation grouped
 * into classes of equal value, the classes in ascending value order, and the
 * two-cursor walk that classifies a candidate dependency lhs -> rhs as valid,
 * merge or swap by comparing the sorted partitions of lhs and rhs.
 */
module SortedPartitions {
  import Sorting

  /** A row index of the relation. */
  type RowId = nat

  /** SortedPartition::sorted_partition: equivalence classes of rows, in value order. */
  datatype SortedPartition = SortedPartition(sortedPartition: seq<set<RowId>>)

  /** Order::ValidityType. */
  datatype ValidityType = Valid | Merge | Swap

  /** Every class is non-empty. */
  ghost predicate NonEmptyClasses(classes: seq<set<RowId>>) {
    forall c :: 0 <= c < |classes| ==> classes[c] != {}
  }

  /** Rows of one class have equal keys. */
  ghost predicate EqualKeysWithin(classes: seq<set<RowId>>, key: RowId -> int) {
    forall c, x, y :: 0 <= c < |classes| && x in classes[c] && y in classes[c] ==> key(x) == key(y)
  }

  /** Every row of an earlier class has a smaller key than every row of a later class. */
  ghost predicate AscendingKeys(classes: seq<set<RowId>>, key: RowId -> int) {
    forall c, d, x, y :: 0 <= c < d < |classes| && x in classes[c] && y in classes[d] ==> key(x) < key(y)
  }

  /**
   * `classes` partitions exactly `rows` into non-empty, pairwise disjoint
   * classes; rows of one class have the same key, and every row of an earlier
   * class has a smaller key than every row of a later class.
   */
  ghost predicate IsSortedPartition(classes: seq<set<RowId>>, rows: set<RowId>, key: RowId -> int) {
    && NonEmptyClasses(classes)
    && (forall x :: x in rows <==> exists c :: 0 <= c < |classes| && x in classes[c])
    && (forall c, d :: 0 <= c < d < |classes| ==> classes[c] !! classes[d])
    && EqualKeysWithin(classes, key)
    && AscendingKeys(classes, key)
  }

  /** Rows in non-decreasing key order. */
  ghost predicate SortedByKey(rows: seq<RowId>, key: RowId -> int) {
    forall i, j :: 0 <= i < j < |rows| ==> key(rows[i]) <= key(rows[j])
  }

  /**
   * The grouping loop of CreateSortedPartitions on a sorted sequence of rows:
   * the first row opens a class; each further row joins the last class when its
   * key equals that of the row before it, and opens a new class otherwise.
   */
  function Group(rows: seq<RowId>, key: RowId -> int): (classes: seq<set<RowId>>)
    requires |rows| > 0
    ensures 0 < |classes| <= |rows|
    decreases |rows|
  {
    if |rows| == 1 then [{rows[0]}]
    else
      var g := Group(rows[..|rows| - 1], key);
      var x := rows[|rows| - 1];
      if key(rows[|rows| - 2]) == key(x) then g[..|g| - 1] + [g[|g| - 1] + {x}]
      else g + [{x}]
  }

  /** What the grouping of CreateSortedPartitions yields as written: its first class reads front() of the rows. */
  datatype GroupingOutcome = Grouped(classes: seq<set<RowId>>) | FrontOfEmpty

  /**
   * The grouping of CreateSortedPartitions as written: it opens the first
   * class with the front of the collected rows before looking at their number,
   * so with no row it reads front() of an empty vector, which is undefined.
   */
  function GroupAsWritten(rows: seq<RowId>, key: RowId -> int): (r: GroupingOutcome)
    ensures r == FrontOfEmpty <==> |rows| == 0
    ensures r.Grouped? ==> NonEmptyClasses(r.classes) && CoversRows(r.classes, rows)
  {
    if |rows| == 0 then FrontOfEmpty
    else
      GroupCovers(rows, key);
      Grouped(Group(rows, key))
  }

  /**
   * A column with no non-null row (no rows at all, or a null in every row)
   * makes the grouping as written read the front of an empty vector; with at
   * least one row it groups as the corrected SortedPartitionOfColumn does.
   */
  lemma GroupAsWrittenNeedsARow(numRows: nat, nullRows: set<RowId>, rows: seq<RowId>, key: RowId -> int)
    requires forall x: RowId :: x in rows <==> x < numRows && x !in nullRows
    ensures GroupAsWritten(rows, key) == FrontOfEmpty <==> forall k: RowId :: k < numRows ==> k in nullRows
  {
    if |rows| > 0 {
      assert rows[0] in rows;
    } else {
      forall k: RowId | k < numRows ensures k in nullRows {
        assert k !in rows;
      }
    }
  }

  /** The classes together hold exactly the rows of the sequence. */
  ghost predicate CoversRows(classes: seq<set<RowId>>, rows: seq<RowId>) {
    forall x :: x in rows <==> exists c :: 0 <= c < |classes| && x in classes[c]
  }

  /** Grouping yields non-empty classes that hold exactly the given rows, the last row in the last class. */
  lemma {:induction false} GroupCovers(rows: seq<RowId>, key: RowId -> int)
    requires |rows| > 0
    ensures NonEmptyClasses(Group(rows, key))
    ensures CoversRows(Group(rows, key), rows)
    ensures rows[|rows| - 1] in Group(rows, key)[|Group(rows, key)| - 1]
    decreases |rows|
  {
    if |rows| > 1 {
      var prefix := rows[..|rows| - 1];
      var g := Group(prefix, key);
      var x := rows[|rows| - 1];
      GroupCovers(prefix, key);
      assert rows == prefix + [x];
      var h := Group(rows, key);
      assert forall c :: 0 <= c < |g| ==> g[c] <= h[c];
      assert forall c :: 0 <= c < |h| ==> h[c] <= (if c < |g| then g[c] else {}) + {x};
      forall y | y in rows ensures exists c :: 0 <= c < |h| && y in h[c] {
        if y == x {
          assert y in h[|h| - 1];
        } else {
          assert y in prefix;
          var c :| 0 <= c < |g| && y in g[c];
          assert y in h[c];
        }
      }
      forall y, c | 0 <= c < |h| && y in h[c] ensures y in rows {
        if y != x {
          assert y in g[c];
          assert y in prefix;
        }
      }
    } else {
      assert rows[0] in Group(rows, key)[0];
    }
  }

  /** Adding a row whose key equals that of the last class keeps the key order. */
  lemma JoinLastClass(g: seq<set<RowId>>, w: RowId, x: RowId, key: RowId -> int)
    requires |g| > 0 && w in g[|g| - 1] && key(w) == key(x)
    requires EqualKeysWithin(g, key) && AscendingKeys(g, key)
    ensures EqualKeysWithin(g[..|g| - 1] + [g[|g| - 1] + {x}], key)
    ensures AscendingKeys(g[..|g| - 1] + [g[|g| - 1] + {x}], key)
  {
    var h := g[..|g| - 1] + [g[|g| - 1] + {x}];
    assert forall c :: 0 <= c < |h| - 1 ==> h[c] == g[c];
    forall c, d, y, z | 0 <= c < d < |h| && y in h[c] && z in h[d] ensures key(y) < key(z) {
      if d == |h| - 1 && z == x {
        assert key(y) < key(w);
      }
    }
  }

  /** Opening a class for a row with a larger key than every row so far keeps the key order. */
  lemma OpenClass(g: seq<set<RowId>>, x: RowId, key: RowId -> int)
    requires EqualKeysWithin(g, key) && AscendingKeys(g, key)
    requires forall c, y :: 0 <= c < |g| && y in g[c] ==> key(y) < key(x)
    ensures EqualKeysWithin(g + [{x}], key)
    ensures AscendingKeys(g + [{x}], key)
  {
  }

  /** In a sorted sequence, the last row has the largest key. */
  lemma LastKeyIsLargest(rows: seq<RowId>, key: RowId -> int)
    requires |rows| > 0 && SortedByKey(rows, key)
    ensures forall y :: y in rows ==> key(y) <= key(rows[|rows| - 1])
  {
    forall y | y in rows ensures key(y) <= key(rows[|rows| - 1]) {
      var i :| 0 <= i < |rows| && rows[i] == y;
    }
  }

  /**
   * Grouping a sorted sequence of rows keeps equal keys within classes and
   * ascending keys across them.
   */
  lemma {:induction false} GroupOrdersKeys(rows: seq<RowId>, key: RowId -> int)
    requires |rows| > 0
    requires SortedByKey(rows, key)
    ensures EqualKeysWithin(Group(rows, key), key)
    ensures AscendingKeys(Group(rows, key), key)
    decreases |rows|
  {
    if |rows| > 1 {
      var prefix := rows[..|rows| - 1];
      var g := Group(prefix, key);
      var x := rows[|rows| - 1];
      var last := prefix[|prefix| - 1];
      assert SortedByKey(prefix, key);
      GroupOrdersKeys(prefix, key);
      GroupCovers(prefix, key);
      assert key(last) <= key(x);
      if key(last) == key(x) {
        JoinLastClass(g, last, x, key);
        assert Group(rows, key) == g[..|g| - 1] + [g[|g| - 1] + {x}];
      } else {
        LastKeyIsLargest(prefix, key);
        assert forall c, y :: 0 <= c < |g| && y in g[c] ==> y in prefix;
        OpenClass(g, x, key);
        assert Group(rows, key) == g + [{x}];
      }
    }
  }

  /** Grouping a sorted sequence of rows yields a sorted partition of exactly those rows. */
  lemma GroupIsSortedPartition(rows: seq<RowId>, key: RowId -> int, rowSet: set<RowId>)
    requires |rows| > 0
    requires SortedByKey(rows, key)
    requires forall x :: x in rowSet <==> x in rows
    ensures IsSortedPartition(Group(rows, key), rowSet, key)
  {
    GroupCovers(rows, key);
    GroupOrdersKeys(rows, key);
    var g := Group(rows, key);
    forall c, d | 0 <= c < d < |g| ensures g[c] !! g[d] {
      forall y | y in g[c] ensures y !in g[d] {
        assert forall z :: z in g[d] ==> key(y) < key(z);
      }
    }
  }

  /** The rows below `numRows` that are not null, in increasing order. */
  method CollectRows(numRows: nat, nullRows: set<RowId>) returns (indexed: seq<RowId>)
    ensures forall x: RowId :: x in indexed <==> x < numRows && x !in nullRows
  {
    indexed := [];
    for k := 0 to numRows
      invariant forall x: RowId :: x in indexed <==> x < k && x !in nullRows
    {
      if k !in nullRows {
        indexed := indexed + [k];
      }
    }
  }

  /** The grouping loop of CreateSortedPartitions over the sorted rows. */
  method GroupSorted(a: array<RowId>, key: RowId -> int) returns (classes: seq<set<RowId>>)
    requires a.Length > 0
    ensures classes == Group(a[..], key)
  {
    classes := [{a[0]}];
    var k := 1;
    while k < a.Length
      invariant 1 <= k <= a.Length
      invariant classes == Group(a[..k], key)
    {
      assert a[..k + 1][..k] == a[..k];
      if key(a[k - 1]) == key(a[k]) {
        classes := classes[..|classes| - 1] + [classes[|classes| - 1] + {a[k]}];
      } else {
        classes := classes + [{a[k]}];
      }
      k := k + 1;
    }
    assert a[..k] == a[..];
  }

  /** Comparing rows by key is a strict weak ordering, as std::sort needs. */
  lemma KeyOrderIsStrictWeak(key: RowId -> int)
    ensures Sorting.StrictWeakOrder((x: RowId, y: RowId) => key(x) < key(y))
  {
  }

  /** Sorted by the key comparison means non-decreasing keys. */
  lemma SortedByKeyOrder(rows: seq<RowId>, key: RowId -> int)
    requires Sorting.SortedBy((x: RowId, y: RowId) => key(x) < key(y), rows)
    ensures SortedByKey(rows, key)
  {
  }

  /**
   * The per-column part of CreateSortedPartitions: the rows below `numRows`
   * that are not null are collected in increasing order, sorted by key, and
   * grouped.  The source sorts (row, value) pairs by value; since the value of
   * a pair is the column's value at its row, `key` compares rows by that value.
   * `rows` names the set of collected rows.  With no row collected the source
   * reads front() of an empty vector (GroupAsWritten); here the column then
   * gets the partition with no class.
   */
  method SortedPartitionOfColumn(numRows: nat, nullRows: set<RowId>, key: RowId -> int, ghost rows: set<RowId>)
    returns (classes: seq<set<RowId>>)
    requires forall k: RowId :: k in rows <==> k < numRows && k !in nullRows
    ensures IsSortedPartition(classes, rows, key)
    ensures classes == [] <==> rows == {}
  {
    var indexed := CollectRows(numRows, nullRows);
    if |indexed| == 0 {
      return [];
    }
    assert indexed[0] in indexed;
    assert indexed[0] in rows;
    var a := new RowId[|indexed|](i requires 0 <= i < |indexed| => indexed[i]);
    assert a[..] == indexed;
    var less := (x: RowId, y: RowId) => key(x) < key(y);
    KeyOrderIsStrictWeak(key);
    Sorting.Sort(a, less);
    SortedByKeyOrder(a[..], key);
    var sorted := a[..];
    assert multiset(sorted) == multiset(indexed);
    forall x ensures x in sorted <==> x in indexed {
      assert x in sorted <==> x in multiset(sorted);
      assert x in indexed <==> x in multiset(indexed);
    }
    classes := GroupSorted(a, key);
    GroupIsSortedPartition(sorted, key, rows);
  }

  /**
   * SubsetSetDifference: reports whether `a` is a subset of `b`, removing the
   * elements of `a` from `b` one at a time; on success `b` has lost exactly the
   * elements of `a`.  On failure the caller discards `b`, so it is only known
   * to lie between b \ a and b.
   */
  method SubsetSetDifference(a: set<RowId>, b: set<RowId>) returns (isSubset: bool, rest: set<RowId>)
    ensures isSubset <==> a <= b
    ensures isSubset ==> rest == b - a
    ensures b - a <= rest <= b
  {
    var pending := a;
    rest := b;
    while pending != {}
      invariant pending <= a
      invariant a - pending <= b
      invariant rest == b - (a - pending)
      decreases pending
    {
      var element :| element in pending;
      if element !in rest {
        return false, rest;
      }
      rest := rest - {element};
      pending := pending - {element};
    }
    return true, rest;
  }

  /**
   * The walk of CheckForSwap from a given cursor state: `li`/`ri` index the
   * current classes of l and r, `lEq`/`rEq` are the remainders of the current
   * classes, `nextL`/`nextR` say whether the next step starts a fresh class,
   * and `res` is the verdict so far.  The smaller current class must be a
   * subset of the other (otherwise: swap) and is removed from it; a strictly
   * smaller class on the left records a merge.
   */
  function Walk(l: seq<set<RowId>>, r: seq<set<RowId>>, li: nat, ri: nat,
                lEq: set<RowId>, rEq: set<RowId>, nextL: bool, nextR: bool, res: ValidityType): ValidityType
    requires li <= |l| && ri <= |r|
    decreases |l| + |r| - li - ri
  {
    if li == |l| || ri == |r| then res
    else
      var lCls := if nextL then l[li] else lEq;
      var rCls := if nextR then r[ri] else rEq;
      if |lCls| < |rCls| then
        if lCls <= rCls then Walk(l, r, li + 1, ri, lCls, rCls - lCls, true, false, Merge)
        else Swap
      else if rCls <= lCls then
        if lCls - rCls == {} then Walk(l, r, li + 1, ri + 1, lCls - rCls, rCls, true, true, res)
        else Walk(l, r, li, ri + 1, lCls - rCls, rCls, false, true, res)
      else Swap
  }

  /** The number of steps the walk takes from a given cursor state before it stops. */
  function WalkSteps(l: seq<set<RowId>>, r: seq<set<RowId>>, li: nat, ri: nat,
                     lEq: set<RowId>, rEq: set<RowId>, nextL: bool, nextR: bool): nat
    requires li <= |l| && ri <= |r|
    decreases |l| + |r| - li - ri
  {
    if li == |l| || ri == |r| then 0
    else
      var lCls := if nextL then l[li] else lEq;
      var rCls := if nextR then r[ri] else rEq;
      if |lCls| < |rCls| then
        if lCls <= rCls then 1 + WalkSteps(l, r, li + 1, ri, lCls, rCls - lCls, true, false)
        else 1
      else if rCls <= lCls then
        if lCls - rCls == {} then 1 + WalkSteps(l, r, li + 1, ri + 1, lCls - rCls, rCls, true, true)
        else 1 + WalkSteps(l, r, li, ri + 1, lCls - rCls, rCls, false, true)
      else 1
  }

  /** The verdict of CheckForSwap for the sorted partitions of lhs and rhs. */
  function SwapVerdict(l: SortedPartition, r: SortedPartition): ValidityType {
    Walk(l.sortedPartition, r.sortedPartition, 0, 0, {}, {}, true, true, Valid)
  }

  /** Every step advances a cursor, so the walk stops within |l| + |r| steps. */
  lemma {:induction false} WalkStepsBound(l: seq<set<RowId>>, r: seq<set<RowId>>, li: nat, ri: nat,
                                          lEq: set<RowId>, rEq: set<RowId>, nextL: bool, nextR: bool)
    requires li <= |l| && ri <= |r|
    ensures WalkSteps(l, r, li, ri, lEq, rEq, nextL, nextR) <= |l| + |r| - li - ri
    decreases |l| + |r| - li - ri
  {
    if li < |l| && ri < |r| {
      var lCls := if nextL then l[li] else lEq;
      var rCls := if nextR then r[ri] else rEq;
      if |lCls| < |rCls| {
        if lCls <= rCls {
          WalkStepsBound(l, r, li + 1, ri, lCls, rCls - lCls, true, false);
        }
      } else if rCls <= lCls {
        if lCls - rCls == {} {
          WalkStepsBound(l, r, li + 1, ri + 1, lCls - rCls, rCls, true, true);
        } else {
          WalkStepsBound(l, r, li, ri + 1, lCls - rCls, rCls, false, true);
        }
      }
    }
  }

  /** Walking a partition against itself matches every class with itself and stays valid. */
  lemma {:induction false} WalkIdentical(p: seq<set<RowId>>, i: nat, lEq: set<RowId>, rEq: set<RowId>)
    requires i <= |p|
    ensures Walk(p, p, i, i, lEq, rEq, true, true, Valid) == Valid
    decreases |p| - i
  {
    if i < |p| {
      WalkIdentical(p, i + 1, {}, p[i]);
    }
  }

  /** CheckForSwap returns valid for two identical partitions. */
  lemma SwapVerdictIdentical(p: SortedPartition)
    ensures SwapVerdict(p, p) == Valid
  {
    WalkIdentical(p.sortedPartition, 0, {}, {});
  }

  /** Once the walk has recorded merge it can only end as merge or swap. */
  lemma {:induction false} WalkNeverRevertsToValid(l: seq<set<RowId>>, r: seq<set<RowId>>, li: nat, ri: nat,
                                                   lEq: set<RowId>, rEq: set<RowId>, nextL: bool, nextR: bool,
                                                   res: ValidityType)
    requires li <= |l| && ri <= |r|
    requires res != Valid
    ensures Walk(l, r, li, ri, lEq, rEq, nextL, nextR, res) != Valid
    decreases |l| + |r| - li - ri
  {
    if li < |l| && ri < |r| {
      var lCls := if nextL then l[li] else lEq;
      var rCls := if nextR then r[ri] else rEq;
      if |lCls| < |rCls| {
        if lCls <= rCls {
          WalkNeverRevertsToValid(l, r, li + 1, ri, lCls, rCls - lCls, true, false, Merge);
        }
      } else if rCls <= lCls {
        if lCls - rCls == {} {
          WalkNeverRevertsToValid(l, r, li + 1, ri + 1, lCls - rCls, rCls, true, true, res);
        } else {
          WalkNeverRevertsToValid(l, r, li, ri + 1, lCls - rCls, rCls, false, true, res);
        }
      }
    }
  }

  /**
   * CheckForSwap: the two-cursor walk over the sorted partitions of lhs (`l`)
   * and rhs (`r`).  `steps` counts the iterations of the loop.
   */
  method CheckForSwap(l: SortedPartition, r: SortedPartition) returns (res: ValidityType, ghost steps: nat)
    ensures res == SwapVerdict(l, r)
    ensures steps == WalkSteps(l.sortedPartition, r.sortedPartition, 0, 0, {}, {}, true, true)
    ensures steps <= |l.sortedPartition| + |r.sortedPartition|
  {
    WalkStepsBound(l.sortedPartition, r.sortedPartition, 0, 0, {}, {}, true, true);
    res := Valid;
    steps := 0;
    var li: nat, ri: nat := 0, 0;
    var nextL, nextR := true, true;
    var lEqClass: set<RowId> := {};
    var rEqClass: set<RowId> := {};
    while li < |l.sortedPartition| && ri < |r.sortedPartition|
      invariant li <= |l.sortedPartition| && ri <= |r.sortedPartition|
      invariant Walk(l.sortedPartition, r.sortedPartition, li, ri, lEqClass, rEqClass, nextL, nextR, res)
                == SwapVerdict(l, r)
      invariant steps + WalkSteps(l.sortedPartition, r.sortedPartition, li, ri, lEqClass, rEqClass, nextL, nextR)
                == WalkSteps(l.sortedPartition, r.sortedPartition, 0, 0, {}, {}, true, true)
      decreases |l.sortedPartition| + |r.sortedPartition| - li - ri
    {
      if nextL {
        lEqClass := l.sortedPartition[li];
      }
      if nextR {
        rEqClass := r.sortedPartition[ri];
      }
      steps := steps + 1;
      if |lEqClass| < |rEqClass| {
        var isSubset;
        isSubset, rEqClass := SubsetSetDifference(lEqClass, rEqClass);
        if !isSubset {
          return Swap, steps;
        }
        res := Merge;
        li := li + 1;
        nextL := true;
        nextR := false;
      } else {
        var isSubset;
        isSubset, lEqClass := SubsetSetDifference(rEqClass, lEqClass);
        if !isSubset {
          return Swap, steps;
        }
        ri := ri + 1;
        nextR := true;
        if lEqClass == {} {
          li := li + 1;
          nextL := true;
        } else {
          nextL := false;
        }
      }
    }
  }
}
