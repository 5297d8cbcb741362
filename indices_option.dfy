/**
 * The option that holds a list of column indices (left- and right-hand side
 * index lists of the order-dependency verifiers).  Its normalizer sorts the
 * list and drops repeated indices; its value check rejects an empty list unless
 * emptiness is allowed and validates the largest index against the column count.
 */
module IndicesOption {
  import Sorting

  /** config::IndexType is an unsigned integer. */
  type IndexType = nat

  datatype ConfigurationError = ConfigurationError(message: string)

  /** Outcome of a value check: it passes, or it throws a ConfigurationError. */
  datatype Outcome = Pass | Fail(error: ConfigurationError)

  datatype Option<T> = None | Some(value: T)

  predicate Ascending(s: seq<IndexType>) {
    forall i, j :: 0 <= i < j < |s| ==> s[i] <= s[j]
  }

  predicate StrictlyAscending(s: seq<IndexType>) {
    forall i, j :: 0 <= i < j < |s| ==> s[i] < s[j]
  }

  function Elements(s: seq<IndexType>): set<IndexType> {
    set x | x in s
  }

  /** The smallest element of a non-empty set. */
  ghost function MinOf(xs: set<IndexType>): (m: IndexType)
    requires xs != {}
    ensures m in xs && forall y :: y in xs ==> m <= y
    decreases xs
  {
    var x :| x in xs;
    if xs == {x} then
      assert forall y :: y in xs ==> y == x;
      x
    else
      var rest := MinOf(xs - {x});
      assert forall y :: y in xs ==> y == x || y in xs - {x};
      if x < rest then x else rest
  }

  /** The elements of a finite set listed in increasing order. */
  ghost function SortedElements(xs: set<IndexType>): (r: seq<IndexType>)
    ensures StrictlyAscending(r)
    ensures forall x :: x in r <==> x in xs
    decreases xs
  {
    if xs == {} then []
    else
      var m := MinOf(xs);
      [m] + SortedElements(xs - {m})
  }

  /** What NormalizeIndices leaves in the vector: its distinct indices in increasing order. */
  ghost function Normalized(indices: seq<IndexType>): seq<IndexType> {
    SortedElements(Elements(indices))
  }

  /** The head of a strictly increasing list is its least element. */
  lemma HeadIsLeast(a: seq<IndexType>)
    requires StrictlyAscending(a) && a != []
    ensures forall x :: x in a ==> a[0] <= x
  {
    forall x | x in a ensures a[0] <= x {
      var k :| 0 <= k < |a| && a[k] == x;
      assert k == 0 || a[0] < a[k];
    }
  }

  /** Two strictly increasing lists with the same elements are the same list. */
  lemma {:induction false} StrictlyAscendingUnique(a: seq<IndexType>, b: seq<IndexType>)
    requires StrictlyAscending(a) && StrictlyAscending(b)
    requires forall x :: x in a <==> x in b
    ensures a == b
    decreases |a|
  {
    if a != [] {
      assert a[0] in b;
    }
    if b != [] {
      assert b[0] in a;
    }
    if a != [] && b != [] {
      HeadIsLeast(a);
      HeadIsLeast(b);
      assert a[0] == b[0];
      assert a == [a[0]] + a[1..] && b == [b[0]] + b[1..];
      forall x ensures x in a[1..] <==> x in b[1..] {
        if x in a[1..] {
          var k :| 1 <= k < |a| && a[k] == x;
          assert a[0] < a[k];
          assert x in a;
          assert x in b[1..] by {
            var j :| 0 <= j < |b| && b[j] == x;
            assert j != 0;
            assert b[1..][j - 1] == x;
          }
        }
        if x in b[1..] {
          var k :| 1 <= k < |b| && b[k] == x;
          assert b[0] < b[k];
          assert x in b;
          assert x in a[1..] by {
            var j :| 0 <= j < |a| && a[j] == x;
            assert j != 0;
            assert a[1..][j - 1] == x;
          }
        }
      }
      StrictlyAscendingUnique(a[1..], b[1..]);
    }
  }

  /** After normalization the list is sorted, has no repeated index, and keeps exactly the input's indices. */
  lemma NormalizedShape(indices: seq<IndexType>)
    ensures Ascending(Normalized(indices))
    ensures forall i, j :: 0 <= i < j < |Normalized(indices)| ==> Normalized(indices)[i] != Normalized(indices)[j]
    ensures forall x :: x in Normalized(indices) <==> x in indices
  {
  }

  /** Normalizing twice is the same as normalizing once. */
  lemma NormalizeIdempotent(indices: seq<IndexType>)
    ensures Normalized(Normalized(indices)) == Normalized(indices)
  {
    var n := Normalized(indices);
    StrictlyAscendingUnique(Normalized(n), n);
  }

  /**
   * std::unique on a sorted range: moves each first-of-a-run element forward and
   * returns the new logical end; the tail beyond it is left unspecified.
   */
  method Unique(a: array<IndexType>) returns (newEnd: nat)
    requires Ascending(a[..])
    modifies a
    ensures newEnd <= a.Length
    ensures StrictlyAscending(a[..newEnd])
    ensures forall x :: x in a[..newEnd] <==> x in old(a[..])
  {
    if a.Length == 0 {
      return 0;
    }
    ghost var sorted := a[..];
    var last := 1;
    var k := 1;
    while k < a.Length
      invariant 1 <= last <= k <= a.Length
      invariant StrictlyAscending(a[..last])
      invariant a[last - 1] == sorted[k - 1]
      invariant forall m :: k <= m < a.Length ==> a[m] == sorted[m]
      invariant forall x :: x in a[..last] <==> x in sorted[..k]
    {
      assert sorted[..k + 1] == sorted[..k] + [sorted[k]];
      if a[k] != a[last - 1] {
        ghost var kept := a[..last];
        a[last] := a[k];
        assert a[..last + 1] == kept + [a[k]];
        last := last + 1;
      }
      k := k + 1;
    }
    assert sorted[..k] == sorted;
    newEnd := last;
  }

  /**
   * NormalizeIndices: sorts the vector and erases the repeated indices.  The
   * vector's contents afterwards are indices[..size].
   */
  method NormalizeIndices(indices: array<IndexType>) returns (size: nat)
    modifies indices
    ensures size <= indices.Length
    ensures indices[..size] == Normalized(old(indices[..]))
  {
    ghost var original := indices[..];
    assert Sorting.StrictWeakOrder((x: IndexType, y: IndexType) => x < y);
    Sorting.Sort(indices, (x: IndexType, y: IndexType) => x < y);
    assert forall x :: x in indices[..] <==> x in original by {
      assert forall x :: x in indices[..] <==> x in multiset(indices[..]);
      assert forall x :: x in original <==> x in multiset(original);
    }
    size := Unique(indices);
    StrictlyAscendingUnique(indices[..size], Normalized(original));
  }

  /** The user-supplied extra check, if any; it runs last. */
  function RunValueCheck(valueCheck: Option<seq<IndexType> -> Outcome>, indices: seq<IndexType>): Outcome {
    match valueCheck
    case None => Pass
    case Some(check) => check(indices)
  }

  /**
   * The value check installed by IndicesOption::operator(): an empty list fails
   * with "<name> cannot be empty" unless emptiness is allowed; a non-empty list,
   * which the normalizer has sorted, has only its last (largest) index passed to
   * ValidateIndex together with the column count; the user's check runs after
   * the built-in ones.  ValidateIndex and the column-count callback are not part
   * of this model and are parameters.
   */
  function CheckIndices(optionName: string, allowEmpty: bool, indices: seq<IndexType>, colCount: IndexType,
                        validateIndex: (IndexType, IndexType) -> Outcome,
                        valueCheck: Option<seq<IndexType> -> Outcome>): (r: Outcome)
    requires Ascending(indices)
    ensures indices == [] && !allowEmpty ==> r == Fail(ConfigurationError(optionName + " cannot be empty"))
    ensures indices == [] && allowEmpty ==> r == RunValueCheck(valueCheck, indices)
    ensures indices != [] && validateIndex(indices[|indices| - 1], colCount).Fail?
            ==> r == validateIndex(indices[|indices| - 1], colCount)
    ensures indices != [] && validateIndex(indices[|indices| - 1], colCount) == Pass
            ==> r == RunValueCheck(valueCheck, indices)
  {
    if !allowEmpty && indices == [] then
      Fail(ConfigurationError(optionName + " cannot be empty"))
    else if indices != [] && validateIndex(indices[|indices| - 1], colCount).Fail? then
      validateIndex(indices[|indices| - 1], colCount)
    else
      RunValueCheck(valueCheck, indices)
  }

  /** ValidateIndex accepts every index below one it accepts (as "index < column count" does). */
  ghost predicate DownwardClosed(validateIndex: (IndexType, IndexType) -> Outcome, colCount: IndexType) {
    forall i, j :: i <= j && validateIndex(j, colCount) == Pass ==> validateIndex(i, colCount) == Pass
  }

  /**
   * Validating only the largest index is enough: when the check passes and
   * ValidateIndex is downward closed, every index of the list would pass it.
   */
  lemma LastIndexSuffices(optionName: string, allowEmpty: bool, indices: seq<IndexType>, colCount: IndexType,
                          validateIndex: (IndexType, IndexType) -> Outcome,
                          valueCheck: Option<seq<IndexType> -> Outcome>)
    requires Ascending(indices) && DownwardClosed(validateIndex, colCount)
    requires CheckIndices(optionName, allowEmpty, indices, colCount, validateIndex, valueCheck) == Pass
    ensures forall k :: 0 <= k < |indices| ==> validateIndex(indices[k], colCount) == Pass
  {
    forall k | 0 <= k < |indices| ensures validateIndex(indices[k], colCount) == Pass {
      assert indices[k] <= indices[|indices| - 1];
    }
  }

  /** An empty list never reaches ValidateIndex: the verdict is the same whatever ValidateIndex does. */
  lemma EmptySkipsValidateIndex(optionName: string, allowEmpty: bool, colCount: IndexType,
                                v1: (IndexType, IndexType) -> Outcome, v2: (IndexType, IndexType) -> Outcome,
                                valueCheck: Option<seq<IndexType> -> Outcome>)
    ensures CheckIndices(optionName, allowEmpty, [], colCount, v1, valueCheck)
         == CheckIndices(optionName, allowEmpty, [], colCount, v2, valueCheck)
    ensures allowEmpty ==>
              CheckIndices(optionName, allowEmpty, [], colCount, v1, valueCheck) == RunValueCheck(valueCheck, [])
  {
  }

  /** The user's check runs after the built-in ones: when a built-in check fails, the user's check does not matter. */
  lemma UserCheckRunsLast(optionName: string, allowEmpty: bool, indices: seq<IndexType>, colCount: IndexType,
                          validateIndex: (IndexType, IndexType) -> Outcome,
                          c1: Option<seq<IndexType> -> Outcome>, c2: Option<seq<IndexType> -> Outcome>)
    requires Ascending(indices)
    requires (indices == [] && !allowEmpty)
          || (indices != [] && validateIndex(indices[|indices| - 1], colCount).Fail?)
    ensures CheckIndices(optionName, allowEmpty, indices, colCount, validateIndex, c1)
         == CheckIndices(optionName, allowEmpty, indices, colCount, validateIndex, c2)
    ensures CheckIndices(optionName, allowEmpty, indices, colCount, validateIndex, c1).Fail?
  {
  }

  /** The normalizer establishes what the value check asserts: a normalized list is sorted. */
  lemma NormalizedMeetsCheck(indices: seq<IndexType>)
    ensures Ascending(Normalized(indices))
    ensures Normalized(indices) == [] <==> indices == []
  {
    if indices != [] {
      assert indices[0] in Normalized(indices);
    }
  }
}
