/**
 * Removal sets of the FastOD model: a removal set lists the rows that have to be
 * deleted from a table for an exact order dependency to hold.  The vector form
 * (RemovalSetAsVec) is promised by its producers to hold distinct indices; the
 * set form (RemovalSet) is an unordered set of row indices.
 */
module RemovalSets {

  /** Position of a tuple (row) in the table. */
  type TupleIndex = nat

  /** The vectors' documented invariant: no index occurs twice. */
  predicate Distinct(vec: seq<TupleIndex>) {
    forall i, j :: 0 <= i < j < |vec| ==> vec[i] != vec[j]
  }

  /** Inserts the elements of `vec`, front to back, into `s` (unordered_set::insert over a range). */
  function InsertAll(s: set<TupleIndex>, vec: seq<TupleIndex>): (r: set<TupleIndex>)
    ensures forall x :: x in r <==> x in s || x in vec
    decreases |vec|
  {
    if vec == [] then s else InsertAll(s + {vec[0]}, vec[1..])
  }

  /**
   * UnionRemovalSets: a set built from `vec1`, into which `vec2` is then inserted.
   * Every index of either vector is in the result, and nothing else is.
   */
  function UnionRemovalSets(vec1: seq<TupleIndex>, vec2: seq<TupleIndex>): (r: set<TupleIndex>)
    ensures forall x :: x in vec1 ==> x in r
    ensures forall x :: x in vec2 ==> x in r
    ensures forall x :: x in r ==> x in vec1 || x in vec2
  {
    InsertAll(InsertAll({}, vec1), vec2)
  }

  /** The set of the elements of a vector. */
  function Elements(vec: seq<TupleIndex>): set<TupleIndex> {
    set x | x in vec
  }

  /** The union does not depend on the order of its two arguments. */
  lemma UnionCommutes(vec1: seq<TupleIndex>, vec2: seq<TupleIndex>)
    ensures UnionRemovalSets(vec1, vec2) == UnionRemovalSets(vec2, vec1)
  {
    var a, b := UnionRemovalSets(vec1, vec2), UnionRemovalSets(vec2, vec1);
    assert forall x :: x in a <==> x in b;
  }

  /** Uniting with an empty vector gives the set of the other vector's elements. */
  lemma UnionWithEmpty(vec: seq<TupleIndex>)
    ensures UnionRemovalSets(vec, []) == Elements(vec)
    ensures UnionRemovalSets([], vec) == Elements(vec)
  {
    assert forall x :: x in UnionRemovalSets(vec, []) <==> x in Elements(vec);
    assert forall x :: x in UnionRemovalSets([], vec) <==> x in Elements(vec);
  }

  /** A vector holds at least as many positions as it has distinct elements, and exactly as many when distinct. */
  lemma {:induction false} ElementsSize(vec: seq<TupleIndex>)
    ensures |Elements(vec)| <= |vec|
    ensures Distinct(vec) ==> |Elements(vec)| == |vec|
  {
    if vec != [] {
      var tail := vec[1..];
      ElementsSize(tail);
      assert Elements(vec) == {vec[0]} + Elements(tail) by {
        assert forall x :: x in vec <==> x == vec[0] || x in tail by {
          assert vec == [vec[0]] + tail;
        }
      }
      if Distinct(vec) {
        assert Distinct(tail) by {
          forall i, j | 0 <= i < j < |tail| ensures tail[i] != tail[j] {
            assert tail[i] == vec[i + 1] && tail[j] == vec[j + 1];
          }
        }
        assert vec[0] !in Elements(tail) by {
          forall k | 0 <= k < |tail| ensures tail[k] != vec[0] {
            assert tail[k] == vec[k + 1];
          }
        }
      }
    }
  }

  /** A subset is no larger than its superset. */
  lemma SubsetSize(a: set<TupleIndex>, b: set<TupleIndex>)
    requires a <= b
    ensures |a| <= |b|
  {
    assert b == a + (b - a);
  }

  /**
   * The result has at most |vec1| + |vec2| indices and, when both vectors keep
   * their documented uniqueness, at least as many as the longer of the two.
   */
  lemma UnionSize(vec1: seq<TupleIndex>, vec2: seq<TupleIndex>)
    ensures |UnionRemovalSets(vec1, vec2)| <= |vec1| + |vec2|
    ensures Distinct(vec1) ==> |vec1| <= |UnionRemovalSets(vec1, vec2)|
    ensures Distinct(vec2) ==> |vec2| <= |UnionRemovalSets(vec1, vec2)|
  {
    var r := UnionRemovalSets(vec1, vec2);
    ElementsSize(vec1);
    ElementsSize(vec2);
    assert r == Elements(vec1) + Elements(vec2);
    SubsetSize(Elements(vec1), r);
    SubsetSize(Elements(vec2), r);
  }
}
