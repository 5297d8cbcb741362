/**
 * The HyUCC inductor: the "specialize on invalidation" step of the hybrid
 * unique-column-combination search.  Each non-UCC witness (a set of attributes
 * on which two sampled rows agree) invalidates every stored UCC candidate that
 * is a subset of it; each invalidated candidate is replaced by its
 * one-attribute extensions that leave the witness, unless the tree already
 * holds a subset of the extension.
 *
 * An attribute set is a bitset over the columns; here it is the set of the
 * indices of its set bits.  The UCC tree (a prefix tree in the source) is not
 * part of this model beyond its interface: it is the finite set of stored
 * attribute sets.
 */
module HyUccInductor {

  /** A boost::dynamic_bitset over the attributes: bit i is set iff i is in the set. */
  type AttrSet = set<nat>

  /** The set with one more bit set (bitset::set). */
  function WithAttr(u: AttrSet, a: nat): AttrSet {
    u + {a}
  }

  /** FindUCCOrGeneralization: the tree stores a subset of `x`. */
  predicate HasGeneralization(entries: set<AttrSet>, x: AttrSet) {
    exists u :: u in entries && u <= x
  }

  /** No stored set is a subset of `x`. */
  predicate NoGeneralization(entries: set<AttrSet>, x: AttrSet) {
    forall u :: u in entries ==> !(u <= x)
  }

  /** No stored set is a proper subset of another one. */
  predicate Antichain(entries: set<AttrSet>) {
    forall s, t :: s in entries && t in entries && s <= t ==> s == t
  }

  predicate Distinct(us: seq<AttrSet>) {
    forall i, j :: 0 <= i < j < |us| ==> us[i] != us[j]
  }

  /** `us` lists, without repetition, exactly the stored subsets of `x` (GetUCCAndGeneralizations). */
  ghost predicate EnumeratesGeneralizations(us: seq<AttrSet>, entries: set<AttrSet>, x: AttrSet) {
    Distinct(us) && forall u :: u in us <==> u in entries && u <= x
  }

  /** One attempt: add `x` unless the tree already stores a subset of it. */
  function AddIfNoGeneralization(entries: set<AttrSet>, x: AttrSet): set<AttrSet> {
    if HasGeneralization(entries, x) then entries else entries + {x}
  }

  /**
   * The attribute loop for one invalid UCC `u`: attribute indices k-1, k-2, ..., 0,
   * in that order; each index outside the witness `w` is tried.
   */
  function SpecializeFrom(entries: set<AttrSet>, u: AttrSet, w: AttrSet, k: nat): set<AttrSet>
    decreases k
  {
    if k == 0 then entries
    else
      var a := k - 1;
      var next := if a in w then entries else AddIfNoGeneralization(entries, WithAttr(u, a));
      SpecializeFrom(next, u, w, k - 1)
  }

  /** Remove one invalid UCC, then try its specializations over all `n` attributes. */
  function SpecializeOne(entries: set<AttrSet>, u: AttrSet, w: AttrSet, n: nat): set<AttrSet> {
    SpecializeFrom(entries - {u}, u, w, n)
  }

  /** The invalid UCCs `us`, handled in list order. */
  function SpecializeAll(entries: set<AttrSet>, us: seq<AttrSet>, w: AttrSet, n: nat): set<AttrSet>
    decreases |us|
  {
    if us == [] then entries
    else SpecializeOne(SpecializeAll(entries, us[..|us| - 1], w, n), us[|us| - 1], w, n)
  }

  /** No stored set contains u plus one of the attributes below k outside w. */
  predicate NoSupersetOfExtension(entries: set<AttrSet>, u: AttrSet, w: AttrSet, k: nat) {
    forall t, a :: t in entries && 0 <= a < k && a !in w ==> !(WithAttr(u, a) <= t)
  }

  /**
   * The attribute loop only adds; every added set is `u` plus one attribute outside
   * the witness; every specialization ends up covered by a stored subset; an added
   * set has no other stored subset; and an antichain stays an antichain.
   */
  lemma {:induction false} SpecializeFromFacts(entries: set<AttrSet>, u: AttrSet, w: AttrSet, k: nat)
    requires u <= w
    ensures entries <= SpecializeFrom(entries, u, w, k)
    ensures forall t :: t in SpecializeFrom(entries, u, w, k) && t !in entries ==>
              exists a :: 0 <= a < k && a !in w && t == WithAttr(u, a)
    ensures forall a :: 0 <= a < k && a !in w ==> HasGeneralization(SpecializeFrom(entries, u, w, k), WithAttr(u, a))
    ensures forall t, s ::
              (t in SpecializeFrom(entries, u, w, k) && t !in entries && s in SpecializeFrom(entries, u, w, k) && s <= t)
              ==> s == t
    ensures Antichain(entries) && NoSupersetOfExtension(entries, u, w, k) ==> Antichain(SpecializeFrom(entries, u, w, k))
    decreases k
  {
    if k > 0 {
      var a := k - 1;
      var next := if a in w then entries else AddIfNoGeneralization(entries, WithAttr(u, a));
      var r := SpecializeFrom(next, u, w, k - 1);
      assert r == SpecializeFrom(entries, u, w, k);
      SpecializeFromFacts(next, u, w, k - 1);
      // An extension by a lower attribute is never a subset of the extension by `a`.
      assert forall b :: 0 <= b < k - 1 && b !in w ==> !(WithAttr(u, b) <= WithAttr(u, a)) by {
        forall b | 0 <= b < k - 1 && b !in w ensures !(WithAttr(u, b) <= WithAttr(u, a)) {
          assert b in WithAttr(u, b);
          assert b !in u;
        }
      }
      forall t | t in r && t !in entries
        ensures exists b :: 0 <= b < k && b !in w && t == WithAttr(u, b)
      {
        if t in next {
          assert a !in w && t == WithAttr(u, a);
        }
      }
      forall b | 0 <= b < k && b !in w
        ensures HasGeneralization(r, WithAttr(u, b))
      {
        if b == a {
          if HasGeneralization(entries, WithAttr(u, a)) {
            var s :| s in entries && s <= WithAttr(u, a);
            assert s in r;
          } else {
            assert WithAttr(u, a) in r;
          }
        }
      }
      forall t, s | t in r && t !in entries && s in r && s <= t
        ensures s == t
      {
        if t in next {
          // t is the extension by `a`, added because nothing stored was a subset of it.
          assert t == WithAttr(u, a) && !HasGeneralization(entries, t);
          assert s in next;
          assert s !in entries;
        }
      }
      if Antichain(entries) && NoSupersetOfExtension(entries, u, w, k) {
        assert Antichain(next) by {
          if next != entries {
            var x := WithAttr(u, a);
            assert forall t :: t in entries ==> !(x <= t);
            assert forall s :: s in entries ==> !(s <= x);
          }
        }
        assert NoSupersetOfExtension(next, u, w, k - 1) by {
          forall t, b | t in next && 0 <= b < k - 1 && b !in w ensures !(WithAttr(u, b) <= t) {
            if t !in entries {
              assert t == WithAttr(u, a);
            }
          }
        }
      }
    }
  }

  /** Every listed set is stored and is a subset of the witness. */
  predicate StoredSubsets(us: seq<AttrSet>, entries: set<AttrSet>, w: AttrSet) {
    forall i :: 0 <= i < |us| ==> us[i] in entries && us[i] <= w
  }

  /** Splitting off the last invalid UCC keeps the list's properties for the rest. */
  lemma SplitLast(us: seq<AttrSet>, entries: set<AttrSet>, w: AttrSet)
    requires us != [] && Distinct(us) && StoredSubsets(us, entries, w)
    ensures Distinct(us[..|us| - 1]) && StoredSubsets(us[..|us| - 1], entries, w)
    ensures forall x :: x in us <==> x in us[..|us| - 1] || x == us[|us| - 1]
    ensures us[|us| - 1] !in us[..|us| - 1]
    ensures us[|us| - 1] in entries && us[|us| - 1] <= w
  {
    var prefix, u := us[..|us| - 1], us[|us| - 1];
    assert us == prefix + [u];
    forall i | 0 <= i < |prefix| ensures prefix[i] != u && prefix[i] in entries && prefix[i] <= w {
      assert prefix[i] == us[i];
    }
    forall i, j | 0 <= i < j < |prefix| ensures prefix[i] != prefix[j] {
      assert prefix[i] == us[i] && prefix[j] == us[j];
    }
  }

  /**
   * Handling the invalid UCCs `us` (distinct stored subsets of the witness `w`) in
   * order: the subsets of `w` that remain stored are exactly the stored ones not
   * handled, and nothing else stored is lost.
   */
  lemma {:induction false} SpecializeAllSurvivors(entries: set<AttrSet>, us: seq<AttrSet>, w: AttrSet, n: nat)
    requires Distinct(us) && StoredSubsets(us, entries, w)
    ensures forall t :: t in SpecializeAll(entries, us, w, n) && t <= w ==> t in entries && t !in us
    ensures forall t :: t in entries && t !in us ==> t in SpecializeAll(entries, us, w, n)
    decreases |us|
  {
    if us != [] {
      var prefix, u := us[..|us| - 1], us[|us| - 1];
      SplitLast(us, entries, w);
      SpecializeAllSurvivors(entries, prefix, w, n);
      var removed := SpecializeAll(entries, prefix, w, n) - {u};
      var after := SpecializeFrom(removed, u, w, n);
      SpecializeFromFacts(removed, u, w, n);
      assert forall a :: a !in w ==> !(WithAttr(u, a) <= w) by {
        forall a | a !in w ensures !(WithAttr(u, a) <= w) {
          assert a in WithAttr(u, a);
        }
      }
      forall t | t in after && t <= w ensures t in entries && t !in us {
        assert t in removed;
      }
    }
  }

  /** Every set the handling adds is a handled invalid UCC plus one attribute outside the witness. */
  lemma {:induction false} SpecializeAllAdditions(entries: set<AttrSet>, us: seq<AttrSet>, w: AttrSet, n: nat)
    requires forall i :: 0 <= i < |us| ==> us[i] <= w
    ensures forall t :: t in SpecializeAll(entries, us, w, n) && t !in entries ==>
              exists u, a :: u in us && 0 <= a < n && a !in w && t == WithAttr(u, a)
    decreases |us|
  {
    if us != [] {
      var prefix, u := us[..|us| - 1], us[|us| - 1];
      assert us == prefix + [u];
      assert forall i :: 0 <= i < |prefix| ==> prefix[i] <= w by {
        forall i | 0 <= i < |prefix| ensures prefix[i] <= w {
          assert prefix[i] == us[i];
        }
      }
      SpecializeAllAdditions(entries, prefix, w, n);
      var removed := SpecializeAll(entries, prefix, w, n) - {u};
      var after := SpecializeFrom(removed, u, w, n);
      SpecializeFromFacts(removed, u, w, n);
      forall t | t in after && t !in entries
        ensures exists v, a :: v in us && 0 <= a < n && a !in w && t == WithAttr(v, a)
      {
        if t in removed {
          var v, a :| v in prefix && 0 <= a < n && a !in w && t == WithAttr(v, a);
          assert v in us;
        } else {
          var a :| 0 <= a < n && a !in w && t == WithAttr(u, a);
          assert u in us;
        }
      }
    }
  }

  /** Every one-attribute specialization of a handled invalid UCC ends up covered by a stored subset. */
  lemma {:induction false} SpecializeAllCoverage(entries: set<AttrSet>, us: seq<AttrSet>, w: AttrSet, n: nat)
    requires Distinct(us) && StoredSubsets(us, entries, w)
    ensures forall u, a :: u in us && 0 <= a < n && a !in w ==>
              HasGeneralization(SpecializeAll(entries, us, w, n), WithAttr(u, a))
    decreases |us|
  {
    if us != [] {
      var prefix, u := us[..|us| - 1], us[|us| - 1];
      SplitLast(us, entries, w);
      SpecializeAllCoverage(entries, prefix, w, n);
      SpecializeAllSurvivors(entries, prefix, w, n);
      var before := SpecializeAll(entries, prefix, w, n);
      var removed := before - {u};
      var after := SpecializeFrom(removed, u, w, n);
      SpecializeFromFacts(removed, u, w, n);
      forall v, a | v in us && 0 <= a < n && a !in w
        ensures HasGeneralization(after, WithAttr(v, a))
      {
        if v != u {
          assert v in prefix;
          var s :| s in before && s <= WithAttr(v, a);
          if s != u {
            assert s in after;
          } else {
            var s' :| s' in after && s' <= WithAttr(u, a);
            assert s' <= WithAttr(v, a);
          }
        }
      }
    }
  }

  /** When the stored sets form an antichain, so do they after the handling. */
  lemma {:induction false} SpecializeAllAntichain(entries: set<AttrSet>, us: seq<AttrSet>, w: AttrSet, n: nat)
    requires Distinct(us) && StoredSubsets(us, entries, w)
    requires Antichain(entries)
    ensures Antichain(SpecializeAll(entries, us, w, n))
    decreases |us|
  {
    if us != [] {
      var prefix, u := us[..|us| - 1], us[|us| - 1];
      SplitLast(us, entries, w);
      SpecializeAllAntichain(entries, prefix, w, n);
      SpecializeAllSurvivors(entries, prefix, w, n);
      assert forall i :: 0 <= i < |prefix| ==> prefix[i] <= w;
      SpecializeAllAdditions(entries, prefix, w, n);
      var removed := SpecializeAll(entries, prefix, w, n) - {u};
      assert NoSupersetOfExtension(removed, u, w, n) by {
        forall t, a | t in removed && 0 <= a < n && a !in w ensures !(WithAttr(u, a) <= t) {
          if t in entries {
            assert !(u <= t);
          } else {
            var v, b :| v in prefix && 0 <= b < n && b !in w && t == WithAttr(v, b);
            assert v in entries && v != u;
            assert !(u <= v);
            SubsetOfExtension(u, v, b, w);
            assert !(u <= t);
          }
        }
      }
      SpecializeFromFacts(removed, u, w, n);
    }
  }

  /** A subset of the witness that fits in `v` plus an attribute outside the witness fits in `v`. */
  lemma SubsetOfExtension(u: AttrSet, v: AttrSet, b: nat, w: AttrSet)
    requires u <= w && b !in w
    ensures u <= WithAttr(v, b) ==> u <= v
  {
    if u <= WithAttr(v, b) {
      forall x | x in u ensures x in v {
        assert x in w;
      }
    }
  }

  /** Handling the invalid UCCs never creates a subset of a set that had none stored. */
  lemma {:induction false} SpecializeAllKeepsNonGeneralizations(entries: set<AttrSet>, us: seq<AttrSet>,
                                                                 w: AttrSet, n: nat, v: AttrSet)
    requires forall i :: 0 <= i < |us| ==> us[i] in entries
    requires NoGeneralization(entries, v)
    ensures NoGeneralization(SpecializeAll(entries, us, w, n), v)
    decreases |us|
  {
    if us != [] {
      var prefix, u := us[..|us| - 1], us[|us| - 1];
      SpecializeAllKeepsNonGeneralizations(entries, prefix, w, n, v);
      assert u in entries;
      SpecializeFromKeepsNonGeneralizations(SpecializeAll(entries, prefix, w, n) - {u}, u, w, n, v);
    }
  }

  /** The attribute loop adds only supersets of `u`; when `u` is not a subset of `v`, none of them is either. */
  lemma {:induction false} SpecializeFromKeepsNonGeneralizations(entries: set<AttrSet>, u: AttrSet, w: AttrSet,
                                                                  k: nat, v: AttrSet)
    requires NoGeneralization(entries, v) && !(u <= v)
    ensures NoGeneralization(SpecializeFrom(entries, u, w, k), v)
    decreases k
  {
    if k > 0 {
      var a := k - 1;
      var next := if a in w then entries else AddIfNoGeneralization(entries, WithAttr(u, a));
      assert NoGeneralization(next, v) by {
        assert !(WithAttr(u, a) <= v);
      }
      SpecializeFromKeepsNonGeneralizations(next, u, w, k - 1, v);
    }
  }

  /**
   * The specialization step as the source performs it, for a list that enumerates
   * the stored generalizations of the witness: afterwards no stored set is a subset
   * of the witness.
   */
  lemma SpecializeRemovesAllGeneralizations(entries: set<AttrSet>, us: seq<AttrSet>, w: AttrSet, n: nat)
    requires EnumeratesGeneralizations(us, entries, w)
    ensures NoGeneralization(SpecializeAll(entries, us, w, n), w)
    ensures forall t :: t in entries && !(t <= w) ==> t in SpecializeAll(entries, us, w, n)
  {
    assert StoredSubsets(us, entries, w) by {
      forall i | 0 <= i < |us| ensures us[i] in entries && us[i] <= w {
        assert us[i] in us;
      }
    }
    SpecializeAllSurvivors(entries, us, w, n);
  }

  /** The tree; only its interface is modelled. */
  class UCCTree {
    /** GetNumAttributes(): the width of the bitsets. */
    const numAttributes: nat
    var entries: set<AttrSet>

    constructor (numAttributes: nat, entries: set<AttrSet>)
      ensures this.numAttributes == numAttributes && this.entries == entries
    {
      this.numAttributes := numAttributes;
      this.entries := entries;
    }

    /** The stored subsets (generalizations) of `x`, each once, in some order. */
    method GetUCCAndGeneralizations(x: AttrSet) returns (r: seq<AttrSet>)
      ensures EnumeratesGeneralizations(r, entries, x)
    {
      var pending := set u | u in entries && u <= x;
      r := [];
      while pending != {}
        invariant Distinct(r)
        invariant forall u :: u in r ==> u !in pending
        invariant forall u :: u in r || u in pending <==> u in entries && u <= x
        decreases pending
      {
        var u :| u in pending;
        r := r + [u];
        pending := pending - {u};
      }
    }

    /** Whether a subset of `x` is stored. */
    method FindUCCOrGeneralization(x: AttrSet) returns (found: bool)
      ensures found <==> HasGeneralization(entries, x)
    {
      found := exists u :: u in entries && u <= x;
    }

    method Remove(x: AttrSet)
      modifies this
      ensures entries == old(entries) - {x}
    {
      entries := entries - {x};
    }

    method AddUCC(x: AttrSet)
      modifies this
      ensures entries == old(entries) + {x}
    {
      entries := entries + {x};
    }
  }

  /**
   * The non-UCC witnesses grouped by level (NonUCCList, not part of this model
   * beyond these two accessors): levels 0 .. GetDepth().
   */
  datatype NonUCCList = NonUCCList(levels: seq<seq<AttrSet>>) {
    function GetDepth(): nat {
      if |levels| == 0 then 0 else |levels| - 1
    }

    function GetLevel(level: nat): seq<AttrSet>
      requires level < |levels|
    {
      levels[level]
    }
  }

  /** The witnesses of levels `level`, `level` - 1, ..., 1, in that order. */
  function LevelsDownFrom(nonUccs: NonUCCList, level: nat): seq<AttrSet>
    requires level <= nonUccs.GetDepth()
    decreases level
  {
    if level == 0 then [] else nonUccs.GetLevel(level) + LevelsDownFrom(nonUccs, level - 1)
  }

  /** The order in which UpdateUCCTree hands witnesses to SpecializeUCCTree. */
  function VisitOrder(nonUccs: NonUCCList): seq<AttrSet> {
    LevelsDownFrom(nonUccs, nonUccs.GetDepth())
  }

  /** Only levels 1 .. GetDepth() are visited; level 0 never is. */
  lemma {:induction false} LevelsDownFromMembers(nonUccs: NonUCCList, level: nat, w: AttrSet)
    requires level <= nonUccs.GetDepth()
    ensures w in LevelsDownFrom(nonUccs, level) <==>
              exists l :: 1 <= l <= level && w in nonUccs.levels[l]
    decreases level
  {
    if level > 0 {
      LevelsDownFromMembers(nonUccs, level - 1, w);
      if w in nonUccs.levels[level] {
        assert w in LevelsDownFrom(nonUccs, level);
      }
    }
  }

  /** Visiting starts at the deepest level: the deepest level's witnesses come first. */
  lemma DeepestLevelFirst(nonUccs: NonUCCList)
    requires nonUccs.GetDepth() > 0
    ensures VisitOrder(nonUccs)[..|nonUccs.levels[nonUccs.GetDepth()]|] == nonUccs.levels[nonUccs.GetDepth()]
  {
  }

  /** Every attribute of `x` is one of the tree's `n` attributes. */
  predicate WithinAttributes(x: AttrSet, n: nat) {
    forall a :: a in x ==> a < n
  }

  /**
   * After visiting the witnesses `visited`, starting from the stored sets `start`
   * of a tree over `n` attributes: no stored set is a subset of a visited
   * witness; every starting set that no visited witness contains is still
   * stored; every stored set contains a starting set; every set over the
   * attributes that contained a starting set and lies in no visited witness
   * still contains a stored set; and an antichain stays one.
   */
  ghost predicate Handled(start: set<AttrSet>, entries: set<AttrSet>, visited: seq<AttrSet>, n: nat) {
    && (forall w :: w in visited ==> NoGeneralization(entries, w))
    && (forall t :: t in start && (forall w :: w in visited ==> !(t <= w)) ==> t in entries)
    && (forall t :: t in entries ==> HasGeneralization(start, t))
    && (forall x :: WithinAttributes(x, n) && HasGeneralization(start, x) && (forall w :: w in visited ==> !(x <= w)) ==>
          HasGeneralization(entries, x))
    && (Antichain(start) ==> Antichain(entries))
  }

  /** Handling one more witness, as SpecializeUCCTree does, extends what has been handled. */
  lemma HandledStep(start: set<AttrSet>, before: set<AttrSet>, after: set<AttrSet>, visited: seq<AttrSet>, w: AttrSet, n: nat)
    requires Handled(start, before, visited, n)
    requires NoGeneralization(after, w)
    requires forall t :: t in before && !(t <= w) ==> t in after
    requires forall t :: t in after && t !in before ==>
               exists u, a :: u in before && u <= w && 0 <= a < n && a !in w && t == WithAttr(u, a)
    requires forall u, a :: u in before && u <= w && 0 <= a < n && a !in w ==> HasGeneralization(after, WithAttr(u, a))
    requires forall v :: NoGeneralization(before, v) ==> NoGeneralization(after, v)
    requires Antichain(before) ==> Antichain(after)
    ensures Handled(start, after, visited + [w], n)
  {
    forall x | x in visited + [w] ensures NoGeneralization(after, x) {
      if x != w {
        assert x in visited;
      }
    }
    forall t | t in start && (forall x :: x in visited + [w] ==> !(t <= x)) ensures t in after {
      assert forall x :: x in visited ==> x in visited + [w];
    }
    forall t | t in after ensures HasGeneralization(start, t) {
      if t !in before {
        var u, a :| u in before && u <= w && 0 <= a < n && a !in w && t == WithAttr(u, a);
        var s0 :| s0 in start && s0 <= u;
        assert s0 <= t;
      }
    }
    forall x | WithinAttributes(x, n) && HasGeneralization(start, x) && (forall v :: v in visited + [w] ==> !(x <= v))
      ensures HasGeneralization(after, x)
    {
      assert forall v :: v in visited ==> v in visited + [w];
      var u :| u in before && u <= x;
      if u <= w {
        assert !(x <= w);
        var a :| a in x && a !in w;
        assert HasGeneralization(after, WithAttr(u, a));
        var v :| v in after && v <= WithAttr(u, a);
        assert v <= x;
      } else {
        assert u in after;
      }
    }
  }

  /**
   * The stored sets `entries` are what SpecializeUCCTree gives when it is handed
   * the witnesses `visited` in order, starting from `start`; each call removes
   * the stored generalizations of its witness in the order the tree lists them.
   */
  ghost predicate SpecializedAlong(start: set<AttrSet>, entries: set<AttrSet>, visited: seq<AttrSet>, n: nat)
    decreases |visited|
  {
    if visited == [] then entries == start
    else
      var w := visited[|visited| - 1];
      exists mid, us :: SpecializedAlong(start, mid, visited[..|visited| - 1], n)
                     && EnumeratesGeneralizations(us, mid, w) && entries == SpecializeAll(mid, us, w, n)
  }

  /** One more SpecializeUCCTree call extends the chain of calls. */
  lemma SpecializedAlongStep(start: set<AttrSet>, before: set<AttrSet>, after: set<AttrSet>, visited: seq<AttrSet>,
                             w: AttrSet, n: nat, us: seq<AttrSet>)
    requires SpecializedAlong(start, before, visited, n)
    requires EnumeratesGeneralizations(us, before, w) && after == SpecializeAll(before, us, w, n)
    ensures SpecializedAlong(start, after, visited + [w], n)
  {
    var extended := visited + [w];
    assert extended[..|extended| - 1] == visited && extended[|extended| - 1] == w;
    assert SpecializedAlong(start, before, extended[..|extended| - 1], n)
           && EnumeratesGeneralizations(us, before, w) && after == SpecializeAll(before, us, w, n);
  }

  class Inductor {
    const tree: UCCTree

    constructor (tree: UCCTree)
      ensures this.tree == tree
    {
      this.tree := tree;
    }

    /**
     * SpecializeUCCTree: removes the stored generalizations of the witness one by one
     * and, after each removal, tries its one-attribute extensions by attribute
     * index from the highest down to 0, skipping the attributes of the witness.
     */
    method SpecializeUCCTree(nonUcc: AttrSet)
      modifies tree
      ensures exists us :: EnumeratesGeneralizations(us, old(tree.entries), nonUcc)
                        && tree.entries == SpecializeAll(old(tree.entries), us, nonUcc, tree.numAttributes)
      ensures NoGeneralization(tree.entries, nonUcc)
      ensures forall t :: t in old(tree.entries) && !(t <= nonUcc) ==> t in tree.entries
      ensures forall t :: t in tree.entries && t !in old(tree.entries) ==>
                exists u, a :: u in old(tree.entries) && u <= nonUcc && 0 <= a < tree.numAttributes
                            && a !in nonUcc && t == WithAttr(u, a)
      ensures forall u, a :: u in old(tree.entries) && u <= nonUcc && 0 <= a < tree.numAttributes && a !in nonUcc ==>
                HasGeneralization(tree.entries, WithAttr(u, a))
      ensures forall v :: NoGeneralization(old(tree.entries), v) ==> NoGeneralization(tree.entries, v)
      ensures Antichain(old(tree.entries)) ==> Antichain(tree.entries)
    {
      ghost var start := tree.entries;
      ghost var n := tree.numAttributes;
      var invalidUccs := tree.GetUCCAndGeneralizations(nonUcc);
      var i := 0;
      while i < |invalidUccs|
        invariant 0 <= i <= |invalidUccs|
        invariant tree.entries == SpecializeAll(start, invalidUccs[..i], nonUcc, n)
      {
        var invalidUcc := invalidUccs[i];
        ghost var u := invalidUcc;
        ghost var target := SpecializeAll(start, invalidUccs[..i + 1], nonUcc, n);
        assert invalidUccs[..i + 1][..i] == invalidUccs[..i];
        assert u in invalidUccs;
        tree.Remove(invalidUcc);
        var attrNum := tree.numAttributes;
        while attrNum > 0
          invariant invalidUcc == u
          invariant SpecializeFrom(tree.entries, u, nonUcc, attrNum) == target
        {
          var attrIdx := attrNum - 1;
          if attrIdx !in nonUcc {
            invalidUcc := invalidUcc + {attrIdx};
            var found := tree.FindUCCOrGeneralization(invalidUcc);
            if !found {
              tree.AddUCC(invalidUcc);
            }
            invalidUcc := invalidUcc - {attrIdx};
          }
          attrNum := attrNum - 1;
        }
        i := i + 1;
      }
      assert invalidUccs[..i] == invalidUccs;
      SpecializeRemovesAllGeneralizations(start, invalidUccs, nonUcc, n);
      assert StoredSubsets(invalidUccs, start, nonUcc) by {
        forall j | 0 <= j < |invalidUccs| ensures invalidUccs[j] in start && invalidUccs[j] <= nonUcc {
          assert invalidUccs[j] in invalidUccs;
        }
      }
      SpecializeAllAdditions(start, invalidUccs, nonUcc, n);
      SpecializeAllCoverage(start, invalidUccs, nonUcc, n);
      if Antichain(start) {
        SpecializeAllAntichain(start, invalidUccs, nonUcc, n);
      }
      forall v | NoGeneralization(start, v) ensures NoGeneralization(tree.entries, v) {
        SpecializeAllKeepsNonGeneralizations(start, invalidUccs, nonUcc, n, v);
      }
    }

    /** One SpecializeUCCTree call of UpdateUCCTree: the witness joins the handled ones. */
    method HandleWitness(nonUcc: AttrSet, ghost start: set<AttrSet>, ghost visited: seq<AttrSet>)
      modifies tree
      requires Handled(start, tree.entries, visited, tree.numAttributes)
      requires SpecializedAlong(start, tree.entries, visited, tree.numAttributes)
      ensures Handled(start, tree.entries, visited + [nonUcc], tree.numAttributes)
      ensures SpecializedAlong(start, tree.entries, visited + [nonUcc], tree.numAttributes)
    {
      ghost var before := tree.entries;
      SpecializeUCCTree(nonUcc);
      HandledStep(start, before, tree.entries, visited, nonUcc, tree.numAttributes);
      ghost var us :| EnumeratesGeneralizations(us, before, nonUcc)
                      && tree.entries == SpecializeAll(before, us, nonUcc, tree.numAttributes);
      SpecializedAlongStep(start, before, tree.entries, visited, nonUcc, tree.numAttributes, us);
    }

    /** The inner loop of UpdateUCCTree: the witnesses of one level, in order, join the handled ones. */
    method HandleLevel(witnesses: seq<AttrSet>, ghost start: set<AttrSet>, ghost visited: seq<AttrSet>)
      modifies tree
      requires Handled(start, tree.entries, visited, tree.numAttributes)
      requires SpecializedAlong(start, tree.entries, visited, tree.numAttributes)
      ensures Handled(start, tree.entries, visited + witnesses, tree.numAttributes)
      ensures SpecializedAlong(start, tree.entries, visited + witnesses, tree.numAttributes)
    {
      var j := 0;
      ghost var done := visited;
      while j < |witnesses|
        invariant 0 <= j <= |witnesses|
        invariant done == visited + witnesses[..j]
        invariant Handled(start, tree.entries, done, tree.numAttributes)
        invariant SpecializedAlong(start, tree.entries, done, tree.numAttributes)
      {
        var nonUcc := witnesses[j];
        HandleWitness(nonUcc, start, done);
        assert witnesses[..j + 1] == witnesses[..j] + [nonUcc];
        done := done + [nonUcc];
        j := j + 1;
      }
      assert witnesses[..j] == witnesses;
    }

    /**
     * UpdateUCCTree: hands every witness to SpecializeUCCTree, level by level from
     * GetDepth() down to 1, so the new tree is the chain of those calls.
     * Afterwards no stored set is a subset of any visited witness, every stored
     * set that no witness contains is still stored, every stored set contains
     * one stored before, every set over the attributes that contained a stored
     * set and lies in no witness still does, and an antichain stays one.
     */
    method UpdateUCCTree(nonUccs: NonUCCList) returns (ghost visited: seq<AttrSet>)
      modifies tree
      ensures visited == VisitOrder(nonUccs)
      ensures SpecializedAlong(old(tree.entries), tree.entries, visited, tree.numAttributes)
      ensures forall w :: w in visited ==> NoGeneralization(tree.entries, w)
      ensures forall t :: t in old(tree.entries) && (forall w :: w in visited ==> !(t <= w)) ==> t in tree.entries
      ensures forall t :: t in tree.entries ==> HasGeneralization(old(tree.entries), t)
      ensures forall x :: (&& WithinAttributes(x, tree.numAttributes) && HasGeneralization(old(tree.entries), x)
                           && forall w :: w in visited ==> !(x <= w)) ==> HasGeneralization(tree.entries, x)
      ensures Antichain(old(tree.entries)) ==> Antichain(tree.entries)
    {
      visited := [];
      assert Handled(tree.entries, tree.entries, visited, tree.numAttributes);
      var maxLevel := nonUccs.GetDepth();
      var level := maxLevel;
      while level != 0
        invariant level <= maxLevel
        invariant visited + LevelsDownFrom(nonUccs, level) == VisitOrder(nonUccs)
        invariant Handled(old(tree.entries), tree.entries, visited, tree.numAttributes)
        invariant SpecializedAlong(old(tree.entries), tree.entries, visited, tree.numAttributes)
      {
        var witnesses := nonUccs.GetLevel(level);
        assert visited + witnesses + LevelsDownFrom(nonUccs, level - 1) == VisitOrder(nonUccs);
        HandleLevel(witnesses, old(tree.entries), visited);
        visited := visited + witnesses;
        level := level - 1;
      }
    }
  }
}
