/**
 * List helpers of the ORDER algorithm (list-based order-dependency discovery).
 * An attribute list is a sequence of column indices; a lattice node is an
 * attribute list, and a candidate order dependency lhs -> rhs is a split of a
 * node into a non-empty prefix and the non-empty rest.
 */
module OrderLists {

  /** Order::AttributeList: column indices in the order they are compared. */
  type AttributeList = seq<nat>

  /** Order::Node: a lattice node. */
  type Node = AttributeList

  /** Order::OrderDependencies / CandidateSets: lhs -> set of rhs. */
  type OrderDependencies = map<AttributeList, set<AttributeList>>

  /**
   * InUnorderedMap: the dependency lhs -> rhs is recorded in `m`, that is,
   * rhs is in the set operator[] would read for lhs; an lhs without an entry
   * records nothing.
   */
  predicate InUnorderedMap(m: OrderDependencies, lhs: AttributeList, rhs: AttributeList): (b: bool)
    ensures b <==> rhs in Lookup(m, lhs)
  {
    lhs in m && rhs in m[lhs]
  }

  /**
   * The set stored under `k`, or the empty set: what operator[] reads from a
   * map of sets: a key without an entry reads as no dependency at all.
   */
  function Lookup(m: OrderDependencies, k: AttributeList): (r: set<AttributeList>)
    ensures k !in m ==> r == {}
    ensures k in m ==> r == m[k]
  {
    if k in m then m[k] else {}
  }

  /**
   * MaxPrefix: the list without its last element.  The source steps back from
   * end(), so the list must not be empty.
   */
  function MaxPrefix(list: AttributeList): (prefix: AttributeList)
    requires |list| > 0
    ensures |prefix| == |list| - 1
    ensures prefix + [list[|list| - 1]] == list
  {
    list[..|list| - 1]
  }

  /**
   * GetPrefixes: the proper non-empty prefixes of a node, shortest first.  The
   * source reserves size() - 1 slots, which throws for an empty node, so the
   * node must not be empty.
   */
  function GetPrefixes(node: Node): (prefixes: seq<AttributeList>)
    requires |node| > 0
    ensures |prefixes| == |node| - 1
    ensures forall i :: 0 <= i < |prefixes| ==> prefixes[i] == node[..i + 1]
    decreases |node|
  {
    if |node| == 1 then [] else GetPrefixes(MaxPrefix(node)) + [MaxPrefix(node)]
  }

  /** A list is among the prefixes of `node` iff it is a non-empty proper prefix of it. */
  lemma PrefixesMembers(node: Node, p: AttributeList)
    requires |node| > 0
    ensures p in GetPrefixes(node) <==> 0 < |p| < |node| && p == node[..|p|]
  {
    if 0 < |p| < |node| && p == node[..|p|] {
      assert GetPrefixes(node)[|p| - 1] == p;
    }
  }

  /** A candidate order dependency: (lhs, rhs). */
  type CandidatePair = (AttributeList, AttributeList)

  /**
   * ObtainCandidates: every split of a non-empty node into a non-empty lhs and a
   * non-empty rhs whose concatenation is the node, by increasing lhs length.
   */
  function ObtainCandidates(node: Node): (pairs: seq<CandidatePair>)
    requires |node| > 0
    ensures |pairs| == |node| - 1
    ensures forall i :: 0 <= i < |pairs| ==>
              |pairs[i].0| == i + 1 && pairs[i].1 != [] && pairs[i].0 + pairs[i].1 == node
  {
    seq(|node| - 1, i requires 0 <= i < |node| - 1 => (node[..i + 1], node[i + 1..]))
  }

  /** The left-hand sides of the candidates of a node are exactly its prefixes, in the same order. */
  lemma CandidatesSplitAtPrefixes(node: Node)
    requires |node| > 0
    ensures forall i :: 0 <= i < |node| - 1 ==> ObtainCandidates(node)[i].0 == GetPrefixes(node)[i]
  {
    forall i | 0 <= i < |node| - 1 ensures ObtainCandidates(node)[i].0 == GetPrefixes(node)[i] {
      var c := ObtainCandidates(node)[i];
      assert c.0 + c.1 == node;
      assert node[..i + 1] == c.0;
    }
  }

  /** AreDisjoint: no attribute of `a` occurs in `b`. */
  function AreDisjoint(a: AttributeList, b: AttributeList): (disjoint: bool)
    ensures disjoint <==> forall i, j :: 0 <= i < |a| && 0 <= j < |b| ==> a[i] != b[j]
    decreases |a|
  {
    if a == [] then true
    else if a[0] in b then false
    else AreDisjoint(a[1..], b)
  }

  /**
   * StartsWith: `rhs` is a prefix of `rhsCandidate`.  The source indexes the
   * candidate by every position of `rhs`, so the candidate must be at least as long.
   */
  function StartsWith(rhsCandidate: AttributeList, rhs: AttributeList): (starts: bool)
    requires |rhs| <= |rhsCandidate|
    ensures starts <==> rhsCandidate[..|rhs|] == rhs
    decreases |rhs|
  {
    if rhs == [] then true
    else if rhs[0] != rhsCandidate[0] then false
    else
      assert rhsCandidate[..|rhs|] == [rhsCandidate[0]] + rhsCandidate[1..][..|rhs| - 1];
      StartsWith(rhsCandidate[1..], rhs[1..])
  }

  /** JoinNodes: `l` extended by the last attribute of `r`; the inverse of MaxPrefix on its first argument. */
  function JoinNodes(l: Node, r: Node): (joined: Node)
    requires |r| > 0
    ensures |joined| == |l| + 1
    ensures MaxPrefix(joined) == l && joined[|l|] == r[|r| - 1]
  {
    l + [r[|r| - 1]]
  }

  /**
   * Order::Extend: `rhs` extended by each single attribute (in the order of
   * `singles`) that occurs neither in `lhs` nor in `rhs`.
   */
  function Extend(singles: seq<AttributeList>, lhs: AttributeList, rhs: AttributeList): (extended: seq<AttributeList>)
    requires forall s :: s in singles ==> |s| > 0
    ensures |extended| <= |singles|
    ensures forall e :: e in extended <==>
              exists s :: s in singles && AreDisjoint(s, lhs) && AreDisjoint(s, rhs) && e == rhs + [s[0]]
    decreases |singles|
  {
    if singles == [] then []
    else
      var rest := Extend(singles[1..], lhs, rhs);
      assert forall s :: s in singles <==> s == singles[0] || s in singles[1..];
      if AreDisjoint(singles[0], lhs) && AreDisjoint(singles[0], rhs) then [rhs + [singles[0][0]]] + rest
      else rest
  }

  /** Each extension appends to rhs one attribute that lhs does not contain. */
  lemma ExtendAddsForeignAttribute(singles: seq<AttributeList>, lhs: AttributeList, rhs: AttributeList, e: AttributeList)
    requires forall s :: s in singles ==> |s| > 0
    requires e in Extend(singles, lhs, rhs)
    ensures exists a :: a !in lhs && e == rhs + [a]
  {
    var s :| s in singles && AreDisjoint(s, lhs) && AreDisjoint(s, rhs) && e == rhs + [s[0]];
    assert forall j :: 0 <= j < |lhs| ==> s[0] != lhs[j];
  }

  /** `pat` occurs in `a` starting at position `i`. */
  predicate OccursAt(a: seq<nat>, pat: seq<nat>, i: nat) {
    i + |pat| <= |a| && a[i..i + |pat|] == pat
  }

  /** `i` is the position of the first occurrence of `pat` in `a`. */
  predicate FirstOccurrence(a: seq<nat>, pat: seq<nat>, i: nat) {
    OccursAt(a, pat, i) && forall j: nat :: j < i ==> !OccursAt(a, pat, j)
  }

  /**
   * std::search over a[lo..hi): the first position at which `pat` occurs
   * entirely inside the range, `lo` for an empty pattern, and `hi` when there
   * is none.
   */
  function Search(a: seq<nat>, lo: nat, hi: nat, pat: seq<nat>): (pos: nat)
    requires lo <= hi <= |a|
    decreases hi - lo
    ensures lo <= pos <= hi
    ensures |pat| == 0 ==> pos == lo
    ensures pos < hi ==> OccursAt(a, pat, pos) && pos + |pat| <= hi
    ensures (forall j: nat :: lo <= j < pos && j + |pat| <= hi ==> !OccursAt(a, pat, j))
  {
    if lo + |pat| > hi then hi
    else if a[lo..lo + |pat|] == pat then lo
    else Search(a, lo + 1, hi, pat)
  }

  /** The test IsMinimal applies to one recorded dependency lhs -> rhs, with std::search as in the source. */
  function ShowsNonMinimal(a: AttributeList, lhs: AttributeList, rhs: AttributeList): bool {
    var itRhs := Search(a, 0, |a|, rhs);
    if itRhs == |a| then false
    else if Search(a, itRhs + |rhs|, |a|, lhs) != |a| then true
    else Search(a, 0, itRhs, lhs) + |lhs| == itRhs
  }

  /**
   * The same test stated without search positions: `rhs` occurs in `a` (first at
   * position i, inside the list), and either `lhs` occurs after that occurrence,
   * or the first occurrence of `lhs` ends exactly where that occurrence starts.
   */
  ghost predicate Contradicts(a: AttributeList, lhs: AttributeList, rhs: AttributeList) {
    exists i: nat :: i < |a| && FirstOccurrence(a, rhs, i) &&
      ((exists j: nat :: i + |rhs| <= j < |a| && OccursAt(a, lhs, j)) ||
       (exists j: nat :: FirstOccurrence(a, lhs, j) && j + |lhs| == i))
  }

  /** A first occurrence is unique. */
  lemma FirstOccurrenceUnique(a: seq<nat>, pat: seq<nat>, i: nat, j: nat)
    requires FirstOccurrence(a, pat, i) && FirstOccurrence(a, pat, j)
    ensures i == j
  {
  }

  /** The search-based test and the positional statement agree. */
  lemma ShowsNonMinimalMeaning(a: AttributeList, lhs: AttributeList, rhs: AttributeList)
    ensures ShowsNonMinimal(a, lhs, rhs) <==> Contradicts(a, lhs, rhs)
  {
    var itRhs := Search(a, 0, |a|, rhs);
    if itRhs < |a| {
      assert FirstOccurrence(a, rhs, itRhs);
      var after := Search(a, itRhs + |rhs|, |a|, lhs);
      var before := Search(a, 0, itRhs, lhs);
      if after != |a| {
        assert OccursAt(a, lhs, after);
        assert Contradicts(a, lhs, rhs);
      } else if before + |lhs| == itRhs {
        if before < itRhs {
          assert FirstOccurrence(a, lhs, before);
        } else {
          assert FirstOccurrence(a, lhs, 0);
        }
        assert Contradicts(a, lhs, rhs);
      } else {
        forall j: nat | FirstOccurrence(a, lhs, j) ensures j + |lhs| != itRhs {
          if j + |lhs| <= itRhs {
            assert before <= j;
            if before < itRhs {
              assert OccursAt(a, lhs, before);
            }
          }
        }
        forall i: nat | i < |a| && FirstOccurrence(a, rhs, i) ensures i == itRhs {
          FirstOccurrenceUnique(a, rhs, i, itRhs);
        }
      }
    } else {
      assert forall i: nat :: i < |a| ==> !OccursAt(a, rhs, i);
    }
  }

  /** ShowsNonMinimalMeaning for every recorded pair at once. */
  lemma ShowsNonMinimalMeaningAll(a: AttributeList)
    ensures forall lhs, rhs :: ShowsNonMinimal(a, lhs, rhs) <==> Contradicts(a, lhs, rhs)
  {
    forall lhs, rhs ensures ShowsNonMinimal(a, lhs, rhs) <==> Contradicts(a, lhs, rhs) {
      ShowsNonMinimalMeaning(a, lhs, rhs);
    }
  }

  /**
   * Order::IsMinimal: a list is minimal unless some recorded valid dependency
   * lhs -> rhs has rhs occurring in it (first at position i) and either lhs
   * occurring after that occurrence or the first occurrence of lhs ending
   * exactly at i.
   */
  function IsMinimal(valid: OrderDependencies, a: AttributeList): (minimal: bool)
    ensures !minimal <==> exists lhs, rhs :: InUnorderedMap(valid, lhs, rhs) && Contradicts(a, lhs, rhs)
  {
    ShowsNonMinimalMeaningAll(a);
    forall lhs, rhs | lhs in valid && rhs in valid[lhs] :: !ShowsNonMinimal(a, lhs, rhs)
  }
}
