/**
  Maximum bipartite matching by augmenting paths, with a single pass over the left nodes.
 */
module MaxBipartiteMatching {
  import opened AugmentingSearch
  import opened BipartiteGraphs
  import opened Collections
  import opened MatchMatrices

  // ---- why one pass is enough ----

  /** The invariant of the single pass once the left nodes below k have been tried:
      those left unmatched lie in the dead end, and will never find a partner. */
  ghost predicate OnePass(g: Graph, left: seq<int>, right: seq<int>, closed: set<int>, k: int) {
    && MutuallyReferent(g, left, right)
    && DeadEnd(g, right, closed)
    && (forall i | 0 <= i < |left| && left[i] == UNUSED :: k <= i || i in closed)
    && (forall i | 0 <= i < |left| && k <= i :: left[i] == UNUSED)
  }

  lemma SuccessKeepsOnePass(g: Graph, left0: seq<int>, right0: seq<int>, left: seq<int>, right: seq<int>,
                            closed: set<int>, ilhs: int, seen: seq<bool>)
    requires OnePass(g, left0, right0, closed, ilhs) && 0 <= ilhs < |left0|
    requires Augmented(g, ilhs, seen, left0, right0, left, right) && DeadEnd(g, right, closed)
    ensures OnePass(g, left, right, closed, ilhs + 1)
  {
  }

  lemma FailureKeepsOnePass(g: Graph, left: seq<int>, right: seq<int>, closed: set<int>, ilhs: int, seen: seq<bool>)
    requires g.Valid() && OnePass(g, left, right, closed, ilhs) && 0 <= ilhs < |left|
    requires Exhausted(g, right, ilhs, seq(g.rhs, _ => false), seen)
    ensures OnePass(g, left, right, closed + {ilhs} + Image(right, SeenSet(seen)), ilhs + 1)
  {
    FailedSearchIsDeficient(g, left, right, ilhs, seen);
  }

  /** Either way, some dead end keeps the invariant of the single pass. */
  lemma OnePassStep(g: Graph, left0: seq<int>, right0: seq<int>, left: seq<int>, right: seq<int>,
                    closed: set<int>, ilhs: int, unseen: seq<bool>, seen: seq<bool>, ok: bool) returns (grown: set<int>)
    requires g.Valid() && OnePass(g, left0, right0, closed, ilhs) && 0 <= ilhs < |left0|
    requires unseen == seq(g.rhs, _ => false)
    requires ok ==> Augmented(g, ilhs, unseen, left0, right0, left, right) && DeadEnd(g, right, closed)
    requires !ok ==> left == left0 && right == right0 && Exhausted(g, right, ilhs, unseen, seen)
    ensures OnePass(g, left, right, grown, ilhs + 1)
  {
    if ok {
      grown := closed;
      SuccessKeepsOnePass(g, left0, right0, left, right, closed, ilhs, unseen);
    } else {
      grown := closed + {ilhs} + Image(right0, SeenSet(seen));
      FailureKeepsOnePass(g, left, right, closed, ilhs, seen);
    }
  }

  lemma PairsMatch(g: Graph, left: seq<int>, right: seq<int>)
    requires MutuallyReferent(g, left, right)
    ensures IsMatching(g, Pairs(left))
  {
    forall i | 0 <= i < |left| && left[i] != UNUSED
      ensures (i, left[i]) in g.edges && 0 <= left[i] < |right| && right[left[i]] == i
    {
      assert LeftLinked(g, left, right, i);
    }
  }

  /** The pairs of left nodes outside `closed`, all matched, have exactly those left ends. */
  lemma PairsOutside(left: seq<int>, closed: set<int>, outside: set<Edge>)
    requires forall i | 0 <= i < |left| && left[i] == UNUSED :: i in closed
    requires outside == set p | p in Pairs(left) && p.0 !in closed
    ensures Lefts(outside) == Range(|left|) - closed
  {
    forall i | i in Range(|left|) - closed
      ensures i in Lefts(outside)
    {
      assert (i, left[i]) in outside;
    }
  }

  /** The pairs of left nodes inside a dead end have exactly its neighbours as right ends. */
  lemma PairsInside(g: Graph, left: seq<int>, right: seq<int>, closed: set<int>, inside: set<Edge>)
    requires MutuallyReferent(g, left, right) && DeadEnd(g, right, closed)
    requires inside == set p | p in Pairs(left) && p.0 in closed
    ensures Rights(inside) == Neighbours(g, closed)
  {
    PairsMatch(g, left, right);
    forall e | e in g.edges && e.0 in closed
      ensures e.1 in Rights(inside)
    {
      assert RightLinked(left, right, e.1);
      assert (right[e.1], e.1) in inside;
    }
  }

  /** The left nodes outside a dead end, with its neighbours, meet every edge. */
  lemma DeadEndCover(g: Graph, closed: set<int>)
    requires g.Valid()
    ensures IsVertexCover(g, Range(g.lhs) - closed, Neighbours(g, closed))
  {
  }

  /** They are as many as the pairs, if every unmatched left node lies in the dead end. */
  lemma DeadEndCount(g: Graph, left: seq<int>, right: seq<int>, closed: set<int>)
    requires MutuallyReferent(g, left, right) && DeadEnd(g, right, closed)
    requires forall i | 0 <= i < |left| && left[i] == UNUSED :: i in closed
    ensures |Pairs(left)| == |Range(g.lhs) - closed| + |Neighbours(g, closed)|
  {
    var m := Pairs(left);
    var outside := set p | p in m && p.0 !in closed;
    var inside := m - outside;
    PairsMatch(g, left, right);
    assert |outside| == |Range(g.lhs) - closed| by {
      PairsOutside(left, closed, outside);
      SubMatching(g, m, outside);
    }
    assert |inside| == |Neighbours(g, closed)| by {
      PairsInside(g, left, right, closed, inside);
      SubMatching(g, m, inside);
    }
  }

  /** If every unmatched left node lies in a dead end, the matching is maximum: the left
      nodes outside the dead end and its neighbours form a vertex cover of equal size. */
  lemma DeadEndCertifiesMaximum(g: Graph, left: seq<int>, right: seq<int>, closed: set<int>)
    requires g.Valid() && MutuallyReferent(g, left, right) && DeadEnd(g, right, closed)
    requires forall i | 0 <= i < |left| && left[i] == UNUSED :: i in closed
    ensures IsMaximumMatching(g, Pairs(left)) && HasCover(g, |Pairs(left)|)
  {
    PairsMatch(g, left, right);
    DeadEndCover(g, closed);
    DeadEndCount(g, left, right, closed);
    CoverCertifiesMaximum(g, Pairs(left), Range(g.lhs) - closed, Neighbours(g, closed));
  }

  /** The pairs (i, left[i]) of the matched left nodes below k, in ascending order. */
  ghost function PairList(left: seq<int>, k: nat): seq<Edge>
    requires k <= |left|
  {
    if k == 0 then []
    else PairList(left, k - 1) + if left[k - 1] == UNUSED then [] else [(k - 1, left[k - 1])]
  }

  lemma {:induction false} PairListMembers(left: seq<int>, k: nat)
    requires k <= |left|
    ensures forall p :: p in PairList(left, k) <==> 0 <= p.0 < k && left[p.0] != UNUSED && p.1 == left[p.0]
  {
    if k > 0 {
      PairListMembers(left, k - 1);
    }
  }

  lemma {:induction false} PairListAscends(left: seq<int>, k: nat)
    requires k <= |left|
    ensures forall a, b | 0 <= a < b < |PairList(left, k)| :: PairList(left, k)[a].0 < PairList(left, k)[b].0
  {
    if k > 0 {
      PairListAscends(left, k - 1);
      PairListMembers(left, k - 1);
      var init := PairList(left, k - 1);
      assert forall a | 0 <= a < |init| :: init[a] in init;
    }
  }

  /** When all left nodes have been tried, the pairs listed are a maximum matching. */
  lemma OnePassCompletes(g: Graph, left: seq<int>, right: seq<int>, closed: set<int>)
    requires g.Valid() && OnePass(g, left, right, closed, g.lhs)
    ensures var result := PairList(left, |left|);
            && IsMaximumMatching(g, Elements(result)) && HasCover(g, |Elements(result)|)
            && (forall a, b | 0 <= a < b < |result| :: result[a].0 < result[b].0)
  {
    DeadEndCertifiesMaximum(g, left, right, closed);
    PairListAscends(left, |left|);
    assert Elements(PairList(left, |left|)) == Pairs(left) by {
      PairListMembers(left, |left|);
    }
  }

  class MaxBipartiteMatchState {
    const graph: MatchMatrix
    const left: array<int>
    const right: array<int>
    ghost const g: Graph

    /** The vectors fit the matrix, whose cells still stand for the graph g. */
    ghost predicate Shape()
      reads graph.matched
    {
      && graph.Valid() && g == graph.View()
      && left.Length == graph.numElements && right.Length == graph.numMatchers
      && left != right
    }

    constructor (matrix: MatchMatrix)
      requires matrix.Valid()
      ensures Shape() && graph == matrix && g == matrix.View()
      ensures fresh(left) && fresh(right)
      ensures forall i | 0 <= i < left.Length :: left[i] == UNUSED
      ensures forall r | 0 <= r < right.Length :: right[r] == UNUSED
    {
      graph := matrix;
      g := matrix.View();
      left := new int[matrix.numElements](_ => UNUSED);
      right := new int[matrix.numMatchers](_ => UNUSED);
    }

    /** Searches from ilhs; `explored` lists the left nodes it was called for, in order. */
    method TryAugment(ilhs: int, seen: array<bool>, ghost closed: set<int>)
      returns (ok: bool, ghost explored: seq<int>)
      requires Shape() && seen.Length == right.Length && seen != graph.matched
      requires MutuallyReferent(g, left[..], right[..])
      requires 0 <= ilhs < left.Length
      requires MateSeen(seen[..], left[ilhs])
      requires DeadEnd(g, right[..], closed)
      modifies left, right, seen
      ensures Explores(g, old(right[..]), ilhs, old(seen[..]), seen[..], explored)
      ensures !ok ==> left[..] == old(left[..]) && right[..] == old(right[..])
      ensures !ok ==> Exhausted(g, right[..], ilhs, old(seen[..]), seen[..])
      ensures ok ==> Augmented(g, ilhs, old(seen[..]),
                               old(left[..]), old(right[..]), left[..], right[..])
      ensures ok ==> ilhs !in closed
      ensures DeadEnd(g, right[..], closed)
      decreases Unseen(seen[..])
    {
      ghost var left0, right0, seen0 := left[..], right[..], seen[..];
      explored := [ilhs];
      ExploresStart(g, right0, ilhs, seen0);
      for irhs := 0 to graph.numMatchers
        invariant left[..] == left0 && right[..] == right0
        invariant FailedUpTo(g, right0, ilhs, seen0, seen[..], irhs)
        invariant Explores(g, right0, ilhs, seen0, seen[..], explored)
      {
        if seen[irhs] {
          continue;
        }
        if !graph.HasEdge(ilhs, irhs) {
          continue;
        }
        ghost var middle := seen[..];
        seen[irhs] := true;
        assert seen[..] == middle[irhs := true];
        var found := right[irhs] == UNUSED;
        if found {
          ExploresEdge(g, right0, ilhs, irhs, seen0, middle, explored);
        } else {
          assert Unseen(seen[..]) < Unseen(seen0) by {
            assert irhs in Unseen(seen0) && irhs !in Unseen(seen[..]);
          }
          MateIsReady(g, left0, right0, irhs, seen[..]);
          ghost var inner;
          found, inner := TryAugment(right[irhs], seen, closed);
          ExploresMate(g, left0, right0, ilhs, irhs, seen0, middle, seen[..], explored, inner);
          explored := explored + inner;
        }
        if found {
          ghost var left1, right1 := left[..], right[..];
          AugmentationCompletes(g, ilhs, irhs, seen0, middle, left0, right0, left1, right1, closed);
          left[ilhs] := irhs;
          right[irhs] := ilhs;
          assert left[..] == left1[ilhs := irhs] && right[..] == right1[irhs := ilhs];
          return true, explored;
        }
        FailureExtends(g, right0, ilhs, irhs, seen0, middle, seen[..]);
      }
      return false, explored;
    }

    /** The pairs of a maximum matching, although every left node is tried only once. */
    method Compute() returns (result: seq<Edge>)
      requires Shape()
      requires forall i | 0 <= i < left.Length :: left[i] == UNUSED
      requires forall r | 0 <= r < right.Length :: right[r] == UNUSED
      modifies left, right
      ensures MutuallyReferent(g, left[..], right[..])
      ensures IsMaximumMatching(g, Elements(result))
      ensures HasCover(g, |Elements(result)|)
      ensures forall a, b | 0 <= a < b < |result| :: result[a].0 < result[b].0
    {
      var seen := new bool[graph.numMatchers];
      ghost var closed: set<int> := {};
      for ilhs := 0 to graph.numElements
        invariant OnePass(g, left[..], right[..], closed, ilhs)
      {
        assert left[ilhs] == UNUSED;  // never matched before its own turn
        ghost var left0, right0 := left[..], right[..];
        forall r | 0 <= r < seen.Length {
          seen[r] := false;
        }
        ghost var unseen := seen[..];
        assert unseen == seq(g.rhs, _ => false) && left[..] == left0 && right[..] == right0;
        var ok, _ := TryAugment(ilhs, seen, closed);
        closed := OnePassStep(g, left0, right0, left[..], right[..], closed, ilhs, unseen, seen[..], ok);
      }
      OnePassCompletes(g, left[..], right[..], closed);
      result := CollectPairs();
    }

    /** The pairs of the matched left nodes, in ascending order. */
    method CollectPairs() returns (result: seq<Edge>)
      ensures result == PairList(left[..], left.Length)
    {
      result := [];
      for ilhs := 0 to left.Length
        invariant result == PairList(left[..], ilhs)
      {
        var irhs := left[ilhs];
        if irhs == UNUSED {
          continue;
        }
        result := result + [(ilhs, irhs)];
      }
    }
  }

  method FindMaxBipartiteMatching(matrix: MatchMatrix) returns (result: seq<Edge>)
    requires matrix.Valid()
    ensures IsMaximumMatching(matrix.View(), Elements(result))
    ensures HasCover(matrix.View(), |result|)
    ensures |result| == |Elements(result)|
  {
    var state := new MaxBipartiteMatchState(matrix);
    result := state.Compute();
    DistinctCount(result);
  }

  // ---- pairing every matcher with its own element ----

  /** The left partner of r in m. */
  ghost function Partner(m: set<Edge>, r: int): (i: int)
    requires r in Rights(m)
    ensures (i, r) in m
  {
    var p :| p in m && p.1 == r;
    p.0
  }

  lemma FullMatchingSpansRight(g: Graph, m: set<Edge>)
    requires g.Valid() && IsMatching(g, m) && |m| == g.rhs
    ensures Rights(m) == Range(g.rhs)
  {
    MatchingSize(g, m);
    SubsetSize(Rights(m), Range(g.rhs));
  }

  lemma PartnersDiffer(g: Graph, m: set<Edge>, r: int, s: int)
    requires IsMatching(g, m) && r in Rights(m) && s in Rights(m) && r != s
    ensures Partner(m, r) != Partner(m, s)
  {
    var p, q := (Partner(m, r), r), (Partner(m, s), s);
    assert p in m && q in m && p != q;
  }

  ghost function Partners(m: set<Edge>, n: nat): (choice: seq<int>)
    requires forall r | 0 <= r < n :: r in Rights(m)
    ensures |choice| == n && forall r | 0 <= r < n :: choice[r] == Partner(m, r)
  {
    if n == 0 then [] else Partners(m, n - 1) + [Partner(m, n - 1)]
  }

  lemma FullMatchingIsPairing(g: Graph, m: set<Edge>)
    requires g.Valid() && IsMatching(g, m) && |m| == g.rhs
    ensures exists choice :: IsPairing(g, choice)
  {
    assert forall r | 0 <= r < g.rhs :: r in Rights(m) by {
      FullMatchingSpansRight(g, m);
    }
    var choice := Partners(m, g.rhs);
    forall r, s | 0 <= r < s < g.rhs
      ensures choice[r] != choice[s]
    {
      PartnersDiffer(g, m, r, s);
    }
    assert IsPairing(g, choice);
  }

  /** In a square graph a pairing uses every element: it is a permutation. */
  lemma SquarePairingIsPermutation(g: Graph, choice: seq<int>)
    requires g.Valid() && IsPairing(g, choice) && g.lhs == g.rhs
    ensures Elements(choice) == Range(g.lhs)
  {
    DistinctCount(choice);
    SubsetSize(Elements(choice), Range(g.lhs));
  }

  /** True exactly when every matcher can have its own element that it matches; and that
      is the case exactly when no set of matchers is short of elements. */
  method FindPairing(matrix: MatchMatrix) returns (found: bool)
    requires matrix.Valid()
    ensures found <==> exists choice :: IsPairing(matrix.View(), choice)
    ensures found <==> HallCondition(matrix.View())
  {
    var matches := FindMaxBipartiteMatching(matrix);
    var maxFlow := |matches|;
    found := maxFlow == matrix.numMatchers;
    ghost var g := matrix.View();
    if found {
      FullMatchingIsPairing(g, Elements(matches));
      ghost var choice :| IsPairing(g, choice);
      PairingImpliesHall(g, choice);
    } else {
      MatchingWithinRight(g, Elements(matches));
      SmallCoverBreaksHall(g, |matches|);
      if choice :| IsPairing(g, choice) {
        PairingImpliesHall(g, choice);
      }
    }
  }

  lemma MatchingWithinRight(g: Graph, m: set<Edge>)
    requires g.Valid() && IsMatching(g, m)
    ensures |m| <= g.rhs
  {
    MatchingSize(g, m);
    SubsetSize(Rights(m), Range(g.rhs));
  }
}
