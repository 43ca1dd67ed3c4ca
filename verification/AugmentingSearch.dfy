/**
  The augmenting search for bipartite matchings: what the vectors of partners mean, and
  what one search does to them and has looked at, on success and on failure.
 */
module AugmentingSearch {
  import opened BipartiteGraphs

  /** Marks a node without a partner: no index has this value. */
  const UNUSED := -1

  // ---- what the vectors left and right mean ----

  /** left sends ilhs along an edge to a right node that points back. */
  ghost predicate LeftLinked(g: Graph, left: seq<int>, right: seq<int>, i: int)
    requires 0 <= i < |left|
  {
    left[i] == UNUSED
    || (0 <= left[i] < |right| && right[left[i]] == i && (i, left[i]) in g.edges)
  }

  ghost predicate RightLinked(left: seq<int>, right: seq<int>, r: int)
    requires 0 <= r < |right|
  {
    right[r] == UNUSED || (0 <= right[r] < |left| && left[right[r]] == r)
  }

  /** All entries are UNUSED or mutually referent, except that the right node
      `dangling` may still name a left node that has moved elsewhere. */
  ghost predicate LinkedExcept(g: Graph, left: seq<int>, right: seq<int>, dangling: int) {
    && |left| == g.lhs && |right| == g.rhs
    && (forall i | 0 <= i < |left| :: LeftLinked(g, left, right, i))
    && (forall r | 0 <= r < |right| && r != dangling :: RightLinked(left, right, r))
  }

  ghost predicate MutuallyReferent(g: Graph, left: seq<int>, right: seq<int>) {
    LinkedExcept(g, left, right, UNUSED)
  }

  ghost function Pairs(left: seq<int>): set<Edge> {
    set i | 0 <= i < |left| && left[i] != UNUSED :: (i, left[i])
  }

  /** Every neighbour of `closed` is matched, and to a member of `closed`:
      no augmenting path leaves such a set. */
  ghost predicate DeadEnd(g: Graph, right: seq<int>, closed: set<int>) {
    && |right| == g.rhs
    && (forall d | d in closed :: 0 <= d < g.lhs)
    && (forall e | e in g.edges && e.0 in closed ::
          0 <= e.1 < |right| && right[e.1] != UNUSED && right[e.1] in closed)
  }

  ghost function Unseen(seen: seq<bool>): set<int> {
    set r | 0 <= r < |seen| && !seen[r]
  }

  // ---- what one search does ----

  /** A search from ilhs that has tried the right nodes below k without success: the
      right nodes newly seen are matched, and every neighbour of their mates is seen. */
  ghost predicate FailedUpTo(g: Graph, right: seq<int>, ilhs: int, before: seq<bool>, after: seq<bool>, k: int) {
    && |before| == |after| == |right| == g.rhs
    && (forall r | 0 <= r < g.rhs && before[r] :: after[r])
    && (forall r | 0 <= r < k && (ilhs, r) in g.edges :: r < g.rhs && after[r])
    && (forall r | 0 <= r < g.rhs && after[r] && !before[r] ::
          right[r] != UNUSED && AllNeighboursSeen(g, right[r], after))
  }

  ghost predicate AllNeighboursSeen(g: Graph, i: int, seen: seq<bool>) {
    forall r | 0 <= r < |seen| && (i, r) in g.edges :: seen[r]
  }

  ghost predicate Exhausted(g: Graph, right: seq<int>, ilhs: int, before: seq<bool>, after: seq<bool>) {
    FailedUpTo(g, right, ilhs, before, after, g.rhs)
  }

  ghost predicate MateSeen(seen: seq<bool>, mate: int) {
    mate == UNUSED || (0 <= mate < |seen| && seen[mate])
  }

  /** The outcome of a successful search from ilhs: ilhs becomes matched, exactly one
      right node becomes matched, nobody loses a partner, and nothing attached to a
      right node seen before is touched. */
  ghost predicate Augmented(g: Graph, ilhs: int, seen: seq<bool>,
                            left0: seq<int>, right0: seq<int>, left: seq<int>, right: seq<int>)
  {
    && |left0| == |left| == g.lhs && |seen| == |right0| == |right| == g.rhs
    && 0 <= ilhs < g.lhs
    && LinkedExcept(g, left, right, left0[ilhs])
    && 0 <= left[ilhs] < g.rhs && !seen[left[ilhs]]
    && (forall i | 0 <= i < g.lhs && i != ilhs :: left[i] == UNUSED <==> left0[i] == UNUSED)
    && (forall i | 0 <= i < g.lhs && i != ilhs :: KeepsMate(seen, left0, left, i))
    && (forall r | 0 <= r < g.rhs && seen[r] :: right[r] == right0[r])
    && (exists r :: FreshlyMatched(right0, right, r))
  }

  ghost predicate KeepsMate(seen: seq<bool>, left0: seq<int>, left: seq<int>, i: int)
    requires 0 <= i < |left0| == |left|
  {
    0 <= left0[i] < |seen| && seen[left0[i]] ==> left[i] == left0[i]
  }

  ghost predicate FreshlyMatched(right0: seq<int>, right: seq<int>, gained: int)
    requires |right| == |right0|
  {
    && 0 <= gained < |right|
    && right0[gained] == UNUSED
    && forall r | 0 <= r < |right| :: right[r] == UNUSED <==> right0[r] == UNUSED && r != gained
  }

  /** Linking ilhs to an unmatched right node is a successful search. */
  lemma AugmentDirectly(g: Graph, ilhs: int, irhs: int, seen: seq<bool>, left: seq<int>, right: seq<int>)
    requires MutuallyReferent(g, left, right) && |seen| == |right|
    requires 0 <= ilhs < |left| && 0 <= irhs < |right| && (ilhs, irhs) in g.edges
    requires MateSeen(seen, left[ilhs])
    requires !seen[irhs] && right[irhs] == UNUSED
    ensures Augmented(g, ilhs, seen, left, right, left[ilhs := irhs], right[irhs := ilhs])
  {
    var left2, right2 := left[ilhs := irhs], right[irhs := ilhs];
    forall i | 0 <= i < |left2|
      ensures LeftLinked(g, left2, right2, i)
    {
      assert LeftLinked(g, left, right, i);
    }
    forall r | 0 <= r < |right2| && r != left[ilhs]
      ensures RightLinked(left2, right2, r)
    {
      assert RightLinked(left, right, r);
    }
    assert FreshlyMatched(right, right2, irhs);
  }

  /** When the search from the mate of irhs succeeds, giving irhs to ilhs completes
      the path: irhs is the one right node that was left dangling. */
  lemma AugmentThroughMate(g: Graph, ilhs: int, irhs: int, seen: seq<bool>, seenInner: seq<bool>,
                           left0: seq<int>, right0: seq<int>, left: seq<int>, right: seq<int>)
    requires MutuallyReferent(g, left0, right0) && |seen| == |right0| == |seenInner|
    requires 0 <= ilhs < |left0| && 0 <= irhs < |right0| && (ilhs, irhs) in g.edges
    requires MateSeen(seen, left0[ilhs])
    requires !seen[irhs] && right0[irhs] != UNUSED
    requires seenInner[irhs] && forall r | 0 <= r < |seen| && seen[r] :: seenInner[r]
    requires Augmented(g, right0[irhs], seenInner, left0, right0, left, right)
    ensures Augmented(g, ilhs, seen, left0, right0, left[ilhs := irhs], right[irhs := ilhs])
  {
    var mate := right0[irhs];
    assert RightLinked(left0, right0, irhs);
    assert mate != ilhs;
    assert left[ilhs] == left0[ilhs] by {
      assert KeepsMate(seenInner, left0, left, ilhs);
    }
    var left2, right2 := left[ilhs := irhs], right[irhs := ilhs];
    forall i | 0 <= i < |left2|
      ensures LeftLinked(g, left2, right2, i)
    {
      assert LeftLinked(g, left, right, i);
    }
    forall r | 0 <= r < |right2| && r != left0[ilhs]
      ensures RightLinked(left2, right2, r)
    {
      if r != irhs {
        assert RightLinked(left, right, r);
      }
    }
    forall i | 0 <= i < g.lhs && i != ilhs
      ensures KeepsMate(seen, left0, left2, i)
    {
      if i != mate {
        assert KeepsMate(seenInner, left0, left, i);
      }
    }
    var gained :| FreshlyMatched(right0, right, gained);
    assert FreshlyMatched(right0, right2, gained);
  }

  /** Re-linking a right node whose mate lies outside a dead end leaves the dead end alone. */
  lemma DeadEndUntouched(g: Graph, ilhs: int, irhs: int, right0: seq<int>, right: seq<int>, closed: set<int>)
    requires DeadEnd(g, right0, closed) && DeadEnd(g, right, closed)
    requires 0 <= irhs < |right| && (ilhs, irhs) in g.edges
    requires right0[irhs] == UNUSED || right0[irhs] !in closed
    ensures ilhs !in closed
    ensures DeadEnd(g, right[irhs := ilhs], closed)
  {
    forall e | e in g.edges && e.0 in closed
      ensures e.1 != irhs
    {
    }
  }

  /** Giving irhs to ilhs completes a search that found irhs unmatched, or whose search
      from the mate of irhs succeeded. */
  lemma AugmentationCompletes(g: Graph, ilhs: int, irhs: int, seen: seq<bool>, middle: seq<bool>,
                              left0: seq<int>, right0: seq<int>, left: seq<int>, right: seq<int>,
                              closed: set<int>)
    requires MutuallyReferent(g, left0, right0) && |seen| == |right0| == |middle|
    requires 0 <= ilhs < |left0| && 0 <= irhs < |right0| && (ilhs, irhs) in g.edges
    requires MateSeen(seen, left0[ilhs])
    requires !middle[irhs] && forall r | 0 <= r < |seen| && seen[r] :: middle[r]
    requires DeadEnd(g, right0, closed) && DeadEnd(g, right, closed)
    requires if right0[irhs] == UNUSED then left == left0 && right == right0
             else Augmented(g, right0[irhs], middle[irhs := true], left0, right0, left, right) && right0[irhs] !in closed
    ensures |left| == |left0| && |right| == |right0|
    ensures Augmented(g, ilhs, seen, left0, right0, left[ilhs := irhs], right[irhs := ilhs])
    ensures ilhs !in closed && DeadEnd(g, right[irhs := ilhs], closed)
  {
    DeadEndUntouched(g, ilhs, irhs, right0, right, closed);
    if right0[irhs] == UNUSED {
      AugmentDirectly(g, ilhs, irhs, seen, left0, right0);
    } else {
      AugmentThroughMate(g, ilhs, irhs, seen, middle[irhs := true], left0, right0, left, right);
    }
  }

  /** The mate of a seen right node may be searched from. */
  lemma MateIsReady(g: Graph, left: seq<int>, right: seq<int>, irhs: int, seen: seq<bool>)
    requires MutuallyReferent(g, left, right)
    requires 0 <= irhs < |right| == |seen| && right[irhs] != UNUSED && seen[irhs]
    ensures 0 <= right[irhs] < |left| && MateSeen(seen, left[right[irhs]])
  {
    assert RightLinked(left, right, irhs);
  }

  /** One more right node proves fruitless: its mate has been searched in vain. */
  lemma FailureExtends(g: Graph, right: seq<int>, ilhs: int, irhs: int,
                       before: seq<bool>, middle: seq<bool>, after: seq<bool>)
    requires FailedUpTo(g, right, ilhs, before, middle, irhs)
    requires 0 <= irhs < g.rhs && right[irhs] != UNUSED
    requires Exhausted(g, right, right[irhs], middle[irhs := true], after)
    ensures FailedUpTo(g, right, ilhs, before, after, irhs + 1)
  {
    forall r | 0 <= r < g.rhs && after[r] && !before[r]
      ensures right[r] != UNUSED && AllNeighboursSeen(g, right[r], after)
    {
      if middle[r] {
        assert AllNeighboursSeen(g, right[r], middle);
      }
    }
  }

  // ---- what a search looks at ----

  /** path is a way from the left node ilhs over an edge, then again and again over the
      link of a right node to its mate and over an edge of that mate. */
  ghost predicate IsAlternating(g: Graph, right: seq<int>, ilhs: int, path: seq<int>) {
    && path != []
    && (ilhs, path[0]) in g.edges
    && (forall k | 0 <= k < |path| - 1 ::
          0 <= path[k] < |right| && right[path[k]] != UNUSED && (right[path[k]], path[k + 1]) in g.edges)
  }

  ghost predicate Alternates(g: Graph, right: seq<int>, ilhs: int, r: int) {
    exists path :: IsAlternating(g, right, ilhs, path) && path[|path| - 1] == r
  }

  lemma EdgeAlternates(g: Graph, right: seq<int>, ilhs: int, r: int)
    requires (ilhs, r) in g.edges
    ensures Alternates(g, right, ilhs, r)
  {
    assert IsAlternating(g, right, ilhs, [r]);
  }

  lemma MateAlternates(g: Graph, right: seq<int>, ilhs: int, irhs: int, r: int)
    requires (ilhs, irhs) in g.edges && 0 <= irhs < |right| && right[irhs] != UNUSED
    requires Alternates(g, right, right[irhs], r)
    ensures Alternates(g, right, ilhs, r)
  {
    var path :| IsAlternating(g, right, right[irhs], path) && path[|path| - 1] == r;
    var longer := [irhs] + path;
    forall k | 0 <= k < |longer| - 1
      ensures 0 <= longer[k] < |right| && right[longer[k]] != UNUSED && (right[longer[k]], longer[k + 1]) in g.edges
    {
      assert k > 0 ==> longer[k] == path[k - 1];
    }
    assert IsAlternating(g, right, ilhs, longer);
  }

  ghost predicate NewlySeen(before: seq<bool>, after: seq<bool>, r: int) {
    0 <= r < |before| == |after| && after[r] && !before[r]
  }

  ghost predicate MateOfNew(right: seq<int>, before: seq<bool>, after: seq<bool>, x: int) {
    x != UNUSED && exists r :: NewlySeen(before, after, r) && r < |right| && right[r] == x
  }

  ghost predicate Distinct(s: seq<int>) {
    forall a, b | 0 <= a < b < |s| :: s[a] != s[b]
  }

  /** The course of a search from ilhs, whether it succeeds or not: right nodes stay seen,
      those newly seen lie on alternating paths from ilhs, and the left nodes explored, in
      this order, are ilhs and mates of newly seen nodes, none of them twice. */
  ghost predicate Explores(g: Graph, right: seq<int>, ilhs: int, before: seq<bool>, after: seq<bool>,
                           explored: seq<int>)
  {
    && |before| == |after| == |right|
    && (forall r | 0 <= r < |before| && before[r] :: after[r])
    && (forall r | NewlySeen(before, after, r) :: Alternates(g, right, ilhs, r))
    && Distinct(explored)
    && (forall x | x in explored :: x == ilhs || MateOfNew(right, before, after, x))
  }

  lemma ExploresStart(g: Graph, right: seq<int>, ilhs: int, seen: seq<bool>)
    requires |seen| == |right|
    ensures Explores(g, right, ilhs, seen, seen, [ilhs])
  {
  }

  /** Seeing one more neighbour of ilhs. */
  lemma ExploresEdge(g: Graph, right: seq<int>, ilhs: int, irhs: int, before: seq<bool>, middle: seq<bool>,
                     explored: seq<int>)
    requires Explores(g, right, ilhs, before, middle, explored)
    requires 0 <= irhs < |right| && (ilhs, irhs) in g.edges
    ensures Explores(g, right, ilhs, before, middle[irhs := true], explored)
  {
    var after := middle[irhs := true];
    EdgeAlternates(g, right, ilhs, irhs);
    forall r | NewlySeen(before, after, r)
      ensures Alternates(g, right, ilhs, r)
    {
      assert r != irhs ==> NewlySeen(before, middle, r);
    }
    WiderMates(right, before, middle, after, ilhs, explored);
  }

  lemma WiderMates(right: seq<int>, before: seq<bool>, middle: seq<bool>, after: seq<bool>, ilhs: int,
                   explored: seq<int>)
    requires |before| == |middle| == |after|
    requires forall r | 0 <= r < |middle| && middle[r] :: after[r]
    requires forall x | x in explored :: x == ilhs || MateOfNew(right, before, middle, x)
    ensures forall x | x in explored :: x == ilhs || MateOfNew(right, before, after, x)
  {
    forall x | x in explored && x != ilhs
      ensures MateOfNew(right, before, after, x)
    {
      var r :| NewlySeen(before, middle, r) && r < |right| && right[r] == x;
      assert NewlySeen(before, after, r);
    }
  }

  /** A search from the mate of irhs explores only left nodes not explored before it. */
  lemma InnerIsNew(g: Graph, left: seq<int>, right: seq<int>, ilhs: int, irhs: int,
                   before: seq<bool>, middle: seq<bool>, after: seq<bool>, x: int)
    requires MutuallyReferent(g, left, right) && |before| == |middle| == |after| == |right|
    requires 0 <= ilhs < |left| && MateSeen(before, left[ilhs])
    requires 0 <= irhs < |right| && right[irhs] != UNUSED && !middle[irhs]
    requires forall r | 0 <= r < |before| && before[r] :: middle[r]
    requires x == ilhs || MateOfNew(right, before, middle, x)
    ensures x != right[irhs] && !MateOfNew(right, middle[irhs := true], after, x)
  {
    forall r | 0 <= r < |right| && !middle[r]
      ensures right[r] != x
    {
      assert RightLinked(left, right, r);
      if x != ilhs {
        var s :| NewlySeen(before, middle, s) && s < |right| && right[s] == x;
        MatesDiffer(g, left, right, r, s);
      }
    }
  }

  lemma MatesDiffer(g: Graph, left: seq<int>, right: seq<int>, r: int, s: int)
    requires MutuallyReferent(g, left, right)
    requires 0 <= r < |right| && 0 <= s < |right| && r != s && right[s] != UNUSED
    ensures right[r] != right[s]
  {
    assert RightLinked(left, right, r) && RightLinked(left, right, s);
  }

  lemma JoinedDistinct(a: seq<int>, b: seq<int>)
    requires Distinct(a) && Distinct(b) && forall x | x in a :: x !in b
    ensures Distinct(a + b)
  {
    forall i, j | 0 <= i < j < |a + b|
      ensures (a + b)[i] != (a + b)[j]
    {
      if i < |a| <= j {
        assert a[i] in a && b[j - |a|] in b;
      }
    }
  }

  /** The search goes on through the mate of irhs. */
  lemma ExploresMate(g: Graph, left: seq<int>, right: seq<int>, ilhs: int, irhs: int,
                     before: seq<bool>, middle: seq<bool>, after: seq<bool>,
                     explored: seq<int>, inner: seq<int>)
    requires MutuallyReferent(g, left, right)
    requires 0 <= ilhs < |left| && MateSeen(before, left[ilhs])
    requires Explores(g, right, ilhs, before, middle, explored)
    requires 0 <= irhs < |right| && right[irhs] != UNUSED && !middle[irhs] && (ilhs, irhs) in g.edges
    requires Explores(g, right, right[irhs], middle[irhs := true], after, inner)
    ensures Explores(g, right, ilhs, before, after, explored + inner)
  {
    var marked := middle[irhs := true];
    ExploresEdge(g, right, ilhs, irhs, before, middle, explored);
    forall r | NewlySeen(before, after, r)
      ensures Alternates(g, right, ilhs, r)
    {
      if NewlySeen(marked, after, r) {
        MateAlternates(g, right, ilhs, irhs, r);
      } else {
        assert NewlySeen(before, marked, r);
      }
    }
    forall x | x in explored
      ensures x !in inner
    {
      InnerIsNew(g, left, right, ilhs, irhs, before, middle, after, x);
    }
    JoinedDistinct(explored, inner);
    WiderMates(right, before, marked, after, ilhs, explored);
    InnerMates(right, irhs, before, middle, after, inner);
  }

  lemma InnerMates(right: seq<int>, irhs: int, before: seq<bool>, middle: seq<bool>, after: seq<bool>, inner: seq<int>)
    requires |before| == |middle| == |after| == |right|
    requires 0 <= irhs < |right| && right[irhs] != UNUSED && !middle[irhs] && after[irhs]
    requires forall r | 0 <= r < |before| && before[r] :: middle[r]
    requires forall x | x in inner :: x == right[irhs] || MateOfNew(right, middle[irhs := true], after, x)
    ensures forall x | x in inner :: MateOfNew(right, before, after, x)
  {
    assert NewlySeen(before, after, irhs);
    forall x | x in inner
      ensures MateOfNew(right, before, after, x)
    {
      if x != right[irhs] {
        var r :| NewlySeen(middle[irhs := true], after, r) && r < |right| && right[r] == x;
        assert NewlySeen(before, after, r);
      }
    }
  }

  // ---- what a failed search proves ----

  ghost function SeenSet(seen: seq<bool>): set<int> {
    set r | 0 <= r < |seen| && seen[r]
  }

  /** A search that fails from an unmatched left node with nothing seen beforehand has
      found a deficient set: the left nodes it explored have exactly the seen right
      nodes as neighbours, and there is one more of them than of those. */
  lemma FailedSearchIsDeficient(g: Graph, left: seq<int>, right: seq<int>, ilhs: int, seen: seq<bool>)
    requires g.Valid() && MutuallyReferent(g, left, right)
    requires 0 <= ilhs < g.lhs && left[ilhs] == UNUSED
    requires Exhausted(g, right, ilhs, seq(g.rhs, _ => false), seen)
    ensures var rs := SeenSet(seen); var ls := {ilhs} + Image(right, rs);
            && Neighbours(g, ls) == rs
            && |ls| == |rs| + 1
            && DeadEnd(g, right, ls)
  {
    var rs := SeenSet(seen);
    var ls := {ilhs} + Image(right, rs);
    forall r | r in rs
      ensures right[r] != UNUSED && right[r] != ilhs && (right[r], r) in g.edges && 0 <= right[r] < g.lhs
      ensures AllNeighboursSeen(g, right[r], seen)
    {
      assert RightLinked(left, right, r) && LeftLinked(g, left, right, right[r]);
    }
    forall e | e in g.edges && e.0 in ls
      ensures e.1 in rs
    {
      if e.0 != ilhs {
        var r :| r in rs && right[r] == e.0;
        assert (right[r], e.1) in g.edges;
      }
    }
    forall r | r in rs
      ensures r in Neighbours(g, ls)
    {
      var e := (right[r], r);
      assert e in g.edges && e.0 in ls && e.1 == r;
    }
    forall r, s | r in rs && s in rs && r != s
      ensures right[r] != right[s]
    {
      MatesDiffer(g, left, right, r, s);
    }
    ImageSize(right, rs);
  }

  /** A failed search that started with nothing seen has seen exactly the right nodes that
      lie on alternating paths from its start. */
  lemma {:induction false} FailedSearchSeesReachable(g: Graph, right: seq<int>, ilhs: int, seen: seq<bool>,
                                                    explored: seq<int>, r: int)
    requires g.Valid()
    requires Exhausted(g, right, ilhs, seq(g.rhs, _ => false), seen)
    requires Explores(g, right, ilhs, seq(g.rhs, _ => false), seen, explored)
    ensures r in SeenSet(seen) <==> Alternates(g, right, ilhs, r)
  {
    if r in SeenSet(seen) {
      assert NewlySeen(seq(g.rhs, _ => false), seen, r);
    }
    if path :| IsAlternating(g, right, ilhs, path) && path[|path| - 1] == r {
      PathSeen(g, right, ilhs, seen, path);
    }
  }

  lemma {:induction false} PathSeen(g: Graph, right: seq<int>, ilhs: int, seen: seq<bool>, path: seq<int>)
    requires g.Valid() && IsAlternating(g, right, ilhs, path)
    requires Exhausted(g, right, ilhs, seq(g.rhs, _ => false), seen)
    ensures path[|path| - 1] in SeenSet(seen)
    decreases |path|
  {
    var last := |path| - 1;
    if last > 0 {
      PathSeen(g, right, ilhs, seen, path[..last]);
      var r := path[last - 1];
      assert (right[r], path[last]) in g.edges && AllNeighboursSeen(g, right[r], seen);
    }
  }
}
