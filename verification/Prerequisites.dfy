/**
  The prerequisite relation between expectations, as a graph over their creation
  numbers: pre[e] holds the immediate prerequisites of expectation e.
 */
module Prerequisites {
  import opened Collections

  type Graph = seq<set<nat>>

  ghost predicate WellFormed(pre: Graph) {
    forall e, p | 0 <= e < |pre| && p in pre[e] :: p < |pre|
  }

  /** A path along prerequisite edges whose nodes strictly between the ends lie in `via`. */
  ghost predicate IsPath(pre: Graph, via: set<nat>, path: seq<nat>) {
    && |path| >= 2
    && (forall k | 0 <= k < |path| :: path[k] < |pre|)
    && (forall k | 0 <= k < |path| - 1 :: path[k + 1] in pre[path[k]])
    && (forall k | 0 < k < |path| - 1 :: path[k] in via)
  }

  ghost predicate Joins(pre: Graph, via: set<nat>, path: seq<nat>, e: nat, t: nat) {
    IsPath(pre, via, path) && path[0] == e && path[|path| - 1] == t
  }

  ghost predicate ReachesVia(pre: Graph, via: set<nat>, e: nat, t: nat) {
    exists path :: Joins(pre, via, path, e, t)
  }

  ghost function Nodes(pre: Graph): set<nat> {
    Range(|pre|)
  }

  ghost predicate Reaches(pre: Graph, e: nat, t: nat) {
    ReachesVia(pre, Nodes(pre), e, t)
  }

  /** The transitive prerequisites of e. */
  ghost function Below(pre: Graph, e: nat): set<nat> {
    set t: nat | t < |pre| && Reaches(pre, e, t)
  }

  ghost predicate Acyclic(pre: Graph) {
    forall e: nat | e < |pre| :: !Reaches(pre, e, e)
  }

  // ---- paths ----

  lemma EdgeReaches(pre: Graph, via: set<nat>, e: nat, t: nat)
    requires e < |pre| && t < |pre| && t in pre[e]
    ensures ReachesVia(pre, via, e, t)
  {
    assert Joins(pre, via, [e, t], e, t);
  }

  lemma PrependReaches(pre: Graph, via: set<nat>, e: nat, p: nat, t: nat)
    requires e < |pre| && p in pre[e] && p in via && ReachesVia(pre, via, p, t)
    ensures ReachesVia(pre, via, e, t)
  {
    var path :| Joins(pre, via, path, p, t);
    assert Joins(pre, via, [e] + path, e, t);
  }

  /** To reach t from e, step to t at once or to an intermediate prerequisite that reaches it. */
  lemma ReachesUnfolds(pre: Graph, via: set<nat>, e: nat, t: nat)
    requires WellFormed(pre) && e < |pre|
    ensures ReachesVia(pre, via, e, t) <==>
            t in pre[e] || exists p :: p in pre[e] && p in via && ReachesVia(pre, via, p, t)
  {
    if ReachesVia(pre, via, e, t) {
      var path :| Joins(pre, via, path, e, t);
      if |path| > 2 {
        assert Joins(pre, via, path[1..], path[1], t);
      }
    }
    if t in pre[e] {
      EdgeReaches(pre, via, e, t);
    }
    if p :| p in pre[e] && p in via && ReachesVia(pre, via, p, t) {
      PrependReaches(pre, via, e, p, t);
    }
  }

  lemma ReachesTrans(pre: Graph, e: nat, f: nat, t: nat)
    requires Reaches(pre, e, f) && Reaches(pre, f, t)
    ensures Reaches(pre, e, t)
  {
    var front :| Joins(pre, Nodes(pre), front, e, f);
    var back :| Joins(pre, Nodes(pre), back, f, t);
    var path := front + back[1..];
    forall k | 0 <= k < |path| - 1
      ensures path[k + 1] in pre[path[k]]
    {
      if k >= |front| - 1 {
        assert path[k] == back[k - (|front| - 1)];
      }
    }
    assert Joins(pre, Nodes(pre), path, e, t);
  }

  lemma BelowTrans(pre: Graph, e: nat, f: nat)
    requires f in Below(pre, e)
    ensures Below(pre, f) <= Below(pre, e)
  {
    forall t | t in Below(pre, f)
      ensures t in Below(pre, e)
    {
      ReachesTrans(pre, e, f, t);
    }
  }

  lemma WiderVia(pre: Graph, via: set<nat>, wider: set<nat>, e: nat, t: nat)
    requires via <= wider && ReachesVia(pre, via, e, t)
    ensures ReachesVia(pre, wider, e, t)
  {
    var path :| Joins(pre, via, path, e, t);
    assert Joins(pre, wider, path, e, t);
  }

  /** A prerequisite has strictly fewer transitive prerequisites: the walks terminate. */
  lemma BelowShrinks(pre: Graph, e: nat, p: nat)
    requires WellFormed(pre) && Acyclic(pre) && e < |pre| && p in pre[e]
    ensures p in Below(pre, e) && Below(pre, p) < Below(pre, e)
  {
    EdgeReaches(pre, Nodes(pre), e, p);
    forall t | t in Below(pre, p)
      ensures t in Below(pre, e)
    {
      PrependReaches(pre, Nodes(pre), e, p, t);
    }
    assert p !in Below(pre, p);
  }

  ghost predicate UnderSome(pre: Graph, ps: set<nat>, t: nat) {
    exists p :: p in ps && (t == p || Reaches(pre, p, t))
  }

  /** The nodes of ps together with everything below them. */
  ghost function DownTo(pre: Graph, ps: set<nat>): set<nat> {
    set t: nat | t < |pre| && UnderSome(pre, ps, t)
  }

  lemma BelowIsDownToPrerequisites(pre: Graph, e: nat)
    requires WellFormed(pre) && e < |pre|
    ensures Below(pre, e) == DownTo(pre, pre[e])
  {
    forall t: nat | t < |pre|
      ensures t in Below(pre, e) <==> t in DownTo(pre, pre[e])
    {
      ReachesUnfolds(pre, Nodes(pre), e, t);
    }
  }

  lemma DownToOne(pre: Graph, p: nat)
    requires p < |pre|
    ensures DownTo(pre, {p}) == {p} + Below(pre, p)
  {
  }

  lemma DownToUnion(pre: Graph, ps: set<nat>, qs: set<nat>)
    ensures DownTo(pre, ps + qs) == DownTo(pre, ps) + DownTo(pre, qs)
  {
  }

  // ---- adding an edge ----

  ghost function AddEdge(pre: Graph, e: nat, p: nat): Graph
    requires e < |pre|
  {
    pre[e := pre[e] + {p}]
  }

  lemma EdgeKeepsPaths(pre: Graph, e: nat, p: nat, x: nat, t: nat)
    requires e < |pre| && Reaches(pre, x, t)
    ensures Reaches(AddEdge(pre, e, p), x, t)
  {
    var path :| Joins(pre, Nodes(pre), path, x, t);
    assert Joins(AddEdge(pre, e, p), Nodes(AddEdge(pre, e, p)), path, x, t);
  }

  /** A path in the larger graph either avoids the new edge or runs through it once. */
  lemma {:induction false} PathsWithEdge(pre: Graph, e: nat, p: nat, path: seq<nat>, x: nat, t: nat)
    requires WellFormed(pre) && e < |pre| && p < |pre|
    requires Joins(AddEdge(pre, e, p), Nodes(pre), path, x, t)
    ensures Reaches(pre, x, t)
            || ((x == e || Reaches(pre, x, e)) && (t == p || Reaches(pre, p, t)))
    decreases |path|
  {
    var y := path[1];
    var oldEdge := y in pre[x];
    if oldEdge {
      EdgeReaches(pre, Nodes(pre), x, y);
    }
    if |path| > 2 {
      PathsWithEdge(pre, e, p, path[1..], y, t);
      if oldEdge && Reaches(pre, y, t) {
        ReachesTrans(pre, x, y, t);
      } else if oldEdge && Reaches(pre, y, e) {
        ReachesTrans(pre, x, y, e);
      }
    }
  }

  lemma ReachesWithEdge(pre: Graph, e: nat, p: nat, x: nat, t: nat)
    requires WellFormed(pre) && e < |pre| && p < |pre|
    ensures Reaches(AddEdge(pre, e, p), x, t) ==>
              Reaches(pre, x, t)
              || ((x == e || Reaches(pre, x, e)) && (t == p || Reaches(pre, p, t)))
  {
    var pre' := AddEdge(pre, e, p);
    assert Nodes(pre') == Nodes(pre);
    if Reaches(pre', x, t) {
      var path :| Joins(pre', Nodes(pre'), path, x, t);
      PathsWithEdge(pre, e, p, path, x, t);
    }
  }

  /** A new edge keeps the graph acyclic exactly when it does not close a cycle. */
  lemma AddEdgeAcyclicIff(pre: Graph, e: nat, p: nat)
    requires WellFormed(pre) && Acyclic(pre) && e < |pre| && p < |pre|
    ensures Acyclic(AddEdge(pre, e, p)) <==> p != e && !Reaches(pre, p, e)
  {
    var pre' := AddEdge(pre, e, p);
    EdgeReaches(pre', Nodes(pre'), e, p);
    if p != e && !Reaches(pre, p, e) {
      forall x: nat | x < |pre|
        ensures !Reaches(pre', x, x)
      {
        ReachesWithEdge(pre, e, p, x, x);
        if x != e && x != p && Reaches(pre, x, e) && Reaches(pre, p, x) {
          ReachesTrans(pre, p, x, e);
        }
      }
    } else {
      if p != e {
        EdgeKeepsPaths(pre, e, p, p, e);
        ReachesTrans(pre', e, p, e);
      }
      assert Reaches(pre', e, e);
    }
  }

  /** Adding a prerequisite to an expectation nobody depends on changes no other's
      transitive prerequisites, and adds to its own exactly the new one and those below it. */
  lemma BelowAfterEdge(pre: Graph, e: nat, p: nat, x: nat)
    requires WellFormed(pre) && e < |pre| && p < |pre| && x < |pre|
    requires forall d | 0 <= d < |pre| :: e !in pre[d]
    ensures Below(AddEdge(pre, e, p), x) ==
            Below(pre, x) + if x == e then {p} + Below(pre, p) else {}
  {
    forall t: nat | t < |pre|
      ensures Reaches(AddEdge(pre, e, p), x, t) <==>
              Reaches(pre, x, t) || (x == e && (t == p || Reaches(pre, p, t)))
    {
      ReachesAfterEdge(pre, e, p, x, t);
    }
  }

  lemma ReachesAfterEdge(pre: Graph, e: nat, p: nat, x: nat, t: nat)
    requires WellFormed(pre) && e < |pre| && p < |pre| && x < |pre| && t < |pre|
    requires forall d | 0 <= d < |pre| :: e !in pre[d]
    ensures Reaches(AddEdge(pre, e, p), x, t) <==>
            Reaches(pre, x, t) || (x == e && (t == p || Reaches(pre, p, t)))
  {
    var pre' := AddEdge(pre, e, p);
    Unreached(pre, e, x);
    ReachesWithEdge(pre, e, p, x, t);
    if Reaches(pre, x, t) {
      EdgeKeepsPaths(pre, e, p, x, t);
    }
    if x == e {
      EdgeReaches(pre', Nodes(pre'), e, p);
      if Reaches(pre, p, t) {
        EdgeKeepsPaths(pre, e, p, p, t);
        ReachesTrans(pre', e, p, t);
      }
    }
  }

  lemma LastEdge(pre: Graph, e: nat, t: nat)
    requires Reaches(pre, e, t)
    ensures exists d :: 0 <= d < |pre| && t in pre[d]
  {
    var path :| Joins(pre, Nodes(pre), path, e, t);
    var k := |path| - 2;
    assert path[k + 1] in pre[path[k]];
  }

  lemma Unreached(pre: Graph, e: nat, x: nat)
    requires forall d | 0 <= d < |pre| :: e !in pre[d]
    ensures !Reaches(pre, x, e)
  {
    if Reaches(pre, x, e) {
      LastEdge(pre, x, e);
    }
  }

  // ---- adding a node ----

  lemma BelowAfterNode(pre: Graph, x: nat)
    requires WellFormed(pre) && x <= |pre|
    ensures Below(pre + [{}], x) == if x < |pre| then Below(pre, x) else {}
  {
    var pre' := pre + [{}];
    forall t: nat
      ensures Reaches(pre', x, t) <==> Reaches(pre, x, t)
    {
      if Reaches(pre, x, t) {
        var path :| Joins(pre, Nodes(pre), path, x, t);
        assert Joins(pre', Nodes(pre'), path, x, t);
      }
      if path :| Joins(pre', Nodes(pre'), path, x, t) {
        forall k | 0 <= k < |path|
          ensures path[k] < |pre|
        {
          assert k > 0 ==> path[k - 1 + 1] in pre'[path[k - 1]];
          assert k == 0 ==> path[0 + 1] in pre'[path[0]];
        }
        assert Joins(pre, Nodes(pre), path, x, t);
      }
    }
    if x == |pre| {
      assert forall t :: !Reaches(pre, x, t);
    }
  }

  // ---- what blocks an expectation ----

  /** The unsatisfied prerequisites of e that are met first: everything strictly before
      them on some path from e is satisfied. */
  ghost function FirstUnsatisfied(pre: Graph, satisfied: set<nat>, e: nat): set<nat> {
    Blockers(pre, satisfied, satisfied, e)
  }

  /** The unsatisfied nodes reachable from e by passing only through `via`. */
  ghost function Blockers(pre: Graph, satisfied: set<nat>, via: set<nat>, e: nat): set<nat> {
    set t: nat | t < |pre| && t !in satisfied && ReachesVia(pre, via, e, t)
  }

  /** The contribution of one immediate prerequisite to the blockers found through `via`. */
  ghost function BlockersThrough(pre: Graph, satisfied: set<nat>, via: set<nat>, p: nat): set<nat> {
    (if p !in satisfied then {p} else {}) + (if p in via then Blockers(pre, satisfied, via, p) else {})
  }

  ghost predicate BlocksThroughSome(pre: Graph, satisfied: set<nat>, via: set<nat>, ps: set<nat>, t: nat) {
    exists p :: p in ps && t in BlockersThrough(pre, satisfied, via, p)
  }

  ghost function BlockersFrom(pre: Graph, satisfied: set<nat>, via: set<nat>, ps: set<nat>): set<nat> {
    set t: nat | t < |pre| && BlocksThroughSome(pre, satisfied, via, ps, t)
  }

  lemma BlockersUnfold(pre: Graph, satisfied: set<nat>, via: set<nat>, e: nat)
    requires WellFormed(pre) && e < |pre|
    ensures Blockers(pre, satisfied, via, e) == BlockersFrom(pre, satisfied, via, pre[e])
  {
    forall t: nat | t < |pre|
      ensures t in Blockers(pre, satisfied, via, e) <==> BlocksThroughSome(pre, satisfied, via, pre[e], t)
    {
      ReachesUnfolds(pre, via, e, t);
      if t in Blockers(pre, satisfied, via, e) && t in pre[e] {
        assert t in BlockersThrough(pre, satisfied, via, t);
      }
    }
  }

  lemma BlockersFromOne(pre: Graph, satisfied: set<nat>, via: set<nat>, p: nat)
    requires p < |pre|
    ensures BlockersFrom(pre, satisfied, via, {p}) == BlockersThrough(pre, satisfied, via, p)
  {
  }

  lemma BlockersFromUnion(pre: Graph, satisfied: set<nat>, via: set<nat>, ps: set<nat>, qs: set<nat>)
    ensures BlockersFrom(pre, satisfied, via, ps + qs) ==
            BlockersFrom(pre, satisfied, via, ps) + BlockersFrom(pre, satisfied, via, qs)
  {
  }

  /** Every path from e to an unsatisfied node meets a first unsatisfied one. */
  lemma {:induction false} PathMeetsBlocker(pre: Graph, satisfied: set<nat>, path: seq<nat>)
    requires IsPath(pre, Nodes(pre), path) && path[|path| - 1] !in satisfied
    ensures exists k :: 0 < k < |path| && path[k] in FirstUnsatisfied(pre, satisfied, path[0])
    decreases |path|
  {
    if k :| 0 < k < |path| - 1 && path[k] !in satisfied {
      PathMeetsBlocker(pre, satisfied, path[..k + 1]);
      var j :| 0 < j < k + 1 && path[..k + 1][j] in FirstUnsatisfied(pre, satisfied, path[0]);
      assert path[j] in FirstUnsatisfied(pre, satisfied, path[0]);
    } else {
      assert Joins(pre, satisfied, path, path[0], path[|path| - 1]);
    }
  }

  /** Nothing blocks e exactly when all its transitive prerequisites are satisfied. */
  lemma NoBlockersIffAllSatisfied(pre: Graph, satisfied: set<nat>, e: nat)
    requires WellFormed(pre) && e < |pre|
    ensures FirstUnsatisfied(pre, satisfied, e) == {} <==> Below(pre, e) <= satisfied
    ensures FirstUnsatisfied(pre, satisfied, e) <= Below(pre, e) - satisfied
  {
    forall t | t in FirstUnsatisfied(pre, satisfied, e)
      ensures t in Below(pre, e)
    {
      var path :| Joins(pre, satisfied, path, e, t);
      assert Joins(pre, Nodes(pre), path, e, t);
    }
    if t :| t in Below(pre, e) && t !in satisfied {
      var path :| Joins(pre, Nodes(pre), path, e, t);
      PathMeetsBlocker(pre, satisfied, path);
    }
  }

  /** Not looking behind satisfied expectations that have been called loses nothing,
      provided that all their transitive prerequisites are satisfied. */
  lemma PruningIsExact(pre: Graph, satisfied: set<nat>, called: set<nat>, e: nat)
    requires forall x | x in satisfied && x in called && x < |pre| :: Below(pre, x) <= satisfied
    ensures Blockers(pre, satisfied, satisfied - called, e) == FirstUnsatisfied(pre, satisfied, e)
  {
    forall t: nat | t < |pre| && t !in satisfied
      ensures ReachesVia(pre, satisfied - called, e, t) <==> ReachesVia(pre, satisfied, e, t)
    {
      if ReachesVia(pre, satisfied - called, e, t) {
        WiderVia(pre, satisfied - called, satisfied, e, t);
      }
      if ReachesVia(pre, satisfied, e, t) {
        var path :| Joins(pre, satisfied, path, e, t);
        forall k | 0 < k < |path| - 1
          ensures path[k] !in called
        {
          assert Joins(pre, Nodes(pre), path[k..], path[k], t);
        }
        assert Joins(pre, satisfied - called, path, e, t);
      }
    }
  }
}
