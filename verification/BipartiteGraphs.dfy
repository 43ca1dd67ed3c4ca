/**
  Bipartite graphs, their matchings, and the duality bound behind maximum matchings.
  Left nodes are the elements 0 .. lhs-1 and right nodes the matchers 0 .. rhs-1.
 */
module BipartiteGraphs {
  import opened Collections

  type Edge = (int, int)

  datatype Graph = Graph(lhs: nat, rhs: nat, edges: set<Edge>) {
    ghost predicate Valid() {
      forall e | e in edges :: 0 <= e.0 < lhs && 0 <= e.1 < rhs
    }
  }

  /** m is a matching: its pairs are edges, and no left or right node repeats. */
  ghost predicate IsMatching(g: Graph, m: set<Edge>) {
    && m <= g.edges
    && forall p, q | p in m && q in m && p != q :: p.0 != q.0 && p.1 != q.1
  }

  ghost predicate IsMaximumMatching(g: Graph, m: set<Edge>) {
    && IsMatching(g, m)
    && forall other | IsMatching(g, other) :: |other| <= |m|
  }

  /** Every edge has its left end in `ls` or its right end in `rs`. */
  ghost predicate IsVertexCover(g: Graph, ls: set<int>, rs: set<int>) {
    forall e | e in g.edges :: e.0 in ls || e.1 in rs
  }

  /** Some vertex cover has n members. */
  ghost predicate HasCover(g: Graph, n: nat) {
    exists ls, rs :: IsVertexCover(g, ls, rs) && |ls| + |rs| == n
  }

  ghost function Lefts(m: set<Edge>): set<int> { set p | p in m :: p.0 }

  ghost function Rights(m: set<Edge>): set<int> { set p | p in m :: p.1 }

  /** The right nodes adjacent to some left node of `ls`. */
  ghost function Neighbours(g: Graph, ls: set<int>): set<int> {
    set e | e in g.edges && e.0 in ls :: e.1
  }

  /** A matching has as many pairs as left ends, and as right ends. */
  lemma {:induction false} MatchingSize(g: Graph, m: set<Edge>)
    requires IsMatching(g, m)
    ensures |Lefts(m)| == |m| && |Rights(m)| == |m|
  {
    if m == {} {
      assert Lefts(m) == {} && Rights(m) == {};
    } else {
      var p := Pick(m);
      var rest := m - {p};
      MatchingSize(g, rest);
      EndsOfPair(g, m, p);
    }
  }

  lemma EndsOfPair(g: Graph, m: set<Edge>, p: Edge)
    requires IsMatching(g, m) && p in m
    ensures Lefts(m) == Lefts(m - {p}) + {p.0} && p.0 !in Lefts(m - {p})
    ensures Rights(m) == Rights(m - {p}) + {p.1} && p.1 !in Rights(m - {p})
  {
  }

  lemma SubMatching(g: Graph, m: set<Edge>, part: set<Edge>)
    requires IsMatching(g, m) && part <= m
    ensures IsMatching(g, part)
    ensures |Lefts(part)| == |part| && |Rights(part)| == |part|
  {
    MatchingSize(g, part);
  }

  /** Weak duality: no matching is larger than a vertex cover. */
  lemma MatchingWithinCover(g: Graph, m: set<Edge>, ls: set<int>, rs: set<int>)
    requires IsMatching(g, m) && IsVertexCover(g, ls, rs)
    ensures |m| <= |ls| + |rs|
  {
    var byLeft := set p | p in m && p.0 in ls;
    var byRight := m - byLeft;
    assert |m| == |byLeft| + |byRight|;
    assert |byLeft| <= |ls| by {
      SubMatching(g, m, byLeft);
      SubsetSize(Lefts(byLeft), ls);
    }
    assert |byRight| <= |rs| by {
      SubMatching(g, m, byRight);
      SubsetSize(Rights(byRight), rs);
    }
  }

  /** A matching and a vertex cover of one size certify each other as optimal. */
  lemma CoverCertifiesMaximum(g: Graph, m: set<Edge>, ls: set<int>, rs: set<int>)
    requires IsMatching(g, m) && IsVertexCover(g, ls, rs)
    requires |m| == |ls| + |rs|
    ensures IsMaximumMatching(g, m)
  {
    forall other | IsMatching(g, other)
      ensures |other| <= |m|
    {
      MatchingWithinCover(g, other, ls, rs);
    }
  }

  // ---- giving every right node its own left node ----

  /** choice gives every right node its own left node, along an edge. */
  ghost predicate IsPairing(g: Graph, choice: seq<int>) {
    && |choice| == g.rhs
    && (forall r | 0 <= r < |choice| :: (choice[r], r) in g.edges)
    && (forall r, s | 0 <= r < s < |choice| :: choice[r] != choice[s])
  }

  /** The left nodes adjacent to some right node of `ws`. */
  ghost function LeftNeighbours(g: Graph, ws: set<int>): set<int> {
    set e | e in g.edges && e.1 in ws :: e.0
  }

  /** No set of right nodes has fewer neighbours than members. */
  ghost predicate HallCondition(g: Graph) {
    forall ws: set<int> | ws <= Range(g.rhs) :: |ws| <= |LeftNeighbours(g, ws)|
  }

  /** The values of an indexed family. */
  ghost function Image(family: seq<int>, indices: set<int>): set<int> {
    set r | r in indices && 0 <= r < |family| :: family[r]
  }

  lemma {:induction false} ImageSize(family: seq<int>, indices: set<int>)
    requires forall r | r in indices :: 0 <= r < |family|
    requires forall r, s | r in indices && s in indices && r != s :: family[r] != family[s]
    ensures |Image(family, indices)| == |indices|
  {
    if indices == {} {
      assert Image(family, indices) == {};
    } else {
      var r := Pick(indices);
      ImageSize(family, indices - {r});
      assert Image(family, indices) == Image(family, indices - {r}) + {family[r]};
    }
  }

  lemma PairingImpliesHall(g: Graph, choice: seq<int>)
    requires IsPairing(g, choice)
    ensures HallCondition(g)
  {
    forall ws: set<int> | ws <= Range(g.rhs)
      ensures |ws| <= |LeftNeighbours(g, ws)|
    {
      ImageSize(choice, ws);
      forall r | r in ws
        ensures choice[r] in LeftNeighbours(g, ws)
      {
        assert (choice[r], r) in g.edges;
      }
      SubsetSize(Image(choice, ws), LeftNeighbours(g, ws));
    }
  }

  /** A vertex cover smaller than the right side leaves some right nodes short of neighbours. */
  lemma SmallCoverBreaksHall(g: Graph, n: nat)
    requires g.Valid() && HasCover(g, n) && n < g.rhs
    ensures !HallCondition(g)
  {
    var ls, rs :| IsVertexCover(g, ls, rs) && |ls| + |rs| == n;
    var all: set<int> := Range(g.rhs);
    var ws := all - rs;
    SubsetSize(LeftNeighbours(g, ws), ls);
    SubsetSize(all, ws + rs);
    assert |ws + rs| == |ws| + |rs|;
  }
}
