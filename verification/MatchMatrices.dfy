/**
  The connectivity matrix of a bipartite graph, stored as one flat array of cells in
  left-major order, and the enumeration of all matrices by repeated increment.
 */
module MatchMatrices {
  import opened BipartiteGraphs

  /** A row-major offset stays inside the cells. */
  lemma {:induction false} OffsetInBounds(i: int, j: int, rows: nat, columns: nat)
    requires 0 <= i < rows && 0 <= j < columns
    ensures 0 <= i * columns + j < rows * columns
  {
    assert (i + 1) * columns <= rows * columns;
  }

  lemma {:induction false} RowsApart(i: int, k: int, columns: nat)
    ensures i < k ==> i * columns + columns <= k * columns
  {
    if i < k {
      var gap := k - i - 1;
      assert gap * columns >= 0;
      assert k * columns == (i + 1 + gap) * columns == i * columns + columns + gap * columns;
    }
  }

  /** Different cells have different offsets. */
  lemma OffsetsDiffer(i: int, j: int, k: int, l: int, columns: nat)
    requires 0 <= j < columns && 0 <= l < columns && i * columns + j == k * columns + l
    ensures i == k && j == l
  {
    RowsApart(i, k, columns);
    RowsApart(k, i, columns);
  }

  class MatchMatrix {
    const numElements: nat
    const numMatchers: nat
    const matched: array<bool>

    ghost predicate Valid() {
      matched.Length == numElements * numMatchers
    }

    constructor (elements: nat, matchers: nat)
      ensures Valid() && fresh(matched)
      ensures numElements == elements && numMatchers == matchers
      ensures forall k | 0 <= k < matched.Length :: !matched[k]
      ensures View().edges == {}
    {
      numElements, numMatchers := elements, matchers;
      matched := new bool[elements * matchers](_ => false);
    }

    function SpaceIndex(ilhs: int, irhs: int): (k: int)
      requires Valid() && 0 <= ilhs < numElements && 0 <= irhs < numMatchers
      ensures 0 <= k < matched.Length
    {
      OffsetInBounds(ilhs, irhs, numElements, numMatchers);
      ilhs * numMatchers + irhs
    }

    predicate HasEdge(ilhs: int, irhs: int)
      requires Valid() && 0 <= ilhs < numElements && 0 <= irhs < numMatchers
      reads matched
    {
      matched[SpaceIndex(ilhs, irhs)]
    }

    method SetEdge(ilhs: int, irhs: int, b: bool)
      requires Valid() && 0 <= ilhs < numElements && 0 <= irhs < numMatchers
      modifies matched
      ensures View() == old(View()).(edges := if b then old(View()).edges + {(ilhs, irhs)}
                                              else old(View()).edges - {(ilhs, irhs)})
      ensures HasEdge(ilhs, irhs) == b
    {
      ghost var before := View();
      matched[SpaceIndex(ilhs, irhs)] := b;
      forall i, j | 0 <= i < numElements && 0 <= j < numMatchers && (i, j) != (ilhs, irhs)
        ensures (i, j) in View().edges <==> (i, j) in before.edges
      {
        if SpaceIndex(i, j) == SpaceIndex(ilhs, irhs) {
          OffsetsDiffer(i, j, ilhs, irhs, numMatchers);
        }
      }
    }

    /** The graph that the matrix stands for. */
    ghost function View(): (g: Graph)
      requires Valid()
      reads matched
      ensures g.Valid() && g.lhs == numElements && g.rhs == numMatchers
      ensures forall i, j | 0 <= i < numElements && 0 <= j < numMatchers ::
                (i, j) in g.edges <==> HasEdge(i, j)
    {
      Graph(numElements, numMatchers,
            set i, j | 0 <= i < numElements && 0 <= j < numMatchers && HasEdge(i, j) :: (i, j))
    }

    /** Cell k stands for the edge from its row to its column. */
    lemma CellIsEdge(k: int)
      requires Valid() && 0 <= k < matched.Length
      ensures numMatchers > 0
      ensures matched[k] <==> (k / numMatchers, k % numMatchers) in View().edges
    {
      var i, j := k / numMatchers, k % numMatchers;
      RowsApart(i, numElements, numMatchers);
      RowsApart(numElements, i, numMatchers);
      assert i * numMatchers + j == k;
      assert SpaceIndex(i, j) == k;
    }

    /** Adds one to the cells read as a binary number; returns false exactly on wrap-around. */
    method NextGraph() returns (more: bool)
      requires Valid()
      modifies matched
      ensures matched[..] == Increment(old(matched[..]))
      ensures Value(matched[..]) == (Value(old(matched[..])) + 1) % Pow2(numElements * numMatchers)
      ensures more <==> Value(matched[..]) != 0
    {
      ghost var cells := matched[..];
      ghost var visited := 0;
      for ilhs := 0 to numElements
        invariant visited == ilhs * numMatchers <= |cells|
        invariant Carried(cells, matched[..], visited)
      {
        for irhs := 0 to numMatchers
          invariant visited == ilhs * numMatchers + irhs <= |cells|
          invariant Carried(cells, matched[..], visited)
        {
          var b := SpaceIndex(ilhs, irhs);
          if !matched[b] {
            matched[b] := true;
            IncrementAt(cells, matched[..], b);
            IncrementAddsOne(cells);
            return true;
          }
          matched[b] := false;
          visited := visited + 1;
        }
        assert (ilhs + 1) * numMatchers == visited;
      }
      assert matched[..] == seq(|cells|, _ => false);
      IncrementWraps(cells);
      IncrementAddsOne(cells);
      return false;
    }
  }

  /** The state of the increment once a carry has passed through the first k cells. */
  ghost predicate Carried(before: seq<bool>, now: seq<bool>, k: int) {
    && 0 <= k <= |before| == |now|
    && (forall c | 0 <= c < k :: before[c] && !now[c])
    && (forall c | k <= c < |now| :: now[c] == before[c])
  }

  // ---- the binary counter ----

  ghost function Pow2(n: nat): (p: nat)
    ensures p > 0
  {
    if n == 0 then 1 else 2 * Pow2(n - 1)
  }

  /** The number whose binary digits are the cells, least significant first. */
  ghost function Value(cells: seq<bool>): nat {
    if cells == [] then 0 else (if cells[0] then 1 else 0) + 2 * Value(cells[1..])
  }

  /** One step of the counter: clear the leading set cells, then set the first clear one. */
  ghost function Increment(cells: seq<bool>): (r: seq<bool>)
    ensures |r| == |cells|
  {
    if cells == [] then []
    else if cells[0] then [false] + Increment(cells[1..])
    else [true] + cells[1..]
  }

  lemma {:induction false} IncrementAt(cells: seq<bool>, now: seq<bool>, k: int)
    requires 0 <= k < |cells| == |now|
    requires !cells[k] && now[k]
    requires forall c | 0 <= c < k :: cells[c] && !now[c]
    requires forall c | k < c < |now| :: now[c] == cells[c]
    ensures Increment(cells) == now
  {
    if k > 0 {
      IncrementAt(cells[1..], now[1..], k - 1);
    }
  }

  lemma IncrementWraps(cells: seq<bool>)
    requires forall c | 0 <= c < |cells| :: cells[c]
    ensures Increment(cells) == seq(|cells|, _ => false)
  {
  }

  lemma {:induction false} ValueBound(cells: seq<bool>)
    ensures Value(cells) < Pow2(|cells|)
    ensures Value(cells) == Pow2(|cells|) - 1 <==> false !in cells
  {
    if cells != [] {
      ValueBound(cells[1..]);
      assert cells == [cells[0]] + cells[1..];
    }
  }

  lemma ModAtMost(x: nat, p: nat)
    requires 0 < p && x <= p
    ensures x % p == if x == p then 0 else x
  {
  }

  /** The counter adds one modulo 2^(rows*columns), and wraps exactly from the full matrix. */
  lemma {:induction false} IncrementAddsOne(cells: seq<bool>)
    ensures Value(Increment(cells)) == (Value(cells) + 1) % Pow2(|cells|)
    ensures Value(Increment(cells)) == 0 <==> false !in cells
  {
    ValueBound(cells);
    ModAtMost(Value(cells) + 1, Pow2(|cells|));
    IncrementValue(cells);
  }

  lemma {:induction false} IncrementValue(cells: seq<bool>)
    ensures Value(Increment(cells)) == if false in cells then Value(cells) + 1 else 0
  {
    if cells != [] {
      assert cells == [cells[0]] + cells[1..];
      if cells[0] {
        IncrementValue(cells[1..]);
      }
    }
  }

  lemma {:induction false} ValueInjective(a: seq<bool>, b: seq<bool>)
    requires |a| == |b| && Value(a) == Value(b)
    ensures a == b
  {
    if a != [] {
      assert a[0] == b[0];
      ValueInjective(a[1..], b[1..]);
      assert a == [a[0]] + a[1..] && b == [b[0]] + b[1..];
    }
  }

  /** The matrix reached from the empty one after k calls of NextGraph. */
  ghost function NthGraph(size: nat, k: nat): (cells: seq<bool>)
    ensures |cells| == size
  {
    if k == 0 then seq(size, _ => false) else Increment(NthGraph(size, k - 1))
  }

  lemma {:induction false} ValueOfZero(size: nat)
    ensures Value(seq(size, _ => false)) == 0
  {
    if size > 0 {
      assert seq(size, _ => false)[1..] == seq(size - 1, _ => false);
      ValueOfZero(size - 1);
    }
  }

  lemma {:induction false} NthGraphValue(size: nat, k: nat)
    requires k < Pow2(size)
    ensures Value(NthGraph(size, k)) == k
  {
    if k == 0 {
      ValueOfZero(size);
    } else {
      NthGraphValue(size, k - 1);
      ValueBound(NthGraph(size, k - 1));
      IncrementValue(NthGraph(size, k - 1));
    }
  }

  /** Enumerating from the zero matrix visits every matrix exactly once before wrapping. */
  lemma {:induction false} EnumerationIsExhaustive(cells: seq<bool>)
    ensures Value(cells) < Pow2(|cells|) && NthGraph(|cells|, Value(cells)) == cells
    ensures forall k: nat | k < Pow2(|cells|) && NthGraph(|cells|, k) == cells :: k == Value(cells)
    ensures forall k: nat | k < Pow2(|cells|) ::
              (false in NthGraph(|cells|, k)) <==> k + 1 < Pow2(|cells|)
  {
    var size := |cells|;
    ValueBound(cells);
    NthGraphValue(size, Value(cells));
    ValueInjective(NthGraph(size, Value(cells)), cells);
    forall k: nat | k < Pow2(size)
      ensures NthGraph(size, k) == cells ==> k == Value(cells)
      ensures (false in NthGraph(size, k)) <==> k + 1 < Pow2(size)
    {
      NthGraphValue(size, k);
      ValueBound(NthGraph(size, k));
    }
  }
}
