/**
  The state machine of a mocking session: expectations are created, ordered by
  sequences and explicit prerequisites, and then matched by calls. Every reachable state
  keeps the facts that the two short-cuts of the recursive walks rely on.
 */
module MockRuns {
  import opened Prerequisites

  /** How many calls an expectation allows; the bounds are forced to 0 <= lower <= upper. */
  datatype Cardinality = Between(min: int, max: int) {
    function Lower(): int { if min >= 0 then min else 0 }

    function Upper(): int { if max >= Lower() then max else Lower() }

    predicate IsSatisfiedByCallCount(calls: nat) { Lower() <= calls <= Upper() }

    predicate IsSaturatedByCallCount(calls: nat) { calls >= Upper() }
  }

  /** What an EXPECT_CALL statement fixes about an expectation. */
  datatype Spec = Spec(cardinality: Cardinality, retiresOnSaturation: bool)

  /** The state of all expectations created so far, indexed by order of creation. */
  datatype Mocks = Mocks(pre: Graph, specs: seq<Spec>, calls: seq<nat>, retired: set<nat>) {
    ghost predicate Sized() {
      && WellFormed(pre) && |specs| == |calls| == |pre|
      && (forall e | e in retired :: e < |pre|)
    }

    ghost predicate IsSatisfied(e: nat)
      requires e < |specs| == |calls|
    {
      specs[e].cardinality.IsSatisfiedByCallCount(calls[e])
    }

    ghost function Satisfied(): set<nat>
      requires Sized()
    {
      set e: nat | e < |pre| && IsSatisfied(e)
    }

    ghost function Called(): set<nat>
      requires Sized()
    {
      set e: nat | e < |pre| && calls[e] > 0
    }

    /** Nobody depends on e and it was never called: its clauses may still be added. */
    ghost predicate Open(e: nat)
      requires Sized()
    {
      e < |pre| && calls[e] == 0 && forall d | 0 <= d < |pre| :: e !in pre[d]
    }

    /** e may handle a call that matches its arguments. */
    ghost predicate ShouldHandle(e: nat)
      requires Sized()
    {
      e < |pre| && e !in retired && Below(pre, e) <= Satisfied()
    }

    ghost function Expecting(spec: Spec): Mocks {
      Mocks(pre + [{}], specs + [spec], calls + [0], retired)
    }

    ghost function WithPrerequisite(e: nat, p: nat): Mocks
      requires e < |pre|
    {
      this.(pre := AddEdge(pre, e, p))
    }

    /** e handles a call: an excessive call only counts; any other call also retires the
        transitive prerequisites, and e itself when it asked to retire on saturation. */
    ghost function Handling(e: nat): Mocks
      requires Sized() && e < |pre|
    {
      var counted := calls[e := calls[e] + 1];
      var c := specs[e].cardinality;
      if c.IsSaturatedByCallCount(calls[e]) then
        this.(calls := counted)
      else
        this.(calls := counted,
              retired := retired + Below(pre, e) +
                         if specs[e].retiresOnSaturation && c.IsSaturatedByCallCount(counted[e]) then {e} else {})
    }
  }

  /** Retiring an expectation implies having retired everything it depends on. */
  ghost predicate DownwardClosed(pre: Graph, retired: set<nat>) {
    forall e | e in retired && e < |pre| :: Below(pre, e) <= retired
  }

  // ---- runs ----

  /** The mocks together with the expectations added to each sequence so far. */
  datatype World = World(mocks: Mocks, sequences: seq<seq<nat>>)

  datatype Event =
    | Expect(spec: Spec)
    | NewSequence
    | InSequence(s: nat, e: nat)
    | After(e: nat, p: nat)
    | Call(e: nat)

  const EMPTY: World := World(Mocks([], [], [], {}), [])

  ghost predicate Enabled(w: World, ev: Event) {
    && w.mocks.Sized()
    && match ev
       case Expect(_) => true
       case NewSequence => true
       case InSequence(s, e) => s < |w.sequences| && w.mocks.Open(e)
       case After(e, p) => w.mocks.Open(e) && p < |w.mocks.pre| && p != e
       case Call(e) => w.mocks.ShouldHandle(e)
  }

  /** The event names what there is. */
  ghost predicate Possible(w: World, ev: Event) {
    && w.mocks.Sized()
    && match ev
       case Expect(_) => true
       case NewSequence => true
       case InSequence(s, e) => s < |w.sequences| && e < |w.mocks.pre|
       case After(e, p) => e < |w.mocks.pre|
       case Call(e) => e < |w.mocks.pre|
  }

  ghost function Apply(w: World, ev: Event): World
    requires Possible(w, ev)
  {
    match ev
    case Expect(spec) => w.(mocks := w.mocks.Expecting(spec))
    case NewSequence => w.(sequences := w.sequences + [[]])
    case InSequence(s, e) => AddExpectation(w, s, e)
    case After(e, p) => w.(mocks := w.mocks.WithPrerequisite(e, p))
    case Call(e) => w.(mocks := w.mocks.Handling(e))
  }

  /** Appends e to sequence s, after the last expectation there unless it is e itself. */
  ghost function AddExpectation(w: World, s: nat, e: nat): World
    requires s < |w.sequences| && e < |w.mocks.pre|
  {
    var members := w.sequences[s];
    if members == [] then
      w.(sequences := w.sequences[s := [e]])
    else if members[|members| - 1] == e then
      w
    else
      World(w.mocks.WithPrerequisite(e, members[|members| - 1]), w.sequences[s := members + [e]])
  }

  /** The worlds that some sequence of enabled events leads to. */
  ghost predicate IsRun(events: seq<Event>, worlds: seq<World>) {
    && |worlds| == |events| + 1
    && worlds[0] == EMPTY
    && forall k | 0 <= k < |events| :: StepsAt(events, worlds, k)
  }

  ghost predicate StepsAt(events: seq<Event>, worlds: seq<World>, k: int)
    requires 0 <= k < |events| && |worlds| == |events| + 1
  {
    Enabled(worlds[k], events[k]) && worlds[k + 1] == Apply(worlds[k], events[k])
  }

  // ---- what every reachable state keeps ----

  /** Once e has handled a call that was not excessive, all its transitive prerequisites
      are satisfied, and retired, so that they stay as they are. */
  ghost predicate Settled(m: Mocks, e: nat)
    requires m.Sized() && e < |m.pre|
  {
    m.calls[e] > 0 && !m.specs[e].cardinality.IsSaturatedByCallCount(0) ==>
      Below(m.pre, e) <= m.retired && Below(m.pre, e) <= m.Satisfied()
  }

  ghost predicate HasDependent(pre: Graph, e: nat) {
    exists d :: 0 <= d < |pre| && e in pre[d]
  }

  ghost predicate Consistent(m: Mocks) {
    && m.Sized()
    && Acyclic(m.pre)
    && DownwardClosed(m.pre, m.retired)
    && (forall e: nat | e < |m.pre| :: Settled(m, e))
    && (forall e | e in m.retired :: m.calls[e] > 0 || HasDependent(m.pre, e))
  }

  /** Every earlier member of a sequence is a transitive prerequisite of every later one. */
  ghost predicate InOrder(pre: Graph, members: seq<nat>) {
    && (forall k | 0 <= k < |members| :: members[k] < |pre|)
    && (forall a, b | 0 <= a < b < |members| :: members[a] in Below(pre, members[b]))
  }

  ghost predicate Inv(w: World) {
    && Consistent(w.mocks)
    && forall s | 0 <= s < |w.sequences| :: InOrder(w.mocks.pre, w.sequences[s])
  }

  lemma ExpectingKeeps(m: Mocks, spec: Spec)
    requires Consistent(m)
    ensures Consistent(m.Expecting(spec))
    ensures forall x: nat | x < |m.pre| :: Below(m.Expecting(spec).pre, x) == Below(m.pre, x)
  {
    var n := m.Expecting(spec);
    forall x: nat | x <= |m.pre|
      ensures Below(n.pre, x) == if x < |m.pre| then Below(m.pre, x) else {}
    {
      BelowAfterNode(m.pre, x);
    }
    forall e: nat | e < |n.pre|
      ensures !Reaches(n.pre, e, e)
    {
      assert e !in Below(n.pre, e);
    }
    forall e: nat | e < |n.pre|
      ensures Settled(n, e)
    {
      assert e < |m.pre| ==> Settled(m, e);
      assert forall x | x in m.Satisfied() :: x in n.Satisfied();
    }
    forall e | e in n.retired
      ensures n.calls[e] > 0 || HasDependent(n.pre, e)
    {
      if d :| 0 <= d < |m.pre| && e in m.pre[d] {
        assert e in n.pre[d];
      }
    }
  }

  /** A prerequisite of an open expectation closes no cycle and changes nobody else's. */
  lemma PrerequisiteAdds(m: Mocks, e: nat, p: nat)
    requires m.Sized() && Acyclic(m.pre) && m.Open(e) && p < |m.pre| && p != e
    ensures WellFormed(AddEdge(m.pre, e, p)) && Acyclic(AddEdge(m.pre, e, p))
    ensures forall x: nat | x < |m.pre| ::
              Below(AddEdge(m.pre, e, p), x) ==
              Below(m.pre, x) + if x == e then {p} + Below(m.pre, p) else {}
  {
    Unreached(m.pre, e, p);
    AddEdgeAcyclicIff(m.pre, e, p);
    forall x: nat | x < |m.pre|
      ensures Below(AddEdge(m.pre, e, p), x) == Below(m.pre, x) + if x == e then {p} + Below(m.pre, p) else {}
    {
      BelowAfterEdge(m.pre, e, p, x);
    }
  }

  lemma EdgeKeepsSettled(m: Mocks, pre: Graph, e: nat, x: nat)
    requires m.Sized() && m.Open(e) && x < |m.pre| && Settled(m, x)
    requires WellFormed(pre) && |pre| == |m.pre| && (x != e ==> Below(pre, x) == Below(m.pre, x))
    ensures Settled(m.(pre := pre), x)
  {
    assert m.(pre := pre).Satisfied() == m.Satisfied();
  }

  lemma EdgeKeepsDependent(pre: Graph, e: nat, p: nat, x: nat)
    requires e < |pre| && HasDependent(pre, x)
    ensures HasDependent(AddEdge(pre, e, p), x)
  {
    var d :| 0 <= d < |pre| && x in pre[d];
    assert x in AddEdge(pre, e, p)[d];
  }

  lemma EdgeKeepsRetired(m: Mocks, e: nat, p: nat)
    requires Consistent(m) && m.Open(e) && p < |m.pre| && p != e
    ensures DownwardClosed(AddEdge(m.pre, e, p), m.retired)
    ensures forall x | x in m.retired :: m.calls[x] > 0 || HasDependent(AddEdge(m.pre, e, p), x)
  {
    assert e !in m.retired;
    PrerequisiteAdds(m, e, p);
    forall x | x in m.retired && m.calls[x] == 0
      ensures HasDependent(AddEdge(m.pre, e, p), x)
    {
      EdgeKeepsDependent(m.pre, e, p, x);
    }
  }

  lemma PrerequisiteKeeps(m: Mocks, e: nat, p: nat)
    requires Consistent(m) && m.Open(e) && p < |m.pre| && p != e
    ensures Consistent(m.WithPrerequisite(e, p))
    ensures forall x: nat | x < |m.pre| ::
              Below(m.WithPrerequisite(e, p).pre, x) ==
              Below(m.pre, x) + if x == e then {p} + Below(m.pre, p) else {}
  {
    PrerequisiteAdds(m, e, p);
    EdgeKeepsRetired(m, e, p);
    forall x: nat | x < |m.pre|
      ensures Settled(m.WithPrerequisite(e, p), x)
    {
      EdgeKeepsSettled(m, AddEdge(m.pre, e, p), e, x);
    }
  }

  /** Whoever handles a call is below no settled expectation, as those below are retired. */
  lemma HandlerIsFree(m: Mocks, e: nat, x: nat)
    requires Consistent(m) && m.ShouldHandle(e) && x < |m.pre|
    requires m.calls[x] > 0 && !m.specs[x].cardinality.IsSaturatedByCallCount(0)
    ensures e !in Below(m.pre, x)
  {
    assert Settled(m, x);
  }

  lemma HandlingKeepsSettled(m: Mocks, e: nat, x: nat)
    requires Consistent(m) && m.ShouldHandle(e) && x < |m.pre| && m.Handling(e).Sized()
    ensures Settled(m.Handling(e), x)
  {
    var n := m.Handling(e);
    assert forall y | y in m.Satisfied() && y != e :: y in n.Satisfied();
    if n.calls[x] > 0 && !n.specs[x].cardinality.IsSaturatedByCallCount(0) {
      if x == e {
        assert e !in Below(m.pre, e);
        assert Settled(m, x);
      } else {
        HandlerIsFree(m, e, x);
        assert Settled(m, x);
      }
    }
  }

  lemma DownwardClosedWith(pre: Graph, retired: set<nat>, e: nat, self: set<nat>)
    requires DownwardClosed(pre, retired) && self <= {e}
    ensures DownwardClosed(pre, retired + Below(pre, e) + self)
  {
    forall x | x in retired + Below(pre, e) + self && x < |pre|
      ensures Below(pre, x) <= retired + Below(pre, e)
    {
      if x in Below(pre, e) {
        BelowTrans(pre, e, x);
      }
    }
  }

  lemma BelowHasDependent(pre: Graph, e: nat, x: nat)
    requires x in Below(pre, e)
    ensures HasDependent(pre, x)
  {
    LastEdge(pre, e, x);
  }

  lemma HandlingKeepsClosed(m: Mocks, e: nat)
    requires Consistent(m) && m.ShouldHandle(e)
    ensures var n := m.Handling(e);
            n.Sized() && m.retired <= n.retired <= m.retired + Below(m.pre, e) + {e} && n.calls[e] > 0
    ensures DownwardClosed(m.pre, m.Handling(e).retired)
  {
    DownwardClosedWith(m.pre, m.retired, e, {});
    DownwardClosedWith(m.pre, m.retired, e, {e});
  }

  lemma HandlingKeepsRetired(m: Mocks, e: nat)
    requires Consistent(m) && m.ShouldHandle(e)
    ensures var n := m.Handling(e);
            && n.Sized() && m.retired <= n.retired
            && DownwardClosed(n.pre, n.retired)
            && (forall x | x in n.retired :: n.calls[x] > 0 || HasDependent(n.pre, x))
  {
    HandlingKeepsClosed(m, e);
    forall x | x in m.Handling(e).retired && x != e && x !in m.retired
      ensures HasDependent(m.pre, x)
    {
      BelowHasDependent(m.pre, e, x);
    }
  }

  lemma {:induction false} HandlingKeeps(m: Mocks, e: nat)
    requires Consistent(m) && m.ShouldHandle(e)
    ensures Consistent(m.Handling(e)) && m.retired <= m.Handling(e).retired
  {
    HandlingKeepsRetired(m, e);
    forall x: nat | x < |m.pre|
      ensures Settled(m.Handling(e), x)
    {
      HandlingKeepsSettled(m, e, x);
    }
  }

  lemma OrderInWider(pre: Graph, wider: Graph, members: seq<nat>)
    requires InOrder(pre, members) && |pre| <= |wider|
    requires forall x: nat | x < |pre| :: Below(pre, x) <= Below(wider, x)
    ensures InOrder(wider, members)
  {
    forall a, b | 0 <= a < b < |members|
      ensures members[a] in Below(wider, members[b])
    {
      assert members[a] in Below(pre, members[b]);
    }
  }

  lemma InvInWider(w: World, m: Mocks)
    requires Inv(w) && Consistent(m) && |w.mocks.pre| <= |m.pre|
    requires forall x: nat | x < |w.mocks.pre| :: Below(w.mocks.pre, x) <= Below(m.pre, x)
    ensures Inv(w.(mocks := m))
  {
    forall s | 0 <= s < |w.sequences|
      ensures InOrder(m.pre, w.sequences[s])
    {
      OrderInWider(w.mocks.pre, m.pre, w.sequences[s]);
    }
  }

  lemma StepKeepsInv(w: World, ev: Event)
    requires Inv(w) && Enabled(w, ev)
    ensures Inv(Apply(w, ev))
    ensures w.mocks.retired <= Apply(w, ev).mocks.retired
  {
    match ev
    case Expect(spec) =>
      ExpectingKeeps(w.mocks, spec);
      InvInWider(w, w.mocks.Expecting(spec));
    case NewSequence =>
    case InSequence(s, e) =>
      AppendKeepsInv(w, s, e);
    case After(e, p) =>
      PrerequisiteKeeps(w.mocks, e, p);
      InvInWider(w, w.mocks.WithPrerequisite(e, p));
    case Call(e) =>
      HandlingKeeps(w.mocks, e);
      InvInWider(w, w.mocks.Handling(e));
  }

  lemma SequenceKeepsInv(w: World, s: nat, members: seq<nat>)
    requires Inv(w) && s < |w.sequences| && InOrder(w.mocks.pre, members)
    ensures Inv(w.(sequences := w.sequences[s := members]))
  {
  }

  lemma AppendKeepsInv(w: World, s: nat, e: nat)
    requires Inv(w) && s < |w.sequences| && w.mocks.Open(e)
    ensures Inv(AddExpectation(w, s, e))
  {
    var pre, members := w.mocks.pre, w.sequences[s];
    assert InOrder(pre, members);
    if members == [] {
      SequenceKeepsInv(w, s, [e]);
    } else if members[|members| - 1] != e {
      var p := members[|members| - 1];
      var linked := w.(mocks := w.mocks.WithPrerequisite(e, p));
      assert Inv(linked)
             && (forall x: nat | x < |pre| :: Below(pre, x) <= Below(linked.mocks.pre, x))
             && {p} + Below(pre, p) <= Below(linked.mocks.pre, e) by {
        PrerequisiteKeeps(w.mocks, e, p);
        InvInWider(w, linked.mocks);
      }
      AppendInOrder(pre, linked.mocks.pre, members, e);
      SequenceKeepsInv(linked, s, members + [e]);
    }
  }

  /** Whoever depends on the last member and on all below it comes after all members. */
  lemma AppendInOrder(pre: Graph, wider: Graph, members: seq<nat>, e: nat)
    requires InOrder(pre, members) && members != [] && e < |pre| == |wider|
    requires forall x: nat | x < |pre| :: Below(pre, x) <= Below(wider, x)
    requires var p := members[|members| - 1]; {p} + Below(pre, p) <= Below(wider, e)
    ensures InOrder(wider, members + [e])
  {
    OrderInWider(pre, wider, members);
    var p := members[|members| - 1];
    forall k | 0 <= k < |members|
      ensures members[k] in Below(wider, e)
    {
      assert members[k] in {p} + Below(pre, p);
    }
  }

  /** Every state of every run satisfies the invariant. */
  lemma {:induction false} RunsKeepInv(events: seq<Event>, worlds: seq<World>, k: nat)
    requires IsRun(events, worlds) && k < |worlds|
    ensures Inv(worlds[k])
  {
    if k > 0 {
      RunsKeepInv(events, worlds, k - 1);
      assert StepsAt(events, worlds, k - 1);
      StepKeepsInv(worlds[k - 1], events[k - 1]);
    }
  }

  /** In every reachable state both short-cuts are sound: a retired expectation has only
      retired transitive prerequisites, and the pruned report is the exact one, which is
      empty precisely when all transitive prerequisites are satisfied. */
  lemma ShortcutsAreSound(events: seq<Event>, worlds: seq<World>, k: nat, e: nat)
    requires IsRun(events, worlds) && k < |worlds| && e < |worlds[k].mocks.pre|
    ensures worlds[k].mocks.Sized() && Acyclic(worlds[k].mocks.pre)
    ensures var m := worlds[k].mocks;
            && (e in m.retired ==> Below(m.pre, e) <= m.retired)
            && Blockers(m.pre, m.Satisfied(), m.Satisfied() - m.Called(), e) ==
               FirstUnsatisfied(m.pre, m.Satisfied(), e)
            && (Blockers(m.pre, m.Satisfied(), m.Satisfied() - m.Called(), e) == {} <==>
                Below(m.pre, e) <= m.Satisfied())
  {
    RunsKeepInv(events, worlds, k);
    var m := worlds[k].mocks;
    forall x | x in m.Satisfied() && x in m.Called() && x < |m.pre|
      ensures Below(m.pre, x) <= m.Satisfied()
    {
      assert Settled(m, x);
    }
    PruningIsExact(m.pre, m.Satisfied(), m.Called(), e);
    NoBlockersIffAllSatisfied(m.pre, m.Satisfied(), e);
  }

  lemma {:induction false} RetiredStays(events: seq<Event>, worlds: seq<World>, j: nat, k: nat)
    requires IsRun(events, worlds) && j <= k < |worlds|
    ensures worlds[j].mocks.retired <= worlds[k].mocks.retired
    decreases k - j
  {
    if j < k {
      RetiredStays(events, worlds, j, k - 1);
      RunsKeepInv(events, worlds, k - 1);
      assert StepsAt(events, worlds, k - 1);
      StepKeepsInv(worlds[k - 1], events[k - 1]);
    }
  }

  /** Prerequisites, however they were given, are obeyed over whole runs: b handles a call
      only when each of its transitive prerequisites is satisfied, and from then on none of
      those handles any call at all (unless b allows no calls). */
  lemma PrerequisitesAreObeyed(events: seq<Event>, worlds: seq<World>, i: nat, a: nat, b: nat)
    requires IsRun(events, worlds) && i < |events|
    requires events[i] == Call(b) && a in Below(worlds[i].mocks.pre, b)
    ensures worlds[i].mocks.Sized() && b < |worlds[i].mocks.specs|
    ensures a in worlds[i].mocks.Satisfied()
    ensures !worlds[i].mocks.specs[b].cardinality.IsSaturatedByCallCount(0) ==>
              forall j | i < j < |events| :: events[j] != Call(a)
  {
    RunsKeepInv(events, worlds, i);
    var m := worlds[i].mocks;
    assert StepsAt(events, worlds, i);
    if !m.specs[b].cardinality.IsSaturatedByCallCount(0) {
      assert Settled(m, b);
      assert a in m.Handling(b).retired;
      forall j | i < j < |events|
        ensures events[j] != Call(a)
      {
        RetiredStays(events, worlds, i + 1, j);
        assert StepsAt(events, worlds, j);
      }
    }
  }

  /** Sequences are obeyed over whole runs: a member handles a call only when every earlier
      member is satisfied, and from then on no earlier member handles any call at all
      (unless the later one allows no calls). */
  lemma SequencesAreObeyed(events: seq<Event>, worlds: seq<World>, i: nat, s: nat, a: nat, b: nat)
    requires IsRun(events, worlds) && i < |events|
    requires s < |worlds[i].sequences| && a < b < |worlds[i].sequences[s]|
    requires events[i] == Call(worlds[i].sequences[s][b])
    ensures worlds[i].mocks.Sized()
    ensures worlds[i].sequences[s][a] in worlds[i].mocks.Satisfied()
    ensures worlds[i].sequences[s][b] < |worlds[i].mocks.specs|
    ensures !worlds[i].mocks.specs[worlds[i].sequences[s][b]].cardinality.IsSaturatedByCallCount(0) ==>
              forall j | i < j < |events| :: events[j] != Call(worlds[i].sequences[s][a])
  {
    var members := worlds[i].sequences[s];
    assert members[a] in Below(worlds[i].mocks.pre, members[b]) by {
      RunsKeepInv(events, worlds, i);
      assert InOrder(worlds[i].mocks.pre, members);
    }
    PrerequisitesAreObeyed(events, worlds, i, members[a], members[b]);
  }

  // ---- statements in order of creation ----

  /** What expectation statements, sequences and calls do, one after another: a clause of a
      statement concerns the expectation just created, before any call to it, and names
      prerequisites created earlier. */
  ghost predicate InCreationOrder(w: World, ev: Event) {
    && w.mocks.Sized()
    && match ev
       case Expect(_) => true
       case NewSequence => true
       case InSequence(s, e) => s < |w.sequences| && Newest(w.mocks, e)
       case After(e, p) => Newest(w.mocks, e) && p < e
       case Call(e) => w.mocks.ShouldHandle(e)
  }

  ghost predicate Newest(m: Mocks, e: nat)
    requires m.Sized()
  {
    e + 1 == |m.pre| && m.calls[e] == 0
  }

  ghost predicate IsStatementRun(events: seq<Event>, worlds: seq<World>) {
    && |worlds| == |events| + 1
    && worlds[0] == EMPTY
    && forall k | 0 <= k < |events| ::
         InCreationOrder(worlds[k], events[k]) && worlds[k + 1] == Apply(worlds[k], events[k])
  }

  /** Prerequisites were created before those who depend on them. */
  ghost predicate Backward(w: World) {
    && (forall d, p | 0 <= d < |w.mocks.pre| && p in w.mocks.pre[d] :: p < d)
    && (forall s, k | 0 <= s < |w.sequences| && 0 <= k < |w.sequences[s]| :: w.sequences[s][k] < |w.mocks.pre|)
  }

  lemma StepKeepsBackward(w: World, ev: Event)
    requires Backward(w) && InCreationOrder(w, ev)
    ensures Enabled(w, ev) && Backward(Apply(w, ev))
  {
  }

  lemma {:induction false} StatementsKeepBackward(events: seq<Event>, worlds: seq<World>, k: nat)
    requires IsStatementRun(events, worlds) && k < |worlds|
    ensures Backward(worlds[k])
  {
    if k > 0 {
      StatementsKeepBackward(events, worlds, k - 1);
      StepKeepsBackward(worlds[k - 1], events[k - 1]);
    }
  }

  /** Statements in order of creation never add clauses to an expectation that others
      depend on: what is shown of runs holds of them. */
  lemma StatementsAreRuns(events: seq<Event>, worlds: seq<World>)
    requires IsStatementRun(events, worlds)
    ensures IsRun(events, worlds)
  {
    forall k | 0 <= k < |events|
      ensures Enabled(worlds[k], events[k])
    {
      StatementsKeepBackward(events, worlds, k);
      StepKeepsBackward(worlds[k], events[k]);
    }
  }

  lemma TwoNodeCycle(p1: Graph, p2: Graph)
    requires p1 == [{}, {0}] && p2 == [{1}, {0}]
    ensures Acyclic(p1) && !Acyclic(p2)
  {
    ReachesUnfolds(p1, Nodes(p1), 0, 0);
    Unreached(p1, 1, 1);
    EdgeReaches(p2, Nodes(p2), 0, 1);
    EdgeReaches(p2, Nodes(p2), 1, 0);
    ReachesTrans(p2, 0, 1, 0);
    assert Reaches(p2, 0, 0);
  }

  /** Adding expectations to sequences against their order of creation can close a cycle:
      the second creation precedes the first in one sequence and follows it in another. */
  lemma OutOfOrderMakesCycle(w: World)
    requires w.mocks.pre == [{}, {}] && w.sequences == [[], []]
    ensures var w1 := AddExpectation(AddExpectation(AddExpectation(w, 0, 1), 1, 0), 1, 1);
            Acyclic(w1.mocks.pre) && !Acyclic(AddExpectation(w1, 0, 0).mocks.pre)
  {
    var wa := AddExpectation(w, 0, 1);
    assert wa.sequences == [[1], []];
    var wb := AddExpectation(wa, 1, 0);
    assert wb.sequences == [[1], [0]];
    var w1 := AddExpectation(wb, 1, 1);
    assert w1.sequences[1] == [0, 1];
    assert w1.mocks.pre[1] == {0} && w1.mocks.pre == [{}, {0}];
    var w2 := AddExpectation(w1, 0, 0);
    assert w2.mocks.pre[0] == {1} && w2.mocks.pre == [{1}, {0}];
    TwoNodeCycle(w1.mocks.pre, w2.mocks.pre);
  }
}
