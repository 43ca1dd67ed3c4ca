/**
  Mock expectations and their prerequisite links: retirement, the two recursive
  queries over prerequisites, sequences, and the handling of a matching call.
 */
module Expectations {
  import opened MockRuns
  import opened Prerequisites

  class ExpectationBase {
    ghost const id: nat  // the position in the order of creation
    const spec: Spec
    var immediatePrerequisites: set<ExpectationBase>
    var callCount: nat
    var retired: bool

    constructor (spec: Spec, ghost id: nat)
      ensures this.id == id && this.spec == spec
      ensures immediatePrerequisites == {} && callCount == 0 && !retired
    {
      this.id, this.spec := id, spec;
      immediatePrerequisites, callCount, retired := {}, 0, false;
    }

    predicate IsSatisfied()
      reads this`callCount
    {
      spec.cardinality.IsSatisfiedByCallCount(callCount)
    }

    predicate IsSaturated()
      reads this`callCount
    {
      spec.cardinality.IsSaturatedByCallCount(callCount)
    }

    method Retire(ghost all: seq<ExpectationBase>)
      requires Registered(all) && this in all
      modifies this`retired
      ensures RetiredOf(all) == old(RetiredOf(all)) + {id}
      ensures retired
    {
      retired := true;
      assert all[id] == this;
      assert forall i: nat | i < |all| && i != id :: all[i].retired == old(all[i].retired);
    }

    /** The treatment of one immediate prerequisite: retire what it needs, then itself. */
    method RetireAsPreRequisite(ghost all: seq<ExpectationBase>)
      requires Retirable(all) && this in all
      modifies all`retired
      ensures Retirable(all)
      ensures RetiredOf(all) == old(RetiredOf(all)) + DownTo(PreOf(all), {id})
      decreases Below(PreOf(all), id), 1
    {
      ghost var before := RetiredOf(all);
      IsRetiredId(all, this);
      if !retired {
        RetireAllPreRequisites(all);
        Retire(all);
      }
      RetiredWithBelow(all, before, this);
    }

    /** Retires exactly the transitive prerequisites. */
    method RetireAllPreRequisites(ghost all: seq<ExpectationBase>)
      requires Retirable(all) && this in all
      modifies all`retired
      ensures Retirable(all)
      ensures RetiredOf(all) == old(RetiredOf(all)) + Below(PreOf(all), id)
      ensures retired == old(retired)
      decreases Below(PreOf(all), id), 0
    {
      ghost var pre, before := PreOf(all), RetiredOf(all);
      IsRetiredId(all, this);
      if retired {
        RetiredAlready(all, this);
        return;
      }
      var rest := immediatePrerequisites;
      ghost var done: set<nat> := {};
      while rest != {}
        invariant rest <= immediatePrerequisites
        invariant done + Ids(rest) == pre[id]
        invariant RetiredOf(all) == before + DownTo(pre, done)
        invariant Retirable(all)
        decreases rest
      {
        var prerequisite :| prerequisite in rest;
        NextPrerequisite(all, this, rest, done, prerequisite);
        ghost var soFar := RetiredOf(all);
        prerequisite.RetireAsPreRequisite(all);
        DownToNext(pre, before, done, prerequisite.id, soFar, RetiredOf(all));
        rest, done := rest - {prerequisite}, done + {prerequisite.id};
      }
      assert done == pre[id];
      AllRetired(all, before, this);
    }

    /** The test of one immediate prerequisite: itself and everything below it. */
    method IsSatisfiedAsPreRequisite(ghost all: seq<ExpectationBase>) returns (ok: bool)
      requires Registered(all) && this in all && Acyclic(PreOf(all))
      ensures ok <==> DownTo(PreOf(all), {id}) <= SatisfiedOf(all)
      decreases Below(PreOf(all), id), 1
    {
      IsSatisfiedId(all, this);
      assert all[id] == this;
      DownToOne(PreOf(all), id);
      if !IsSatisfied() {
        return false;
      }
      ok := AllPrerequisitesAreSatisfied(all);
    }

    /** True exactly when all transitive prerequisites are satisfied. */
    method AllPrerequisitesAreSatisfied(ghost all: seq<ExpectationBase>) returns (ok: bool)
      requires Registered(all) && this in all && Acyclic(PreOf(all))
      ensures ok <==> Below(PreOf(all), id) <= SatisfiedOf(all)
      decreases Below(PreOf(all), id), 0
    {
      ghost var pre, satisfied := PreOf(all), SatisfiedOf(all);
      var rest := immediatePrerequisites;
      ghost var done: set<nat> := {};
      assert Below(pre, id) == DownTo(pre, pre[id]) by {
        BelowIsDownToPrerequisites(pre, id);
      }
      while rest != {}
        invariant rest <= immediatePrerequisites
        invariant done + Ids(rest) == pre[id]
        invariant DownTo(pre, done) <= satisfied
        decreases rest
      {
        var it :| it in rest;
        NextPrerequisite(all, this, rest, done, it);
        var next := it.IsSatisfiedAsPreRequisite(all);
        if !next {
          return false;
        }
        assert DownTo(pre, done + {it.id}) <= satisfied by {
          DownToUnion(pre, done, {it.id});
        }
        rest, done := rest - {it}, done + {it.id};
      }
      assert done == pre[id];
      return true;
    }

    /** The treatment of one immediate prerequisite: look behind it or report it. */
    method ReportAsPreRequisite(result: ExpectationSet, ghost all: seq<ExpectationBase>)
      requires Registered(all) && this in all && Acyclic(PreOf(all))
      modifies result
      ensures result.expectations == old(result.expectations) + old(ReportedThrough(all, {id}))
      decreases Below(PreOf(all), id), 1
    {
      ReportedThroughOne(all, this);
      if IsSatisfied() {
        // A satisfied expectation that was never called may have unsatisfied prerequisites.
        if callCount == 0 {
          FindUnsatisfiedPrerequisites(result, all);
        }
      } else {
        result.expectations := result.expectations + {this};
      }
    }

    /** Reports what is reached by passing only through satisfied and uncalled expectations. */
    method FindUnsatisfiedPrerequisites(result: ExpectationSet, ghost all: seq<ExpectationBase>)
      requires Registered(all) && this in all && Acyclic(PreOf(all))
      modifies result
      ensures result.expectations == old(result.expectations) + old(Reported(all, this))
      decreases Below(PreOf(all), id), 0
    {
      ghost var pre, before := PreOf(all), result.expectations;
      var rest := immediatePrerequisites;
      ghost var done: set<nat> := {};
      while rest != {}
        invariant rest <= immediatePrerequisites
        invariant done + Ids(rest) == pre[id]
        invariant result.expectations == before + old(ReportedThrough(all, done))
        decreases rest
      {
        var it :| it in rest;
        NextPrerequisite(all, this, rest, done, it);
        ReportedThroughUnion(all, done, {it.id});
        rest, done := rest - {it}, done + {it.id};
        it.ReportAsPreRequisite(result, all);
      }
      assert done == pre[id];
      assert old(Reported(all, this)) == old(ReportedThrough(all, done)) by {
        ReportedThroughAll(all, this);
      }
    }

    /** True exactly when this expectation may handle a call whose arguments match. */
    method ShouldHandleArguments(matches: bool, ghost all: seq<ExpectationBase>) returns (yes: bool)
      requires Registered(all) && this in all && Acyclic(PreOf(all))
      ensures yes <==> View(all).ShouldHandle(id) && matches
    {
      ViewSatisfied(all, this);
      if retired {
        return false;
      }
      var ready := AllPrerequisitesAreSatisfied(all);
      return ready && matches;
    }

    method AddPrerequisite(p: ExpectationBase, ghost all: seq<ExpectationBase>)
      requires Registered(all) && this in all && p in all
      modifies this`immediatePrerequisites
      ensures Registered(all) && View(all) == old(View(all)).WithPrerequisite(id, p.id)
    {
      ghost var before, ids := PreOf(all), Ids(immediatePrerequisites);
      assert all[id] == this && all[p.id] == p;
      immediatePrerequisites := immediatePrerequisites + {p};
      assert PreOf(all) == AddEdge(before, id, p.id) by {
        assert Ids(immediatePrerequisites) == ids + {p.id};
        assert forall i | 0 <= i < |all| && i != id :: PreOf(all)[i] == before[i];
      }
    }

    method IncrementCallCount(ghost all: seq<ExpectationBase>)
      requires Registered(all) && this in all
      modifies this`callCount
      ensures callCount == old(callCount) + 1
      ensures CallsOf(all, |all|) == old(CallsOf(all, |all|))[id := old(callCount) + 1]
    {
      assert all[id] == this;
      callCount := callCount + 1;
      assert forall i | 0 <= i < |all| && i != id :: CallsOf(all, |all|)[i] == old(CallsOf(all, |all|))[i];
    }

    /** Retires the transitive prerequisites, and this expectation if it asked for that. */
    method RetireAfterCall(ghost all: seq<ExpectationBase>)
      requires Retirable(all) && this in all
      modifies all`retired
      ensures RetiredOf(all) == old(RetiredOf(all)) + Below(PreOf(all), id) +
              if spec.retiresOnSaturation && IsSaturated() then {id} else {}
    {
      RetireAllPreRequisites(all);
      if spec.retiresOnSaturation && IsSaturated() {
        Retire(all);
      }
    }

    /** Counts a call this expectation handles; returns whether it was excessive. */
    method GetActionForArguments(ghost all: seq<ExpectationBase>) returns (excessive: bool)
      requires Retirable(all) && this in all
      modifies all`retired, this`callCount
      ensures excessive <==> old(IsSaturated())
      ensures CallsOf(all, |all|) == old(CallsOf(all, |all|))[id := old(callCount) + 1]
      ensures excessive ==> RetiredOf(all) == old(RetiredOf(all))
      ensures !excessive ==>
                RetiredOf(all) == old(RetiredOf(all)) + Below(PreOf(all), id) +
                  (if spec.retiresOnSaturation && spec.cardinality.IsSaturatedByCallCount(old(callCount) + 1)
                   then {id} else {})
    {
      excessive := IsSaturated();
      IncrementCallCount(all);
      if !excessive {
        RetireAfterCall(all);
      }
    }

    /** Handles a call, in terms of the abstract state. */
    method HandleCall(ghost all: seq<ExpectationBase>)
      requires Retirable(all) && this in all
      modifies all`retired, this`callCount
      ensures View(all) == old(View(all)).Handling(id)
    {
      ghost var m := View(all);
      assert id < |all| && m.specs[id] == spec && m.calls[id] == callCount by {
        ViewEntry(all, this);
      }
      var excessive := GetActionForArguments(all);
      HandlingIs(m, id, View(all));
    }

    /** Offers a call to this expectation, which handles it if it should. */
    method Offer(matches: bool, ghost all: seq<ExpectationBase>) returns (handled: bool)
      requires Retirable(all) && this in all
      modifies all`retired, this`callCount
      ensures Registered(all) && handled == (old(View(all).ShouldHandle(id)) && matches)
      ensures View(all) == if handled then old(View(all)).Handling(id) else old(View(all))
    {
      handled := ShouldHandleArguments(matches, all);
      if handled {
        HandleCall(all);
      }
    }
  }

  /** Recognizes the state after a handled call from its parts. */
  lemma HandlingIs(m: Mocks, e: nat, n: Mocks)
    requires m.Sized() && e < |m.pre|
    requires n.pre == m.pre && n.specs == m.specs && n.calls == m.calls[e := m.calls[e] + 1]
    requires var c := m.specs[e].cardinality;
             if c.IsSaturatedByCallCount(m.calls[e]) then n.retired == m.retired
             else n.retired == m.retired + Below(m.pre, e) +
                  if m.specs[e].retiresOnSaturation && c.IsSaturatedByCallCount(m.calls[e] + 1) then {e} else {}
    ensures n == m.Handling(e)
  {
  }

  /** A growing set of expectation handles. */
  class ExpectationSet {
    var expectations: set<ExpectationBase>

    constructor ()
      ensures expectations == {}
    {
      expectations := {};
    }
  }

  /** What the retiring walk needs and keeps. */
  ghost predicate Retirable(all: seq<ExpectationBase>)
    reads all`immediatePrerequisites, all`retired
  {
    && Registered(all)
    && Acyclic(PreOf(all))
    && DownwardClosed(PreOf(all), RetiredOf(all))
  }

  lemma IdsWithout(es: set<ExpectationBase>, e: ExpectationBase)
    requires e in es
    ensures Ids(es) == Ids(es - {e}) + {e.id}
  {
    assert es == (es - {e}) + {e};
  }

  /** In a walk over the prerequisites of e that has visited `done`: the next one, p, is
      smaller, and after it as many remain as the rest without p. */
  lemma NextPrerequisite(all: seq<ExpectationBase>, e: ExpectationBase, rest: set<ExpectationBase>, done: set<nat>,
                         p: ExpectationBase)
    requires Registered(all) && e in all && Acyclic(PreOf(all))
    requires rest <= e.immediatePrerequisites && done + Ids(rest) == PreOf(all)[e.id] && p in rest
    ensures p in all && Below(PreOf(all), p.id) < Below(PreOf(all), e.id)
    ensures DownTo(PreOf(all), {p.id}) <= Below(PreOf(all), e.id)
    ensures done + {p.id} + Ids(rest - {p}) == PreOf(all)[e.id]
  {
    assert all[e.id] == e && all[p.id] == p;
    BelowShrinks(PreOf(all), e.id, p.id);
    DownToOne(PreOf(all), p.id);
    IdsWithout(rest, p);
  }

  lemma IsSatisfiedId(all: seq<ExpectationBase>, e: ExpectationBase)
    requires Registered(all) && e in all
    ensures e.id in SatisfiedOf(all) <==> e.IsSatisfied()
    ensures e.id in CalledOf(all) <==> e.callCount > 0
  {
  }

  /** The expectations that block e, found by passing only through satisfied and uncalled ones. */
  ghost function Reported(all: seq<ExpectationBase>, e: ExpectationBase): set<ExpectationBase>
    requires Registered(all)
    reads all`immediatePrerequisites, all`callCount
  {
    Members(all, Blockers(PreOf(all), SatisfiedOf(all), SatisfiedOf(all) - CalledOf(all), e.id))
  }

  /** The contribution of the immediate prerequisites ps to such a report. */
  ghost function ReportedThrough(all: seq<ExpectationBase>, ps: set<nat>): set<ExpectationBase>
    requires Registered(all)
    reads all`immediatePrerequisites, all`callCount
  {
    Members(all, BlockersFrom(PreOf(all), SatisfiedOf(all), SatisfiedOf(all) - CalledOf(all), ps))
  }

  lemma ReportedThroughOne(all: seq<ExpectationBase>, e: ExpectationBase)
    requires Registered(all) && e in all
    ensures ReportedThrough(all, {e.id}) ==
            if !e.IsSatisfied() then {e} else if e.callCount == 0 then Reported(all, e) else {}
  {
    var satisfied := SatisfiedOf(all);
    IsSatisfiedId(all, e);
    assert all[e.id] == e;
    BlockersFromOne(PreOf(all), satisfied, satisfied - CalledOf(all), e.id);
    assert Members(all, {e.id}) == {e};
  }

  lemma ReportedThroughUnion(all: seq<ExpectationBase>, ps: set<nat>, qs: set<nat>)
    requires Registered(all)
    ensures ReportedThrough(all, ps + qs) == ReportedThrough(all, ps) + ReportedThrough(all, qs)
  {
    BlockersFromUnion(PreOf(all), SatisfiedOf(all), SatisfiedOf(all) - CalledOf(all), ps, qs);
  }

  lemma ReportedThroughAll(all: seq<ExpectationBase>, e: ExpectationBase)
    requires Registered(all) && e in all
    ensures Reported(all, e) == ReportedThrough(all, PreOf(all)[e.id])
  {
    BlockersUnfold(PreOf(all), SatisfiedOf(all), SatisfiedOf(all) - CalledOf(all), e.id);
  }

  lemma IsRetiredId(all: seq<ExpectationBase>, e: ExpectationBase)
    requires Registered(all) && e in all
    ensures e.id in RetiredOf(all) <==> e.retired
  {
  }

  /** The short-cut: whatever is retired has all its transitive prerequisites retired. */
  lemma RetiredAlready(all: seq<ExpectationBase>, e: ExpectationBase)
    requires Retirable(all) && e in all && e.retired
    ensures RetiredOf(all) + Below(PreOf(all), e.id) == RetiredOf(all)
  {
    assert e.id in RetiredOf(all);
  }

  /** Retiring an expectation after all it depends on keeps the retired ones downward closed. */
  lemma RetiredWithBelow(all: seq<ExpectationBase>, before: set<nat>, e: ExpectationBase)
    requires Registered(all) && e in all && Acyclic(PreOf(all)) && DownwardClosed(PreOf(all), before)
    requires RetiredOf(all) == if e.id in before then before else before + Below(PreOf(all), e.id) + {e.id}
    ensures Retirable(all)
    ensures RetiredOf(all) == before + DownTo(PreOf(all), {e.id})
  {
    var pre := PreOf(all);
    assert all[e.id] == e;
    DownToOne(pre, e.id);
    forall x | x in Below(pre, e.id)
      ensures Below(pre, x) <= Below(pre, e.id)
    {
      BelowTrans(pre, e.id, x);
    }
  }

  lemma DownToNext(pre: Graph, before: set<nat>, done: set<nat>, p: nat, soFar: set<nat>, after: set<nat>)
    requires soFar == before + DownTo(pre, done) && after == soFar + DownTo(pre, {p})
    ensures after == before + DownTo(pre, done + {p})
  {
    DownToUnion(pre, done, {p});
  }

  lemma AllRetired(all: seq<ExpectationBase>, before: set<nat>, e: ExpectationBase)
    requires Retirable(all) && e in all && RetiredOf(all) == before + DownTo(PreOf(all), PreOf(all)[e.id])
    ensures RetiredOf(all) == before + Below(PreOf(all), e.id)
    ensures e.retired <==> e.id in before
  {
    IsRetiredId(all, e);
    BelowIsDownToPrerequisites(PreOf(all), e.id);
    assert e.id !in Below(PreOf(all), e.id);
  }

  ghost function Ids(es: set<ExpectationBase>): set<nat> {
    set p | p in es :: p.id
  }

  /** `all` lists the expectations in order of creation, and holds every prerequisite. */
  ghost predicate Registered(all: seq<ExpectationBase>)
    reads all`immediatePrerequisites
  {
    && (forall i | 0 <= i < |all| :: all[i].id == i)
    && (forall i, p | 0 <= i < |all| && p in all[i].immediatePrerequisites :: p.id < |all| && all[p.id] == p)
  }

  ghost function PreOf(all: seq<ExpectationBase>): (pre: Graph)
    requires Registered(all)
    reads all`immediatePrerequisites
    ensures WellFormed(pre) && |pre| == |all|
    ensures forall i | 0 <= i < |all| :: pre[i] == Ids(all[i].immediatePrerequisites)
  {
    PrefixPre(all, |all|)
  }

  ghost function PrefixPre(all: seq<ExpectationBase>, n: nat): (pre: Graph)
    requires n <= |all|
    reads all`immediatePrerequisites
    ensures |pre| == n
    ensures forall i | 0 <= i < n :: pre[i] == Ids(all[i].immediatePrerequisites)
  {
    if n == 0 then [] else PrefixPre(all, n - 1) + [Ids(all[n - 1].immediatePrerequisites)]
  }

  ghost function RetiredOf(all: seq<ExpectationBase>): set<nat>
    reads all`retired
  {
    set i: nat | i < |all| && all[i].retired
  }

  ghost function SatisfiedOf(all: seq<ExpectationBase>): set<nat>
    reads all`callCount
  {
    set i: nat | i < |all| && all[i].IsSatisfied()
  }

  ghost function CalledOf(all: seq<ExpectationBase>): set<nat>
    reads all`callCount
  {
    set i: nat | i < |all| && all[i].callCount > 0
  }

  /** The expectations with the given creation numbers. */
  ghost function Members(all: seq<ExpectationBase>, ids: set<nat>): set<ExpectationBase> {
    set e | e in all && e.id in ids
  }

  ghost function CallsOf(all: seq<ExpectationBase>, n: nat): (calls: seq<nat>)
    requires n <= |all|
    reads all`callCount
    ensures |calls| == n
    ensures forall i | 0 <= i < n :: calls[i] == all[i].callCount
  {
    if n == 0 then [] else CallsOf(all, n - 1) + [all[n - 1].callCount]
  }

  /** The abstract state of the registered expectations. */
  ghost function View(all: seq<ExpectationBase>): (m: Mocks)
    requires Registered(all)
    reads all`immediatePrerequisites, all`callCount, all`retired
    ensures m.Sized()
  {
    Mocks(PreOf(all), seq(|all|, i requires 0 <= i < |all| => all[i].spec), CallsOf(all, |all|), RetiredOf(all))
  }

  lemma ViewSatisfied(all: seq<ExpectationBase>, e: ExpectationBase)
    requires Registered(all) && e in all
    ensures View(all).Satisfied() == SatisfiedOf(all) && View(all).Called() == CalledOf(all)
    ensures e.id in View(all).retired <==> e.retired
  {
    assert all[e.id] == e;
  }

  lemma ViewEntry(all: seq<ExpectationBase>, e: ExpectationBase)
    requires Registered(all) && e in all
    ensures e.id < |all| && View(all).specs[e.id] == e.spec && View(all).calls[e.id] == e.callCount
  {
    assert all[e.id] == e;
  }

  /** A new expectation enlarges the abstract state by one entry. */
  lemma RegisterNew(all: seq<ExpectationBase>, e: ExpectationBase)
    requires Registered(all) && e.id == |all|
    requires e.immediatePrerequisites == {} && e.callCount == 0 && !e.retired
    ensures Registered(all + [e]) && View(all + [e]) == View(all).Expecting(e.spec)
  {
    var more := all + [e];
    assert more[|all|] == e && forall i | 0 <= i < |all| :: more[i] == all[i];
    assert PreOf(more) == PreOf(all) + [{}] by {
      assert Ids(e.immediatePrerequisites) == {};
      assert forall i | 0 <= i < |all| :: PreOf(more)[i] == PreOf(all)[i];
    }
    assert CallsOf(more, |more|) == CallsOf(all, |all|) + [0] by {
      assert forall i | 0 <= i < |all| :: CallsOf(more, |more|)[i] == CallsOf(all, |all|)[i];
    }
    assert RetiredOf(more) == RetiredOf(all);
  }

  /** Recognizes the world after an addition to a sequence from its parts. */
  lemma AdditionIs(w: World, s: nat, e: nat, n: World)
    requires s < |w.sequences| && e < |w.mocks.pre|
    requires var members := w.sequences[s];
             if members != [] && members[|members| - 1] == e then
               n.mocks == w.mocks && n.sequences == w.sequences[s := members]
             else
               && n.sequences == w.sequences[s := members + [e]]
               && n.mocks == if members == [] then w.mocks else w.mocks.WithPrerequisite(e, members[|members| - 1])
    ensures n == MockRuns.AddExpectation(w, s, e)
  {
    assert w.sequences[s := w.sequences[s]] == w.sequences;
    assert w.sequences[s] == [] ==> w.sequences[s] + [e] == [e];
  }

  /** A sequence remembers the last expectation added to it. */
  class Sequence {
    var lastExpectation: ExpectationBase?
    ghost var members: seq<nat>  // the creation numbers of all expectations added

    ghost predicate Valid(all: seq<ExpectationBase>)
      reads this
    {
      if members == [] then lastExpectation == null
      else lastExpectation != null && lastExpectation in all && lastExpectation.id == members[|members| - 1]
    }

    constructor (ghost all: seq<ExpectationBase>)
      ensures Valid(all) && members == [] && lastExpectation == null
    {
      lastExpectation, members := null, [];
    }

    /** As the s-th of all sequences, has the effect of the abstract step on the world. */
    method AddExpectation(expectation: ExpectationBase, ghost all: seq<ExpectationBase>,
                          ghost sequences: seq<seq<nat>>, ghost s: nat)
      requires Registered(all) && expectation in all && Valid(all)
      requires s < |sequences| && sequences[s] == members
      modifies this, expectation`immediatePrerequisites
      ensures Registered(all) && Valid(all) && lastExpectation == expectation
      ensures World(View(all), sequences[s := members]) ==
              old(MockRuns.AddExpectation(World(View(all), sequences), s, expectation.id))
    {
      ghost var m, added := View(all), members;
      assert all[expectation.id] == expectation && (members != [] ==> all[lastExpectation.id] == lastExpectation);
      if lastExpectation != expectation {
        if lastExpectation != null {
          expectation.AddPrerequisite(lastExpectation, all);
        }
        lastExpectation := expectation;
        members := members + [expectation.id];
      }
      AdditionIs(World(m, sequences), s, expectation.id, World(View(all), sequences[s := members]));
    }
  }
}
