/**
  What a mocking session has come to, told by its events alone: who was called how often,
  who retired when, and who was told to come after whom. Bounds on calls are written out
  here: calls are within Between(min, max) if they are at least min and at most the largest
  of 0, min and max, and the next call is excessive once they have reached that.
 */
module MockHistories {
  import opened Collections
  import opened MockRuns
  import opened Prerequisites

  /** When e was called in the first k events. */
  ghost function CallTimes(events: seq<Event>, e: nat, k: nat): set<nat>
    requires k <= |events|
  {
    set i | i in Range(k) && events[i] == Call(e)
  }

  ghost predicate Within(c: Cardinality, calls: nat) {
    c.min <= calls && (calls <= 0 || calls <= c.min || calls <= c.max)
  }

  ghost predicate Exhausted(c: Cardinality, calls: nat) {
    calls >= c.min && calls >= c.max
  }

  lemma BoundsAreForced(c: Cardinality, calls: nat)
    ensures c.IsSatisfiedByCallCount(calls) <==> Within(c, calls)
    ensures c.IsSaturatedByCallCount(calls) <==> Exhausted(c, calls)
  {
  }

  // ---- counting calls ----

  lemma CallTimesGrow(events: seq<Event>, e: nat, k: nat)
    requires k < |events|
    ensures CallTimes(events, e, k + 1) == CallTimes(events, e, k) + if events[k] == Call(e) then {k} else {}
    ensures |CallTimes(events, e, k + 1)| == |CallTimes(events, e, k)| + if events[k] == Call(e) then 1 else 0
  {
    assert CallTimes(events, e, k + 1) == CallTimes(events, e, k) + if events[k] == Call(e) then {k} else {};
  }

  ghost function CountOf(m: Mocks, e: nat): nat {
    if e < |m.calls| then m.calls[e] else 0
  }

  lemma StepCounts(w: World, ev: Event, e: nat)
    requires Enabled(w, ev)
    ensures CountOf(Apply(w, ev).mocks, e) == CountOf(w.mocks, e) + if ev == Call(e) then 1 else 0
    ensures w.mocks.specs <= Apply(w, ev).mocks.specs
  {
  }

  lemma CountedAlike(events: seq<Event>, worlds: seq<World>, k: nat, e: nat)
    requires IsRun(events, worlds) && k < |events|
    ensures |CallTimes(events, e, k + 1)| - CountOf(worlds[k + 1].mocks, e) ==
            |CallTimes(events, e, k)| - CountOf(worlds[k].mocks, e)
    ensures worlds[k].mocks.specs <= worlds[k + 1].mocks.specs
  {
    assert StepsAt(events, worlds, k);
    CallTimesGrow(events, e, k);
    StepCounts(worlds[k], events[k], e);
  }

  /** The count of an expectation is the number of its calls; before it is created there are none. */
  lemma {:induction false} CallsAreCounted(events: seq<Event>, worlds: seq<World>, k: nat, e: nat)
    requires IsRun(events, worlds) && k < |worlds|
    ensures |CallTimes(events, e, k)| == CountOf(worlds[k].mocks, e)
  {
    if k == 0 {
      assert CallTimes(events, e, 0) == {};
    } else {
      CallsAreCounted(events, worlds, k - 1, e);
      CountedAlike(events, worlds, k - 1, e);
    }
  }

  lemma {:induction false} SpecsStay(events: seq<Event>, worlds: seq<World>, j: nat, k: nat)
    requires IsRun(events, worlds) && j <= k < |worlds|
    ensures worlds[j].mocks.specs <= worlds[k].mocks.specs
    decreases k - j
  {
    if j < k {
      SpecsStay(events, worlds, j, k - 1);
      CountedAlike(events, worlds, k - 1, 0);
    }
  }

  lemma NoMoreCalls(events: seq<Event>, a: nat, i: nat)
    requires i <= |events| && forall j | i <= j < |events| :: events[j] != Call(a)
    ensures forall k | i < k <= |events| :: CallTimes(events, a, k) == CallTimes(events, a, i)
  {
  }

  /** A call is handled only after each transitive prerequisite was called as often as it
      should be; from then on that one is not called again (unless the caller allows no calls). */
  lemma PrerequisitesWereCalled(events: seq<Event>, worlds: seq<World>, i: nat, a: nat, b: nat)
    requires IsRun(events, worlds) && i < |events|
    requires events[i] == Call(b) && a in Below(worlds[i].mocks.pre, b)
    ensures a < |worlds[i].mocks.specs| && b < |worlds[i].mocks.specs|
    ensures Within(worlds[i].mocks.specs[a].cardinality, |CallTimes(events, a, i)|)
    ensures !Exhausted(worlds[i].mocks.specs[b].cardinality, 0) ==>
              forall k | i < k <= |events| :: CallTimes(events, a, k) == CallTimes(events, a, i)
  {
    var m := worlds[i].mocks;
    PrerequisitesAreObeyed(events, worlds, i, a, b);
    assert Within(m.specs[a].cardinality, |CallTimes(events, a, i)|) by {
      CallsAreCounted(events, worlds, i, a);
      BoundsAreForced(m.specs[a].cardinality, m.calls[a]);
    }
    BoundsAreForced(m.specs[b].cardinality, 0);
    if !Exhausted(m.specs[b].cardinality, 0) {
      CallerIsNotBelow(events, worlds, i, b);
      NoMoreCalls(events, a, i);
    }
  }

  lemma CallerIsNotBelow(events: seq<Event>, worlds: seq<World>, i: nat, b: nat)
    requires IsRun(events, worlds) && i < |events| && events[i] == Call(b)
    ensures b !in Below(worlds[i].mocks.pre, b)
  {
    RunsKeepInv(events, worlds, i);
  }

  /** Calls are within the upper bound, and once they reach it the expectation is retired. */
  ghost predicate Limited(m: Mocks, e: nat)
    requires e < |m.specs| == |m.calls|
  {
    var c, calls := m.specs[e].cardinality, m.calls[e];
    (calls <= c.min || calls <= c.max) && (Exhausted(c, calls) ==> e in m.retired)
  }

  lemma StepKeepsLimited(w: World, ev: Event, e: nat)
    requires Inv(w) && Enabled(w, ev) && e < |w.mocks.specs|
    requires w.mocks.specs[e].retiresOnSaturation && Limited(w.mocks, e)
    ensures Apply(w, ev).mocks.Sized() && Limited(Apply(w, ev).mocks, e)
  {
    StepKeepsInv(w, ev);
    BoundsAreForced(w.mocks.specs[e].cardinality, w.mocks.calls[e]);
    BoundsAreForced(w.mocks.specs[e].cardinality, w.mocks.calls[e] + 1);
  }

  ghost predicate LimitedIn(m: Mocks, e: nat) {
    && m.Sized()
    && (e < |m.specs| && m.specs[e].retiresOnSaturation && !Exhausted(m.specs[e].cardinality, 0) ==> Limited(m, e))
  }

  lemma LimitedStays(events: seq<Event>, worlds: seq<World>, k: nat, e: nat)
    requires IsRun(events, worlds) && k < |events| && LimitedIn(worlds[k].mocks, e)
    ensures LimitedIn(worlds[k + 1].mocks, e)
  {
    RunsKeepInv(events, worlds, k);
    var w, ev := worlds[k], events[k];
    assert StepsAt(events, worlds, k);
    StepKeepsInv(w, ev);
    StepCounts(w, ev, e);
    if e < |w.mocks.specs| && w.mocks.specs[e].retiresOnSaturation && !Exhausted(w.mocks.specs[e].cardinality, 0) {
      StepKeepsLimited(w, ev, e);
    }
  }

  lemma {:induction false} RunsKeepLimited(events: seq<Event>, worlds: seq<World>, k: nat, e: nat)
    requires IsRun(events, worlds) && k < |worlds|
    ensures LimitedIn(worlds[k].mocks, e)
  {
    if k > 0 {
      RunsKeepLimited(events, worlds, k - 1, e);
      LimitedStays(events, worlds, k - 1, e);
    }
  }

  /** An expectation that retires on saturation is never called more often than allowed. */
  lemma SaturationLimitsCalls(events: seq<Event>, worlds: seq<World>, k: nat, e: nat)
    requires IsRun(events, worlds) && k < |worlds| && e < |worlds[k].mocks.specs|
    requires worlds[k].mocks.specs[e].retiresOnSaturation && !Exhausted(worlds[k].mocks.specs[e].cardinality, 0)
    ensures var c, calls := worlds[k].mocks.specs[e].cardinality, |CallTimes(events, e, k)|;
            (calls <= c.max || calls <= c.min) && (Exhausted(c, calls) ==> e in worlds[k].mocks.retired)
  {
    RunsKeepLimited(events, worlds, k, e);
    CallsAreCounted(events, worlds, k, e);
  }

  // ---- who has retired ----

  /** Event i is a call that is not excessive, and retires e: what the caller depends on,
      or the caller itself when it asked for that and has now had all its calls. */
  ghost predicate RetiresAt(events: seq<Event>, worlds: seq<World>, i: int, e: nat) {
    0 <= i < |events| && i < |worlds| && events[i].Call? && events[i].e < |worlds[i].mocks.specs| &&
    var m, b := worlds[i].mocks, events[i].e;
    var spec, calls := m.specs[b], |CallTimes(events, b, i)|;
    && !Exhausted(spec.cardinality, calls)
    && (e in Below(m.pre, b) || (e == b && spec.retiresOnSaturation && Exhausted(spec.cardinality, calls + 1)))
  }

  ghost predicate RetiredBefore(events: seq<Event>, worlds: seq<World>, k: nat, e: nat) {
    exists i :: 0 <= i < k && RetiresAt(events, worlds, i, e)
  }

  lemma RetiredStep(events: seq<Event>, worlds: seq<World>, k: nat, e: nat)
    requires IsRun(events, worlds) && k < |events|
    ensures e in worlds[k + 1].mocks.retired <==> e in worlds[k].mocks.retired || RetiresAt(events, worlds, k, e)
  {
    assert StepsAt(events, worlds, k);
    if events[k].Call? {
      var m, b := worlds[k].mocks, events[k].e;
      CallsAreCounted(events, worlds, k, b);
      BoundsAreForced(m.specs[b].cardinality, m.calls[b]);
      BoundsAreForced(m.specs[b].cardinality, m.calls[b] + 1);
    }
  }

  /** An expectation is retired exactly if some earlier call retired it. */
  lemma {:induction false} RetiredExactly(events: seq<Event>, worlds: seq<World>, k: nat, e: nat)
    requires IsRun(events, worlds) && k < |worlds|
    ensures e in worlds[k].mocks.retired <==> RetiredBefore(events, worlds, k, e)
  {
    if k > 0 {
      RetiredExactly(events, worlds, k - 1, e);
      RetiredStep(events, worlds, k - 1, e);
      RetiredBeforeGrows(events, worlds, k - 1, e);
    }
  }

  lemma RetiredBeforeGrows(events: seq<Event>, worlds: seq<World>, k: nat, e: nat)
    ensures RetiredBefore(events, worlds, k + 1, e) <==>
              RetiredBefore(events, worlds, k, e) || RetiresAt(events, worlds, k, e)
  {
  }

  /** A call may be handled exactly if no earlier call retired the expectation and each of its
      transitive prerequisites was called as often as it should be. */
  lemma HandledExactly(events: seq<Event>, worlds: seq<World>, k: nat, b: nat)
    requires IsRun(events, worlds) && k < |worlds| && b < |worlds[k].mocks.specs|
    ensures worlds[k].mocks.Sized()
    ensures Enabled(worlds[k], Call(b)) <==>
              && !RetiredBefore(events, worlds, k, b)
              && (forall a | a in Below(worlds[k].mocks.pre, b) ::
                    Within(worlds[k].mocks.specs[a].cardinality, |CallTimes(events, a, k)|))
  {
    var m := worlds[k].mocks;
    RunsKeepInv(events, worlds, k);
    RetiredExactly(events, worlds, k, b);
    forall a | a in Below(m.pre, b)
      ensures a in m.Satisfied() <==> Within(m.specs[a].cardinality, |CallTimes(events, a, k)|)
    {
      CallsAreCounted(events, worlds, k, a);
      BoundsAreForced(m.specs[a].cardinality, m.calls[a]);
    }
  }

  // ---- what was created and ordered ----

  ghost function ExpectedIn(events: seq<Event>): seq<Spec> {
    if events == [] then []
    else
      var last := events[|events| - 1];
      ExpectedIn(events[..|events| - 1]) + if last.Expect? then [last.spec] else []
  }

  /** What was added to sequence s, one after another; the same one twice in a row counts once. */
  ghost function AddedTo(events: seq<Event>, s: nat): seq<nat> {
    if events == [] then []
    else
      var last, members := events[|events| - 1], AddedTo(events[..|events| - 1], s);
      if !last.InSequence? || last.s != s then members
      else if members != [] && members[|members| - 1] == last.e then members
      else members + [last.e]
  }

  /** The event makes p an immediate prerequisite of e: by an After clause, or because e is
      added to a sequence whose last member so far is p. */
  ghost predicate Gives(before: seq<Event>, ev: Event, e: nat, p: nat) {
    || ev == After(e, p)
    || (ev.InSequence? && ev.e == e && p != e &&
        var members := AddedTo(before, ev.s); members != [] && members[|members| - 1] == p)
  }

  lemma {:induction false} CreatedExactly(events: seq<Event>, worlds: seq<World>, k: nat)
    requires IsRun(events, worlds) && k < |worlds|
    ensures worlds[k].mocks.specs == ExpectedIn(events[..k])
  {
    if k > 0 {
      CreatedExactly(events, worlds, k - 1);
      assert events[..k][..k - 1] == events[..k - 1];
      assert StepsAt(events, worlds, k - 1);
    }
  }

  lemma {:induction false} SequencesExactly(events: seq<Event>, worlds: seq<World>, k: nat, s: nat)
    requires IsRun(events, worlds) && k < |worlds|
    ensures AddedTo(events[..k], s) == if s < |worlds[k].sequences| then worlds[k].sequences[s] else []
  {
    if k > 0 {
      SequencesExactly(events, worlds, k - 1, s);
      assert events[..k][..k - 1] == events[..k - 1];
      assert StepsAt(events, worlds, k - 1);
    }
  }

  ghost predicate GivenBefore(events: seq<Event>, k: nat, e: nat, p: nat)
    requires k <= |events|
  {
    exists i :: 0 <= i < k && Gives(events[..i], events[i], e, p)
  }

  ghost predicate HasPrerequisite(m: Mocks, e: nat, p: nat) {
    e < |m.pre| && p in m.pre[e]
  }

  lemma PrerequisiteStep(events: seq<Event>, worlds: seq<World>, k: nat, e: nat, p: nat)
    requires IsRun(events, worlds) && k < |events|
    ensures HasPrerequisite(worlds[k + 1].mocks, e, p) <==>
              HasPrerequisite(worlds[k].mocks, e, p) || Gives(events[..k], events[k], e, p)
  {
    assert StepsAt(events, worlds, k);
    if events[k].InSequence? {
      SequencesExactly(events, worlds, k, events[k].s);
    }
  }

  lemma GivenBeforeGrows(events: seq<Event>, k: nat, e: nat, p: nat)
    requires k < |events|
    ensures GivenBefore(events, k + 1, e, p) <==> GivenBefore(events, k, e, p) || Gives(events[..k], events[k], e, p)
  {
  }

  /** The immediate prerequisites of an expectation are exactly those it was given. */
  lemma {:induction false} PrerequisitesExactly(events: seq<Event>, worlds: seq<World>, k: nat, e: nat, p: nat)
    requires IsRun(events, worlds) && k < |worlds|
    ensures HasPrerequisite(worlds[k].mocks, e, p) <==> GivenBefore(events, k, e, p)
  {
    if k > 0 {
      PrerequisitesExactly(events, worlds, k - 1, e, p);
      PrerequisiteStep(events, worlds, k - 1, e, p);
      GivenBeforeGrows(events, k - 1, e, p);
    }
  }
}
