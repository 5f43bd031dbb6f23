// What a step consists of, call by call: who is called when, what each call sees and does, and when a run ends.
module EngineTrace {
  import opened Agents
  import opened Engine

  /** One `apply` call: mechanism `index` in `phase`, with the state before and after it. */
  datatype Call<W, R, S> = Call(phase: Phase, index: nat, before: State<W, R, S>, after: State<W, R, S>)

  // ---- the description ----

  function PhaseNumber(phase: Phase): nat {
    match phase
    case PreStep => 0
    case Environment => 1
    case Decision => 2
    case Interaction => 3
    case Reward => 4
    case PostStep => 5
  }

  /** The mechanism takes part in the phase. */
  ghost predicate Listens<W, R, S>(spec: Spec<W, R, S>, phase: Phase) {
    match spec
    case Pure(phases, _) => exists k :: 0 <= k < |phases| && phases[k] == phase
    case Continuation(_, _, _) => phase == PostStep
  }

  /** Call (phase, index) comes before call (phase', index'): earlier phase, then earlier insertion. */
  predicate Earlier(phase: Phase, index: nat, phase': Phase, index': nat) {
    PhaseNumber(phase) < PhaseNumber(phase') || (phase == phase' && index < index')
  }

  /** The call asks for the run to end. */
  ghost predicate Asks<W, R, S>(m: Model<W, R, S>, order: seq<AgentId>, c: Call<W, R, S>) {
    var s := c.before;
    c.index < |m.specs| &&
    match m.specs[c.index]
    case Pure(_, apply) => apply(c.phase, s.clock, order, s.world, s.rng, s.scratch).requestStop
    case Continuation(delta, seed, stream) => stream(seed, if s.clock.t == 0 then 0 else s.clock.t - 1) >= delta
  }

  /** What a call does to the state it sees: the effect's world, generator, scratch and outcome, the clock as it was,
      and the stop flag raised when it was raised before or the call asks. */
  ghost predicate Acts<W, R, S>(m: Model<W, R, S>, order: seq<AgentId>, c: Call<W, R, S>)
    requires c.index < |m.specs|
  {
    var s, t := c.before, c.after;
    && t.clock == s.clock
    && (t.stop <==> s.stop || Asks(m, order, c))
    && match m.specs[c.index]
       case Pure(_, apply) =>
         var e := apply(c.phase, s.clock, order, s.world, s.rng, s.scratch);
         t.world == e.world && t.rng == e.rng && t.scratch == e.scratch && t.failed == e.failed
       case Continuation(_, _, _) =>
         t.world == s.world && t.rng == s.rng && t.scratch == s.scratch && t.failed == s.failed
  }

  /** The activation order of a step, and the state its first call sees: clock advanced, scratch cleared. */
  function OrderOf<W, R, S>(m: Model<W, R, S>, s: State<W, R, S>): seq<AgentId> { m.scheduler(s.world, s.rng).0 }

  function StartOf<W, R, S>(m: Model<W, R, S>, s: State<W, R, S>): State<W, R, S> {
    State(s.world, Clock(s.clock.t + 1, s.clock.tMax), m.scheduler(s.world, s.rng).1, m.empty, s.stop, false)
  }

  /** Every call is of a mechanism that listens to the phase, and does what that mechanism does. */
  ghost predicate CallsAct<W, R, S>(m: Model<W, R, S>, order: seq<AgentId>, calls: seq<Call<W, R, S>>) {
    forall k :: 0 <= k < |calls| ==>
      calls[k].index < |m.specs| && Listens(m.specs[calls[k].index], calls[k].phase) && Acts(m, order, calls[k])
  }

  /** Each call sees what its predecessor left. */
  ghost predicate Chained<W, R, S>(start: State<W, R, S>, calls: seq<Call<W, R, S>>, end: State<W, R, S>) {
    && (|calls| == 0 ==> end == start)
    && (|calls| > 0 ==> calls[0].before == start && calls[|calls| - 1].after == end)
    && (forall k :: 0 < k < |calls| ==> calls[k].before == calls[k - 1].after)
  }

  ghost predicate InOrder<W, R, S>(calls: seq<Call<W, R, S>>) {
    forall i, j :: 0 <= i < j < |calls| ==> Earlier(calls[i].phase, calls[i].index, calls[j].phase, calls[j].index)
  }

  /** A failed call is the last. */
  ghost predicate StopsAtFailure<W, R, S>(calls: seq<Call<W, R, S>>) {
    forall k :: 0 <= k < |calls| - 1 ==> !calls[k].after.failed
  }

  ghost predicate Called<W, R, S>(calls: seq<Call<W, R, S>>, phase: Phase, index: nat) {
    exists k :: 0 <= k < |calls| && calls[k].phase == phase && calls[k].index == index
  }

  /** The last call failed, and this one would have come behind it. */
  ghost predicate CutOff<W, R, S>(calls: seq<Call<W, R, S>>, end: State<W, R, S>, phase: Phase, index: nat) {
    end.failed && |calls| > 0 && Earlier(calls[|calls| - 1].phase, calls[|calls| - 1].index, phase, index)
  }

  /** Nobody who listens is left out, except behind a failed call. */
  ghost predicate NoneLeftOut<W, R, S>(m: Model<W, R, S>, calls: seq<Call<W, R, S>>, end: State<W, R, S>) {
    forall phase: Phase, index: nat :: index < |m.specs| && Listens(m.specs[index], phase) ==>
      Called(calls, phase, index) || CutOff(calls, end, phase, index)
  }

  /** `calls` are the calls of one step from `s`, which ends in `end`. */
  ghost predicate IsStep<W, R, S>(m: Model<W, R, S>, s: State<W, R, S>, calls: seq<Call<W, R, S>>, end: State<W, R, S>) {
    && CallsAct(m, OrderOf(m, s), calls)
    && Chained(StartOf(m, s), calls, end)
    && InOrder(calls) && StopsAtFailure(calls) && NoneLeftOut(m, calls, end)
  }

  // ---- the calls of the model's step ----

  ghost function PhaseCalls<W, R, S>(specs: seq<Spec<W, R, S>>, i: nat, phase: Phase, order: seq<AgentId>, s: State<W, R, S>): seq<Call<W, R, S>>
    requires i <= |specs|
    decreases |specs| - i
  {
    if i == |specs| || s.failed then []
    else if Registered(specs[i], phase) then
      var t := ApplyOne(specs[i], phase, order, s);
      [Call(phase, i, s, t)] + PhaseCalls(specs, i + 1, phase, order, t)
    else PhaseCalls(specs, i + 1, phase, order, s)
  }

  ghost function CallsFrom<W, R, S>(specs: seq<Spec<W, R, S>>, p: nat, order: seq<AgentId>, s: State<W, R, S>): seq<Call<W, R, S>>
    requires p <= |ORDER|
    decreases |ORDER| - p
  {
    if p == |ORDER| || s.failed then []
    else PhaseCalls(specs, 0, ORDER[p], order, s) + CallsFrom(specs, p + 1, order, ApplyPhase(specs, 0, ORDER[p], order, s))
  }

  ghost function Calls<W, R, S>(m: Model<W, R, S>, s: State<W, R, S>): seq<Call<W, R, S>> {
    CallsFrom(m.specs, 0, OrderOf(m, s), StartOf(m, s))
  }

  lemma OneCall<W, R, S>(m: Model<W, R, S>, order: seq<AgentId>, phase: Phase, i: nat, s: State<W, R, S>)
    requires i < |m.specs|
    ensures Registered(m.specs[i], phase) <==> Listens(m.specs[i], phase)
    ensures Acts(m, order, Call(phase, i, s, ApplyOne(m.specs[i], phase, order, s)))
  { }

  /** Where a stretch of calls begins and ends, and that it is a stretch of a step. */
  ghost predicate IsStretch<W, R, S>(m: Model<W, R, S>, order: seq<AgentId>, s: State<W, R, S>, calls: seq<Call<W, R, S>>, end: State<W, R, S>) {
    && CallsAct(m, order, calls) && Chained(s, calls, end) && InOrder(calls) && StopsAtFailure(calls)
    && (end.failed && !s.failed ==> |calls| > 0)
  }

  lemma JoinedChain<W, R, S>(s: State<W, R, S>, one: seq<Call<W, R, S>>, mid: State<W, R, S>, two: seq<Call<W, R, S>>, end: State<W, R, S>)
    requires Chained(s, one, mid) && Chained(mid, two, end)
    ensures Chained(s, one + two, end)
  {
    var all, n := one + two, |one|;
    forall k | 0 < k < |all| ensures all[k].before == all[k - 1].after {
      if k < n {
        assert all[k] == one[k] && all[k - 1] == one[k - 1];
      } else if k == n {
        assert all[k] == two[0] && all[k - 1] == one[n - 1];
      } else {
        assert all[k] == two[k - n] && all[k - 1] == two[k - n - 1];
      }
    }
    if |two| > 0 {
      assert all[|all| - 1] == two[|two| - 1];
    } else {
      assert all == one;
    }
  }

  lemma Joined<W, R, S>(m: Model<W, R, S>, order: seq<AgentId>, s: State<W, R, S>, one: seq<Call<W, R, S>>, mid: State<W, R, S>,
                        two: seq<Call<W, R, S>>, end: State<W, R, S>)
    requires IsStretch(m, order, s, one, mid) && IsStretch(m, order, mid, two, end)
    requires |two| > 0 ==> !mid.failed
    requires forall i, j :: 0 <= i < |one| && 0 <= j < |two| ==> Earlier(one[i].phase, one[i].index, two[j].phase, two[j].index)
    ensures IsStretch(m, order, s, one + two, end)
  {
    hide Acts, Listens, Earlier;
    var all, n := one + two, |one|;
    JoinedChain(s, one, mid, two, end);
    assert n > 0 ==> mid == one[n - 1].after;
    hide Chained;
    forall k | 0 <= k < |all| - 1 ensures !all[k].after.failed {
      if k >= n {
        assert all[k] == two[k - n];
      } else {
        assert all[k] == one[k];
      }
    }
    assert forall k :: 0 <= k < |all| ==> all[k] == if k < n then one[k] else two[k - n];
  }

  lemma {:induction false} PhaseIsStretch<W, R, S>(m: Model<W, R, S>, i: nat, phase: Phase, order: seq<AgentId>, s: State<W, R, S>)
    requires i <= |m.specs| && !s.failed
    ensures var calls := PhaseCalls(m.specs, i, phase, order, s);
            && IsStretch(m, order, s, calls, ApplyPhase(m.specs, i, phase, order, s))
            && forall k :: 0 <= k < |calls| ==> calls[k].phase == phase && calls[k].index >= i
    decreases |m.specs| - i
  {
    hide Acts, ApplyOne, Listens, Registered;
    if i < |m.specs| {
      OneCall(m, order, phase, i, s);
      if Registered(m.specs[i], phase) {
        var t := ApplyOne(m.specs[i], phase, order, s);
        var one := [Call(phase, i, s, t)];
        var rest := PhaseCalls(m.specs, i + 1, phase, order, t);
        assert IsStretch(m, order, s, one, t);
        if t.failed {
          assert rest == [] && ApplyPhase(m.specs, i + 1, phase, order, t) == t;
          assert one + rest == one;
        } else {
          PhaseIsStretch(m, i + 1, phase, order, t);
          Joined(m, order, s, one, t, rest, ApplyPhase(m.specs, i + 1, phase, order, t));
        }
      } else {
        PhaseIsStretch(m, i + 1, phase, order, s);
      }
    }
  }

  lemma {:induction false} PhaseLeavesNoneOut<W, R, S>(m: Model<W, R, S>, i: nat, phase: Phase, order: seq<AgentId>, s: State<W, R, S>, index: nat)
    requires i <= index < |m.specs| && Listens(m.specs[index], phase) && !s.failed
    ensures var calls, end := PhaseCalls(m.specs, i, phase, order, s), ApplyPhase(m.specs, i, phase, order, s);
            Called(calls, phase, index) || (CutOff(calls, end, phase, index) && calls[|calls| - 1].phase == phase)
    decreases |m.specs| - i
  {
    hide ApplyOne, Registered, Listens;
    OneCall(m, order, phase, i, s);
    if Registered(m.specs[i], phase) {
      var t := ApplyOne(m.specs[i], phase, order, s);
      var first, rest := Call(phase, i, s, t), PhaseCalls(m.specs, i + 1, phase, order, t);
      var calls := [first] + rest;
      assert PhaseCalls(m.specs, i, phase, order, s) == calls;
      if i == index {
        assert calls[0].index == index;
      } else if t.failed {
        assert rest == [];
      } else {
        PhaseLeavesNoneOut(m, i + 1, phase, order, t, index);
        LaterPart([first], rest, ApplyPhase(m.specs, i + 1, phase, order, t), phase, index);
      }
    } else {
      PhaseLeavesNoneOut(m, i + 1, phase, order, s, index);
    }
  }

  /** What holds of the later calls holds of all of them. */
  lemma LaterPart<W, R, S>(one: seq<Call<W, R, S>>, two: seq<Call<W, R, S>>, end: State<W, R, S>, phase: Phase, index: nat)
    ensures Called(one, phase, index) || Called(two, phase, index) ==> Called(one + two, phase, index)
    ensures CutOff(two, end, phase, index) ==> CutOff(one + two, end, phase, index) && (one + two)[|one + two| - 1] == two[|two| - 1]
  {
    hide Earlier;
    var all := one + two;
    if k :| 0 <= k < |one| && one[k].phase == phase && one[k].index == index {
      assert all[k] == one[k];
    }
    if k :| 0 <= k < |two| && two[k].phase == phase && two[k].index == index {
      assert all[|one| + k] == two[k];
    }
  }

  lemma PhaseAt(p: nat)
    requires p < |ORDER|
    ensures PhaseNumber(ORDER[p]) == p
  { }

  lemma AllPhases(phase: Phase)
    ensures PhaseNumber(phase) < |ORDER| && ORDER[PhaseNumber(phase)] == phase
  { }

  lemma NoCalls<W, R, S>(m: Model<W, R, S>, order: seq<AgentId>, s: State<W, R, S>)
    ensures IsStretch(m, order, s, [], s)
  { }

  /** One phase unfolded: its calls, the state it leaves, and the calls of the phases behind it, none after a failure. */
  lemma OnePhase<W, R, S>(m: Model<W, R, S>, p: nat, order: seq<AgentId>, s: State<W, R, S>)
    requires p < |ORDER| && !s.failed
    ensures var t := ApplyPhase(m.specs, 0, ORDER[p], order, s);
            && CallsFrom(m.specs, p, order, s) == PhaseCalls(m.specs, 0, ORDER[p], order, s) + CallsFrom(m.specs, p + 1, order, t)
            && ApplyPhases(m.specs, p, order, s) == ApplyPhases(m.specs, p + 1, order, t)
            && (t.failed ==> CallsFrom(m.specs, p + 1, order, t) == [] && ApplyPhases(m.specs, p + 1, order, t) == t)
  {
    hide PhaseCalls, ApplyPhase;
  }

  lemma LaterPhases<W, R, S>(one: seq<Call<W, R, S>>, two: seq<Call<W, R, S>>, p: nat)
    requires forall k :: 0 <= k < |one| ==> PhaseNumber(one[k].phase) == p
    requires forall k :: 0 <= k < |two| ==> PhaseNumber(two[k].phase) >= p + 1
    ensures forall i, j :: 0 <= i < |one| && 0 <= j < |two| ==> Earlier(one[i].phase, one[i].index, two[j].phase, two[j].index)
    ensures forall k :: 0 <= k < |one + two| ==> PhaseNumber((one + two)[k].phase) >= p
  {
    hide PhaseNumber;
    forall k | 0 <= k < |one + two| ensures PhaseNumber((one + two)[k].phase) >= p {
      assert (one + two)[k] == if k < |one| then one[k] else two[k - |one|];
    }
  }

  lemma NothingMore<W, R, S>(one: seq<Call<W, R, S>>)
    ensures one + [] == one
  { }

  lemma {:induction false} CallsAreStretch<W, R, S>(m: Model<W, R, S>, p: nat, order: seq<AgentId>, s: State<W, R, S>)
    requires p <= |ORDER| && !s.failed
    ensures var calls := CallsFrom(m.specs, p, order, s);
            && IsStretch(m, order, s, calls, ApplyPhases(m.specs, p, order, s))
            && forall k :: 0 <= k < |calls| ==> PhaseNumber(calls[k].phase) >= p
    decreases |ORDER| - p
  {
    if p == |ORDER| {
      NoCalls(m, order, s);
    } else {
      PhaseAt(p);
      OnePhase(m, p, order, s);
      PhaseIsStretch(m, 0, ORDER[p], order, s);
      hide *;
      var one, t := PhaseCalls(m.specs, 0, ORDER[p], order, s), ApplyPhase(m.specs, 0, ORDER[p], order, s);
      var rest := CallsFrom(m.specs, p + 1, order, t);
      if t.failed {
        NothingMore(one);
      } else {
        CallsAreStretch(m, p + 1, order, t);
        LaterPhases(one, rest, p);
        Joined(m, order, s, one, t, rest, ApplyPhases(m.specs, p + 1, order, t));
      }
    }
  }

  lemma {:induction false} CallsLeaveNoneOut<W, R, S>(m: Model<W, R, S>, p: nat, order: seq<AgentId>, s: State<W, R, S>, phase: Phase, index: nat)
    requires p <= PhaseNumber(phase) && p < |ORDER| && index < |m.specs| && Listens(m.specs[index], phase) && !s.failed
    ensures var calls, end := CallsFrom(m.specs, p, order, s), ApplyPhases(m.specs, p, order, s);
            Called(calls, phase, index) || CutOff(calls, end, phase, index)
    decreases |ORDER| - p
  {
    PhaseAt(p);
    AllPhases(phase);
    OnePhase(m, p, order, s);
    PhaseIsStretch(m, 0, ORDER[p], order, s);
    var one, t := PhaseCalls(m.specs, 0, ORDER[p], order, s), ApplyPhase(m.specs, 0, ORDER[p], order, s);
    var rest, end := CallsFrom(m.specs, p + 1, order, t), ApplyPhases(m.specs, p, order, s);
    LaterPart(one, rest, end, phase, index);
    NothingMore(one);
    if PhaseNumber(phase) == p {
      PhaseLeavesNoneOut(m, 0, phase, order, s, index);
      hide *;
    } else if t.failed {
      FailedBefore(m, order, s, one, t, p, phase, index);
      hide *;
    } else {
      CallsLeaveNoneOut(m, p + 1, order, t, phase, index);
      hide *;
    }
  }

  lemma FailedBefore<W, R, S>(m: Model<W, R, S>, order: seq<AgentId>, s: State<W, R, S>, one: seq<Call<W, R, S>>, t: State<W, R, S>,
                              p: nat, phase: Phase, index: nat)
    requires IsStretch(m, order, s, one, t) && t.failed && !s.failed && PhaseNumber(phase) > p
    requires forall k :: 0 <= k < |one| ==> PhaseNumber(one[k].phase) == p
    ensures CutOff(one, t, phase, index)
  {
    hide CallsAct, Chained, InOrder, StopsAtFailure;
  }

  /** A step is its calls: one for every phase and every mechanism that listens to it, in phase order and then in
      insertion order, each on what its predecessor left, up to and including the first failed one. */
  lemma StepIsItsCalls<W, R, S>(m: Model<W, R, S>, s: State<W, R, S>)
    ensures IsStep(m, s, Calls(m, s), Step(m, s))
  {
    var order, start := OrderOf(m, s), StartOf(m, s);
    assert Begin(m, s) == (start, order);
    assert Step(m, s) == ApplyPhases(m.specs, 0, order, start);
    CallsAreStretch(m, 0, order, start);
    hide Acts, Listens, CallsFrom, ApplyPhases, Step, Begin, Chained, CallsAct, InOrder, StopsAtFailure, Called, CutOff, OrderOf, StartOf;
    forall phase: Phase, index: nat | index < |m.specs| && Listens(m.specs[index], phase)
      ensures Called(Calls(m, s), phase, index) || CutOff(Calls(m, s), Step(m, s), phase, index)
    {
      CallsLeaveNoneOut(m, 0, order, start, phase, index);
    }
  }

  // ---- stopping ----

  lemma {:induction false} StopAfter<W, R, S>(m: Model<W, R, S>, s: State<W, R, S>, calls: seq<Call<W, R, S>>, end: State<W, R, S>, k: nat)
    requires IsStep(m, s, calls, end) && k < |calls|
    ensures calls[k].after.stop <==> s.stop || exists j :: 0 <= j <= k && Asks(m, OrderOf(m, s), calls[j])
  {
    hide Listens, Asks, InOrder, NoneLeftOut, StopsAtFailure, OrderOf;
    var order := OrderOf(m, s);
    assert Acts(m, order, calls[k]);
    if k > 0 {
      StopAfter(m, s, calls, end, k - 1);
      assert calls[k].before == calls[k - 1].after;
      if Asks(m, order, calls[k]) {
        assert exists j :: 0 <= j <= k && Asks(m, order, calls[j]);
      }
    }
  }

  /** A step leaves the stop flag raised exactly when it was raised before or some call of the step asked. */
  lemma StopIffAsked<W, R, S>(m: Model<W, R, S>, s: State<W, R, S>)
    ensures Step(m, s).stop <==> s.stop || exists k :: 0 <= k < |Calls(m, s)| && Asks(m, OrderOf(m, s), Calls(m, s)[k])
  {
    StepIsItsCalls(m, s);
    hide Step, Calls;
    var calls := Calls(m, s);
    if |calls| > 0 {
      StopAfter(m, s, calls, Step(m, s), |calls| - 1);
    }
  }

  /** The run ends in the state after `n` steps: before that the clock had time left and nobody had stopped it. */
  ghost predicate EndsAfter<W, R, S>(m: Model<W, R, S>, s: State<W, R, S>, n: nat, end: State<W, R, S>) {
    && end == Steps(m, s, n)
    && (forall i :: 0 <= i < n ==> var at := Steps(m, s, i); at.clock.t < at.clock.tMax && !at.stop && !at.failed)
    && (end.clock.t >= end.clock.tMax || end.stop || end.failed)
  }

  lemma {:induction false} StepsFromNext<W, R, S>(m: Model<W, R, S>, s: State<W, R, S>, n: nat)
    requires !Halted(s)
    ensures Steps(m, s, n + 1) == Steps(m, Step(m, s), n)
  {
    hide Step;
    if n > 0 {
      StepsFromNext(m, s, n - 1);
    }
  }

  /** Every run ends, at the first state in which time is up, a stop was requested or a step failed. */
  lemma {:induction false} RunEnds<W, R, S>(m: Model<W, R, S>, s: State<W, R, S>) returns (n: nat)
    ensures EndsAfter(m, s, n, Run(m, s))
    decreases if s.clock.IsDone() then 0 else s.clock.tMax - s.clock.t
  {
    if Halted(s) {
      n := 0;
    } else {
      var t := Step(m, s);
      hide Step;
      var k := RunEnds(m, t);
      n := k + 1;
      StepsFromNext(m, s, k);
      forall i | 0 <= i < n ensures var at := Steps(m, s, i); at.clock.t < at.clock.tMax && !at.stop && !at.failed {
        if i > 0 {
          StepsFromNext(m, s, i - 1);
        }
      }
    }
  }

  /** A run ends after the first step in which any mechanism asks. */
  lemma RunEndsWhenAsked<W, R, S>(m: Model<W, R, S>, s: State<W, R, S>, k: nat, c: nat)
    requires !Halted(Steps(m, s, k))
    requires var at := Steps(m, s, k); c < |Calls(m, at)| && Asks(m, OrderOf(m, at), Calls(m, at)[c])
    ensures Run(m, s) == Steps(m, s, k + 1) && Run(m, s).stop
  {
    StopIffAsked(m, Steps(m, s, k));
    hide Step, Calls;
    RunFromAnyStep(m, s, k + 1);
  }
}
