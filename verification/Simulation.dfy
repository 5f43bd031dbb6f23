// The simulation driver and the continuation mechanism, as objects with mutable state.
module Simulation {
  import opened Options
  import opened Agents
  import opened Engine
  import EngineTrace

  /** The `continuation_stop` event. */
  datatype StopEvent = StopEvent(t: nat, delta: real, u: real)

  /** Stops a run after each step with probability 1 - delta, drawing from a private stream. `stream`
      is the generator as a function of seed and position; `position` is how far it has advanced. */
  class ContinuationProbability {
    const delta: real
    const streamSeed: nat
    const stream: (nat, nat) -> real
    var position: nat
    var draws: nat

    ghost predicate Valid()
      reads this
    {
      position == draws
    }

    constructor (delta: real, streamSeed: nat, stream: (nat, nat) -> real)
      ensures Valid() && this.delta == delta && this.streamSeed == streamSeed && this.stream == stream && draws == 0
    {
      this.delta := delta;
      this.streamSeed := streamSeed;
      this.stream := stream;
      position := 0;
      draws := 0;
    }

    /** One uniform variate from the private generator. */
    method Gen() returns (u: real)
      modifies this`position
      ensures u == stream(streamSeed, old(position)) && position == old(position) + 1
    {
      u := stream(streamSeed, position);
      position := position + 1;
    }

    /** The variate of step `t` is stream element `t - 1`, wherever the generator stood before: it is
        rewound when it is too far and advanced when it is behind. */
    method DrawForStep(t: nat) returns (u: real)
      requires Valid()
      modifies this`position, this`draws
      ensures Valid()
      ensures u == stream(streamSeed, if t == 0 then 0 else t - 1)
      ensures draws == (if t == 0 then 0 else t - 1) + 1
    {
      var earlier := if t == 0 then 0 else t - 1;
      if draws > earlier {
        position := 0;
        draws := 0;
      }
      while draws < earlier
        invariant Valid() && draws <= earlier
      {
        var _ := Gen();
        draws := draws + 1;
      }
      u := Gen();
      draws := draws + 1;
    }

    /** Requests a stop, and records it with the step, delta and the variate, when the step's variate is at least delta. */
    method Apply(t: nat) returns (requestStop: bool, event: Option<StopEvent>)
      requires Valid()
      modifies this`position, this`draws
      ensures Valid()
      ensures var u := stream(streamSeed, if t == 0 then 0 else t - 1);
              && (requestStop <==> u >= delta)
              && event == if requestStop then Some(StopEvent(t, delta, u)) else None
    {
      var u := DrawForStep(t);
      requestStop, event := false, None;
      if u >= delta {
        event := Some(StopEvent(t, delta, u));
        requestStop := true;
      }
    }
  }

  /** The constructor's check of a configured probability. */
  method NewContinuation(delta: Float, streamSeed: nat, stream: (nat, nat) -> real) returns (r: Result<ContinuationProbability, Float>)
    ensures r.Ok? <==> delta.Finite? && 0.0 <= delta.value <= 1.0
    ensures r.Err? ==> r.error == delta
    ensures r.Ok? ==> fresh(r.value) && r.value.Valid() && r.value.delta == delta.value && r.value.streamSeed == streamSeed && r.value.stream == stream
  {
    if !delta.Finite? || !(0.0 <= delta.value <= 1.0) {
      return Err(delta);
    }
    var mech := new ContinuationProbability(delta.value, streamSeed, stream);
    r := Ok(mech);
  }

  /** A mechanism as the driver holds it: stateless code, or a continuation object. */
  datatype Mechanism<!W, !R, !S> =
    | Stateless(phases: seq<Phase>, apply: PureApply<W, R, S>)
    | Continue(mech: ContinuationProbability)
  {
    function Spec(): Spec<W, R, S> {
      match this
      case Stateless(phases, apply) => Pure(phases, apply)
      case Continue(mech) => Continuation(mech.delta, mech.streamSeed, mech.stream)
    }
  }

  /** What an observer sees after a step. */
  datatype Report<W, S> = Report(t: nat, stopped: bool, world: W, scratch: S)

  class Simulation<!W, !R, !S> {
    const mechanisms: seq<Mechanism<W, R, S>>
    const scheduler: Scheduler<W, R>
    const empty: S
    var world: W
    var clock: Clock
    var rng: R
    var scratch: S
    var stopRequested: bool

    ghost function Continuations(): set<ContinuationProbability> {
      set i | 0 <= i < |mechanisms| && mechanisms[i].Continue? :: mechanisms[i].mech
    }

    ghost predicate Valid()
      reads Continuations()
    {
      forall c :: c in Continuations() ==> c.Valid()
    }

    ghost function TheModel(): Model<W, R, S> {
      Model(seq(|mechanisms|, i requires 0 <= i < |mechanisms| => mechanisms[i].Spec()), scheduler, empty)
    }

    ghost function Now(failed: bool): State<W, R, S>
      reads this
    {
      State(world, clock, rng, scratch, stopRequested, failed)
    }

    constructor (mechanisms: seq<Mechanism<W, R, S>>, scheduler: Scheduler<W, R>, empty: S, world: W, clock: Clock, rng: R)
      ensures this.mechanisms == mechanisms && this.scheduler == scheduler && this.empty == empty
      ensures Now(false) == State(world, clock, rng, empty, false, false)
    {
      this.mechanisms := mechanisms;
      this.scheduler := scheduler;
      this.empty := empty;
      this.world := world;
      this.clock := clock;
      this.rng := rng;
      this.scratch := empty;
      this.stopRequested := false;
    }

    /** One `apply` call of mechanism `i`. */
    method ApplyMechanism(i: nat, phase: Phase, order: seq<AgentId>) returns (ok: bool)
      requires Valid() && i < |mechanisms|
      modifies this, Continuations()
      ensures Valid()
      ensures Now(!ok) == ApplyOne(mechanisms[i].Spec(), phase, order, old(Now(false)))
    {
      match mechanisms[i]
      case Stateless(phases, apply) =>
        var e := apply(phase, clock, order, world, rng, scratch);
        world, rng, scratch := e.world, e.rng, e.scratch;
        stopRequested := stopRequested || e.requestStop;
        ok := !e.failed;
      case Continue(mech) =>
        assert mech in Continuations();
        var requestStop, event := mech.Apply(clock.t);
        stopRequested := stopRequested || requestStop;
        ok := true;
    }

    /** Every mechanism registered for `phase`, in insertion order. */
    method RunPhase(phase: Phase, order: seq<AgentId>) returns (ok: bool)
      requires Valid()
      modifies this, Continuations()
      ensures Valid()
      ensures Now(!ok) == ApplyPhase(TheModel().specs, 0, phase, order, old(Now(false)))
    {
      hide ApplyOne, Registered;
      ghost var specs := TheModel().specs;
      ghost var start := Now(false);
      ok := true;
      var i := 0;
      while i < |mechanisms|
        invariant 0 <= i <= |mechanisms| && Valid() && ok
        invariant ApplyPhase(specs, 0, phase, order, start) == ApplyPhase(specs, i, phase, order, Now(false))
      {
        assert specs[i] == mechanisms[i].Spec();
        var registered := IsRegistered(mechanisms[i], phase);
        if registered {
          ok := ApplyMechanism(i, phase, order);
          if !ok {
            return;
          }
        }
        i := i + 1;
      }
    }

    static method IsRegistered(m: Mechanism<W, R, S>, phase: Phase) returns (b: bool)
      ensures b == Registered(m.Spec(), phase)
    {
      match m
      case Stateless(phases, _) => b := phase in phases;
      case Continue(_) => b := phase == PostStep;
    }

    /** Advances the clock, clears the scratch, asks the scheduler, and runs the six phases. */
    method Step() returns (ok: bool)
      requires Valid()
      modifies this, Continuations()
      ensures Valid()
      ensures Now(!ok) == Engine.Step(TheModel(), old(Now(false)))
      ensures EngineTrace.IsStep(TheModel(), old(Now(false)), EngineTrace.Calls(TheModel(), old(Now(false))), Now(!ok))
    {
      ghost var m := TheModel();
      ghost var before := Now(false);
      EngineTrace.StepIsItsCalls(m, before);
      hide ApplyPhase, EngineTrace.IsStep;
      clock := clock.Tick();
      scratch := empty;
      var (order, rng') := scheduler(world, rng);
      rng := rng';
      ghost var start := Now(false);
      assert Begin(m, before) == (start, order);
      ok := true;
      var p := 0;
      while p < |ORDER|
        invariant 0 <= p <= |ORDER| && Valid() && ok
        invariant ApplyPhases(m.specs, 0, order, start) == ApplyPhases(m.specs, p, order, Now(false))
      {
        ok := RunPhase(ORDER[p], order);
        if !ok {
          return;
        }
        p := p + 1;
      }
    }

    /** Steps until the clock is done, a stop was requested, or a step fails. */
    method Run() returns (ok: bool, ghost n: nat)
      requires Valid()
      modifies this, Continuations()
      ensures Valid()
      ensures Now(!ok) == Engine.Run(TheModel(), old(Now(false)))
      ensures EngineTrace.EndsAfter(TheModel(), old(Now(false)), n, Now(!ok))
    {
      hide Engine.Step, EngineTrace.IsStep, EngineTrace.Calls, EngineTrace.EndsAfter;
      ghost var start := Now(false);
      n := EngineTrace.RunEnds(TheModel(), start);
      ok := true;
      while !clock.IsDone() && !stopRequested
        invariant Valid() && ok
        invariant Engine.Run(TheModel(), start) == Engine.Run(TheModel(), Now(false))
        decreases clock.tMax - clock.t
      {
        ok := Step();
        if !ok {
          return;
        }
      }
    }

    /** Like `Run`, but also ends after the first step whose world satisfies the predicate. */
    method RunUntil(converged: W -> bool) returns (ok: bool, ghost k: nat)
      requires Valid()
      modifies this, Continuations()
      ensures Valid()
      ensures Now(!ok) == Steps(TheModel(), old(Now(false)), k)
      ensures forall i :: 0 < i < k ==> !converged(Steps(TheModel(), old(Now(false)), i).world)
      ensures forall i :: 0 <= i < k ==> !Halted(Steps(TheModel(), old(Now(false)), i))
      ensures Halted(Now(!ok)) || (k > 0 && converged(world))
    {
      hide Engine.Step, EngineTrace.IsStep, EngineTrace.Calls;
      ghost var start := Now(false);
      ok, k := true, 0;
      while !clock.IsDone() && !stopRequested
        invariant Valid() && ok
        invariant Now(false) == Steps(TheModel(), start, k)
        invariant forall i :: 0 < i <= k ==> !converged(Steps(TheModel(), start, i).world)
        invariant forall i :: 0 <= i < k ==> !Halted(Steps(TheModel(), start, i))
        decreases clock.tMax - clock.t
      {
        ok := Step();
        k := k + 1;
        if !ok || converged(world) {
          return;
        }
      }
    }

    /** What the observer is told of a state. */
    ghost static predicate Tells(report: Report<W, S>, s: State<W, R, S>) {
      report.t == s.clock.t && report.stopped == s.stop && report.world == s.world && report.scratch == s.scratch
    }

    /** Ends where `Run` ends, and hands the observer one report per successful step, in order. */
    method RunObserved() returns (ok: bool, reports: seq<Report<W, S>>)
      requires Valid()
      modifies this, Continuations()
      ensures Valid()
      ensures Now(!ok) == Engine.Run(TheModel(), old(Now(false)))
      ensures forall i :: 0 <= i < |reports| ==> Tells(reports[i], Steps(TheModel(), old(Now(false)), i + 1))
      ensures forall i :: 0 <= i < |reports| ==> reports[i].t == old(clock.t) + i + 1
      ensures clock.t == old(clock.t) + |reports| + (if ok then 0 else 1)
      ensures forall i :: 0 <= i < |reports| - 1 ==> !reports[i].stopped
    {
      hide Engine.Step, EngineTrace.IsStep, EngineTrace.Calls;
      ghost var start := Now(false);
      ghost var m := TheModel();
      ok, reports := true, [];
      while !clock.IsDone() && !stopRequested
        invariant Valid() && ok
        invariant Now(false) == Steps(m, start, |reports|)
        invariant Engine.Run(m, start) == Engine.Run(m, Now(false))
        invariant clock.t == start.clock.t + |reports|
        invariant forall i :: 0 <= i < |reports| ==> Tells(reports[i], Steps(m, start, i + 1)) && reports[i].t == start.clock.t + i + 1
        invariant forall i :: 0 <= i < |reports| ==> reports[i].stopped ==> stopRequested && i == |reports| - 1
        decreases clock.tMax - clock.t
      {
        ok := Step();
        if !ok {
          return;
        }
        reports := reports + [Report(clock.t, stopRequested, world, scratch)];
        if stopRequested {
          break;
        }
      }
    }

    /** Up to `k` iterations of the run loop. */
    method RunSteps(k: nat) returns (ok: bool)
      requires Valid()
      modifies this, Continuations()
      ensures Valid()
      ensures Now(!ok) == Steps(TheModel(), old(Now(false)), k)
    {
      hide Engine.Step, EngineTrace.IsStep, EngineTrace.Calls;
      ghost var start := Now(false);
      ok := true;
      for i := 0 to k
        invariant Valid()
        invariant Now(!ok) == Steps(TheModel(), start, i)
      {
        if ok && !clock.IsDone() && !stopRequested {
          ok := Step();
        }
      }
    }

    method TakeSnapshot() returns (snap: Snapshot<W, R>)
      ensures snap == Capture(Now(false))
      ensures snap.world == world && snap.clock == clock && snap.rng == rng && snap.stop == stopRequested
    {
      snap := Snapshot(SNAPSHOT_VERSION, world, clock, rng, stopRequested);
    }

    /** Overwrites world, clock, generator and stop flag and clears the scratch; mechanisms stay. */
    method Restore(snap: Snapshot<W, R>)
      modifies this
      ensures Now(false) == Restored(TheModel(), snap)
      ensures world == snap.world && clock == snap.clock && rng == snap.rng && stopRequested == snap.stop && scratch == empty
    {
      world, clock, rng := snap.world, snap.clock, snap.rng;
      stopRequested := snap.stop;
      scratch := empty;
    }
  }

  /** Runs one simulation for up to `k` steps, restores its snapshot into another built with the same
      mechanisms, whatever the internal position of its continuation objects, and runs both to the end.
      Unless a step failed before the snapshot, both end as the uninterrupted run does. */
  method ResumeElsewhere<W, R, S>(original: Simulation<W, R, S>, rebuilt: Simulation<W, R, S>, k: nat)
    returns (taken: bool, ok: bool, ok': bool)
    requires original != rebuilt && original.Valid() && rebuilt.Valid()
    requires original.TheModel() == rebuilt.TheModel()
    modifies original, rebuilt, original.Continuations(), rebuilt.Continuations()
    ensures taken <==> !Steps(original.TheModel(), old(original.Now(false)), k).failed
    ensures taken ==> original.Now(!ok) == Run(original.TheModel(), old(original.Now(false)))
    ensures taken ==> SameTrajectory(rebuilt.Now(!ok'), Run(original.TheModel(), old(original.Now(false))))
  {
    hide Engine.Step, Engine.Run, Steps, EngineTrace.EndsAfter;
    ghost var m := original.TheModel();
    ghost var start := original.Now(false);
    taken := original.RunSteps(k);
    ok, ok' := false, false;
    if !taken {
      return;
    }
    var snap := original.TakeSnapshot();
    rebuilt.Restore(snap);
    ResumeIsExact(m, start, k);
    RunFromAnyStep(m, start, k);
    ghost var n, n';
    ok, n := original.Run();
    ok', n' := rebuilt.Run();
  }
}
