// The engine loop as functions on states: one step, a whole run, and what runs do not depend on.
module Engine {
  import opened Agents

  datatype Phase = PreStep | Environment | Decision | Interaction | Reward | PostStep

  const ORDER: seq<Phase> := [PreStep, Environment, Decision, Interaction, Reward, PostStep]

  datatype Clock = Clock(t: nat, tMax: nat) {
    predicate IsDone() { t >= tMax }

    function Tick(): Clock { Clock(t + 1, tMax) }
  }

  /** What one call of a mechanism's `apply` does to the shared state. */
  datatype Effect<W, R, S> = Effect(world: W, rng: R, scratch: S, requestStop: bool, failed: bool)

  /** A mechanism without hidden state, as a function of its context. */
  type PureApply<!W, !R, !S> = (Phase, Clock, seq<AgentId>, W, R, S) -> Effect<W, R, S>

  /** What the engine needs to know of a mechanism. `stream(seed, k)` is the `k`-th variate of a
      private random-number stream. */
  datatype Spec<!W, !R, !S> =
    | Pure(phases: seq<Phase>, apply: PureApply<W, R, S>)
    | Continuation(delta: real, seed: nat, stream: (nat, nat) -> real)

  type Scheduler<!W, !R> = (W, R) -> (seq<AgentId>, R)

  /** The model: the mechanisms in insertion order, the scheduler and the empty scratch space. */
  datatype Model<!W, !R, !S> = Model(specs: seq<Spec<W, R, S>>, scheduler: Scheduler<W, R>, empty: S)

  /** The mutable state of a simulation; `failed` records that the last step returned an error. */
  datatype State<W, R, S> = State(world: W, clock: Clock, rng: R, scratch: S, stop: bool, failed: bool)

  predicate Registered<W, R, S>(spec: Spec<W, R, S>, phase: Phase) {
    match spec
    case Pure(phases, _) => phase in phases
    case Continuation(_, _, _) => phase == PostStep
  }

  /** The variate that decides whether the run goes on after step `t`. */
  function Variate<W, R, S>(spec: Spec<W, R, S>, t: nat): real
    requires spec.Continuation?
  {
    spec.stream(spec.seed, if t == 0 then 0 else t - 1)
  }

  /** One `apply` call. */
  function ApplyOne<W, R, S>(spec: Spec<W, R, S>, phase: Phase, order: seq<AgentId>, s: State<W, R, S>): State<W, R, S> {
    match spec
    case Pure(_, apply) =>
      var e := apply(phase, s.clock, order, s.world, s.rng, s.scratch);
      State(e.world, s.clock, e.rng, e.scratch, s.stop || e.requestStop, e.failed)
    case Continuation(delta, _, _) =>
      s.(stop := s.stop || Variate(spec, s.clock.t) >= delta)
  }

  /** The mechanisms from index `i` on, in one phase; an error ends the step. */
  function ApplyPhase<W, R, S>(specs: seq<Spec<W, R, S>>, i: nat, phase: Phase, order: seq<AgentId>, s: State<W, R, S>): (r: State<W, R, S>)
    requires i <= |specs|
    ensures r.clock == s.clock
    decreases |specs| - i
  {
    if i == |specs| || s.failed then s
    else ApplyPhase(specs, i + 1, phase, order, if Registered(specs[i], phase) then ApplyOne(specs[i], phase, order, s) else s)
  }

  /** The phases from index `p` on. */
  function ApplyPhases<W, R, S>(specs: seq<Spec<W, R, S>>, p: nat, order: seq<AgentId>, s: State<W, R, S>): (r: State<W, R, S>)
    requires p <= |ORDER|
    ensures r.clock == s.clock
    decreases |ORDER| - p
  {
    if p == |ORDER| || s.failed then s
    else ApplyPhases(specs, p + 1, order, ApplyPhase(specs, 0, ORDER[p], order, s))
  }

  /** The state the mechanisms see first: clock ticked, scratch cleared, order drawn. */
  function Begin<W, R, S>(m: Model<W, R, S>, s: State<W, R, S>): (State<W, R, S>, seq<AgentId>) {
    var (order, rng) := m.scheduler(s.world, s.rng);
    (State(s.world, s.clock.Tick(), rng, m.empty, s.stop, false), order)
  }

  function Step<W, R, S>(m: Model<W, R, S>, s: State<W, R, S>): (r: State<W, R, S>)
    ensures r.clock == s.clock.Tick()
  {
    var (begun, order) := Begin(m, s);
    ApplyPhases(m.specs, 0, order, begun)
  }

  predicate Halted<W, R, S>(s: State<W, R, S>) { s.clock.IsDone() || s.stop || s.failed }

  /** Up to `k` iterations of the run loop. */
  function Steps<W, R, S>(m: Model<W, R, S>, s: State<W, R, S>, k: nat): State<W, R, S> {
    if k == 0 then s
    else
      var prev := Steps(m, s, k - 1);
      if Halted(prev) then prev else Step(m, prev)
  }

  /** The run loop to its end. */
  function Run<W, R, S>(m: Model<W, R, S>, s: State<W, R, S>): State<W, R, S>
    decreases if s.clock.IsDone() then 0 else s.clock.tMax - s.clock.t
  {
    if Halted(s) then s else Run(m, Step(m, s))
  }

  // ---- resuming ----

  /** A run can be cut anywhere: continuing from the state after `k` steps ends where the run ends. */
  lemma {:induction false} RunFromAnyStep<W, R, S>(m: Model<W, R, S>, s: State<W, R, S>, k: nat)
    ensures Run(m, Steps(m, s, k)) == Run(m, s)
  {
    hide Step;
    if k > 0 {
      RunFromAnyStep(m, s, k - 1);
    }
  }

  /** A snapshot keeps the world with its clock, the generator and the stop flag, not the scratch. */
  datatype Snapshot<W, R> = Snapshot(version: nat, world: W, clock: Clock, rng: R, stop: bool)

  const SNAPSHOT_VERSION: nat := 1

  function Capture<W, R, S>(s: State<W, R, S>): Snapshot<W, R> {
    Snapshot(SNAPSHOT_VERSION, s.world, s.clock, s.rng, s.stop)
  }

  function Restored<W, R, S>(m: Model<W, R, S>, snap: Snapshot<W, R>): State<W, R, S> {
    State(snap.world, snap.clock, snap.rng, m.empty, snap.stop, false)
  }

  /** Equal in everything a snapshot keeps, and in whether the last step failed. */
  ghost predicate SameTrajectory<W, R, S>(a: State<W, R, S>, b: State<W, R, S>) {
    a.world == b.world && a.clock == b.clock && a.rng == b.rng && a.stop == b.stop && a.failed == b.failed
  }

  lemma StepIgnoresScratch<W, R, S>(m: Model<W, R, S>, a: State<W, R, S>, b: State<W, R, S>)
    requires SameTrajectory(a, b)
    ensures Step(m, a) == Step(m, b)
  { }

  lemma RunIgnoresScratch<W, R, S>(m: Model<W, R, S>, a: State<W, R, S>, b: State<W, R, S>)
    requires SameTrajectory(a, b)
    ensures SameTrajectory(Run(m, a), Run(m, b))
  {
    StepIgnoresScratch(m, a, b);
    hide Step;
  }

  /** Restoring a snapshot taken after any number of successful steps and running on ends with the
      world, clock, generator, stop flag and outcome of the uninterrupted run. */
  lemma ResumeIsExact<W, R, S>(m: Model<W, R, S>, s: State<W, R, S>, k: nat)
    requires !Steps(m, s, k).failed
    ensures SameTrajectory(Run(m, Restored(m, Capture(Steps(m, s, k)))), Run(m, s))
  {
    hide Step, Run, Steps;
    RunFromAnyStep(m, s, k);
    RunIgnoresScratch(m, Restored(m, Capture(Steps(m, s, k))), Steps(m, s, k));
  }

  // ---- adding a continuation mechanism ----

  /** The same model with `spec` inserted at position `j`. */
  function Inserted<W, R, S>(m: Model<W, R, S>, j: nat, spec: Spec<W, R, S>): Model<W, R, S>
    requires j <= |m.specs|
  {
    m.(specs := m.specs[..j] + [spec] + m.specs[j..])
  }

  /** Equal but for the stop flag of `b`, which is additionally raised when `extra` holds. */
  ghost predicate SameUpToStop<W, R, S>(a: State<W, R, S>, b: State<W, R, S>, extra: bool) {
    b == a.(stop := a.stop || extra)
  }

  lemma {:induction false} StopFlagIsPassive<W, R, S>(specs: seq<Spec<W, R, S>>, i: nat, phase: Phase, order: seq<AgentId>,
                                     a: State<W, R, S>, b: State<W, R, S>, extra: bool)
    requires i <= |specs| && SameUpToStop(a, b, extra)
    ensures SameUpToStop(ApplyPhase(specs, i, phase, order, a), ApplyPhase(specs, i, phase, order, b), extra)
    decreases |specs| - i
  {
    if i < |specs| && !a.failed {
      var a' := if Registered(specs[i], phase) then ApplyOne(specs[i], phase, order, a) else a;
      var b' := if Registered(specs[i], phase) then ApplyOne(specs[i], phase, order, b) else b;
      StopFlagIsPassive(specs, i + 1, phase, order, a', b', extra);
    }
  }

  /** After the insertion point the longer list continues like the shorter one. */
  lemma {:induction false} TailAligned<W, R, S>(m: Model<W, R, S>, j: nat, spec: Spec<W, R, S>, i: nat, phase: Phase, order: seq<AgentId>,
                               s: State<W, R, S>)
    requires j <= i <= |m.specs|
    ensures ApplyPhase(Inserted(m, j, spec).specs, i + 1, phase, order, s) == ApplyPhase(m.specs, i, phase, order, s)
    decreases |m.specs| - i
  {
    if i < |m.specs| && !s.failed {
      assert Inserted(m, j, spec).specs[i + 1] == m.specs[i];
      TailAligned(m, j, spec, i + 1, phase, order, if Registered(m.specs[i], phase) then ApplyOne(m.specs[i], phase, order, s) else s);
    }
  }

  /** In one phase the inserted mechanism can only raise the stop flag, and only in `PostStep`. */
  lemma {:induction false} PhaseWithContinuation<W, R, S>(m: Model<W, R, S>, j: nat, spec: Spec<W, R, S>, i: nat, phase: Phase, order: seq<AgentId>,
                                         s: State<W, R, S>)
    requires i <= j <= |m.specs| && spec.Continuation?
    ensures var a, b := ApplyPhase(m.specs, i, phase, order, s), ApplyPhase(Inserted(m, j, spec).specs, i, phase, order, s);
            && SameUpToStop(a, b, b.stop && !a.stop)
            && (phase != PostStep ==> b == a)
            && (phase == PostStep && !a.failed ==> b.stop == (a.stop || Variate(spec, s.clock.t) >= spec.delta))
            && (b.stop && !a.stop ==> Variate(spec, s.clock.t) >= spec.delta)
    decreases j - i
  {
    var longer := Inserted(m, j, spec).specs;
    if s.failed {
    } else if i == j {
      assert longer[j] == spec;
      var t := if Registered(spec, phase) then ApplyOne(spec, phase, order, s) else s;
      TailAligned(m, j, spec, j, phase, order, t);
      StopFlagIsPassive(m.specs, j, phase, order, s, t, t.stop);
    } else {
      assert longer[i] == m.specs[i];
      PhaseWithContinuation(m, j, spec, i + 1, phase, order, if Registered(m.specs[i], phase) then ApplyOne(m.specs[i], phase, order, s) else s);
    }
  }

  lemma {:induction false} EarlyPhasesWithContinuation<W, R, S>(m: Model<W, R, S>, j: nat, spec: Spec<W, R, S>, p: nat, order: seq<AgentId>, s: State<W, R, S>)
    requires p < |ORDER| && j <= |m.specs| && spec.Continuation?
    ensures var a, b := ApplyPhases(m.specs, p, order, s), ApplyPhases(Inserted(m, j, spec).specs, p, order, s);
            && SameUpToStop(a, b, b.stop && !a.stop)
            && (!a.failed ==> b.stop == (a.stop || Variate(spec, s.clock.t) >= spec.delta))
            && (b.stop && !a.stop ==> Variate(spec, s.clock.t) >= spec.delta)
    decreases |ORDER| - p
  {
    if !s.failed {
      PhaseWithContinuation(m, j, spec, 0, ORDER[p], order, s);
      hide ApplyPhase;
      if p + 1 < |ORDER| {
        EarlyPhasesWithContinuation(m, j, spec, p + 1, order, ApplyPhase(m.specs, 0, ORDER[p], order, s));
      }
    }
  }

  /** One step with the continuation mechanism differs from one without it in the stop flag only; the
      flag is raised exactly when the step's variate is at least delta. */
  lemma StepWithContinuation<W, R, S>(m: Model<W, R, S>, j: nat, spec: Spec<W, R, S>, s: State<W, R, S>)
    requires j <= |m.specs| && spec.Continuation?
    ensures var a, b := Step(m, s), Step(Inserted(m, j, spec), s);
            && SameUpToStop(a, b, b.stop && !a.stop)
            && (!a.failed ==> b.stop == (a.stop || Variate(spec, s.clock.t + 1) >= spec.delta))
            && (b.stop && !a.stop ==> Variate(spec, s.clock.t + 1) >= spec.delta)
  {
    var (begun, order) := Begin(m, s);
    EarlyPhasesWithContinuation(m, j, spec, 0, order, begun);
  }

  /** None of the variates of the `k` steps after `s` ends the run. */
  ghost predicate Continues<W, R, S>(spec: Spec<W, R, S>, s: State<W, R, S>, k: nat)
    requires spec.Continuation?
  {
    forall t: nat :: s.clock.t < t <= s.clock.t + k ==> Variate(spec, t) < spec.delta
  }

  lemma {:induction false} StepsClock<W, R, S>(m: Model<W, R, S>, s: State<W, R, S>, k: nat)
    ensures s.clock.t <= Steps(m, s, k).clock.t <= s.clock.t + k
    ensures !Halted(Steps(m, s, k)) ==> Steps(m, s, k).clock.t == s.clock.t + k
    ensures Steps(m, s, k).clock.tMax == s.clock.tMax
  {
    hide Step;
    if k > 0 {
      StepsClock(m, s, k - 1);
    }
  }

  /** Before its stop the mechanism leaves the whole trajectory unchanged. */
  lemma {:induction false} UnchangedBeforeStop<W, R, S>(m: Model<W, R, S>, j: nat, spec: Spec<W, R, S>, s: State<W, R, S>, k: nat)
    requires j <= |m.specs| && spec.Continuation? && Continues(spec, s, k)
    ensures Steps(Inserted(m, j, spec), s, k) == Steps(m, s, k)
  {
    hide Step;
    if k > 0 {
      UnchangedBeforeStop(m, j, spec, s, k - 1);
      StepsClock(m, s, k - 1);
      StepWithContinuation(m, j, spec, Steps(m, s, k - 1));
    }
  }

  /** At the first variate of at least delta the run ends, in the state the shorter model has there. */
  lemma EndsAtFirstStop<W, R, S>(m: Model<W, R, S>, j: nat, spec: Spec<W, R, S>, s: State<W, R, S>, k: nat)
    requires j <= |m.specs| && spec.Continuation? && Continues(spec, s, k)
    requires Variate(spec, s.clock.t + k + 1) >= spec.delta && !Halted(Steps(m, s, k)) && !Steps(m, s, k + 1).failed
    ensures Run(Inserted(m, j, spec), s) == Steps(m, s, k + 1).(stop := true)
  {
    hide Step;
    UnchangedBeforeStop(m, j, spec, s, k);
    StepsClock(m, s, k);
    StepWithContinuation(m, j, spec, Steps(m, s, k));
    RunFromAnyStep(Inserted(m, j, spec), s, k + 1);
  }
}
