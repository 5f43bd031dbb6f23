// Hegselmann-Krause bounded confidence: the synchronous step, and what whole runs of it keep.
module HegselmannKrause {
  import opened Options
  import opened RealSums
  import opened Sorting
  import opened Agents
  import opened Counting
  import opened Opinions

  /** The averaging operators with an exact meaning over the reals. */
  datatype MeanOperator = Arithmetic | Random

  datatype Config = Config(epsilon: real, epsilonLeft: Option<real>, epsilonRight: Option<real>, mean: MeanOperator) {
    function Left(): real { if epsilonLeft.Some? then epsilonLeft.value else epsilon }

    function Right(): real { if epsilonRight.Some? then epsilonRight.value else epsilon }
  }

  /** One uniform variate in [0, 1) per agent and step, used by the random mean only. */
  type Draws = (nat, AgentId) -> real

  ghost predicate Uniform(u: Draws) {
    forall t, id :: 0.0 <= u(t, id) < 1.0
  }

  predicate InWindow(cfg: Config, xi: real, xj: real) {
    -cfg.Left() <= xj - xi <= cfg.Right()
  }

  /** The agent itself and its neighbours, in id order. */
  function ConfIds(topo: Topology, id: AgentId): seq<AgentId>
    requires id in topo.links
  {
    SortDedup([id] + topo.links[id])
  }

  /** The opinions among `ids` inside the confidence window of `xi`, in order. */
  function ConfSet(cfg: Config, ids: seq<AgentId>, x: Profile, xi: real): seq<real> {
    if |ids| == 0 then []
    else
      var rest := ConfSet(cfg, ids[..|ids| - 1], x, xi);
      var xj := Value(x, ids[|ids| - 1]);
      if InWindow(cfg, xi, xj) then rest + [xj] else rest
  }

  /** The confidence set of agent `id`. */
  function ConfSetOf(cfg: Config, topo: Topology, x: Profile, id: AgentId): seq<real>
    requires id in topo.links
  {
    ConfSet(cfg, ConfIds(topo, id), x, Value(x, id))
  }

  function Lowest(vals: seq<real>): real
    requires |vals| > 0
  {
    if |vals| == 1 then vals[0] else Min(Lowest(vals[..|vals| - 1]), vals[|vals| - 1])
  }

  function Highest(vals: seq<real>): real
    requires |vals| > 0
  {
    if |vals| == 1 then vals[0] else Max(Highest(vals[..|vals| - 1]), vals[|vals| - 1])
  }

  function Ratio(sum: real, n: nat): real
    requires n > 0
  {
    sum / n as real
  }

  function MeanOf(op: MeanOperator, vals: seq<real>, u: real): real
    requires |vals| > 0
  {
    match op
    case Arithmetic => Ratio(Sum(vals), |vals|)
    case Random =>
      var lo, hi := Lowest(vals), Highest(vals);
      if hi <= lo then lo else lo + u * (hi - lo)
  }

  method ApplyMean(op: MeanOperator, vals: seq<real>, u: real) returns (r: real)
    requires |vals| > 0
    ensures r == MeanOf(op, vals, u)
  {
    match op
    case Arithmetic =>
      var sum := 0.0;
      for i := 0 to |vals|
        invariant sum == Sum(vals[..i])
      {
        assert vals[..i + 1][..i] == vals[..i];
        sum := sum + vals[i];
      }
      assert vals[..|vals|] == vals;
      r := Ratio(sum, |vals|);
    case Random =>
      var lo, hi := vals[0], vals[0];
      for i := 1 to |vals|
        invariant lo == Lowest(vals[..i]) && hi == Highest(vals[..i])
      {
        assert vals[..i + 1][..i] == vals[..i];
        if vals[i] < lo { lo := vals[i]; }
        if vals[i] > hi { hi := vals[i]; }
      }
      assert vals[..|vals|] == vals;
      r := if hi <= lo then lo else lo + u * (hi - lo);
  }

  // ---- the step ----

  /** The averaging operator is only defined on non-empty confidence sets. */
  ghost predicate Defined(cfg: Config, topo: Topology, x: Profile)
    requires topo.WellFormed()
  {
    forall id {:trigger ConfSetOf(cfg, topo, x, id)} :: id in topo.roster ==> ConfSetOf(cfg, topo, x, id) != []
  }

  ghost function Step(cfg: Config, topo: Topology, x: Profile, u: Draws, t: nat): Profile
    requires topo.WellFormed() && Defined(cfg, topo, x)
  {
    map id | id in topo.roster :: MeanOf(cfg.mean, ConfSetOf(cfg, topo, x, id), u(t, id))
  }

  /** The inner loop of `apply`: the opinions of `confIds` inside the window, in id order. */
  method Gather(cfg: Config, world: OpinionWorld, confIds: seq<AgentId>, xi: real) returns (confSet: seq<real>)
    ensures confSet == ConfSet(cfg, confIds, world.opinion, xi)
  {
    confSet := [];
    for c := 0 to |confIds|
      invariant confSet == ConfSet(cfg, confIds[..c], world.opinion, xi)
    {
      assert confIds[..c + 1][..c] == confIds[..c];
      var xj := Value(world.opinion, confIds[c]);
      if InWindow(cfg, xi, xj) {
        confSet := confSet + [xj];
      }
    }
    assert confIds[..|confIds|] == confIds;
  }

  /** The mechanism's `apply`: snapshot, confidence sets in id order, means, batch write-back. */
  method Apply(cfg: Config, world: OpinionWorld, u: Draws, t: nat)
    requires world.Valid() && Defined(cfg, world.topology, world.opinion)
    modifies world
    ensures world.Valid()
    ensures world.opinion == Step(cfg, world.topology, old(world.opinion), u, t)
  {
    hide MeanOf, ConfSet, ConfIds;
    var ids := world.topology.roster;
    var prev := seq(|ids|, k requires 0 <= k < |ids| reads world => Value(world.opinion, ids[k]));
    ghost var x := world.opinion;
    var newOpinions: seq<real> := [];
    for idx := 0 to |ids|
      invariant |newOpinions| == idx && world.opinion == x
      invariant forall k :: 0 <= k < idx ==>
        newOpinions[k] == MeanOf(cfg.mean, ConfSetOf(cfg, world.topology, x, ids[k]), u(t, ids[k]))
    {
      var confSet := Gather(cfg, world, ConfIds(world.topology, ids[idx]), prev[idx]);
      assert confSet == ConfSetOf(cfg, world.topology, x, ids[idx]);
      var xiNew := ApplyMean(cfg.mean, confSet, u(t, ids[idx]));
      newOpinions := newOpinions + [xiNew];
    }
    world.WriteAll(newOpinions);
    ghost var y := Step(cfg, world.topology, x, u, t);
    assert world.opinion.Keys == y.Keys;
    forall id | id in ids ensures world.opinion[id] == y[id] {
      var k :| 0 <= k < |ids| && ids[k] == id;
      assert Value(world.opinion, ids[k]) == newOpinions[k];
    }
  }

  /** `n` steps of the mechanism from step number `t` on. */
  ghost function Run(cfg: Config, topo: Topology, x: Profile, u: Draws, t: nat, n: nat): Profile
    requires Runnable(cfg, topo, x)
    decreases n
  {
    if n == 0 then x
    else
      NonNegativeBoundsDefine(cfg, topo, x);
      Run(cfg, topo, Step(cfg, topo, x, u, t), u, t + 1, n - 1)
  }

  // ---- confidence sets ----

  lemma {:induction false} ConfSetMembers(cfg: Config, ids: seq<AgentId>, x: Profile, xi: real)
    ensures forall v :: v in ConfSet(cfg, ids, x, xi) <==> exists id :: id in ids && Value(x, id) == v && InWindow(cfg, xi, v)
  {
    if |ids| > 0 {
      var n := |ids| - 1;
      ConfSetMembers(cfg, ids[..n], x, xi);
      assert ids == ids[..n] + [ids[n]];
      forall v ensures v in ConfSet(cfg, ids, x, xi) <==> exists id :: id in ids && Value(x, id) == v && InWindow(cfg, xi, v) {
        if v in ConfSet(cfg, ids[..n], x, xi) {
          var id :| id in ids[..n] && Value(x, id) == v && InWindow(cfg, xi, v);
          assert id in ids;
        }
        if id :| id in ids && Value(x, id) == v && InWindow(cfg, xi, v) {
          assert id in ids[..n] || id == ids[n];
        }
        assert ids[n] in ids;
      }
    }
  }

  /** With non-negative bounds an agent is always in its own confidence set. */
  lemma NonNegativeBoundsDefine(cfg: Config, topo: Topology, x: Profile)
    requires topo.WellFormed() && cfg.Left() >= 0.0 && cfg.Right() >= 0.0
    ensures Defined(cfg, topo, x)
  {
    forall id | id in topo.roster ensures ConfSetOf(cfg, topo, x, id) != [] {
      var ids := ConfIds(topo, id);
      ConfSetMembers(cfg, ids, x, Value(x, id));
      SortDedupSorts([id] + topo.links[id]);
      assert id in [id] + topo.links[id];
      assert id in ids && InWindow(cfg, Value(x, id), Value(x, id));
      assert Value(x, id) in ConfSetOf(cfg, topo, x, id);
    }
  }

  /** The averaging operator is defined in every window exactly when neither bound is negative. */
  lemma DefinedIff(cfg: Config, topo: Topology, x: Profile)
    requires topo.WellFormed() && |topo.roster| > 0
    ensures Defined(cfg, topo, x) <==> cfg.Left() >= 0.0 && cfg.Right() >= 0.0
  {
    if cfg.Left() >= 0.0 && cfg.Right() >= 0.0 {
      NonNegativeBoundsDefine(cfg, topo, x);
    } else {
      var i := Extreme(topo.roster, x, cfg.Left() < 0.0);
      if ConfSetOf(cfg, topo, x, i) != [] {
        NonemptyWindow(cfg, topo, x, i);
      }
    }
  }

  lemma NonemptyWindow(cfg: Config, topo: Topology, x: Profile, id: AgentId)
    requires topo.WellFormed() && id in topo.roster && ConfSetOf(cfg, topo, x, id) != []
    ensures exists k :: k in topo.roster && InWindow(cfg, Value(x, id), Value(x, k))
  {
    WindowFromRoster(cfg, topo, x, id);
    var v := ConfSetOf(cfg, topo, x, id)[0];
    assert v in ConfSetOf(cfg, topo, x, id);
  }

  /** Every opinion in a window is that of some roster agent inside the bounds. */
  lemma WindowFromRoster(cfg: Config, topo: Topology, x: Profile, id: AgentId)
    requires topo.WellFormed() && id in topo.roster
    ensures forall v :: v in ConfSetOf(cfg, topo, x, id) ==>
              exists k :: k in topo.roster && Value(x, k) == v && InWindow(cfg, Value(x, id), v)
  {
    var ids := ConfIds(topo, id);
    ConfSetMembers(cfg, ids, x, Value(x, id));
    SortDedupSorts([id] + topo.links[id]);
    assert forall k :: k in ids ==> k in [id] + topo.links[id];
  }

  /** The listed agent with the greatest, or the least, opinion. */
  lemma {:induction false} Extreme(ids: seq<AgentId>, x: Profile, greatest: bool) returns (i: AgentId)
    requires |ids| > 0
    ensures i in ids
    ensures forall k :: k in ids ==> if greatest then Value(x, k) <= Value(x, i) else Value(x, i) <= Value(x, k)
  {
    var n := |ids| - 1;
    i := ids[n];
    assert ids == ids[..n] + [ids[n]];
    if n > 0 {
      var j := Extreme(ids[..n], x, greatest);
      if if greatest then Value(x, i) < Value(x, j) else Value(x, j) < Value(x, i) {
        i := j;
      }
    }
  }

  /** A concrete failure: with a negative bound a lone agent is outside its own window. */
  lemma NegativeBoundExcludesSelf()
    ensures !Defined(Config(-1.0, None, None, Arithmetic), Topology([0], map[0 := []]), map[0 := 0.5])
  {
    var topo := Topology([0], map[0 := []]);
    assert topo.WellFormed();
    DefinedIff(Config(-1.0, None, None, Arithmetic), topo, map[0 := 0.5]);
  }

  /** A threshold counted `n` times; kept symbolic where only the bounds matter. */
  function Times(v: real, n: nat): real { v * n as real }

  ghost predicate AllAtLeast(vals: seq<real>, a: real) { forall v :: v in vals ==> a <= v }

  ghost predicate AllAtMost(vals: seq<real>, b: real) { forall v :: v in vals ==> v <= b }

  lemma {:induction false} SumAtLeast(vals: seq<real>, a: real)
    requires AllAtLeast(vals, a)
    ensures Times(a, |vals|) <= Sum(vals)
  {
    TimesNone(a);
    if |vals| > 0 {
      var n := |vals| - 1;
      assert vals[n] in vals && forall v :: v in vals[..n] ==> v in vals;
      TimesNext(a, n);
      hide Times;
      SumAtLeast(vals[..n], a);
    }
  }

  lemma {:induction false} SumAtMost(vals: seq<real>, b: real)
    requires AllAtMost(vals, b)
    ensures Sum(vals) <= Times(b, |vals|)
  {
    TimesNone(b);
    if |vals| > 0 {
      var n := |vals| - 1;
      assert vals[n] in vals && forall v :: v in vals[..n] ==> v in vals;
      TimesNext(b, n);
      hide Times;
      SumAtMost(vals[..n], b);
    }
  }

  lemma {:induction false} ExtremesAreMembers(vals: seq<real>)
    requires |vals| > 0
    ensures Lowest(vals) in vals && Highest(vals) in vals && Lowest(vals) <= Highest(vals)
  {
    if |vals| > 1 {
      var n := |vals| - 1;
      ExtremesAreMembers(vals[..n]);
      assert vals == vals[..n] + [vals[n]];
    }
  }

  lemma RatioBounds(sum: real, n: nat, a: real, b: real)
    requires n > 0
    ensures Times(a, n) <= sum ==> a <= Ratio(sum, n)
    ensures sum <= Times(b, n) ==> Ratio(sum, n) <= b
    ensures Times(a, n) < sum ==> a < Ratio(sum, n)
    ensures sum < Times(b, n) ==> Ratio(sum, n) < b
    ensures Times(Ratio(sum, n), n) == sum
  {
    assert Ratio(sum, n) * n as real == sum;
  }

  lemma Between(lo: real, hi: real, u: real, a: real, b: real)
    requires a <= lo <= hi <= b && 0.0 <= u < 1.0
    ensures a <= lo + u * (hi - lo) <= b
  {
    var d, w := hi - lo, 1.0 - u;
    ProductNonNegative(u, d);
    ProductNonNegative(w, d);
    assert w * d == d - u * d;
  }

  /** Every operator returns a value between the smallest and largest of its inputs. */
  lemma MeanIsInternal(op: MeanOperator, vals: seq<real>, u: real, a: real, b: real)
    requires |vals| > 0 && 0.0 <= u < 1.0
    requires forall v :: v in vals ==> a <= v <= b
    ensures a <= MeanOf(op, vals, u) <= b
  {
    match op
    case Arithmetic =>
      SumAtLeast(vals, a);
      SumAtMost(vals, b);
      RatioBounds(Sum(vals), |vals|, a, b);
    case Random =>
      ExtremesAreMembers(vals);
      Between(Lowest(vals), Highest(vals), u, a, b);
  }

  /** The random mean is the point that divides the range of its inputs in the proportion of the draw. */
  lemma RandomMeanDivides(vals: seq<real>, u: real) returns (lo: real, hi: real)
    requires |vals| > 0
    ensures lo in vals && hi in vals && forall v :: v in vals ==> lo <= v <= hi
    ensures MeanOf(Random, vals, u) - lo == u * (hi - lo)
  {
    lo, hi := Lowest(vals), Highest(vals);
    ExtremesAreMembers(vals);
    ExtremesBound(vals);
    assert hi == lo ==> u * (hi - lo) == 0.0;
  }

  lemma {:induction false} ExtremesBound(vals: seq<real>)
    requires |vals| > 0
    ensures forall v :: v in vals ==> Lowest(vals) <= v <= Highest(vals)
  {
    if |vals| > 1 {
      var n := |vals| - 1;
      ExtremesBound(vals[..n]);
      assert vals == vals[..n] + [vals[n]];
    }
  }

  /** The arithmetic step, without the confidence set: the new opinion times the number of agents seen is the sum of
      their opinions, where an agent sees itself and its neighbours as far as they lie within its bounds, each once. */
  lemma ArithmeticStep(cfg: Config, topo: Topology, x: Profile, u: Draws, t: nat, id: AgentId) returns (seen: seq<AgentId>)
    requires Runnable(cfg, topo, x) && cfg.mean.Arithmetic? && id in topo.roster
    ensures StrictlyAscending(seen)
    ensures forall k :: k in seen <==>
              (k == id || k in topo.links[id]) && x[id] - cfg.Left() <= Value(x, k) <= x[id] + cfg.Right()
    ensures Defined(cfg, topo, x)
    ensures Times(Step(cfg, topo, x, u, t)[id], |seen|) == Total(First, seen, x)
  {
    seen := SeenBy(cfg, topo, x, id);
    StepIsRatio(cfg, topo, x, u, t, id);
    var vals := ConfSetOf(cfg, topo, x, id);
    hide Step, ConfSetOf, Sum, Total, Ratio, Times;
    RatioBounds(Sum(vals), |vals|, 0.0, 0.0);
  }

  lemma StepIsRatio(cfg: Config, topo: Topology, x: Profile, u: Draws, t: nat, id: AgentId)
    requires Runnable(cfg, topo, x) && cfg.mean.Arithmetic? && id in topo.roster
    ensures Defined(cfg, topo, x)
    ensures var vals := ConfSetOf(cfg, topo, x, id); |vals| > 0 && Step(cfg, topo, x, u, t)[id] == Ratio(Sum(vals), |vals|)
  {
    NonNegativeBoundsDefine(cfg, topo, x);
  }

  lemma SeenBy(cfg: Config, topo: Topology, x: Profile, id: AgentId) returns (seen: seq<AgentId>)
    requires Runnable(cfg, topo, x) && id in topo.roster
    ensures StrictlyAscending(seen)
    ensures forall k :: k in seen <==>
              (k == id || k in topo.links[id]) && x[id] - cfg.Left() <= Value(x, k) <= x[id] + cfg.Right()
    ensures |seen| == |ConfSetOf(cfg, topo, x, id)| && Total(First, seen, x) == Sum(ConfSetOf(cfg, topo, x, id))
  {
    IdsOf(topo, id);
    hide ConfSet, ConfIds, Total, Sum;
    assert Value(x, id) == x[id];
    seen := SeenIn(cfg, ConfIds(topo, id), x, x[id]);
  }

  lemma IdsOf(topo: Topology, id: AgentId)
    requires id in topo.links
    ensures StrictlyAscending(ConfIds(topo, id))
    ensures forall k :: k in ConfIds(topo, id) <==> k == id || k in topo.links[id]
  {
    SortDedupSorts([id] + topo.links[id]);
  }

  lemma {:induction false} SeenPush(cfg: Config, ids: seq<AgentId>, x: Profile, xi: real, rest: seq<AgentId>)
    requires |ids| > 0 && StrictlyAscending(ids) && IsSeen(cfg, ids[..|ids| - 1], x, xi, rest)
    ensures var last := ids[|ids| - 1];
            IsSeen(cfg, ids, x, xi, if InWindow(cfg, xi, Value(x, last)) then rest + [last] else rest)
  {
    var n := |ids| - 1;
    hide InWindow, Value;
    assert ids == ids[..n] + [ids[n]];
    forall i | 0 <= i < |rest| ensures rest[i] < ids[n] {
      assert rest[i] in ids[..n];
    }
  }

  ghost predicate IsSeen(cfg: Config, ids: seq<AgentId>, x: Profile, xi: real, seen: seq<AgentId>) {
    StrictlyAscending(seen) && forall k :: k in seen <==> k in ids && InWindow(cfg, xi, Value(x, k))
  }

  lemma {:induction false} SeenIn(cfg: Config, ids: seq<AgentId>, x: Profile, xi: real) returns (seen: seq<AgentId>)
    requires StrictlyAscending(ids)
    ensures IsSeen(cfg, ids, x, xi, seen)
    ensures |seen| == |ConfSet(cfg, ids, x, xi)| && Total(First, seen, x) == Sum(ConfSet(cfg, ids, x, xi))
  {
    if |ids| == 0 {
      seen := [];
    } else {
      var n := |ids| - 1;
      var rest := SeenIn(cfg, ids[..n], x, xi);
      SeenPush(cfg, ids, x, xi, rest);
      hide InWindow, Value, IsSeen;
      if InWindow(cfg, xi, Value(x, ids[n])) {
        seen := rest + [ids[n]];
        assert seen[..|rest|] == rest;
        SumPush(ConfSet(cfg, ids[..n], x, xi), Value(x, ids[n]));
      } else {
        seen := rest;
      }
    }
  }

  // ---- permanent splits, on any topology ----

  ghost predicate Bounded(x: Profile, side: set<AgentId>, a: real, b: real) {
    forall id :: id in side ==> id in x && a <= x[id] <= b
  }

  /** Whatever an agent of `side` may have in its window lies in [a, b]. */
  ghost predicate SeesWithin(cfg: Config, topo: Topology, x: Profile, side: set<AgentId>, a: real, b: real)
    requires Covers(topo, x)
  {
    && (forall id :: id in side ==> id in topo.roster)
    && (forall i, j :: i in side && j in topo.roster && InWindow(cfg, x[i], x[j]) ==> a <= x[j] <= b)
  }

  lemma WindowWithin(cfg: Config, topo: Topology, x: Profile, side: set<AgentId>, a: real, b: real, id: AgentId)
    requires topo.WellFormed() && Covers(topo, x) && SeesWithin(cfg, topo, x, side, a, b) && id in side
    ensures id in topo.links && forall v :: v in ConfSetOf(cfg, topo, x, id) ==> a <= v <= b
  {
    var ids, xi := ConfIds(topo, id), Value(x, id);
    ConfSetMembers(cfg, ids, x, xi);
    SortDedupSorts([id] + topo.links[id]);
    forall v | v in ConfSetOf(cfg, topo, x, id) ensures a <= v <= b {
      var j :| j in ids && Value(x, j) == v && InWindow(cfg, xi, v);
      assert j in [id] + topo.links[id];
      assert j in topo.roster;
    }
  }

  /** If every opinion an agent of `side` can see in its window lies in [a, b], so do the new ones. */
  lemma StepBounded(cfg: Config, topo: Topology, x: Profile, u: Draws, t: nat, side: set<AgentId>, a: real, b: real)
    requires topo.WellFormed() && Covers(topo, x) && Uniform(u) && Defined(cfg, topo, x)
    requires SeesWithin(cfg, topo, x, side, a, b)
    ensures Bounded(Step(cfg, topo, x, u, t), side, a, b)
  {
    hide MeanOf, ConfSetOf;
    forall id | id in side ensures a <= Step(cfg, topo, x, u, t)[id] <= b {
      WindowWithin(cfg, topo, x, side, a, b, id);
      MeanIsInternal(cfg.mean, ConfSetOf(cfg, topo, x, id), u(t, id), a, b);
    }
  }

  ghost predicate Runnable(cfg: Config, topo: Topology, x: Profile) {
    topo.WellFormed() && Covers(topo, x) && cfg.Left() >= 0.0 && cfg.Right() >= 0.0
  }

  /** The two sides hold all agents and are further apart than either bound reaches. */
  ghost predicate Split(cfg: Config, topo: Topology, x: Profile, lower: set<AgentId>, upper: set<AgentId>,
                        lo: real, a: real, b: real, hi: real)
  {
    && (forall id :: id in lower || id in upper <==> id in topo.roster)
    && Bounded(x, lower, lo, a) && Bounded(x, upper, b, hi)
    && b - a > Max(cfg.Left(), cfg.Right())
  }

  lemma StepKeepsSplit(cfg: Config, topo: Topology, x: Profile, u: Draws, t: nat,
                       lower: set<AgentId>, upper: set<AgentId>, lo: real, a: real, b: real, hi: real)
    requires Runnable(cfg, topo, x) && Uniform(u) && Split(cfg, topo, x, lower, upper, lo, a, b, hi)
    ensures Defined(cfg, topo, x) && Runnable(cfg, topo, Step(cfg, topo, x, u, t))
    ensures Split(cfg, topo, Step(cfg, topo, x, u, t), lower, upper, lo, a, b, hi)
  {
    NonNegativeBoundsDefine(cfg, topo, x);
    StepBounded(cfg, topo, x, u, t, lower, lo, a);
    StepBounded(cfg, topo, x, u, t, upper, b, hi);
  }

  /** Two sides further apart than both bounds stay apart for ever: the lower side keeps its old
      maximum as an upper bound and the upper side its old minimum as a lower one, whatever the
      topology, the averaging operator and the draws. */
  lemma {:induction false} SplitIsPermanent(cfg: Config, topo: Topology, x: Profile, u: Draws, t: nat, n: nat,
                         lower: set<AgentId>, upper: set<AgentId>, lo: real, a: real, b: real, hi: real)
    requires Runnable(cfg, topo, x) && Uniform(u) && Split(cfg, topo, x, lower, upper, lo, a, b, hi)
    ensures Split(cfg, topo, Run(cfg, topo, x, u, t, n), lower, upper, lo, a, b, hi)
    decreases n
  {
    hide Step, Split;
    if n > 0 {
      StepKeepsSplit(cfg, topo, x, u, t, lower, upper, lo, a, b, hi);
      SplitIsPermanent(cfg, topo, Step(cfg, topo, x, u, t), u, t + 1, n - 1, lower, upper, lo, a, b, hi);
    }
  }

  /** The overall range of opinions never widens: the case of one side holding everybody. */
  lemma RangeNeverWidens(cfg: Config, topo: Topology, x: Profile, u: Draws, t: nat, n: nat, a: real, b: real)
    requires Runnable(cfg, topo, x) && Uniform(u) && Bounded(x, topo.Agents(), a, b)
    ensures Bounded(Run(cfg, topo, x, u, t, n), topo.Agents(), a, b)
  {
    var apart := b + Max(cfg.Left(), cfg.Right()) + 1.0;
    SplitIsPermanent(cfg, topo, x, u, t, n, topo.Agents(), {}, a, b, apart, apart);
  }

  /** One step moves an agent down by at most the left bound and up by at most the right one. */
  lemma StepInsideWindow(cfg: Config, topo: Topology, x: Profile, u: Draws, t: nat, id: AgentId)
    requires Runnable(cfg, topo, x) && Uniform(u) && id in topo.roster
    ensures Defined(cfg, topo, x) && Runnable(cfg, topo, Step(cfg, topo, x, u, t))
    ensures x[id] - cfg.Left() <= Step(cfg, topo, x, u, t)[id] <= x[id] + cfg.Right()
  {
    NonNegativeBoundsDefine(cfg, topo, x);
    StepBounded(cfg, topo, x, u, t, {id}, x[id] - cfg.Left(), x[id] + cfg.Right());
  }

  /** Over `n` steps an agent drifts down by at most `n` left bounds and up by at most `n` right ones, on any
      topology: with a right bound of 0 no opinion ever rises, with a left bound of 0 none ever falls. */
  lemma {:induction false} DriftIsBounded(cfg: Config, topo: Topology, x: Profile, u: Draws, t: nat, n: nat, id: AgentId)
    requires Runnable(cfg, topo, x) && Uniform(u) && id in topo.roster
    ensures id in Run(cfg, topo, x, u, t, n)
    ensures x[id] - Times(cfg.Left(), n) <= Run(cfg, topo, x, u, t, n)[id] <= x[id] + Times(cfg.Right(), n)
    decreases n
  {
    hide Step, Times;
    if n == 0 {
      TimesNone(cfg.Left());
      TimesNone(cfg.Right());
    } else {
      StepInsideWindow(cfg, topo, x, u, t, id);
      DriftIsBounded(cfg, topo, Step(cfg, topo, x, u, t), u, t + 1, n - 1, id);
      TimesNext(cfg.Left(), n - 1);
      TimesNext(cfg.Right(), n - 1);
    }
  }

  lemma TimesNone(v: real)
    ensures Times(v, 0) == 0.0
  { }

  // ---- order, on the complete graph ----

  lemma CompleteConfIds(topo: Topology, i: AgentId, j: AgentId)
    requires topo.WellFormed() && topo.Complete() && i in topo.roster && j in topo.roster
    ensures ConfIds(topo, i) == ConfIds(topo, j)
    ensures forall k :: k in ConfIds(topo, i) <==> k in topo.roster
  {
    forall id | id in topo.roster ensures forall k :: k in ConfIds(topo, id) <==> k in topo.roster {
      forall k ensures k in [id] + topo.links[id] <==> k in topo.roster { }
      SortDedupSorts([id] + topo.links[id]);
    }
    SortDedupSorts([i] + topo.links[i]);
    SortDedupSorts([j] + topo.links[j]);
    AscendingUnique(ConfIds(topo, i), ConfIds(topo, j));
  }

  /** The opinions in the window of `xi` that are, or are not, in that of `xj` too. */
  function Shared(cfg: Config, ids: seq<AgentId>, x: Profile, xi: real, xj: real, both: bool): seq<real> {
    if |ids| == 0 then []
    else
      var rest := Shared(cfg, ids[..|ids| - 1], x, xi, xj, both);
      var v := Value(x, ids[|ids| - 1]);
      if InWindow(cfg, xi, v) && InWindow(cfg, xj, v) == both then rest + [v] else rest
  }

  lemma SumPush(s: seq<real>, v: real)
    ensures Sum(s + [v]) == Sum(s) + v
  {
    assert (s + [v])[..|s + [v]| - 1] == s;
  }

  lemma {:induction false} SharedPartition(cfg: Config, ids: seq<AgentId>, x: Profile, xi: real, xj: real)
    ensures var A, C, D := ConfSet(cfg, ids, x, xi), Shared(cfg, ids, x, xi, xj, true), Shared(cfg, ids, x, xi, xj, false);
            Sum(A) == Sum(C) + Sum(D) && |A| == |C| + |D|
  {
    if |ids| > 0 {
      var rest, v := ids[..|ids| - 1], Value(x, ids[|ids| - 1]);
      SharedPartition(cfg, rest, x, xi, xj);
      SumPush(ConfSet(cfg, rest, x, xi), v);
      SumPush(Shared(cfg, rest, x, xi, xj, true), v);
      SumPush(Shared(cfg, rest, x, xi, xj, false), v);
    }
  }

  lemma {:induction false} SharedMembers(cfg: Config, ids: seq<AgentId>, x: Profile, xi: real, xj: real, both: bool)
    ensures forall v :: v in Shared(cfg, ids, x, xi, xj, both) ==> InWindow(cfg, xi, v) && InWindow(cfg, xj, v) == both
  {
    if |ids| > 0 {
      SharedMembers(cfg, ids[..|ids| - 1], x, xi, xj, both);
    }
  }

  lemma {:induction false} SharedSymmetric(cfg: Config, ids: seq<AgentId>, x: Profile, xi: real, xj: real)
    ensures Shared(cfg, ids, x, xi, xj, true) == Shared(cfg, ids, x, xj, xi, true)
  {
    if |ids| > 0 {
      SharedSymmetric(cfg, ids[..|ids| - 1], x, xi, xj);
    }
  }

  /** Averages keep the order when the sums are bounded by counts of common thresholds `p` and `q`. */
  lemma MeansOrdered(sa: real, na: nat, sb: real, nb: nat, sc: real, nc: nat, sd: real, nd: nat, se: real, ne: nat,
                     p: real, q: real)
    requires sa == sc + sd && sb == sc + se && na == nc + nd > 0 && nb == nc + ne > 0
    requires nc == 0 ==> sc == 0.0
    requires sd <= Times(p, nd) && Times(p, nc) <= sc <= Times(q, nc) && Times(q, ne) <= se && Times(p, ne) <= se
    ensures Ratio(sa, na) <= Ratio(sb, nb)
  {
    if nc == 0 {
      RatioBounds(sa, na, p, p);
      RatioBounds(sb, nb, p, p);
    } else {
      var m := Ratio(sc, nc);
      RatioBounds(sc, nc, p, q);
      TimesMono(p, m, nd);
      TimesMono(m, q, ne);
      TimesAdd(m, nc, nd);
      TimesAdd(m, nc, ne);
      hide *;
      RatioBounds(sa, na, m, m);
      RatioBounds(sb, nb, m, m);
    }
  }

  lemma TimesMono(v: real, w: real, n: nat)
    requires v <= w
    ensures Times(v, n) <= Times(w, n)
  { }

  lemma TimesNext(v: real, n: nat)
    ensures Times(v, n + 1) == Times(v, n) + v
  { }

  lemma TimesAdd(v: real, m: nat, n: nat)
    ensures Times(v, m + n) == Times(v, m) + Times(v, n)
  { }

  lemma EmptySum(c: seq<real>)
    ensures |c| == 0 ==> Sum(c) == 0.0
  { }

  /** `a` is `c` plus values below the threshold `p`, `b` is `c` plus values above `q`. */
  lemma PooledMeans(a: seq<real>, b: seq<real>, c: seq<real>, d: seq<real>, e: seq<real>, p: real, q: real)
    requires |a| > 0 && |b| > 0
    requires Sum(a) == Sum(c) + Sum(d) && |a| == |c| + |d|
    requires Sum(b) == Sum(c) + Sum(e) && |b| == |c| + |e|
    requires AllAtMost(d, p) && AllAtLeast(c, p) && AllAtMost(c, q) && AllAtLeast(e, q) && AllAtLeast(e, p)
    ensures Ratio(Sum(a), |a|) <= Ratio(Sum(b), |b|)
  {
    hide *;
    EmptySum(c);
    SumAtMost(d, p);
    SumAtLeast(c, p);
    SumAtMost(c, q);
    SumAtLeast(e, q);
    SumAtLeast(e, p);
    MeansOrdered(Sum(a), |a|, Sum(b), |b|, Sum(c), |c|, Sum(d), |d|, Sum(e), |e|, p, q);
  }

  /** What only the lower window sees lies below everything the upper one sees, and conversely. */
  lemma WindowMeansOrdered(cfg: Config, ids: seq<AgentId>, x: Profile, xi: real, xj: real)
    requires xi <= xj && ConfSet(cfg, ids, x, xi) != [] && ConfSet(cfg, ids, x, xj) != []
    ensures var A, B := ConfSet(cfg, ids, x, xi), ConfSet(cfg, ids, x, xj);
            Ratio(Sum(A), |A|) <= Ratio(Sum(B), |B|)
  {
    var a, b := ConfSet(cfg, ids, x, xi), ConfSet(cfg, ids, x, xj);
    var c, d, e := Shared(cfg, ids, x, xi, xj, true), Shared(cfg, ids, x, xi, xj, false), Shared(cfg, ids, x, xj, xi, false);
    SharedPartition(cfg, ids, x, xi, xj);
    SharedPartition(cfg, ids, x, xj, xi);
    SharedSymmetric(cfg, ids, x, xi, xj);
    SharedMembers(cfg, ids, x, xi, xj, true);
    SharedMembers(cfg, ids, x, xi, xj, false);
    SharedMembers(cfg, ids, x, xj, xi, false);
    PooledMeans(a, b, c, d, e, xj - cfg.Left(), xi + cfg.Right());
  }

  ghost predicate OrderKept(topo: Topology, x: Profile, y: Profile) {
    forall i, j {:trigger Value(y, i), Value(y, j)} ::
      i in topo.roster && j in topo.roster && Value(x, i) <= Value(x, j) ==> Value(y, i) <= Value(y, j)
  }

  lemma OrderKeptTrans(topo: Topology, x: Profile, y: Profile, z: Profile)
    requires OrderKept(topo, x, y) && OrderKept(topo, y, z)
    ensures OrderKept(topo, x, z)
  {
    forall i, j | i in topo.roster && j in topo.roster && Value(x, i) <= Value(x, j) ensures Value(z, i) <= Value(z, j) {
      assert Value(y, i) <= Value(y, j);
    }
  }

  lemma StepKeepsOrder(cfg: Config, topo: Topology, x: Profile, u: Draws, t: nat)
    requires Runnable(cfg, topo, x) && topo.Complete() && cfg.mean.Arithmetic?
    ensures Defined(cfg, topo, x)
    ensures OrderKept(topo, x, Step(cfg, topo, x, u, t)) && Runnable(cfg, topo, Step(cfg, topo, x, u, t))
  {
    NonNegativeBoundsDefine(cfg, topo, x);
    var y := Step(cfg, topo, x, u, t);
    forall i, j | i in topo.roster && j in topo.roster && Value(x, i) <= Value(x, j) ensures Value(y, i) <= Value(y, j) {
      CompleteConfIds(topo, i, j);
      WindowMeansOrdered(cfg, ConfIds(topo, i), x, x[i], x[j]);
    }
  }

  /** On the complete graph with the arithmetic mean, no number of steps ever swaps two agents. */
  lemma {:induction false} RunKeepsOrder(cfg: Config, topo: Topology, x: Profile, u: Draws, t: nat, n: nat)
    requires Runnable(cfg, topo, x) && topo.Complete() && cfg.mean.Arithmetic?
    ensures OrderKept(topo, x, Run(cfg, topo, x, u, t, n))
    decreases n
  {
    hide Step;
    if n > 0 {
      StepKeepsOrder(cfg, topo, x, u, t);
      var y := Step(cfg, topo, x, u, t);
      RunKeepsOrder(cfg, topo, y, u, t + 1, n - 1);
      OrderKeptTrans(topo, x, y, Run(cfg, topo, y, u, t + 1, n - 1));
    }
  }

  // ---- fixed points, on the complete graph ----

  ghost predicate Settled(x: Profile, eps: real) {
    forall i, j :: i in x && j in x ==> x[i] == x[j] || Abs(x[i] - x[j]) > eps
  }

  /** The reach of the wider side of the window. */
  function Reach(cfg: Config): real { Max(cfg.Left(), cfg.Right()) }

  ghost predicate Follows(x: Profile, i: AgentId, j: AgentId, eps: real) {
    i in x && j in x && 0.0 < x[j] - x[i] <= eps
  }

  ghost function Below(x: Profile, v: real): set<AgentId> { set m | m in x && x[m] < v }

  ghost function Above(x: Profile, v: real): set<AgentId> { set m | m in x && x[m] > v }

  /** From any pair within reach, one whose lower end sees nothing below it. */
  lemma {:induction false} LowestFollowed(x: Profile, i: AgentId, j: AgentId, eps: real) returns (a: AgentId, b: AgentId)
    requires Follows(x, i, j, eps)
    ensures Follows(x, a, b, eps) && forall k :: !Follows(x, k, a, eps)
    decreases |Below(x, x[i])|
  {
    if k :| Follows(x, k, i, eps) {
      ProperSubsetCardinality(Below(x, x[k]), Below(x, x[i]), k);
      a, b := LowestFollowed(x, k, i, eps);
    } else {
      a, b := i, j;
    }
  }

  /** And one whose upper end sees nothing above it. */
  lemma {:induction false} HighestFollower(x: Profile, i: AgentId, j: AgentId, eps: real) returns (a: AgentId, b: AgentId)
    requires Follows(x, i, j, eps)
    ensures Follows(x, a, b, eps) && forall k :: !Follows(x, b, k, eps)
    decreases |Above(x, x[j])|
  {
    if k :| Follows(x, j, k, eps) {
      ProperSubsetCardinality(Above(x, x[k]), Above(x, x[j]), k);
      a, b := HighestFollower(x, j, k, eps);
    } else {
      a, b := i, j;
    }
  }

  /** A member above a common lower bound lifts the sum by at least its distance from it. */
  lemma {:induction false} SumLifted(vals: seq<real>, a: real, w: real)
    requires AllAtLeast(vals, a) && w in vals
    ensures Sum(vals) >= Times(a, |vals|) + (w - a)
  {
    var n := |vals| - 1;
    assert vals == vals[..n] + [vals[n]] && vals[n] in vals;
    assert forall v :: v in vals[..n] ==> v in vals;
    TimesNext(a, n);
    hide Times;
    if w in vals[..n] {
      SumLifted(vals[..n], a, w);
    } else {
      SumAtLeast(vals[..n], a);
    }
  }

  /** A member below a common upper bound lowers the sum by at least its distance from it. */
  lemma {:induction false} SumLowered(vals: seq<real>, b: real, w: real)
    requires AllAtMost(vals, b) && w in vals
    ensures Sum(vals) <= Times(b, |vals|) - (b - w)
  {
    var n := |vals| - 1;
    assert vals == vals[..n] + [vals[n]] && vals[n] in vals;
    assert forall v :: v in vals[..n] ==> v in vals;
    TimesNext(b, n);
    hide Times;
    if w in vals[..n] {
      SumLowered(vals[..n], b, w);
    } else {
      SumAtMost(vals[..n], b);
    }
  }

  /** A step changes nothing exactly when any two opinions agree or are out of the wider bound's reach. */
  lemma FixedPointIff(cfg: Config, topo: Topology, x: Profile, u: Draws, t: nat)
    requires Runnable(cfg, topo, x) && topo.Complete() && Uniform(u)
    requires cfg.mean.Arithmetic?
    ensures Defined(cfg, topo, x)
    ensures Step(cfg, topo, x, u, t) == x <==> Settled(x, Reach(cfg))
  {
    var eps := Reach(cfg);
    NonNegativeBoundsDefine(cfg, topo, x);
    if Settled(x, eps) {
      SettledIsFixed(cfg, topo, x, u, t);
    } else {
      var i, j :| i in x && j in x && x[i] != x[j] && Abs(x[i] - x[j]) <= eps;
      var low, high := if x[i] < x[j] then i else j, if x[i] < x[j] then j else i;
      if cfg.Left() <= cfg.Right() {
        var a, b := LowestFollowed(x, low, high, eps);
        LowestMoves(cfg, topo, x, u, t, a, b);
      } else {
        var a, b := HighestFollower(x, low, high, eps);
        HighestMoves(cfg, topo, x, u, t, a, b);
      }
    }
  }

  lemma SettledSees(cfg: Config, topo: Topology, x: Profile, id: AgentId)
    requires Runnable(cfg, topo, x) && Settled(x, Reach(cfg)) && id in topo.roster
    ensures SeesWithin(cfg, topo, x, {id}, x[id], x[id])
  { }

  lemma SettledAgentStays(cfg: Config, topo: Topology, x: Profile, u: Draws, t: nat, id: AgentId)
    requires Runnable(cfg, topo, x) && Uniform(u)
    requires Settled(x, Reach(cfg)) && Defined(cfg, topo, x) && id in topo.roster
    ensures Bounded(Step(cfg, topo, x, u, t), {id}, x[id], x[id])
  {
    SettledSees(cfg, topo, x, id);
    hide Step, SeesWithin, Settled, Bounded;
    StepBounded(cfg, topo, x, u, t, {id}, x[id], x[id]);
  }

  lemma SettledIsFixed(cfg: Config, topo: Topology, x: Profile, u: Draws, t: nat)
    requires Runnable(cfg, topo, x) && Uniform(u)
    requires Settled(x, Reach(cfg)) && Defined(cfg, topo, x)
    ensures Step(cfg, topo, x, u, t) == x
  {
    var y := Step(cfg, topo, x, u, t);
    assert x.Keys == y.Keys;
    hide Step, Settled, Defined;
    forall id | id in topo.roster ensures y[id] == x[id] {
      SettledAgentStays(cfg, topo, x, u, t, id);
      assert id in {id};
    }
  }

  /** On the complete graph a window holds the opinions of exactly the agents within the bounds. */
  lemma WindowOf(cfg: Config, topo: Topology, x: Profile, id: AgentId)
    requires topo.WellFormed() && Covers(topo, x) && topo.Complete() && id in topo.roster
    ensures forall v :: v in ConfSetOf(cfg, topo, x, id) ==> InWindow(cfg, x[id], v) && exists k :: k in topo.roster && x[k] == v
    ensures forall k :: k in topo.roster && InWindow(cfg, x[id], x[k]) ==> x[k] in ConfSetOf(cfg, topo, x, id)
  {
    CompleteConfIds(topo, id, id);
    var ids := ConfIds(topo, id);
    ConfSetMembers(cfg, ids, x, x[id]);
    forall v | v in ConfSetOf(cfg, topo, x, id) ensures InWindow(cfg, x[id], v) && exists k :: k in topo.roster && x[k] == v {
      var k :| k in ids && Value(x, k) == v && InWindow(cfg, x[id], v);
      assert k in topo.roster && x[k] == v;
    }
    forall k | k in topo.roster && InWindow(cfg, x[id], x[k]) ensures x[k] in ConfSetOf(cfg, topo, x, id) {
      assert k in ids && Value(x, k) == x[k];
    }
  }

  lemma LowestMoves(cfg: Config, topo: Topology, x: Profile, u: Draws, t: nat, a: AgentId, b: AgentId)
    requires Runnable(cfg, topo, x) && topo.Complete()
    requires cfg.mean.Arithmetic? && cfg.Left() <= cfg.Right() && Defined(cfg, topo, x)
    requires Follows(x, a, b, cfg.Right()) && forall k :: !Follows(x, k, a, cfg.Right())
    ensures Step(cfg, topo, x, u, t)[a] > x[a]
  {
    var vals := ConfSetOf(cfg, topo, x, a);
    WindowOf(cfg, topo, x, a);
    forall v | v in vals ensures x[a] <= v {
      var k :| k in topo.roster && x[k] == v;
      assert !Follows(x, k, a, cfg.Right());
    }
    assert InWindow(cfg, x[a], x[b]);
    SumLifted(vals, x[a], x[b]);
    RatioBounds(Sum(vals), |vals|, x[a], x[a]);
  }

  lemma HighestMoves(cfg: Config, topo: Topology, x: Profile, u: Draws, t: nat, a: AgentId, b: AgentId)
    requires Runnable(cfg, topo, x) && topo.Complete()
    requires cfg.mean.Arithmetic? && cfg.Right() <= cfg.Left() && Defined(cfg, topo, x)
    requires Follows(x, a, b, cfg.Left()) && forall k :: !Follows(x, b, k, cfg.Left())
    ensures Step(cfg, topo, x, u, t)[b] < x[b]
  {
    var vals := ConfSetOf(cfg, topo, x, b);
    WindowOf(cfg, topo, x, b);
    forall v | v in vals ensures v <= x[b] {
      var k :| k in topo.roster && x[k] == v;
      assert !Follows(x, b, k, cfg.Left());
    }
    assert InWindow(cfg, x[b], x[a]);
    SumLowered(vals, x[b], x[a]);
    RatioBounds(Sum(vals), |vals|, x[b], x[b]);
  }
}
