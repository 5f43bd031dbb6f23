// Granovetter threshold contagion: synchronous rounds that end in the least closed set.
module ThresholdContagion {
  import opened Options
  import opened RealSums
  import opened Agents
  import opened Counting
  import opened BinaryStates

  /** Activation thresholds; `None` is an infinite threshold. */
  type Thresholds = AgentId -> Option<real>

  // ---- the rule ----

  function Share(activeNb: nat, deg: nat): real {
    activeNb as real / (if deg == 0 then 1 else deg) as real
  }

  /** The fraction of active neighbours reaches the agent's threshold. */
  predicate Fires(topo: Topology, theta: Thresholds, a: set<AgentId>, id: AgentId)
    requires id in topo.links
  {
    match theta(id)
    case None => false
    case Some(t) => Share(CountIn(topo.links[id], a), |topo.links[id]|) >= t
  }

  ghost function Next(topo: Topology, theta: Thresholds, a: set<AgentId>): set<AgentId> {
    a + set id | id in topo.roster && id in topo.links && Fires(topo, theta, a, id)
  }

  /** `newly` lists the inactive agents that fire against `prev`, each once. */
  ghost predicate NewlyActive(topo: Topology, theta: Thresholds, prev: set<AgentId>, newly: seq<AgentId>, idx: nat)
    requires topo.WellFormed() && idx <= |topo.roster|
  {
    && NoRepeats(newly)
    && forall id :: id in newly <==> id in topo.roster[..idx] && id !in prev && Fires(topo, theta, prev, id)
  }

  lemma NewlyNext(topo: Topology, theta: Thresholds, prev: set<AgentId>, newly: seq<AgentId>, idx: nat)
    requires topo.WellFormed() && idx < |topo.roster| && NewlyActive(topo, theta, prev, newly, idx)
    ensures var id := topo.roster[idx];
            NewlyActive(topo, theta, prev, if id !in prev && Fires(topo, theta, prev, id) then newly + [id] else newly, idx + 1)
  {
    hide Fires;
    var ids := topo.roster;
    assert ids[..idx + 1] == ids[..idx] + [ids[idx]];
    assert ids[idx] !in ids[..idx];
  }

  lemma NewlyIsNext(topo: Topology, theta: Thresholds, prev: set<AgentId>, newly: seq<AgentId>)
    requires topo.WellFormed() && NewlyActive(topo, theta, prev, newly, |topo.roster|)
    ensures NoRepeats(newly) && forall id :: id in newly ==> id in topo.roster && id !in prev
    ensures Next(topo, theta, prev) == prev + Elements(newly)
  {
    hide Fires;
    assert topo.roster[..|topo.roster|] == topo.roster;
  }

  /** The scan over the roster: the agents that fire, and how many were active before. */
  method Scan(world: BinaryWorld, theta: Thresholds) returns (newly: seq<AgentId>, prevActive: nat)
    requires world.Valid()
    ensures NewlyActive(world.topology, theta, world.active, newly, |world.topology.roster|)
    ensures prevActive == CountIn(world.topology.roster, world.active)
  {
    hide Fires, CountIn;
    var ids := world.topology.roster;
    newly, prevActive := [], 0;
    CountInEmpty(world.active);
    for idx := 0 to |ids|
      invariant NewlyActive(world.topology, theta, world.active, newly, idx)
      invariant prevActive == CountIn(ids[..idx], world.active)
    {
      hide NewlyActive;
      var id := ids[idx];
      NewlyNext(world.topology, theta, world.active, newly, idx);
      CountInNext(ids, idx, world.active);
      if id in world.active {
        prevActive := prevActive + 1;
      } else {
        var fires := Evaluate(world, theta, id);
        if fires {
          newly := newly + [id];
        }
      }
    }
    assert ids[..|ids|] == ids;
  }

  /** The share reaches the threshold exactly when the active neighbours number at least threshold times degree,
      an agent without neighbours counting as one of degree 1. */
  lemma ShareReaches(activeNb: nat, deg: nat, t: real)
    ensures Share(activeNb, deg) >= t <==> activeNb as real >= t * (if deg == 0 then 1 else deg) as real
  {
    var d := (if deg == 0 then 1 else deg) as real;
    var q := Share(activeNb, deg);
    assert q * d == activeNb as real;
    if q >= t {
      ProductNonNegative(q - t, d);
      assert (q - t) * d == q * d - t * d;
    } else {
      ProductPositive(t - q, d, (t - q) * d);
      assert (t - q) * d == t * d - q * d;
    }
  }

  /** The active neighbour entries number at least threshold times max(degree, 1). */
  ghost predicate EnoughNeighbors(topo: Topology, theta: Thresholds, a: set<AgentId>, id: AgentId)
    requires id in topo.links
  {
    var nbs := topo.links[id];
    theta(id).Some? && CountIn(nbs, a) as real >= theta(id).value * (if |nbs| == 0 then 1 else |nbs|) as real
  }

  lemma ProductPositive(x: real, y: real, p: real)
    requires x > 0.0 && y > 0.0 && p == x * y
    ensures p > 0.0
  { }

  /** What a round does to one inactive agent, in counts alone. */
  lemma ActivatesIff(topo: Topology, theta: Thresholds, a: set<AgentId>, id: AgentId)
    requires topo.WellFormed() && id in topo.roster && id !in a
    ensures id in Next(topo, theta, a) <==> EnoughNeighbors(topo, theta, a, id)
  {
    if theta(id).Some? {
      ShareReaches(CountIn(topo.links[id], a), |topo.links[id]|, theta(id).value);
    }
  }

  lemma ActivationCounts(topo: Topology, theta: Thresholds, a: set<AgentId>)
    requires topo.WellFormed()
    ensures forall id :: id in topo.roster && id !in a ==> (id in Next(topo, theta, a) <==> EnoughNeighbors(topo, theta, a, id))
  {
    hide Next, EnoughNeighbors;
    forall id | id in topo.roster && id !in a {
      ActivatesIff(topo, theta, a, id);
    }
  }

  /** One synchronous round against the start-of-round snapshot. */
  method ThresholdRound(world: BinaryWorld, theta: Thresholds)
    requires world.Valid()
    modifies world
    ensures world.Valid()
    ensures forall id :: id in old(world.active) ==> id in world.active
    ensures forall id :: id in world.topology.roster && id !in old(world.active) ==>
      (id in world.active <==> EnoughNeighbors(world.topology, theta, old(world.active), id))
    ensures world.stopRequested <==>
      old(world.stopRequested) || world.active == old(world.active) || forall id :: id in world.topology.roster ==> id in world.active
    ensures world.active == Next(world.topology, theta, old(world.active))
    ensures world.stopRequested == (old(world.stopRequested) || Saturated(world.topology, old(world.active), world.active))
  {
    hide Fires, Next, NewlyActive, EnoughNeighbors;
    ghost var prev := world.active;
    var newly, prevActive := Scan(world, theta);
    NewlyIsNext(world.topology, theta, prev, newly);
    NextOnly(world.topology, theta, prev);
    ActivationCounts(world.topology, theta, prev);
    TotalActive(world.topology, prev, newly);
    ActivateAll(world, newly);
    if |newly| == 0 || prevActive + |newly| >= |world.topology.roster| {
      world.stopRequested := true;
    }
  }

  lemma NextOnly(topo: Topology, theta: Thresholds, a: set<AgentId>)
    ensures forall id :: id in Next(topo, theta, a) ==> id in a || id in topo.roster
    ensures a <= Next(topo, theta, a)
  { }

  /** An isolated agent activates exactly for a threshold of at most 0. */
  lemma IsolatedActivatesIff(topo: Topology, theta: Thresholds, a: set<AgentId>, id: AgentId)
    requires topo.WellFormed() && id in topo.roster && id !in a && topo.links[id] == []
    ensures id in Next(topo, theta, a) <==> theta(id).Some? && theta(id).value <= 0.0
  {
    ActivatesIff(topo, theta, a, id);
  }

  /** The inner loop: degree and active neighbours of one inactive agent. */
  method Evaluate(world: BinaryWorld, theta: Thresholds, id: AgentId) returns (fires: bool)
    requires world.Valid() && id in world.topology.links
    ensures fires == Fires(world.topology, theta, world.active, id)
    ensures fires <==> EnoughNeighbors(world.topology, theta, world.active, id)
  {
    var nbs := world.topology.links[id];
    var deg, activeNb := 0, 0;
    for k := 0 to |nbs|
      invariant deg == k && activeNb == CountIn(nbs[..k], world.active)
    {
      assert nbs[..k + 1][..k] == nbs[..k];
      deg := deg + 1;
      if nbs[k] in world.active {
        activeNb := activeNb + 1;
      }
    }
    assert nbs[..|nbs|] == nbs;
    match theta(id)
    case None => fires := false;
    case Some(t) =>
      fires := Share(activeNb, deg) >= t;
      ShareReaches(activeNb, deg, t);
  }

  // ---- the two mechanisms ----

  /** A single global threshold. */
  method ApplyGlobal(world: BinaryWorld, theta: real)
    requires world.Valid()
    modifies world
    ensures world.Valid()
    ensures world.active == Next(world.topology, _ => Some(theta), old(world.active))
    ensures world.stopRequested == (old(world.stopRequested) || Saturated(world.topology, old(world.active), world.active))
  {
    ThresholdRound(world, _ => Some(theta));
  }

  function Lookup(table: map<AgentId, real>): Thresholds {
    id => if id in table then Some(table[id]) else None
  }

  /** Thresholds read from the world into a table before the round. */
  method ApplyPerAgent(world: BinaryWorld)
    requires world.Valid()
    modifies world
    ensures world.Valid()
    ensures world.active == Next(world.topology, Lookup(world.threshold), old(world.active))
    ensures world.stopRequested == (old(world.stopRequested) || Saturated(world.topology, old(world.active), world.active))
  {
    var ids := world.topology.roster;
    var thetas: map<AgentId, real> := map[];
    for k := 0 to |ids|
      invariant forall id :: id in thetas <==> id in ids[..k]
      invariant forall id :: id in thetas ==> id in world.threshold && thetas[id] == world.threshold[id]
    {
      assert ids[..k + 1] == ids[..k] + [ids[k]];
      assert ids[k] in ids;
      thetas := thetas[ids[k] := world.threshold[ids[k]]];
    }
    assert ids[..|ids|] == ids;
    SameThresholdsSameRound(world.topology, Lookup(thetas), Lookup(world.threshold), world.active);
    ThresholdRound(world, Lookup(thetas));
  }

  /** A round reads thresholds of roster agents only. */
  lemma SameThresholdsSameRound(topo: Topology, t1: Thresholds, t2: Thresholds, a: set<AgentId>)
    requires topo.WellFormed() && forall id :: id in topo.roster ==> t1(id) == t2(id)
    ensures Next(topo, t1, a) == Next(topo, t2, a)
  {
    forall id | id in topo.roster ensures Fires(topo, t1, a, id) == Fires(topo, t2, a, id) { }
  }

  /** With all agents at the same threshold the per-agent form is the global one. */
  lemma PerAgentIsGlobal(topo: Topology, threshold: map<AgentId, real>, theta: real, a: set<AgentId>)
    requires topo.WellFormed() && forall id :: id in topo.roster ==> id in threshold && threshold[id] == theta
    ensures Next(topo, Lookup(threshold), a) == Next(topo, _ => Some(theta), a)
  {
    SameThresholdsSameRound(topo, Lookup(threshold), _ => Some(theta), a);
  }

  // ---- the least closed set ----

  ghost predicate Closed(topo: Topology, theta: Thresholds, s: set<AgentId>)
    requires topo.WellFormed()
  {
    forall id :: id in topo.roster && Fires(topo, theta, s, id) ==> id in s
  }

  /** `s` is the least set that contains the seeds and is closed under the rule. */
  ghost predicate IsLeastClosed(topo: Topology, theta: Thresholds, seeds: set<AgentId>, s: set<AgentId>)
    requires topo.WellFormed()
  {
    && seeds <= s && Closed(topo, theta, s)
    && forall t: set<AgentId> :: seeds <= t && Closed(topo, theta, t) ==> s <= t
  }

  lemma ShareMonotone(a: nat, b: nat, deg: nat)
    requires a <= b
    ensures Share(a, deg) <= Share(b, deg)
  { }

  /** A lower threshold for `t1`'s rule than for `t2`'s, agent by agent. */
  ghost predicate NoHigher(topo: Topology, t1: Thresholds, t2: Thresholds) {
    forall id :: id in topo.roster && t2(id).Some? ==> t1(id).Some? && t1(id).value <= t2(id).value
  }

  /** More active agents and lower thresholds can only make an agent fire. */
  lemma FiresMonotone(topo: Topology, low: Thresholds, high: Thresholds, a: set<AgentId>, b: set<AgentId>, id: AgentId)
    requires topo.WellFormed() && a <= b && id in topo.roster && NoHigher(topo, low, high)
    requires Fires(topo, high, a, id)
    ensures Fires(topo, low, b, id)
  {
    CountInMonotone(topo.links[id], a, b);
    ShareMonotone(CountIn(topo.links[id], a), CountIn(topo.links[id], b), |topo.links[id]|);
  }

  /** A round never leaves a closed set that contains the active agents. */
  lemma NextStaysInside(topo: Topology, theta: Thresholds, a: set<AgentId>, t: set<AgentId>)
    requires topo.WellFormed() && a <= t && Closed(topo, theta, t)
    ensures Next(topo, theta, a) <= t
  {
    forall id | id in topo.roster && Fires(topo, theta, a, id) ensures id in t {
      FiresMonotone(topo, theta, theta, a, t, id);
    }
  }

  /** Rounds repeated until the mechanism asks to stop: the outcome is the least closed set, after at
      most max(1, n - |seeds|) rounds. */
  method RunToStop(world: BinaryWorld, theta: Thresholds) returns (rounds: nat)
    requires world.Valid() && !world.stopRequested
    modifies world
    ensures world.Valid() && world.stopRequested
    ensures IsLeastClosed(world.topology, theta, old(world.active), world.active)
    ensures 1 <= rounds <= (if |world.topology.roster| - |old(world.active)| > 1 then |world.topology.roster| - |old(world.active)| else 1)
  {
    hide Fires;
    var topo := world.topology;
    ghost var seeds := world.active;
    ElementsCardinality(topo.roster);
    assert topo.Agents() == Elements(topo.roster);
    rounds := 0;
    while !world.stopRequested
      invariant world.Valid() && seeds <= world.active
      invariant forall t: set<AgentId> :: seeds <= t && Closed(topo, theta, t) ==> world.active <= t
      invariant world.stopRequested ==> Closed(topo, theta, world.active) && rounds >= 1
      invariant !world.stopRequested ==> |seeds| + rounds <= |world.active|
      invariant !world.stopRequested && rounds > 0 ==> |world.active| < |topo.roster|
      invariant rounds <= 1 || rounds <= |topo.roster| - |seeds|
      decreases !world.stopRequested, |topo.roster| - |world.active|
    {
      ghost var before := world.active;
      SubsetCardinality(before, topo.Agents());
      ThresholdRound(world, theta);
      forall t: set<AgentId> | seeds <= t && Closed(topo, theta, t) ensures world.active <= t {
        NextStaysInside(topo, theta, before, t);
      }
      SubsetCardinality(before, world.active);
      SubsetCardinality(world.active, topo.Agents());
      rounds := rounds + 1;
    }
  }

  // ---- what the outcome depends on ----

  /** The outcome is determined by seeds, links and thresholds; the order of the roster plays no part. */
  lemma RosterOrderIrrelevant(one: Topology, two: Topology, theta: Thresholds, seeds: set<AgentId>, s: set<AgentId>, t: set<AgentId>)
    requires one.WellFormed() && two.WellFormed() && one.links == two.links
    requires IsLeastClosed(one, theta, seeds, s) && IsLeastClosed(two, theta, seeds, t)
    ensures s == t
  {
    assert forall id :: id in one.roster <==> id in one.links;
    assert forall id :: id in two.roster <==> id in two.links;
    assert forall u :: Closed(one, theta, u) <==> Closed(two, theta, u) by {
      hide Fires;
      forall u ensures Closed(one, theta, u) <==> Closed(two, theta, u) {
        forall id | id in one.links ensures Fires(one, theta, u, id) == Fires(two, theta, u, id) {
          SameLinksSameFire(one, two, theta, u, id);
        }
      }
    }
    hide Closed;
    assert s <= t && t <= s;
  }

  lemma SameLinksSameFire(one: Topology, two: Topology, theta: Thresholds, u: set<AgentId>, id: AgentId)
    requires one.links == two.links && id in one.links
    ensures Fires(one, theta, u, id) == Fires(two, theta, u, id)
  { }

  /** More seeds and lower thresholds never shrink the outcome. */
  lemma OutcomeMonotone(topo: Topology, low: Thresholds, high: Thresholds, more: set<AgentId>, fewer: set<AgentId>,
                        s: set<AgentId>, t: set<AgentId>)
    requires topo.WellFormed() && fewer <= more && NoHigher(topo, low, high)
    requires IsLeastClosed(topo, low, more, s) && IsLeastClosed(topo, high, fewer, t)
    ensures t <= s
  {
    assert Closed(topo, high, s) by {
      forall id | id in topo.roster && Fires(topo, high, s, id) ensures id in s {
        FiresMonotone(topo, low, high, s, s, id);
      }
    }
  }
}
