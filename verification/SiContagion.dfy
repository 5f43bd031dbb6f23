// SI contagion with per-edge infection trials, and its relation to graph distance.
module SiContagion {
  import opened RealSums
  import opened Agents
  import opened Counting
  import opened BinaryStates
  import opened Reachability

  /** The generator: `u(k)` is its `k`-th uniform variate. */
  type Draws = nat -> real

  ghost predicate Uniform(u: Draws) {
    forall k :: 0.0 <= u(k) < 1.0
  }

  /** The order the scheduler supplies holds every agent of the roster once. */
  ghost predicate IsOrder(topo: Topology, order: seq<AgentId>) {
    NoRepeats(order) && forall id :: id in order <==> id in topo.roster
  }

  /** The roster stands in when the scheduler supplies no order. */
  function Visited(topo: Topology, order: seq<AgentId>): seq<AgentId> {
    if |order| == 0 then topo.roster else order
  }

  /** The counter test that ends the contagion: nobody new, or as many as there are agents. */
  predicate CountsOut(topo: Topology, a: set<AgentId>, newly: seq<AgentId>) {
    |newly| == 0 || CountIn(topo.roster, a) + |newly| >= |topo.roster|
  }

  function Clamp(beta: real): (p: real)
    ensures 0.0 <= beta <= 1.0 ==> p == beta
    ensures beta < 0.0 ==> p == 0.0
    ensures beta > 1.0 ==> p == 1.0
  {
    Min(Max(beta, 0.0), 1.0)
  }

  /** One trial per active neighbour from `nbs[k]` on, stopping at the first success. */
  function Trials(nbs: seq<AgentId>, k: nat, a: set<AgentId>, p: real, u: Draws, pos: nat): (r: (bool, nat))
    requires k <= |nbs|
    decreases |nbs| - k
  {
    if k == |nbs| then (false, pos)
    else if nbs[k] !in a then Trials(nbs, k + 1, a, p, u, pos)
    else if u(pos) < p then (true, pos + 1)
    else Trials(nbs, k + 1, a, p, u, pos + 1)
  }

  /** The agents infected when `order` is visited against the snapshot `a`, and the next draw. */
  function Infections(topo: Topology, order: seq<AgentId>, a: set<AgentId>, p: real, u: Draws, pos: nat): (seq<AgentId>, nat) {
    if |order| == 0 then ([], pos)
    else
      var id := order[|order| - 1];
      var (newly, at) := Infections(topo, order[..|order| - 1], a, p, u, pos);
      if id in a || id !in topo.links then (newly, at)
      else
        var (infected, next) := Trials(topo.links[id], 0, a, p, u, at);
        (if infected then newly + [id] else newly, next)
  }

  ghost function Step(topo: Topology, order: seq<AgentId>, a: set<AgentId>, p: real, u: Draws, pos: nat): set<AgentId> {
    a + Elements(Infections(topo, order, a, p, u, pos).0)
  }

  /** The infection trials of one inactive agent. */
  method Expose(world: BinaryWorld, id: AgentId, p: real, u: Draws, pos: nat) returns (infected: bool, pos': nat)
    requires world.Valid() && id in world.topology.links
    ensures (infected, pos') == Trials(world.topology.links[id], 0, world.active, p, u, pos)
    ensures infected <==> exists i: nat :: pos <= i < pos + CountIn(world.topology.links[id], world.active) && u(i) < p
  {
    TrialsIff(world.topology.links[id], 0, world.active, p, u, pos);
    assert world.topology.links[id][0..] == world.topology.links[id];
    var nbs := world.topology.links[id];
    infected, pos' := false, pos;
    var k := 0;
    while k < |nbs| && !infected
      invariant 0 <= k <= |nbs|
      invariant if infected then Trials(nbs, 0, world.active, p, u, pos) == (true, pos')
                else Trials(nbs, 0, world.active, p, u, pos) == Trials(nbs, k, world.active, p, u, pos')
      decreases |nbs| - k, !infected
    {
      if nbs[k] in world.active {
        infected := u(pos') < p;
        pos' := pos' + 1;
      }
      k := k + 1;
    }
  }

  /** The visit of all agents in order: who is newly infected, against an unchanging snapshot. */
  method Scan(world: BinaryWorld, order: seq<AgentId>, p: real, u: Draws, pos: nat) returns (newly: seq<AgentId>, pos': nat)
    requires world.Valid() && forall id :: id in order ==> id in world.topology.roster
    ensures (newly, pos') == Infections(world.topology, order, world.active, p, u, pos)
  {
    hide Trials;
    newly, pos' := [], pos;
    for k := 0 to |order|
      invariant (newly, pos') == Infections(world.topology, order[..k], world.active, p, u, pos)
    {
      assert order[..k + 1][..k] == order[..k];
      var id := order[k];
      assert id in order;
      if id !in world.active {
        var infected;
        infected, pos' := Expose(world, id, p, u, pos');
        if infected {
          newly := newly + [id];
        }
      }
    }
    assert order[..|order|] == order;
  }

  /** The mechanism's `apply`: visits the scheduler's order, or the roster when there is none. */
  method Apply(world: BinaryWorld, beta: real, agentOrder: seq<AgentId>, u: Draws, pos: nat) returns (pos': nat)
    requires world.Valid() && forall id :: id in agentOrder ==> id in world.topology.roster
    modifies world
    ensures world.Valid()
    ensures var order := Visited(world.topology, agentOrder);
            var (newly, next) := Infections(world.topology, order, old(world.active), Clamp(beta), u, pos);
            && world.active == Step(world.topology, order, old(world.active), Clamp(beta), u, pos)
            && pos' == next
            && world.stopRequested == (old(world.stopRequested) || CountsOut(world.topology, old(world.active), newly))
  {
    var order := Visited(world.topology, agentOrder);
    var newly;
    newly, pos' := Scan(world, order, Clamp(beta), u, pos);
    InfectionsFromOrder(world.topology, order, world.active, Clamp(beta), u, pos);
    hide Infections;
    var prevActive := CountIn(world.topology.roster, world.active);
    ActivateAll(world, newly);
    if |newly| == 0 || prevActive + |newly| >= |world.topology.roster| {
      world.stopRequested := true;
    }
  }

  /** When the order holds every agent once, the counter test says that nothing changed or everybody is active. */
  lemma CountsOutIffSaturated(topo: Topology, agentOrder: seq<AgentId>, a: set<AgentId>, p: real, u: Draws, pos: nat)
    requires topo.WellFormed() && a <= topo.Agents() && IsOrder(topo, Visited(topo, agentOrder))
    ensures var order := Visited(topo, agentOrder);
            CountsOut(topo, a, Infections(topo, order, a, p, u, pos).0) <==> Saturated(topo, a, Step(topo, order, a, p, u, pos))
  {
    var order := Visited(topo, agentOrder);
    InfectionsAreNew(topo, order, a, p, u, pos);
    TotalActive(topo, a, Infections(topo, order, a, p, u, pos).0);
  }

  lemma {:induction false} InfectionsFromOrder(topo: Topology, order: seq<AgentId>, a: set<AgentId>, p: real, u: Draws, pos: nat)
    ensures forall id :: id in Infections(topo, order, a, p, u, pos).0 ==> id in order
  {
    hide Trials;
    if |order| > 0 {
      InfectionsFromOrder(topo, order[..|order| - 1], a, p, u, pos);
    }
  }

  lemma {:induction false} InfectionsAreNew(topo: Topology, order: seq<AgentId>, a: set<AgentId>, p: real, u: Draws, pos: nat)
    requires NoRepeats(order)
    ensures var newly := Infections(topo, order, a, p, u, pos).0;
            NoRepeats(newly) && forall id :: id in newly ==> id in order && id !in a && id in topo.links
  {
    hide Trials;
    if |order| > 0 {
      InfectionsAreNew(topo, order[..|order| - 1], a, p, u, pos);
      assert order == order[..|order| - 1] + [order[|order| - 1]];
    }
  }

  // ---- contagion and distance ----

  /** A trial can only succeed through an active neighbour, and must succeed there when p is 1. */
  lemma {:induction false} TrialsNeedContact(nbs: seq<AgentId>, k: nat, a: set<AgentId>, p: real, u: Draws, pos: nat)
    requires k <= |nbs| && Uniform(u)
    ensures Trials(nbs, k, a, p, u, pos).0 ==> exists nb :: nb in nbs && nb in a
    ensures p >= 1.0 && (exists j :: k <= j < |nbs| && nbs[j] in a) ==> Trials(nbs, k, a, p, u, pos).0
    decreases |nbs| - k
  {
    if k < |nbs| {
      TrialsNeedContact(nbs, k + 1, a, p, u, pos);
      TrialsNeedContact(nbs, k + 1, a, p, u, pos + 1);
      assert nbs[k] in nbs;
    }
  }

  /** A trial per active neighbour in order: the agent is infected exactly when one of the draws from `pos` on, as many
      as there are active neighbours, falls below `p`; the draws are used up to the first that does. */
  lemma {:induction false} TrialsIff(nbs: seq<AgentId>, k: nat, a: set<AgentId>, p: real, u: Draws, pos: nat)
    requires k <= |nbs|
    ensures var (infected, next) := Trials(nbs, k, a, p, u, pos);
            && (infected <==> exists i: nat :: pos <= i < pos + CountIn(nbs[k..], a) && u(i) < p)
            && (infected ==> next > pos && next - pos <= CountIn(nbs[k..], a) && u(next - 1) < p && forall m: nat :: pos <= m < next - 1 ==> u(m) >= p)
            && (!infected ==> next == pos + CountIn(nbs[k..], a))
    decreases |nbs| - k
  {
    if k < |nbs| {
      CountInFirst(nbs[k..], a);
      assert nbs[k..][1..] == nbs[k + 1..];
      if nbs[k] !in a {
        TrialsIff(nbs, k + 1, a, p, u, pos);
      } else {
        if u(pos) >= p {
          TrialsIff(nbs, k + 1, a, p, u, pos + 1);
        }
      }
    }
  }

  /** Who is infected in a visit: each inactive agent for which one of its trials succeeds, with one draw per active
      neighbour following the draws used for the agents visited before it. */
  lemma {:induction false} InfectedIff(topo: Topology, order: seq<AgentId>, a: set<AgentId>, p: real, u: Draws, pos: nat, k: nat)
    requires NoRepeats(order) && k < |order|
    ensures var id := order[k];
            var at := Infections(topo, order[..k], a, p, u, pos).1;
            id in Infections(topo, order, a, p, u, pos).0 <==>
              && id !in a && id in topo.links
              && exists i: nat :: at <= i < at + CountIn(topo.links[id], a) && u(i) < p
  {
    hide Trials;
    var n := |order| - 1;
    if k < n {
      assert order[..n][..k] == order[..k];
      InfectedIff(topo, order[..n], a, p, u, pos, k);
    } else {
      InfectionsFromOrder(topo, order[..n], a, p, u, pos);
      if order[n] !in a && order[n] in topo.links {
        TrialsIff(topo.links[order[n]], 0, a, p, u, Infections(topo, order[..n], a, p, u, pos).1);
        assert topo.links[order[n]][0..] == topo.links[order[n]];
      }
    }
  }

  lemma {:induction false} InfectionsNeedContact(topo: Topology, order: seq<AgentId>, a: set<AgentId>, p: real, u: Draws, pos: nat)
    requires Uniform(u)
    ensures forall id :: id in Infections(topo, order, a, p, u, pos).0 ==>
              id in topo.links && exists nb :: nb in topo.links[id] && nb in a
    ensures forall id :: p >= 1.0 && id in order && id !in a && id in topo.links && (exists nb :: nb in topo.links[id] && nb in a)
              ==> id in Infections(topo, order, a, p, u, pos).0
  {
    if |order| > 0 {
      var n := |order| - 1;
      InfectionsNeedContact(topo, order[..n], a, p, u, pos);
      assert order == order[..n] + [order[n]];
      if order[n] in topo.links {
        TrialsNeedContact(topo.links[order[n]], 0, a, p, u, Infections(topo, order[..n], a, p, u, pos).1);
      }
      hide Trials;
    }
  }

  /** A step infects only neighbours of infected agents; at p = 1 it infects all of them. */
  lemma StepInsideGrow(topo: Topology, order: seq<AgentId>, a: set<AgentId>, p: real, u: Draws, pos: nat)
    requires topo.WellFormed() && IsOrder(topo, order) && Uniform(u)
    ensures Step(topo, order, a, p, u, pos) <= Grow(topo, a)
    ensures p >= 1.0 ==> Step(topo, order, a, p, u, pos) == Grow(topo, a)
  {
    hide Infections;
    InfectionsNeedContact(topo, order, a, p, u, pos);
  }

  lemma GrowMonotone(topo: Topology, a: set<AgentId>, b: set<AgentId>)
    requires a <= b
    ensures Grow(topo, a) <= Grow(topo, b)
  { }

  /** The active set and the generator position after `k` rounds; round `t` visits `orders(t)`. */
  ghost function Rounds(topo: Topology, orders: nat -> seq<AgentId>, a: set<AgentId>, p: real, u: Draws, k: nat): (set<AgentId>, nat) {
    if k == 0 then (a, 0)
    else
      var (b, pos) := Rounds(topo, orders, a, p, u, k - 1);
      var order := Visited(topo, orders(k - 1));
      (Step(topo, order, b, p, u, pos), Infections(topo, order, b, p, u, pos).1)
  }

  /** Round `k` changes nothing or leaves everybody active. */
  ghost predicate SaturatedAt(topo: Topology, orders: nat -> seq<AgentId>, a: set<AgentId>, p: real, u: Draws, k: nat) {
    k > 0 && Saturated(topo, Rounds(topo, orders, a, p, u, k - 1).0, Rounds(topo, orders, a, p, u, k).0)
  }

  /** For every infection probability and every draw sequence, the agents active after `k` rounds lie
      within distance `k` of the seeds; with certain infection they are exactly those agents. */
  lemma {:induction false} ActiveWithinDistance(topo: Topology, orders: nat -> seq<AgentId>, seeds: set<AgentId>, p: real, u: Draws, k: nat)
    requires topo.WellFormed() && seeds <= topo.Agents() && Uniform(u) && forall t :: IsOrder(topo, Visited(topo, orders(t)))
    ensures Rounds(topo, orders, seeds, p, u, k).0 <= Ball(topo, seeds, k)
    ensures p >= 1.0 ==> Rounds(topo, orders, seeds, p, u, k).0 == Ball(topo, seeds, k)
  {
    hide Step, Grow;
    if k > 0 {
      ActiveWithinDistance(topo, orders, seeds, p, u, k - 1);
      var (b, pos) := Rounds(topo, orders, seeds, p, u, k - 1);
      StepInsideGrow(topo, Visited(topo, orders(k - 1)), b, p, u, pos);
      GrowMonotone(topo, b, Ball(topo, seeds, k - 1));
    }
  }

  lemma GrowStaysReachable(topo: Topology, seeds: set<AgentId>, a: set<AgentId>)
    requires a <= Reachable(topo, false, seeds) && (forall id :: id in topo.links <==> id in topo.roster)
    ensures Grow(topo, a) <= Reachable(topo, false, seeds)
  {
    forall i | i in topo.links && exists nb :: nb in topo.links[i] && nb in a ensures i in Reachable(topo, false, seeds) {
      var nb :| nb in topo.links[i] && nb in a;
      StepReachable(topo, false, seeds, nb, i);
    }
  }

  lemma FixedGrowIsClosed(topo: Topology, a: set<AgentId>)
    requires Grow(topo, a) == a || (forall i :: i in topo.links ==> i in a)
    ensures ClosedUnder(topo, false, a)
  {
    forall x, y | x in a && x in topo.links && y in topo.links && Linked(topo, false, x, y) ensures y in a {
      assert y in Grow(topo, a);
    }
  }

  /** One round of a run: the next active set, a stop exactly at saturation, and otherwise somebody new. */
  method Round(world: BinaryWorld, beta: real, order: seq<AgentId>, u: Draws, pos: nat) returns (pos': nat)
    requires world.Valid() && !world.stopRequested && IsOrder(world.topology, Visited(world.topology, order))
    modifies world
    ensures world.Valid() && old(world.active) <= world.active
    ensures var visited := Visited(world.topology, order);
            && world.active == Step(world.topology, visited, old(world.active), Clamp(beta), u, pos)
            && pos' == Infections(world.topology, visited, old(world.active), Clamp(beta), u, pos).1
    ensures world.stopRequested <==> Saturated(world.topology, old(world.active), world.active)
    ensures !world.stopRequested ==> |old(world.active)| < |world.active| < |world.topology.roster|
  {
    hide Step, Infections, CountsOut;
    ghost var topo, before := world.topology, world.active;
    GrowKeeps(topo, Visited(topo, order), before, Clamp(beta), u, pos);
    CountsOutIffSaturated(topo, order, before, Clamp(beta), u, pos);
    pos' := Apply(world, beta, order, u, pos);
    if !world.stopRequested {
      SubsetCardinality(before, world.active);
      SubsetCardinality(world.active, topo.Agents());
      assert topo.Agents() == Elements(topo.roster);
      ElementsCardinality(topo.roster);
    }
  }

  /** Saturation under certain infection means that nobody outside is reached. */
  lemma CertainSaturationIsClosed(topo: Topology, order: seq<AgentId>, a: set<AgentId>, u: Draws, pos: nat)
    requires topo.WellFormed() && IsOrder(topo, order) && Uniform(u) && a <= topo.Agents()
    requires Saturated(topo, a, Step(topo, order, a, 1.0, u, pos))
    ensures ClosedUnder(topo, false, Step(topo, order, a, 1.0, u, pos))
  {
    hide Step, ClosedUnder, Grow, IsOrder;
    StepInsideGrow(topo, order, a, 1.0, u, pos);
    FixedGrowIsClosed(topo, Step(topo, order, a, 1.0, u, pos));
  }

  /** Rounds until the mechanism asks to stop: exactly the rounds up to the first saturated one, at most
      max(1, n - |seeds|) of them. The outcome lies in the reachable set, and with beta at least 1 is that set. */
  method RunToStop(world: BinaryWorld, beta: real, orders: nat -> seq<AgentId>, u: Draws) returns (rounds: nat)
    requires world.Valid() && !world.stopRequested && Uniform(u)
    requires forall t :: IsOrder(world.topology, Visited(world.topology, orders(t)))
    modifies world
    ensures world.Valid() && world.stopRequested
    ensures world.active == Rounds(world.topology, orders, old(world.active), Clamp(beta), u, rounds).0
    ensures SaturatedAt(world.topology, orders, old(world.active), Clamp(beta), u, rounds)
    ensures forall k: nat :: k < rounds ==> !SaturatedAt(world.topology, orders, old(world.active), Clamp(beta), u, k)
    ensures 1 <= rounds <= (if |world.topology.roster| - |old(world.active)| > 1 then |world.topology.roster| - |old(world.active)| else 1)
    ensures old(world.active) <= world.active <= Reachable(world.topology, false, old(world.active))
    ensures beta >= 1.0 ==> world.active == Reachable(world.topology, false, old(world.active))
  {
    hide Reachable, ClosedUnder, IsOrder, Step, Infections, Grow, Clamp;
    ghost var topo, seeds, p := world.topology, world.active, Clamp(beta);
    var pos := 0;
    rounds := 0;
    assert (seeds, 0) == Rounds(topo, orders, seeds, p, u, 0) && !SaturatedAt(topo, orders, seeds, p, u, 0);
    hide Rounds, SaturatedAt, Saturated, Visited;
    SeedsReachable(topo, seeds);
    while !world.stopRequested
      invariant world.Valid() && seeds <= world.active <= Reachable(topo, false, seeds)
      invariant (world.active, pos) == Rounds(topo, orders, seeds, p, u, rounds)
      invariant forall k: nat :: k < rounds ==> !SaturatedAt(topo, orders, seeds, p, u, k)
      invariant world.stopRequested <==> SaturatedAt(topo, orders, seeds, p, u, rounds)
      invariant world.stopRequested && beta >= 1.0 ==> ClosedUnder(topo, false, world.active)
      invariant !world.stopRequested ==> |seeds| + rounds <= |world.active| && (rounds > 0 ==> |world.active| < |topo.roster|)
      invariant rounds <= 1 || rounds <= |topo.roster| - |seeds|
      decreases !world.stopRequested, |topo.roster| - |world.active|
    {
      ghost var before, order := world.active, Visited(topo, orders(rounds));
      NextRound(topo, orders, seeds, p, u, rounds, before, pos);
      StepInsideGrow(topo, order, before, p, u, pos);
      GrowStaysReachable(topo, seeds, before);
      if beta >= 1.0 && Saturated(topo, before, Step(topo, order, before, p, u, pos)) {
        CertainClamp(beta);
        CertainSaturationIsClosed(topo, order, before, u, pos);
      }
      SubsetCardinality(before, topo.Agents());
      pos := Round(world, beta, orders(rounds), u, pos);
      rounds := rounds + 1;
    }
    if beta >= 1.0 {
      ReachableIsLeast(topo, false, seeds, world.active);
    }
  }

  lemma NextRound(topo: Topology, orders: nat -> seq<AgentId>, seeds: set<AgentId>, p: real, u: Draws, k: nat, a: set<AgentId>, pos: nat)
    requires (a, pos) == Rounds(topo, orders, seeds, p, u, k)
    ensures var order := Visited(topo, orders(k));
            && Rounds(topo, orders, seeds, p, u, k + 1) == (Step(topo, order, a, p, u, pos), Infections(topo, order, a, p, u, pos).1)
            && (SaturatedAt(topo, orders, seeds, p, u, k + 1) <==> Saturated(topo, a, Step(topo, order, a, p, u, pos)))
  { }

  lemma CertainClamp(beta: real)
    requires beta >= 1.0
    ensures Clamp(beta) == 1.0
  { }

  lemma GrowKeeps(topo: Topology, order: seq<AgentId>, a: set<AgentId>, p: real, u: Draws, pos: nat)
    ensures a <= Step(topo, order, a, p, u, pos)
  { }

  lemma SeedsReachable(topo: Topology, seeds: set<AgentId>)
    requires topo.WellFormed() && seeds <= topo.Agents()
    ensures seeds <= Reachable(topo, false, seeds)
  {
    forall i | i in seeds ensures i in Reachable(topo, false, seeds) {
      SeedReachable(topo, false, seeds, i);
    }
  }
}
