// Deffuant pairwise bounded confidence: what any sequence of interactions conserves and dissipates.
module Deffuant {
  import opened RealSums
  import opened Agents
  import opened Opinions

  datatype Config = Config(epsilon: real, mu: real, pairsPerStep: nat)

  type Event = (AgentId, AgentId)

  /** The generator: `pick(k, bound)` is the `k`-th draw, taken uniformly below `bound`. */
  type Draws = (nat, nat) -> nat

  ghost predicate Bounded(pick: Draws) {
    forall k, bound :: bound > 0 ==> pick(k, bound) < bound
  }

  /** Candidate partners exclude the agent itself. */
  function Partners(nbs: seq<AgentId>, i: AgentId): seq<AgentId> {
    if |nbs| == 0 then []
    else
      var rest := Partners(nbs[..|nbs| - 1], i);
      if nbs[|nbs| - 1] != i then rest + [nbs[|nbs| - 1]] else rest
  }

  lemma {:induction false} PartnersAreNeighbors(nbs: seq<AgentId>, i: AgentId)
    ensures forall j :: j in Partners(nbs, i) <==> j in nbs && j != i
  {
    if |nbs| > 0 {
      PartnersAreNeighbors(nbs[..|nbs| - 1], i);
      assert nbs == nbs[..|nbs| - 1] + [nbs[|nbs| - 1]];
    }
  }

  predicate Interacts(cfg: Config, x: Profile, e: Event) {
    Abs(Value(x, e.0) - Value(x, e.1)) <= cfg.epsilon
  }

  /** `xi` moved a fraction mu of the gap toward `xj`. */
  function Toward(mu: real, xi: real, xj: real): real { xi + mu * (xj - xi) }

  /** One drawn pair: both move a fraction mu of the gap, from their opinions before the event. */
  function Meet(cfg: Config, x: Profile, e: Event): Profile {
    if Interacts(cfg, x, e) then
      var xi, xj := Value(x, e.0), Value(x, e.1);
      x[e.0 := Toward(cfg.mu, xi, xj)][e.1 := Toward(cfg.mu, xj, xi)]
    else x
  }

  function MeetAll(cfg: Config, x: Profile, events: seq<Event>): Profile {
    if |events| == 0 then x else Meet(cfg, MeetAll(cfg, x, events[..|events| - 1]), events[|events| - 1])
  }

  /** One attempt from draw `pos` on: the pair it draws, if the agent has a partner, and the next draw. */
  function DrawOne(topo: Topology, pool: seq<AgentId>, pick: Draws, pos: nat): (seq<Event>, nat)
    requires |pool| > 0 && topo.WellFormed() && Bounded(pick) && forall id :: id in pool ==> id in topo.roster
  {
    var i := pool[pick(pos, |pool|)];
    assert i in pool;
    var candidates := Partners(topo.links[i], i);
    if |candidates| == 0 then ([], pos + 1)
    else ([(i, candidates[pick(pos + 1, |candidates|)])], pos + 2)
  }

  /** All pairs drawn in `n` attempts. */
  function Drawn(topo: Topology, pool: seq<AgentId>, pick: Draws, pos: nat, n: nat): (seq<Event>, nat)
    requires |pool| > 0 && topo.WellFormed() && Bounded(pick) && forall id :: id in pool ==> id in topo.roster
  {
    if n == 0 then ([], pos)
    else
      var (events, at) := Drawn(topo, pool, pick, pos, n - 1);
      var (one, next) := DrawOne(topo, pool, pick, at);
      (events + one, next)
  }

  lemma MeetAllConcat(cfg: Config, x: Profile, events: seq<Event>, one: seq<Event>)
    requires |one| <= 1
    ensures MeetAll(cfg, x, events + one) == MeetAll(cfg, MeetAll(cfg, x, events), one)
  {
    if |one| == 0 {
      assert events + one == events;
    } else {
      assert (events + one)[..|events|] == events && one[..0] == [];
    }
  }

  /** One attempt on the world: the body of the mechanism's loop. */
  method Attempt(cfg: Config, world: OpinionWorld, pool: seq<AgentId>, pick: Draws, pos: nat) returns (pos': nat)
    requires world.Valid() && Bounded(pick) && |pool| > 0 && forall id :: id in pool ==> id in world.topology.roster
    modifies world
    ensures world.Valid()
    ensures var (one, next) := DrawOne(world.topology, pool, pick, pos);
            pos' == next && world.opinion == MeetAll(cfg, old(world.opinion), one)
  {
    hide Toward;
    var i := pool[pick(pos, |pool|)];
    assert i in pool;
    var candidates := Partners(world.topology.links[i], i);
    PartnersAreNeighbors(world.topology.links[i], i);
    if |candidates| == 0 {
      return pos + 1;
    }
    var j := candidates[pick(pos + 1, |candidates|)];
    assert j in candidates;
    pos' := pos + 2;
    MeetAllConcat(cfg, world.opinion, [], [(i, j)]);
    assert [] + [(i, j)] == [(i, j)];
    var xi, xj := Value(world.opinion, i), Value(world.opinion, j);
    if Abs(xi - xj) <= cfg.epsilon {
      world.SetOpinion(i, Toward(cfg.mu, xi, xj));
      world.SetOpinion(j, Toward(cfg.mu, xj, xi));
    }
  }

  /** The mechanism's `apply`: `pairsPerStep` attempts over the scheduler's order, or over the roster. */
  method Apply(cfg: Config, world: OpinionWorld, agentOrder: seq<AgentId>, pick: Draws, pos: nat) returns (pos': nat)
    requires world.Valid() && Bounded(pick)
    requires forall id :: id in agentOrder ==> id in world.topology.roster
    modifies world
    ensures world.Valid()
    ensures var pool := if |agentOrder| == 0 then world.topology.roster else agentOrder;
            if |pool| == 0 then world.opinion == old(world.opinion) && pos' == pos
            else var (events, at) := Drawn(world.topology, pool, pick, pos, cfg.pairsPerStep);
                 world.opinion == MeetAll(cfg, old(world.opinion), events) && pos' == at
  {
    var pool := if |agentOrder| == 0 then world.topology.roster else agentOrder;
    pos' := pos;
    if |pool| == 0 {
      return;
    }
    hide DrawOne;
    ghost var x := world.opinion;
    for n := 0 to cfg.pairsPerStep
      invariant world.Valid()
      invariant pos' == Drawn(world.topology, pool, pick, pos, n).1
      invariant world.opinion == MeetAll(cfg, x, Drawn(world.topology, pool, pick, pos, n).0)
    {
      DrawOneIsValid(world.topology, pool, pick, pos');
      MeetAllConcat(cfg, x, Drawn(world.topology, pool, pick, pos, n).0, DrawOne(world.topology, pool, pick, pos').0);
      pos' := Attempt(cfg, world, pool, pick, pos');
    }
  }

  // ---- conservation and dissipation ----

  /** Two different agents of the roster. */
  ghost predicate ValidEvents(roster: seq<AgentId>, events: seq<Event>) {
    forall k :: 0 <= k < |events| ==> events[k].0 in roster && events[k].1 in roster && events[k].0 != events[k].1
  }

  lemma DrawOneIsValid(topo: Topology, pool: seq<AgentId>, pick: Draws, pos: nat)
    requires topo.WellFormed() && Bounded(pick) && |pool| > 0 && forall id :: id in pool ==> id in topo.roster
    ensures |DrawOne(topo, pool, pick, pos).0| <= 1 && ValidEvents(topo.roster, DrawOne(topo, pool, pick, pos).0)
  {
    var i := pool[pick(pos, |pool|)];
    assert i in pool;
    var candidates := Partners(topo.links[i], i);
    PartnersAreNeighbors(topo.links[i], i);
    if |candidates| > 0 {
      var j := candidates[pick(pos + 1, |candidates|)];
      assert j in candidates;
    }
  }

  /** Every pair the mechanism draws is a pair of different roster agents. */
  lemma {:induction false} DrawnAreValid(topo: Topology, pool: seq<AgentId>, pick: Draws, pos: nat, n: nat)
    requires topo.WellFormed() && Bounded(pick) && |pool| > 0 && forall id :: id in pool ==> id in topo.roster
    ensures ValidEvents(topo.roster, Drawn(topo, pool, pick, pos, n).0)
  {
    hide DrawOne;
    if n > 0 {
      DrawnAreValid(topo, pool, pick, pos, n - 1);
      DrawOneIsValid(topo, pool, pick, Drawn(topo, pool, pick, pos, n - 1).1);
    }
  }

  /** What one event takes from the sum of squares. */
  function Loss(cfg: Config, x: Profile, e: Event): real {
    if Interacts(cfg, x, e) then GapLoss(cfg.mu, Value(x, e.0) - Value(x, e.1)) else 0.0
  }

  function TotalLoss(cfg: Config, x: Profile, events: seq<Event>): real {
    if |events| == 0 then 0.0
    else TotalLoss(cfg, x, events[..|events| - 1]) + Loss(cfg, MeetAll(cfg, x, events[..|events| - 1]), events[|events| - 1])
  }

  function Rate(mu: real): real { 2.0 * mu * (1.0 - mu) }

  function GapLoss(mu: real, gap: real): real { Rate(mu) * Power(Second, gap) }

  lemma Contraction(mu: real, xi: real, xj: real)
    ensures Toward(mu, xi, xj) + Toward(mu, xj, xi) == xi + xj
    ensures Power(Second, Toward(mu, xi, xj)) + Power(Second, Toward(mu, xj, xi))
         == Power(Second, xi) + Power(Second, xj) - GapLoss(mu, xi - xj)
  {
    var d := xj - xi;
    var m := mu * d;
    assert mu * (xi - xj) == -m;
    assert (xi + m) * (xi + m) == xi * xi + 2.0 * xi * m + m * m;
    assert (xj - m) * (xj - m) == xj * xj - 2.0 * xj * m + m * m;
    assert 2.0 * xi * m - 2.0 * xj * m == -2.0 * (d * m);
    assert d * m == mu * (d * d) && m * m == mu * (mu * (d * d));
    assert Rate(mu) * (d * d) == 2.0 * (mu * (d * d)) - 2.0 * (mu * (mu * (d * d)));
    assert Power(Second, xi - xj) == d * d;
  }

  /** What an event does to the two agents: within the bound both move toward each other by the fraction mu of the gap,
      so the gap shrinks by the factor 1 - 2 mu without a swap of roles; beyond it nothing happens. Nobody else moves. */
  lemma MeetShrinksGap(cfg: Config, x: Profile, e: Event)
    requires e.0 in x && e.1 in x && e.0 != e.1
    ensures var y := Meet(cfg, x, e);
            var gap := x[e.1] - x[e.0];
            && (forall id :: id in y <==> id in x)
            && (forall id :: id in x && id != e.0 && id != e.1 ==> y[id] == x[id])
            && (if -cfg.epsilon <= gap <= cfg.epsilon then y[e.0] - x[e.0] == cfg.mu * gap && x[e.1] - y[e.1] == cfg.mu * gap
                else y == x)
            && (-cfg.epsilon <= gap <= cfg.epsilon ==> y[e.1] - y[e.0] == (1.0 - 2.0 * cfg.mu) * gap)
  {
    var xi, xj, mu := x[e.0], x[e.1], cfg.mu;
    assert mu * (xi - xj) == -(mu * (xj - xi));
    assert (1.0 - 2.0 * mu) * (xj - xi) == (xj - xi) - 2.0 * (mu * (xj - xi));
  }

  lemma Toward01(mu: real, xi: real, xj: real, a: real, b: real)
    requires 0.0 <= mu <= 1.0 && a <= xi <= b && a <= xj <= b
    ensures a <= Toward(mu, xi, xj) <= b
  {
    var w := 1.0 - mu;
    ProductNonNegative(w, xi - a);
    ProductNonNegative(mu, xj - a);
    ProductNonNegative(w, b - xi);
    ProductNonNegative(mu, b - xj);
    assert mu * (xj - xi) == mu * (xj - a) - mu * (xi - a) == mu * (b - xi) - mu * (b - xj);
    assert w * (xi - a) == (xi - a) - mu * (xi - a) && w * (b - xi) == (b - xi) - mu * (b - xi);
  }

  /** With a rate in [0, 1] no run leaves the initial range of opinions. */
  lemma {:induction false} RangeNeverWidens(cfg: Config, x: Profile, events: seq<Event>, a: real, b: real)
    requires 0.0 <= cfg.mu <= 1.0 && forall id :: id in x ==> a <= x[id] <= b
    requires forall k :: 0 <= k < |events| ==> events[k].0 in x && events[k].1 in x
    ensures var y := MeetAll(cfg, x, events);
            (forall id :: id in y <==> id in x) && forall id :: id in y ==> a <= y[id] <= b
  {
    if |events| > 0 {
      var n := |events| - 1;
      RangeNeverWidens(cfg, x, events[..n], a, b);
      var y := MeetAll(cfg, x, events[..n]);
      var (i, j) := events[n];
      Toward01(cfg.mu, y[i], y[j], a, b);
      Toward01(cfg.mu, y[j], y[i], a, b);
    }
  }

  /** Every pair of an agent of the pool and another of its neighbours can be drawn. */
  lemma EveryPairDrawable(topo: Topology, pool: seq<AgentId>, pos: nat, i: AgentId, j: AgentId) returns (pick: Draws)
    requires |pool| > 0 && topo.WellFormed() && (forall id :: id in pool ==> id in topo.roster)
    requires i in pool && j in topo.links[i] && j != i
    ensures Bounded(pick) && DrawOne(topo, pool, pick, pos) == ([(i, j)], pos + 2)
  {
    var at :| 0 <= at < |pool| && pool[at] == i;
    var candidates := Partners(topo.links[i], i);
    PartnersAreNeighbors(topo.links[i], i);
    var c :| 0 <= c < |candidates| && candidates[c] == j;
    pick := (k: nat, bound: nat) => if k == pos && at < bound then at as nat else if k == pos + 1 && c < bound then c as nat else 0;
  }

  /** A step makes its number of attempts: one draw for each, and one more for each that found a partner. */
  lemma {:induction false} AttemptsAndDraws(topo: Topology, pool: seq<AgentId>, pick: Draws, pos: nat, n: nat)
    requires |pool| > 0 && topo.WellFormed() && Bounded(pick) && forall id :: id in pool ==> id in topo.roster
    ensures var (events, at) := Drawn(topo, pool, pick, pos, n); at - pos == n + |events| && |events| <= n
  {
    if n > 0 {
      AttemptsAndDraws(topo, pool, pick, pos, n - 1);
    }
  }

  lemma MeetConserves(cfg: Config, roster: seq<AgentId>, x: Profile, e: Event)
    requires Distinct(roster) && (forall id :: id in roster ==> id in x)
    requires e.0 in roster && e.1 in roster && e.0 != e.1
    ensures Total(First, roster, Meet(cfg, x, e)) == Total(First, roster, x)
    ensures Total(Second, roster, Meet(cfg, x, e)) == Total(Second, roster, x) - Loss(cfg, x, e)
  {
    if Interacts(cfg, x, e) {
      var (i, j) := e;
      var xi, xj := x[i], x[j];
      var yi, yj := Toward(cfg.mu, xi, xj), Toward(cfg.mu, xj, xi);
      Contraction(cfg.mu, xi, xj);
      hide Power, GapLoss, Toward;
      assert Meet(cfg, x, e) == x[i := yi][j := yj];
      TotalUpdate(First, roster, x, i, yi);
      TotalUpdate(First, roster, x[i := yi], j, yj);
      TotalUpdate(Second, roster, x, i, yi);
      TotalUpdate(Second, roster, x[i := yi], j, yj);
    }
  }

  /** Any sequence of events keeps the sum of opinions, hence their mean, and lowers the sum of
      squares by exactly 2 mu (1 - mu) times the squared gap of each interacting pair. */
  lemma {:induction false} EventsConserve(cfg: Config, roster: seq<AgentId>, x: Profile, events: seq<Event>)
    requires Distinct(roster) && (forall id :: id in roster ==> id in x) && ValidEvents(roster, events)
    ensures forall id :: id in roster ==> id in MeetAll(cfg, x, events)
    ensures Total(First, roster, MeetAll(cfg, x, events)) == Total(First, roster, x)
    ensures Total(Second, roster, MeetAll(cfg, x, events)) == Total(Second, roster, x) - TotalLoss(cfg, x, events)
  {
    if |events| > 0 {
      var n := |events| - 1;
      EventsConserve(cfg, roster, x, events[..n]);
      MeetConserves(cfg, roster, MeetAll(cfg, x, events[..n]), events[n]);
    }
  }

  lemma LossNonNegative(cfg: Config, x: Profile, e: Event)
    requires 0.0 < cfg.mu < 1.0
    ensures Loss(cfg, x, e) >= 0.0
    ensures Loss(cfg, x, e) == 0.0 <==> !Interacts(cfg, x, e) || Value(x, e.0) == Value(x, e.1)
  {
    RatePositive(cfg.mu);
    SquarePositive(Value(x, e.0) - Value(x, e.1));
    hide Rate, Power;
    Positive(Rate(cfg.mu), Power(Second, Value(x, e.0) - Value(x, e.1)));
  }

  lemma RatePositive(mu: real)
    requires 0.0 < mu < 1.0
    ensures Rate(mu) > 0.0
  {
    var w := 1.0 - mu;
    assert mu * w > 0.0;
  }

  lemma SquarePositive(g: real)
    ensures g == 0.0 ==> Power(Second, g) == 0.0
    ensures g != 0.0 ==> Power(Second, g) > 0.0
  {
    if g > 0.0 {
      ProductPositive(g, g, Power(Second, g));
    } else if g < 0.0 {
      ProductPositive(-g, -g, Power(Second, g));
    }
  }

  lemma ProductPositive(g: real, h: real, p: real)
    requires g > 0.0 && h > 0.0 && p == g * h
    ensures p > 0.0
  { }

  lemma Positive(a: real, b: real)
    requires a > 0.0 && b >= 0.0
    ensures a * b >= 0.0 && (a * b == 0.0 <==> b == 0.0)
  { }

  lemma {:induction false} TotalLossVanishes(cfg: Config, x: Profile, events: seq<Event>)
    requires 0.0 < cfg.mu < 1.0
    ensures TotalLoss(cfg, x, events) >= 0.0
    ensures TotalLoss(cfg, x, events) == 0.0 <==>
            forall k :: 0 <= k < |events| ==> Loss(cfg, MeetAll(cfg, x, events[..k]), events[k]) == 0.0
  {
    hide Loss, MeetAll;
    if |events| > 0 {
      var n := |events| - 1;
      TotalLossVanishes(cfg, x, events[..n]);
      LossNonNegative(cfg, MeetAll(cfg, x, events[..n]), events[n]);
      forall k | 0 <= k < n ensures events[..n][..k] == events[..k] && events[..n][k] == events[k] { }
    }
  }

  /** An event loses nothing exactly when it moves nobody. */
  lemma LossIffMoved(cfg: Config, x: Profile, e: Event)
    requires 0.0 < cfg.mu < 1.0 && e.0 in x && e.1 in x && e.0 != e.1
    ensures Loss(cfg, x, e) == 0.0 <==> Meet(cfg, x, e) == x
  {
    LossNonNegative(cfg, x, e);
    var xi, xj := x[e.0], x[e.1];
    if xi == xj {
      assert Toward(cfg.mu, xi, xj) == xi;
      assert x[e.0 := xi][e.1 := xj] == x;
    } else {
      TowardMoves(cfg.mu, xi, xj);
      assert Interacts(cfg, x, e) ==> Meet(cfg, x, e)[e.0] == Toward(cfg.mu, xi, xj);
    }
  }

  lemma TowardMoves(mu: real, xi: real, xj: real)
    requires 0.0 < mu && xi != xj
    ensures Toward(mu, xi, xj) != xi
  {
    if xi < xj {
      ProductPositive(mu, xj - xi, mu * (xj - xi));
    } else {
      ProductPositive(mu, xi - xj, mu * (xi - xj));
      assert mu * (xj - xi) == -(mu * (xi - xj));
    }
  }

  /** The sum of squares is the same after a run exactly when no event of the run moved anybody. */
  lemma UnchangedIffNothingMoved(cfg: Config, roster: seq<AgentId>, x: Profile, events: seq<Event>)
    requires Distinct(roster) && (forall id :: id in roster ==> id in x) && ValidEvents(roster, events)
    requires 0.0 < cfg.mu < 1.0
    ensures Total(Second, roster, MeetAll(cfg, x, events)) == Total(Second, roster, x) <==>
            forall k :: 0 <= k < |events| ==> MeetAll(cfg, x, events[..k + 1]) == MeetAll(cfg, x, events[..k])
  {
    hide Loss, TotalLoss, MeetAll;
    EventsConserve(cfg, roster, x, events);
    TotalLossVanishes(cfg, x, events);
    if TotalLoss(cfg, x, events) == 0.0 {
      forall k | 0 <= k < |events| ensures MeetAll(cfg, x, events[..k + 1]) == MeetAll(cfg, x, events[..k]) {
        EventLosesIffMoved(cfg, roster, x, events, k);
      }
    } else {
      var k :| 0 <= k < |events| && Loss(cfg, MeetAll(cfg, x, events[..k]), events[k]) != 0.0;
      EventLosesIffMoved(cfg, roster, x, events, k);
    }
  }

  lemma EventLosesIffMoved(cfg: Config, roster: seq<AgentId>, x: Profile, events: seq<Event>, k: nat)
    requires Distinct(roster) && (forall id :: id in roster ==> id in x) && ValidEvents(roster, events)
    requires 0.0 < cfg.mu < 1.0 && k < |events|
    ensures MeetAll(cfg, x, events[..k + 1]) == MeetAll(cfg, x, events[..k]) <==>
            Loss(cfg, MeetAll(cfg, x, events[..k]), events[k]) == 0.0
  {
    hide Loss, Meet;
    EventsConserve(cfg, roster, x, events[..k]);
    assert events[..k + 1][..k] == events[..k];
    LossIffMoved(cfg, MeetAll(cfg, x, events[..k]), events[k]);
  }
}
