// Hegselmann-Krause runs reach a fixed point: with the arithmetic mean and a symmetric bound on the complete
// graph, every run settles after finitely many steps.
module OpinionFreeze {
  import opened Options
  import opened RealSums
  import opened Sorting
  import opened Agents
  import opened Counting
  import opened Opinions
  import opened HegselmannKrause

  /** The setting of the theorem. */
  ghost predicate Classic(cfg: Config, topo: Topology, x: Profile) {
    Runnable(cfg, topo, x) && topo.Complete() && cfg.mean.Arithmetic? && cfg.Left() == cfg.Right()
  }

  ghost function Next(cfg: Config, topo: Topology, x: Profile, u: Draws, t: nat): (y: Profile)
    requires Classic(cfg, topo, x)
    ensures Covers(topo, y)
  {
    NonNegativeBoundsDefine(cfg, topo, x);
    Step(cfg, topo, x, u, t)
  }

  // ---- one agent's new opinion ----

  lemma NextIsMean(cfg: Config, topo: Topology, x: Profile, u: Draws, t: nat, id: AgentId)
    requires Classic(cfg, topo, x) && id in topo.roster
    ensures var vals := ConfSetOf(cfg, topo, x, id);
            |vals| > 0 && Next(cfg, topo, x, u, t)[id] == Ratio(Sum(vals), |vals|)
  {
    NonNegativeBoundsDefine(cfg, topo, x);
  }

  lemma {:induction false} ConfSetLength(cfg: Config, ids: seq<AgentId>, x: Profile, xi: real)
    ensures |ConfSet(cfg, ids, x, xi)| <= |ids|
  {
    if |ids| > 0 {
      ConfSetLength(cfg, ids[..|ids| - 1], x, xi);
    }
  }

  lemma WindowSize(cfg: Config, topo: Topology, x: Profile, id: AgentId)
    requires topo.WellFormed() && topo.Complete() && id in topo.roster
    ensures |ConfSetOf(cfg, topo, x, id)| <= |topo.roster|
  {
    var ids := ConfIds(topo, id);
    CompleteConfIds(topo, id, id);
    SortDedupSorts([id] + topo.links[id]);
    assert Elements(ids) == Elements(topo.roster);
    ElementsCardinality(ids);
    ElementsCardinality(topo.roster);
    ConfSetLength(cfg, ids, x, Value(x, id));
  }

  ghost predicate WindowAbove(cfg: Config, x: Profile, id: AgentId, a: real)
    requires id in x
  {
    forall k :: k in x && InWindow(cfg, x[id], x[k]) ==> a <= x[k]
  }

  ghost predicate WindowBelow(cfg: Config, x: Profile, id: AgentId, b: real)
    requires id in x
  {
    forall k :: k in x && InWindow(cfg, x[id], x[k]) ==> x[k] <= b
  }

  /** An agent whose window lies above `a` moves at least to `a`, and beyond it by an n-th of the distance of any
      opinion it sees. */
  lemma MovesAbove(cfg: Config, topo: Topology, x: Profile, u: Draws, t: nat, id: AgentId, a: real, w: AgentId)
    requires Classic(cfg, topo, x) && id in topo.roster && w in topo.roster
    requires WindowAbove(cfg, x, id, a) && InWindow(cfg, x[id], x[w])
    ensures Next(cfg, topo, x, u, t)[id] >= a
    ensures x[w] > a ==> Next(cfg, topo, x, u, t)[id] > a
    ensures Times(Next(cfg, topo, x, u, t)[id] - a, |topo.roster|) >= x[w] - a
  {
    hide Next, Times, Ratio, ConfSetOf, Sum;
    NextIsMean(cfg, topo, x, u, t, id);
    var vals := ConfSetOf(cfg, topo, x, id);
    WindowOf(cfg, topo, x, id);
    WindowSize(cfg, topo, x, id);
    assert AllAtLeast(vals, a);
    SumLifted(vals, a, x[w]);
    RatioLifted(Sum(vals), |vals|, |topo.roster|, a, x[w]);
  }

  lemma RatioLifted(sum: real, n: nat, most: nat, a: real, w: real)
    requires 0 < n <= most && w >= a && sum >= Times(a, n) + (w - a)
    ensures Ratio(sum, n) >= a && (w > a ==> Ratio(sum, n) > a)
    ensures Times(Ratio(sum, n) - a, most) >= w - a
  {
    var r := Ratio(sum, n);
    RatioBounds(sum, n, a, a);
    TimesMinus(r, a, n);
    TimesMore(r - a, n, most);
  }

  lemma TimesMinus(v: real, w: real, n: nat)
    ensures Times(v - w, n) == Times(v, n) - Times(w, n)
  { }

  lemma TimesMore(v: real, m: nat, n: nat)
    requires v >= 0.0 && m <= n
    ensures 0.0 <= Times(v, m) <= Times(v, n)
  {
    ProductNonNegative(v, m as real);
    ProductNonNegative(v, (n - m) as real);
    assert v * n as real == v * m as real + v * (n - m) as real;
  }

  /** An agent whose window lies below `b` moves at most to `b`, strictly below it if it sees something below. */
  lemma MovesBelow(cfg: Config, topo: Topology, x: Profile, u: Draws, t: nat, id: AgentId, b: real)
    requires Classic(cfg, topo, x) && id in topo.roster && WindowBelow(cfg, x, id, b)
    ensures Next(cfg, topo, x, u, t)[id] <= b
    ensures x[id] < b ==> Next(cfg, topo, x, u, t)[id] < b
  {
    hide Next, Times, Ratio, ConfSetOf, Sum;
    NextIsMean(cfg, topo, x, u, t, id);
    var vals := ConfSetOf(cfg, topo, x, id);
    WindowOf(cfg, topo, x, id);
    assert AllAtMost(vals, b) && InWindow(cfg, x[id], x[id]);
    SumLowered(vals, b, x[id]);
    RatioBounds(Sum(vals), |vals|, b, b);
  }

  /** A window that reaches beyond `b` by no more than `e` but holds an opinion `n e` below `b` averages to at most `b`. */
  lemma CappedMove(cfg: Config, topo: Topology, x: Profile, u: Draws, t: nat, id: AgentId, b: real, e: real, w: AgentId)
    requires Classic(cfg, topo, x) && id in topo.roster && w in topo.roster && e >= 0.0
    requires WindowBelow(cfg, x, id, b + e) && InWindow(cfg, x[id], x[w])
    requires x[w] <= b - Times(e, |topo.roster|)
    ensures Next(cfg, topo, x, u, t)[id] <= b
  {
    hide Next, Times, Ratio, ConfSetOf, Sum;
    NextIsMean(cfg, topo, x, u, t, id);
    var vals := ConfSetOf(cfg, topo, x, id);
    WindowOf(cfg, topo, x, id);
    WindowSize(cfg, topo, x, id);
    assert AllAtMost(vals, b + e);
    SumLowered(vals, b + e, x[w]);
    RatioCapped(Sum(vals), |vals|, |topo.roster|, b, e, x[w]);
  }

  lemma RatioCapped(sum: real, n: nat, most: nat, b: real, e: real, w: real)
    requires 0 < n <= most && e >= 0.0 && w <= b - Times(e, most) && sum <= Times(b + e, n) - (b + e - w)
    ensures Ratio(sum, n) <= b
  {
    TimesMore(e, n, most);
    TimesMinus(b + e, e, n);
    RatioBounds(sum, n, b, b);
    hide Times, Ratio;
    assert b + e - e == b;
  }

  lemma {:induction false} SameWindow(cfg: Config, ids: seq<AgentId>, x: Profile, xi: real, xj: real)
    requires forall k :: k in ids ==> InWindow(cfg, xi, Value(x, k)) == InWindow(cfg, xj, Value(x, k))
    ensures ConfSet(cfg, ids, x, xi) == ConfSet(cfg, ids, x, xj)
  {
    if |ids| > 0 {
      SameWindow(cfg, ids[..|ids| - 1], x, xi, xj);
    }
  }

  /** Agents that see the same agents move to the same opinion. */
  lemma SameMove(cfg: Config, topo: Topology, x: Profile, u: Draws, t: nat, i: AgentId, j: AgentId)
    requires Classic(cfg, topo, x) && i in topo.roster && j in topo.roster
    requires forall k :: k in x ==> InWindow(cfg, x[i], x[k]) == InWindow(cfg, x[j], x[k])
    ensures Next(cfg, topo, x, u, t)[i] == Next(cfg, topo, x, u, t)[j]
  {
    CompleteConfIds(topo, i, j);
    SameWindow(cfg, ConfIds(topo, i), x, x[i], x[j]);
  }

  lemma NextIsClassic(cfg: Config, topo: Topology, x: Profile, u: Draws, t: nat)
    requires Classic(cfg, topo, x)
    ensures Classic(cfg, topo, Next(cfg, topo, x, u, t))
    ensures forall i, j :: i in x && j in x && x[i] <= x[j] ==> Next(cfg, topo, x, u, t)[i] <= Next(cfg, topo, x, u, t)[j]
  {
    StepKeepsOrder(cfg, topo, x, u, t);
    var y := Next(cfg, topo, x, u, t);
    forall i, j | i in x && j in x && x[i] <= x[j] ensures y[i] <= y[j] {
      assert Value(x, i) <= Value(x, j);
      assert Value(y, i) <= Value(y, j);
    }
  }

  // ---- isolated agents ----

  /** Everybody else agrees with `i` or is out of its reach. */
  ghost predicate Isolated(x: Profile, i: AgentId, eps: real)
    requires i in x
  {
    forall k :: k in x ==> x[k] == x[i] || Abs(x[k] - x[i]) > eps
  }

  ghost function Unsettled(x: Profile, eps: real): (r: set<AgentId>)
    ensures forall i :: i in r ==> i in x
  {
    set i | i in x && !Isolated(x, i, eps)
  }

  lemma SettledIff(x: Profile, eps: real)
    ensures Settled(x, eps) <==> Unsettled(x, eps) == {}
  {
    if Unsettled(x, eps) == {} {
      forall i, j | i in x && j in x ensures x[i] == x[j] || Abs(x[i] - x[j]) > eps {
        assert i !in Unsettled(x, eps);
      }
    } else {
      var i :| i in Unsettled(x, eps);
    }
  }

  /** Isolated agents stay where they are, and isolated. */
  lemma IsolatedStays(cfg: Config, topo: Topology, x: Profile, u: Draws, t: nat, i: AgentId)
    requires Classic(cfg, topo, x) && i in topo.roster && Isolated(x, i, cfg.Left())
    ensures var y := Next(cfg, topo, x, u, t); y[i] == x[i] && Isolated(y, i, cfg.Left())
  {
    hide Next;
    var y := Next(cfg, topo, x, u, t);
    AgreeingStays(cfg, topo, x, u, t, i, i);
    forall k | k in y ensures y[k] == y[i] || Abs(y[k] - y[i]) > cfg.Left() {
      if x[k] == x[i] {
        AgreeingStays(cfg, topo, x, u, t, i, k);
      } else {
        OthersStayAway(cfg, topo, x, u, t, i, k);
      }
    }
  }

  lemma AgreeingStays(cfg: Config, topo: Topology, x: Profile, u: Draws, t: nat, i: AgentId, k: AgentId)
    requires Classic(cfg, topo, x) && i in topo.roster && k in topo.roster && Isolated(x, i, cfg.Left()) && x[k] == x[i]
    ensures Next(cfg, topo, x, u, t)[k] == x[i]
  {
    hide Next, Times;
    MovesBelow(cfg, topo, x, u, t, k, x[i]);
    MovesAbove(cfg, topo, x, u, t, k, x[i], k);
  }

  /** What an isolated agent does not reach never comes within its reach. */
  lemma OthersStayAway(cfg: Config, topo: Topology, x: Profile, u: Draws, t: nat, i: AgentId, k: AgentId)
    requires Classic(cfg, topo, x) && i in topo.roster && k in topo.roster && Isolated(x, i, cfg.Left()) && x[k] != x[i]
    ensures Abs(Next(cfg, topo, x, u, t)[k] - x[i]) > cfg.Left()
  {
    hide Next, Times;
    var eps := cfg.Left();
    var y := Next(cfg, topo, x, u, t);
    if x[k] > x[i] {
      var a := x[i] + eps;
      forall p | p in x && InWindow(cfg, x[k], x[p]) ensures a <= x[p] { }
      MovesAbove(cfg, topo, x, u, t, k, a, k);
    } else {
      var b := x[i] - eps;
      forall p | p in x && InWindow(cfg, x[k], x[p]) ensures x[p] <= b { }
      MovesBelow(cfg, topo, x, u, t, k, b);
    }
  }

  lemma UnsettledShrinks(cfg: Config, topo: Topology, x: Profile, u: Draws, t: nat)
    requires Classic(cfg, topo, x)
    ensures Unsettled(Next(cfg, topo, x, u, t), cfg.Left()) <= Unsettled(x, cfg.Left())
  {
    hide Next, Times;
    var y := Next(cfg, topo, x, u, t);
    forall i | i in Unsettled(y, cfg.Left()) ensures i in Unsettled(x, cfg.Left()) {
      assert i in topo.roster;
      if Isolated(x, i, cfg.Left()) {
        IsolatedStays(cfg, topo, x, u, t, i);
      }
    }
  }

  // ---- the lowest unsettled agent ----

  ghost predicate IsLowest(x: Profile, eps: real, low: AgentId) {
    low in Unsettled(x, eps) && forall k :: k in Unsettled(x, eps) ==> x[low] <= x[k]
  }

  /** It sees nothing below itself, and something above. */
  lemma LowestSees(cfg: Config, topo: Topology, x: Profile, low: AgentId)
    requires Classic(cfg, topo, x) && IsLowest(x, cfg.Left(), low)
    ensures forall p, k :: p in x && k in x && x[p] < x[low] <= x[k] ==> x[k] - x[p] > cfg.Left()
    ensures WindowAbove(cfg, x, low, x[low])
    ensures exists k :: k in x && x[low] < x[k] && InWindow(cfg, x[low], x[k])
  {
    forall p, k | p in x && k in x && x[p] < x[low] <= x[k] ensures x[k] - x[p] > cfg.Left() {
      assert p !in Unsettled(x, cfg.Left());
      assert Isolated(x, p, cfg.Left());
    }
    var k :| k in x && x[k] != x[low] && Abs(x[k] - x[low]) <= cfg.Left();
  }

  /** While it is unsettled it remains the lowest, and never moves down. */
  lemma StaysLowest(cfg: Config, topo: Topology, x: Profile, u: Draws, t: nat, low: AgentId)
    requires Classic(cfg, topo, x) && IsLowest(x, cfg.Left(), low)
    ensures var y := Next(cfg, topo, x, u, t);
            y[low] >= x[low] && (low in Unsettled(y, cfg.Left()) ==> IsLowest(y, cfg.Left(), low))
  {
    hide Next, Times, Isolated;
    LowestSees(cfg, topo, x, low);
    MovesAbove(cfg, topo, x, u, t, low, x[low], low);
    UnsettledShrinks(cfg, topo, x, u, t);
    NextIsClassic(cfg, topo, x, u, t);
  }

  /** The highest agent it sees. */
  lemma {:induction false} HighestSeen(cfg: Config, x: Profile, low: AgentId, k: AgentId) returns (j: AgentId)
    requires low in x && k in x && InWindow(cfg, x[low], x[k])
    ensures j in x && InWindow(cfg, x[low], x[j]) && x[k] <= x[j] && WindowBelow(cfg, x, low, x[j])
    decreases |Above(x, x[k])|
  {
    if m :| m in x && InWindow(cfg, x[low], x[m]) && x[m] > x[k] {
      ProperSubsetCardinality(Above(x, x[m]), Above(x, x[k]), m);
      j := HighestSeen(cfg, x, low, m);
    } else {
      j := k;
    }
  }

  /** `e` is an n-th of half the bound and `d` an n-th of `e`. */
  ghost predicate Scaled(cfg: Config, topo: Topology, e: real, d: real) {
    Times(e, |topo.roster|) == cfg.Left() / 2.0 && Times(d, |topo.roster|) == e && d >= 0.0
  }

  lemma ScaleOrder(cfg: Config, topo: Topology, e: real, d: real)
    requires Scaled(cfg, topo, e, d) && |topo.roster| > 0
    ensures 0.0 <= d <= e <= cfg.Left() / 2.0
  {
    TimesMore(d, 1, |topo.roster|);
    TimesMore(e, 1, |topo.roster|);
  }

  lemma TimesCancel(v: real, w: real, n: nat)
    requires n > 0 && Times(v, n) >= Times(w, n)
    ensures v >= w
  {
    TimesMinus(v, w, n);
    if v < w {
      StrictTimes(w - v, n);
      TimesMinus(w, v, n);
    }
  }

  lemma StrictTimes(v: real, n: nat)
    requires n > 0 && v > 0.0
    ensures Times(v, n) > 0.0
  {
    TimesMore(v, 1, n);
  }

  /** Within two steps the lowest unsettled agent settles or has risen by `d`. */
  lemma Progress(cfg: Config, topo: Topology, x: Profile, u: Draws, t: nat, low: AgentId, e: real, d: real)
    requires Classic(cfg, topo, x) && IsLowest(x, cfg.Left(), low) && Scaled(cfg, topo, e, d)
    ensures Classic(cfg, topo, Next(cfg, topo, x, u, t))
    ensures var y := Next(cfg, topo, x, u, t);
            var z := Next(cfg, topo, y, u, t + 1);
            low !in Unsettled(y, cfg.Left()) || z[low] >= x[low] + d
  {
    hide Next, Times, Isolated;
    var y := Next(cfg, topo, x, u, t);
    var n := |topo.roster|;
    NextIsClassic(cfg, topo, x, u, t);
    ScaleOrder(cfg, topo, e, d);
    LowestSees(cfg, topo, x, low);
    var k :| k in x && x[low] < x[k] && InWindow(cfg, x[low], x[k]);
    var j := HighestSeen(cfg, x, low, k);
    StaysLowest(cfg, topo, x, u, t, low);
    if low in Unsettled(y, cfg.Left()) {
      StaysLowest(cfg, topo, y, u, t + 1, low);
      if x[j] - x[low] >= e {
        Pulled(cfg, topo, x, u, t, low, j, e, d);
      } else if p :| p in x && x[low] + cfg.Left() < x[p] <= x[j] + cfg.Left() {
        LeftBehind(cfg, topo, x, u, t, low, j, p, e, d);
        Pulled(cfg, topo, y, u, t + 1, low, j, e, d);
      } else {
        Merges(cfg, topo, x, u, t, low, j);
      }
    }
  }

  /** Close to the agents it sees, the lowest one is left behind by the highest of them, but still sees it. */
  lemma LeftBehind(cfg: Config, topo: Topology, x: Profile, u: Draws, t: nat, low: AgentId, j: AgentId, p: AgentId, e: real, d: real)
    requires Classic(cfg, topo, x) && IsLowest(x, cfg.Left(), low) && Scaled(cfg, topo, e, d)
    requires j in x && x[low] < x[j] < x[low] + e && WindowBelow(cfg, x, low, x[j])
    requires p in x && x[low] + cfg.Left() < x[p] <= x[j] + cfg.Left()
    ensures var y := Next(cfg, topo, x, u, t); x[low] <= y[low] && y[low] + e <= y[j] <= y[low] + cfg.Left()
  {
    hide Next, Times, Isolated, Unsettled;
    var n := |topo.roster|;
    var y := Next(cfg, topo, x, u, t);
    ScaleOrder(cfg, topo, e, d);
    LowestSees(cfg, topo, x, low);
    MovesBelow(cfg, topo, x, u, t, low, x[j]);
    MovesAbove(cfg, topo, x, u, t, low, x[low], low);
    assert WindowAbove(cfg, x, j, x[low]);
    MovesAbove(cfg, topo, x, u, t, j, x[low], p);
    TimesAdd2(e, n);
    TimesCancel(y[j] - x[low], e + e, n);
    CappedMove(cfg, topo, x, u, t, j, x[low] + cfg.Left(), e, low);
  }

  /** So it follows in the next step. */
  lemma Pulled(cfg: Config, topo: Topology, y: Profile, u: Draws, t: nat, low: AgentId, j: AgentId, e: real, d: real)
    requires Classic(cfg, topo, y) && IsLowest(y, cfg.Left(), low) && Scaled(cfg, topo, e, d)
    requires j in y && y[low] + e <= y[j] <= y[low] + cfg.Left()
    ensures Next(cfg, topo, y, u, t)[low] >= y[low] + d
  {
    hide Next, Times, Isolated, Unsettled;
    LowestSees(cfg, topo, y, low);
    ScaleOrder(cfg, topo, e, d);
    MovesAbove(cfg, topo, y, u, t, low, y[low], j);
    TimesCancel(Next(cfg, topo, y, u, t)[low] - y[low], d, |topo.roster|);
  }

  lemma TimesAdd2(v: real, n: nat)
    ensures Times(v + v, n) == Times(v, n) + Times(v, n)
  { }

  /** If nobody is just beyond what it sees, the lowest agent and all it sees merge, out of everybody else's reach. */
  lemma Merges(cfg: Config, topo: Topology, x: Profile, u: Draws, t: nat, low: AgentId, j: AgentId)
    requires Classic(cfg, topo, x) && IsLowest(x, cfg.Left(), low)
    requires j in x && InWindow(cfg, x[low], x[j]) && WindowBelow(cfg, x, low, x[j]) && x[low] < x[j]
    requires forall p :: p in x ==> !(x[low] + cfg.Left() < x[p] <= x[j] + cfg.Left())
    ensures low !in Unsettled(Next(cfg, topo, x, u, t), cfg.Left())
  {
    hide Next, Times;
    var eps := cfg.Left();
    var y := Next(cfg, topo, x, u, t);
    LowestSees(cfg, topo, x, low);
    GapAbove(cfg, x, low, j);
    MovesBelow(cfg, topo, x, u, t, low, x[j]);
    MovesAbove(cfg, topo, x, u, t, low, x[low], low);
    forall k | k in y ensures y[k] == y[low] || Abs(y[k] - y[low]) > eps {
      if x[k] < x[low] {
        assert k !in Unsettled(x, eps);
        IsolatedStays(cfg, topo, x, u, t, k);
      } else if x[k] <= x[low] + eps {
        assert InWindow(cfg, x[low], x[k]);
        SeesAlike(cfg, topo, x, low, j, k);
        SameMove(cfg, topo, x, u, t, k, low);
      } else {
        assert x[k] > x[j] + eps;
        var a := x[j] + eps;
        forall q | q in x && InWindow(cfg, x[k], x[q]) ensures a <= x[q] { }
        MovesAbove(cfg, topo, x, u, t, k, a, k);
      }
    }
  }

  lemma GapAbove(cfg: Config, x: Profile, low: AgentId, j: AgentId)
    requires cfg.Left() == cfg.Right() >= 0.0
    requires low in x && j in x && x[low] < x[j] && WindowBelow(cfg, x, low, x[j])
    requires forall p :: p in x ==> !(x[low] + cfg.Left() < x[p] <= x[j] + cfg.Left())
    ensures forall q :: q in x ==> x[q] <= x[j] || x[q] > x[j] + cfg.Left()
  {
    forall q | q in x ensures x[q] <= x[j] || x[q] > x[j] + cfg.Left() {
      if x[low] <= x[q] <= x[low] + cfg.Left() {
        assert InWindow(cfg, x[low], x[q]);
      }
    }
  }

  lemma SeesAlike(cfg: Config, topo: Topology, x: Profile, low: AgentId, j: AgentId, k: AgentId)
    requires Classic(cfg, topo, x) && IsLowest(x, cfg.Left(), low)
    requires j in x && InWindow(cfg, x[low], x[j]) && WindowBelow(cfg, x, low, x[j])
    requires forall p :: p in x ==> !(x[low] + cfg.Left() < x[p] <= x[j] + cfg.Left())
    requires k in x && x[low] <= x[k] && InWindow(cfg, x[low], x[k])
    ensures forall q :: q in x ==> InWindow(cfg, x[k], x[q]) == InWindow(cfg, x[low], x[q])
  {
    LowestSees(cfg, topo, x, low);
  }

  // ---- whole runs ----

  lemma {:induction false} SomeLowest(x: Profile, eps: real, i: AgentId) returns (low: AgentId)
    requires i in Unsettled(x, eps)
    ensures IsLowest(x, eps, low)
    decreases |Below(x, x[i])|
  {
    if k :| k in Unsettled(x, eps) && x[k] < x[i] {
      ProperSubsetCardinality(Below(x, x[k]), Below(x, x[i]), k);
      low := SomeLowest(x, eps, k);
    } else {
      low := i;
    }
  }

  /** Steps enough for `s` agents to settle one after the other. */
  function Phases(s: nat, most: nat): nat {
    if s == 0 then 0 else Phases(s - 1, most) + 2 * most + 2
  }

  /** The same when the first of them, the lowest, can rise only `k` more times. */
  function Budget(s: nat, k: nat, most: nat): nat {
    if s == 0 then 0 else Phases(s - 1, most) + 2 * k
  }

  lemma {:induction false} PhasesMonotone(s: nat, s': nat, most: nat)
    requires s' <= s
    ensures Phases(s', most) <= Phases(s, most)
  {
    if s' < s {
      PhasesMonotone(s - 1, s', most);
    }
  }

  lemma {:induction false} BudgetDrops(s: nat, s': nat, k: nat, most: nat)
    requires s' < s && 1 <= k <= most
    ensures Budget(s', most, most) + 2 <= Budget(s, k, most)
  {
    PhasesMonotone(s - 1, s', most);
  }

  lemma {:induction false} BudgetTicks(s: nat, s': nat, k: nat, most: nat)
    requires 0 < s && s' <= s && 1 <= k <= most
    ensures Budget(s', k - 1, most) + 2 <= Budget(s, k, most)
  {
    if s' > 0 {
      PhasesMonotone(s - 1, s' - 1, most);
    }
  }

  lemma RangeKept(cfg: Config, topo: Topology, x: Profile, u: Draws, t: nat, a: real, b: real)
    requires Classic(cfg, topo, x) && Bounded(x, topo.Agents(), a, b)
    ensures Bounded(Next(cfg, topo, x, u, t), topo.Agents(), a, b)
  {
    hide Next, Times;
    forall i | i in topo.Agents() ensures a <= Next(cfg, topo, x, u, t)[i] <= b {
      MovesAbove(cfg, topo, x, u, t, i, a, i);
      MovesBelow(cfg, topo, x, u, t, i, b);
    }
  }

  lemma RunsOn(cfg: Config, topo: Topology, x: Profile, u: Draws, t: nat, n: nat)
    requires Classic(cfg, topo, x)
    ensures Classic(cfg, topo, Next(cfg, topo, x, u, t))
    ensures Run(cfg, topo, x, u, t, n + 1) == Run(cfg, topo, Next(cfg, topo, x, u, t), u, t + 1, n)
  {
    NextIsClassic(cfg, topo, x, u, t);
  }

  /** What two steps leave when the lowest unsettled agent is unsettled after the first. */
  lemma TwoSteps(cfg: Config, topo: Topology, x: Profile, u: Draws, t: nat, low: AgentId, e: real, d: real, b: real, k: nat)
    requires Classic(cfg, topo, x) && IsLowest(x, cfg.Left(), low) && Scaled(cfg, topo, e, d) && k > 0
    requires x[low] + Times(d, k) > b
    requires Classic(cfg, topo, Next(cfg, topo, x, u, t)) && low in Unsettled(Next(cfg, topo, x, u, t), cfg.Left())
    ensures var z := Next(cfg, topo, Next(cfg, topo, x, u, t), u, t + 1);
            && Unsettled(z, cfg.Left()) <= Unsettled(x, cfg.Left())
            && forall i :: i in Unsettled(z, cfg.Left()) ==> z[i] + Times(d, k - 1) > b
  {
    hide Next, Times, Classic, Scaled, Isolated, Unsettled;
    var y := Next(cfg, topo, x, u, t);
    var z := Next(cfg, topo, y, u, t + 1);
    Progress(cfg, topo, x, u, t, low, e, d);
    UnsettledShrinks(cfg, topo, x, u, t);
    UnsettledShrinks(cfg, topo, y, u, t + 1);
    NextIsClassic(cfg, topo, x, u, t);
    NextIsClassic(cfg, topo, y, u, t + 1);
    TimesNext(d, k - 1);
    forall i | i in Unsettled(z, cfg.Left()) ensures z[i] + Times(d, k - 1) > b {
      assert i in Unsettled(x, cfg.Left());
      assert x[low] <= x[i];
      assert y[low] <= y[i];
      assert z[low] <= z[i];
    }
  }

  /** The induction: every two steps the lowest unsettled agent settles or rises by `d`, and it cannot rise beyond `b`. */
  lemma {:induction false} Freezes(cfg: Config, topo: Topology, x: Profile, u: Draws, t: nat, e: real, d: real, a: real, b: real, k: nat, most: nat)
    returns (n: nat)
    requires Classic(cfg, topo, x) && Scaled(cfg, topo, e, d) && Bounded(x, topo.Agents(), a, b)
    requires a + Times(d, most) > b && k <= most
    requires forall i :: i in Unsettled(x, cfg.Left()) ==> x[i] + Times(d, k) > b
    ensures n <= Budget(|Unsettled(x, cfg.Left())|, k, most)
    ensures Settled(Run(cfg, topo, x, u, t, n), cfg.Left())
    decreases |Unsettled(x, cfg.Left())|, k
  {
    hide *;
    var eps := cfg.Left();
    var s := |Unsettled(x, eps)|;
    SettledIff(x, eps);
    NoSteps(cfg, topo, x, u, t);
    if Unsettled(x, eps) == {} {
      n := 0;
    } else {
      var i :| i in Unsettled(x, eps);
      var low := SomeLowest(x, eps, i);
      MayRise(cfg, topo, x, low, d, a, b, k);
      var y := Next(cfg, topo, x, u, t);
      RunsOn(cfg, topo, x, u, t, 0);
      RangeKept(cfg, topo, x, u, t, a, b);
      UnsettledShrinks(cfg, topo, x, u, t);
      if low !in Unsettled(y, eps) {
        ProperSubsetCardinality(Unsettled(y, eps), Unsettled(x, eps), low);
        EnoughRoom(cfg, topo, y, d, a, b, most);
        n := Freezes(cfg, topo, y, u, t + 1, e, d, a, b, most, most);
        RunsOn(cfg, topo, x, u, t, n);
        BudgetDrops(s, |Unsettled(y, eps)|, k, most);
        n := n + 1;
      } else {
        var z := Next(cfg, topo, y, u, t + 1);
        RunsOn(cfg, topo, y, u, t + 1, 0);
        RangeKept(cfg, topo, y, u, t + 1, a, b);
        TwoSteps(cfg, topo, x, u, t, low, e, d, b, k);
        SubsetCardinality(Unsettled(z, eps), Unsettled(x, eps));
        n := Freezes(cfg, topo, z, u, t + 2, e, d, a, b, k - 1, most);
        RunsOn(cfg, topo, y, u, t + 1, n);
        RunsOn(cfg, topo, x, u, t, n + 1);
        BudgetTicks(s, |Unsettled(z, eps)|, k, most);
        n := n + 2;
      }
    }
  }

  lemma MayRise(cfg: Config, topo: Topology, x: Profile, low: AgentId, d: real, a: real, b: real, k: nat)
    requires Classic(cfg, topo, x) && Bounded(x, topo.Agents(), a, b) && IsLowest(x, cfg.Left(), low)
    requires forall i :: i in Unsettled(x, cfg.Left()) ==> x[i] + Times(d, k) > b
    ensures k > 0 && low in Unsettled(x, cfg.Left()) && low in x
  {
    hide Times, Isolated, Unsettled;
    assert low in topo.Agents();
    TimesNone(d);
  }

  lemma EnoughRoom(cfg: Config, topo: Topology, x: Profile, d: real, a: real, b: real, most: nat)
    requires Classic(cfg, topo, x) && Bounded(x, topo.Agents(), a, b) && a + Times(d, most) > b
    ensures forall i :: i in Unsettled(x, cfg.Left()) ==> x[i] + Times(d, most) > b
  {
    forall i | i in Unsettled(x, cfg.Left()) ensures x[i] + Times(d, most) > b {
      assert i in topo.Agents();
    }
  }

  lemma NoSteps(cfg: Config, topo: Topology, x: Profile, u: Draws, t: nat)
    requires Classic(cfg, topo, x)
    ensures Run(cfg, topo, x, u, t, 0) == x
  { }

  /** With all opinions of `size` agents in [a, b], a run settles within 2 size (most + 1) steps, where `most` times the
      bound exceeds 2 size^2 (b - a). */
  lemma FreezesWithin(cfg: Config, topo: Topology, x: Profile, u: Draws, t: nat, a: real, b: real, most: nat) returns (n: nat)
    requires Classic(cfg, topo, x) && Bounded(x, topo.Agents(), a, b)
    requires (b - a) * |topo.roster| as real * |topo.roster| as real * 2.0 < cfg.Left() * most as real
    ensures n <= 2 * |topo.roster| * (most + 1)
    ensures Settled(Run(cfg, topo, x, u, t, n), cfg.Left())
  {
    var size, eps := |topo.roster|, cfg.Left();
    assert Times(Times(Times(b - a, size), size), 2) < Times(eps, most);
    if size == 0 {
      n := 0;
      NoSteps(cfg, topo, x, u, t);
    } else {
      var e := Ratio(eps / 2.0, size);
      var d := Ratio(e, size);
      ScaleFits(eps, size, e, d, a, b, most);
      hide Times, Ratio;
      EnoughRoom(cfg, topo, x, d, a, b, most);
      n := Freezes(cfg, topo, x, u, t, e, d, a, b, most, most);
      UnsettledSize(topo, x, eps);
      BudgetBound(|Unsettled(x, eps)|, size, most);
    }
  }

  lemma ScaleFits(eps: real, size: nat, e: real, d: real, a: real, b: real, most: nat)
    requires size > 0 && eps >= 0.0 && e == Ratio(eps / 2.0, size) && d == Ratio(e, size)
    requires Times(Times(Times(b - a, size), size), 2) < Times(eps, most)
    ensures Times(e, size) == eps / 2.0 && Times(d, size) == e && d >= 0.0
    ensures a + Times(d, most) > b
  {
    RatioBounds(eps / 2.0, size, 0.0, 0.0);
    RatioBounds(e, size, 0.0, 0.0);
    TimesSwap(d, size, most);
    TimesSwap(e, size, most);
    TimesHalf(eps, most);
    if Times(d, most) <= b - a {
      TimesGrow(Times(d, most), b - a, size);
      TimesGrow(Times(Times(d, most), size), Times(b - a, size), size);
    }
  }

  lemma TimesSwap(v: real, m: nat, n: nat)
    ensures Times(Times(v, m), n) == Times(Times(v, n), m)
  { }

  lemma TimesHalf(v: real, n: nat)
    ensures Times(Times(v / 2.0, n), 2) == Times(v, n)
  { }

  lemma TimesGrow(v: real, w: real, n: nat)
    requires v <= w
    ensures Times(v, n) <= Times(w, n)
  {
    TimesMore(w - v, 0, n);
    TimesMinus(w, v, n);
  }

  lemma UnsettledSize(topo: Topology, x: Profile, eps: real)
    requires topo.WellFormed() && Covers(topo, x)
    ensures |Unsettled(x, eps)| <= |topo.roster|
  {
    ElementsCardinality(topo.roster);
    SubsetCardinality(Unsettled(x, eps), Elements(topo.roster));
  }

  lemma {:induction false} PhasesProduct(s: nat, most: nat)
    ensures Phases(s, most) == 2 * s * (most + 1)
  {
    if s > 0 {
      PhasesProduct(s - 1, most);
      assert 2 * s * (most + 1) == 2 * (s - 1) * (most + 1) + 2 * (most + 1);
    }
  }

  lemma {:induction false} BudgetBound(s: nat, size: nat, most: nat)
    requires s <= size
    ensures Budget(s, most, most) <= 2 * size * (most + 1)
  {
    PhasesMonotone(size, s, most);
    PhasesProduct(size, most);
  }

  // ---- the fixed point ----

  lemma {:induction false} SettledRun(cfg: Config, topo: Topology, x: Profile, u: Draws, t: nat, m: nat)
    requires Classic(cfg, topo, x) && Uniform(u) && Settled(x, cfg.Left())
    ensures Run(cfg, topo, x, u, t, m) == x
    decreases m
  {
    NoSteps(cfg, topo, x, u, t);
    if m > 0 {
      NonNegativeBoundsDefine(cfg, topo, x);
      SettledIsFixed(cfg, topo, x, u, t);
      SettledRun(cfg, topo, x, u, t + 1, m - 1);
    }
  }

  lemma {:induction false} RunSplits(cfg: Config, topo: Topology, x: Profile, u: Draws, t: nat, n: nat, m: nat)
    requires Classic(cfg, topo, x)
    ensures Classic(cfg, topo, Run(cfg, topo, x, u, t, n))
    ensures Run(cfg, topo, x, u, t, n + m) == Run(cfg, topo, Run(cfg, topo, x, u, t, n), u, t + n, m)
    decreases n
  {
    hide Classic, Next;
    NoSteps(cfg, topo, x, u, t);
    if n > 0 {
      RunsOn(cfg, topo, x, u, t, n - 1);
      RunsOn(cfg, topo, x, u, t, n + m - 1);
      RunSplits(cfg, topo, Next(cfg, topo, x, u, t), u, t + 1, n - 1, m);
    }
  }

  lemma Settles(cfg: Config, topo: Topology, x: Profile, u: Draws, t: nat) returns (n: nat)
    requires Classic(cfg, topo, x)
    ensures Settled(Run(cfg, topo, x, u, t, n), cfg.Left())
  {
    hide Run, Unsettled;
    if cfg.Left() == 0.0 || |topo.roster| == 0 {
      n := 0;
      NoSteps(cfg, topo, x, u, t);
    } else {
      var a, b := RangeExists(cfg, topo, x);
      var most := SomeMultiple((b - a) * |topo.roster| as real * |topo.roster| as real * 2.0, cfg.Left());
      n := FreezesWithin(cfg, topo, x, u, t, a, b, most);
    }
  }

  lemma RangeExists(cfg: Config, topo: Topology, x: Profile) returns (a: real, b: real)
    requires Classic(cfg, topo, x) && |topo.roster| > 0
    ensures Bounded(x, topo.Agents(), a, b)
  {
    var low := Extreme(topo.roster, x, false);
    var high := Extreme(topo.roster, x, true);
    a, b := x[low], x[high];
    forall i | i in topo.Agents() ensures a <= x[i] <= b {
      assert Value(x, i) == x[i];
    }
  }

  /** Every run reaches a fixed point: from some step on nothing changes any more. */
  lemma ReachesFixedPoint(cfg: Config, topo: Topology, x: Profile, u: Draws, t: nat) returns (n: nat)
    requires Classic(cfg, topo, x) && Uniform(u)
    ensures Settled(Run(cfg, topo, x, u, t, n), cfg.Left())
    ensures forall m: nat :: m >= n ==> Run(cfg, topo, x, u, t, m) == Run(cfg, topo, x, u, t, n)
  {
    hide Run, Settled, Uniform;
    n := Settles(cfg, topo, x, u, t);
    forall m: nat | m >= n ensures Run(cfg, topo, x, u, t, m) == Run(cfg, topo, x, u, t, n) {
      RunSplits(cfg, topo, x, u, t, n, m - n);
      SettledRun(cfg, topo, Run(cfg, topo, x, u, t, n), u, t + n, m - n);
    }
  }

  lemma SomeMultiple(v: real, step: real) returns (n: nat)
    requires step > 0.0
    ensures v < step * n as real
  {
    var q := v / step;
    n := if q < 0.0 then 1 else q.Floor + 1;
    assert step * q == v;
    StrictTimes(step, 1);
    var gap := n as real - q;
    assert gap > 0.0;
    StrictProduct(step, gap, step * gap);
    assert step * gap == step * n as real - step * q;
  }

  lemma StrictProduct(x: real, y: real, p: real)
    requires x > 0.0 && y > 0.0 && p == x * y
    ensures p > 0.0
  { }
}
