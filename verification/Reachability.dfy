// Paths, balls and reachable sets over a topology.
module Reachability {
  import opened Agents

  /** `b` hears from `a`. A forward link is listed by the sender, a backward link by the receiver. */
  ghost predicate Linked(topo: Topology, forward: bool, a: AgentId, b: AgentId)
    requires a in topo.links && b in topo.links
  {
    if forward then b in topo.links[a] else a in topo.links[b]
  }

  ghost predicate IsPath(topo: Topology, forward: bool, p: seq<AgentId>) {
    && |p| > 0
    && (forall t :: 0 <= t < |p| ==> p[t] in topo.links)
    && (forall t :: 1 <= t < |p| ==> Linked(topo, forward, p[t - 1], p[t]))
  }

  ghost predicate PathFrom(topo: Topology, forward: bool, seeds: set<AgentId>, i: AgentId, p: seq<AgentId>) {
    IsPath(topo, forward, p) && p[0] in seeds && p[|p| - 1] == i
  }

  ghost predicate WithinDistance(topo: Topology, forward: bool, seeds: set<AgentId>, i: AgentId, k: nat) {
    exists p :: PathFrom(topo, forward, seeds, i, p) && |p| <= k + 1
  }

  /** Every agent at the end of some path from a seed. */
  ghost function Reachable(topo: Topology, forward: bool, seeds: set<AgentId>): set<AgentId> {
    set i | i in topo.links && exists p :: PathFrom(topo, forward, seeds, i, p)
  }

  ghost predicate ClosedUnder(topo: Topology, forward: bool, s: set<AgentId>) {
    forall a, b :: a in s && a in topo.links && b in topo.links && Linked(topo, forward, a, b) ==> b in s
  }

  /** Paths from inside a closed set stay inside. */
  lemma {:induction false} PathsStayInside(topo: Topology, forward: bool, s: set<AgentId>, p: seq<AgentId>)
    requires ClosedUnder(topo, forward, s) && IsPath(topo, forward, p) && p[0] in s
    ensures p[|p| - 1] in s
  {
    if |p| > 1 {
      var n := |p| - 1;
      PathsStayInside(topo, forward, s, p[..n]);
      assert Linked(topo, forward, p[n - 1], p[n]);
    }
  }

  lemma ReachableIsLeast(topo: Topology, forward: bool, seeds: set<AgentId>, s: set<AgentId>)
    requires seeds <= s && ClosedUnder(topo, forward, s)
    ensures Reachable(topo, forward, seeds) <= s
  {
    forall i | i in Reachable(topo, forward, seeds) ensures i in s {
      var p :| PathFrom(topo, forward, seeds, i, p);
      PathsStayInside(topo, forward, s, p);
    }
  }

  lemma SeedReachable(topo: Topology, forward: bool, seeds: set<AgentId>, i: AgentId)
    requires i in seeds && i in topo.links
    ensures i in Reachable(topo, forward, seeds)
  {
    assert PathFrom(topo, forward, seeds, i, [i]);
  }

  lemma ExtendPath(topo: Topology, forward: bool, seeds: set<AgentId>, a: AgentId, b: AgentId, p: seq<AgentId>)
    requires PathFrom(topo, forward, seeds, a, p) && a in topo.links && b in topo.links && Linked(topo, forward, a, b)
    ensures PathFrom(topo, forward, seeds, b, p + [b])
  {
    var q := p + [b];
    forall t | 1 <= t < |q| ensures Linked(topo, forward, q[t - 1], q[t]) { }
  }

  lemma StepReachable(topo: Topology, forward: bool, seeds: set<AgentId>, a: AgentId, b: AgentId)
    requires a in Reachable(topo, forward, seeds) && b in topo.links && Linked(topo, forward, a, b)
    ensures b in Reachable(topo, forward, seeds)
  {
    var p :| PathFrom(topo, forward, seeds, a, p);
    ExtendPath(topo, forward, seeds, a, b, p);
  }

  /** On a symmetric topology the direction of the links does not matter. */
  lemma SymmetricReachable(topo: Topology, seeds: set<AgentId>)
    requires topo.Symmetric()
    ensures Reachable(topo, true, seeds) == Reachable(topo, false, seeds)
  {
    forall i, p ensures PathFrom(topo, true, seeds, i, p) <==> PathFrom(topo, false, seeds, i, p) {
      forall t | 1 <= t < |p| && p[t - 1] in topo.links && p[t] in topo.links
        ensures Linked(topo, true, p[t - 1], p[t]) <==> Linked(topo, false, p[t - 1], p[t]) { }
    }
  }

  // ---- balls ----

  /** The agents one backward link away from `b`, together with `b`. */
  ghost function Grow(topo: Topology, b: set<AgentId>): set<AgentId> {
    b + set i | i in topo.links && exists nb :: nb in topo.links[i] && nb in b
  }

  ghost function Ball(topo: Topology, seeds: set<AgentId>, k: nat): set<AgentId> {
    if k == 0 then seeds else Grow(topo, Ball(topo, seeds, k - 1))
  }

  lemma WithinNext(topo: Topology, seeds: set<AgentId>, i: AgentId, k: nat)
    requires topo.WellFormed() && i in topo.links
    ensures WithinDistance(topo, false, seeds, i, k + 1) <==>
            WithinDistance(topo, false, seeds, i, k) ||
            exists nb :: nb in topo.links[i] && WithinDistance(topo, false, seeds, nb, k)
  {
    if nb :| nb in topo.links[i] && WithinDistance(topo, false, seeds, nb, k) {
      var p :| PathFrom(topo, false, seeds, nb, p) && |p| <= k + 1;
      ExtendPath(topo, false, seeds, nb, i, p);
    }
    if WithinDistance(topo, false, seeds, i, k + 1) {
      var p :| PathFrom(topo, false, seeds, i, p) && |p| <= k + 2;
      if |p| == k + 2 {
        var n := |p| - 1;
        assert Linked(topo, false, p[n - 1], p[n]);
        assert PathFrom(topo, false, seeds, p[n - 1], p[..n]);
      }
    }
  }

  /** The k-th ball holds exactly the agents at distance at most k from the seeds. */
  lemma {:induction false} BallIsDistance(topo: Topology, seeds: set<AgentId>, k: nat)
    requires topo.WellFormed() && seeds <= topo.Agents()
    ensures forall i :: i in Ball(topo, seeds, k) <==> i in topo.links && WithinDistance(topo, false, seeds, i, k)
  {
    if k == 0 {
      forall i ensures i in seeds <==> i in topo.links && WithinDistance(topo, false, seeds, i, 0) {
        if i in seeds {
          assert PathFrom(topo, false, seeds, i, [i]);
        }
      }
    } else {
      BallIsDistance(topo, seeds, k - 1);
      forall i ensures i in Ball(topo, seeds, k) <==> i in topo.links && WithinDistance(topo, false, seeds, i, k) {
        if i in topo.links {
          WithinNext(topo, seeds, i, k - 1);
        }
      }
    }
  }
}
