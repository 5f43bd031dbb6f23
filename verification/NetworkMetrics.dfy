// Breadth-first reach over a network.
module NetworkMetrics {
  import opened Agents
  import opened Counting
  import opened Reachability
  import opened BinaryStates
  import SiContagion

  /** Seeds plus everything already queued or expanded. */
  ghost predicate SearchState(net: Topology, seeds: set<AgentId>, visited: set<AgentId>, queue: seq<AgentId>) {
    && visited <= Reachable(net, true, seeds)
    && (forall id :: id in queue ==> id in visited)
    && (forall a, b :: a in visited && a !in queue && a in net.links && b in net.links && Linked(net, true, a, b) ==> b in visited)
  }

  ghost function ActiveNodes(net: Topology, isActive: AgentId -> bool): set<AgentId> {
    set id | id in net.roster && isActive(id)
  }

  /** Queues every active node. */
  method Seed(net: Topology, isActive: AgentId -> bool) returns (visited: set<AgentId>, queue: seq<AgentId>)
    ensures visited == ActiveNodes(net, isActive)
    ensures forall id :: id in queue <==> id in visited
  {
    queue, visited := [], {};
    var ids := net.roster;
    for k := 0 to |ids|
      invariant forall id :: id in visited <==> id in ids[..k] && isActive(id)
      invariant forall id :: id in queue <==> id in visited
    {
      assert ids[..k + 1] == ids[..k] + [ids[k]];
      if isActive(ids[k]) && ids[k] !in visited {
        visited := visited + {ids[k]};
        queue := queue + [ids[k]];
      }
    }
    assert ids[..|ids|] == ids;
  }

  /** The search: the visited set is exactly the set of nodes reachable from the active ones. */
  method Reach(net: Topology, isActive: AgentId -> bool) returns (visited: set<AgentId>)
    requires net.WellFormed()
    ensures visited == Reachable(net, true, ActiveNodes(net, isActive))
  {
    hide Reachable;
    ghost var seeds := ActiveNodes(net, isActive);
    var queue;
    visited, queue := Seed(net, isActive);
    forall id | id in visited ensures id in Reachable(net, true, seeds) {
      SeedReachable(net, true, seeds, id);
    }
    while |queue| > 0
      invariant visited <= net.Agents() && seeds <= visited
      invariant SearchState(net, seeds, visited, queue)
      decreases |net.Agents() - visited|, |queue|
    {
      assert queue[0] in queue;
      visited, queue := Expand(net, seeds, visited, queue, queue[0]);
    }
    ReachableIsLeast(net, true, seeds, visited);
  }

  /** Removes the front node from the queue and enqueues its unvisited neighbours. */
  method Expand(net: Topology, ghost seeds: set<AgentId>, visited: set<AgentId>, queue: seq<AgentId>, cur: AgentId)
    returns (visited': set<AgentId>, queue': seq<AgentId>)
    requires net.WellFormed() && visited <= net.Agents() && |queue| > 0 && queue[0] == cur
    requires SearchState(net, seeds, visited, queue)
    ensures visited <= visited' <= net.Agents() && SearchState(net, seeds, visited', queue')
    ensures |net.Agents() - visited'| < |net.Agents() - visited| || (visited' == visited && |queue'| < |queue|)
  {
    hide Reachable;
    assert cur in queue;
    visited', queue' := visited, queue[1..];
    assert queue == [cur] + queue[1..];
    var nbs := net.links[cur];
    for k := 0 to |nbs|
      invariant visited <= visited' <= net.Agents() && visited' <= Reachable(net, true, seeds)
      invariant forall id :: id in queue' <==> id in queue[1..] || id in visited' - visited
      invariant forall nb :: nb in nbs[..k] ==> nb in visited'
      invariant visited' == visited ==> queue' == queue[1..]
    {
      assert nbs[..k + 1] == nbs[..k] + [nbs[k]];
      assert nbs[k] in nbs;
      if nbs[k] !in visited' {
        StepReachable(net, true, seeds, cur, nbs[k]);
        visited' := visited' + {nbs[k]};
        queue' := queue' + [nbs[k]];
      }
    }
    assert nbs[..|nbs|] == nbs;
    if visited' != visited {
      FewerOutside(net.Agents(), visited, visited');
    }
  }

  /** The fraction of nodes reachable from an active one; 0 for an empty network. */
  method ReachFraction(net: Topology, isActive: AgentId -> bool) returns (f: real)
    requires net.WellFormed()
    ensures |net.roster| == 0 ==> f == 0.0
    ensures |net.roster| > 0 ==> f == |Reachable(net, true, ActiveNodes(net, isActive))| as real / |net.roster| as real
  {
    if |net.roster| == 0 {
      return 0.0;
    }
    var visited := Reach(net, isActive);
    f := |visited| as real / |net.roster| as real;
  }

  /** On a symmetric topology the breadth-first search from the active agents visits exactly the agents that are
      active when certain SI contagion stops. */
  method ReachAgreesWithContagion(world: BinaryWorld, beta: real, orders: nat -> seq<AgentId>, u: SiContagion.Draws)
    returns (visited: set<AgentId>, rounds: nat)
    requires world.Valid() && !world.stopRequested && world.topology.Symmetric() && beta >= 1.0 && SiContagion.Uniform(u)
    requires forall t :: SiContagion.IsOrder(world.topology, SiContagion.Visited(world.topology, orders(t)))
    modifies world
    ensures world.Valid() && world.stopRequested
    ensures visited == world.active
  {
    hide Reachable, SiContagion.IsOrder, SiContagion.Rounds;
    ghost var seeds := world.active;
    var active := world.active;
    visited := Reach(world.topology, id => id in active);
    assert ActiveNodes(world.topology, id => id in active) == seeds;
    SymmetricReachable(world.topology, seeds);
    rounds := SiContagion.RunToStop(world, beta, orders, u);
  }
}
