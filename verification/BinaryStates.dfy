// Worlds whose agents are active or inactive, and the saturation test of the contagion rounds.
module BinaryStates {
  import opened Agents
  import opened Counting

  /** A world of active and inactive agents, with the engine's stop flag. */
  class BinaryWorld {
    const topology: Topology
    const threshold: map<AgentId, real>
    var active: set<AgentId>
    var stopRequested: bool

    ghost predicate Valid()
      reads this
    {
      && topology.WellFormed()
      && (forall id :: id in topology.roster ==> id in threshold)
      && active <= topology.Agents()
    }

    constructor (topology: Topology, threshold: map<AgentId, real>, seeds: set<AgentId>)
      requires topology.WellFormed() && seeds <= topology.Agents()
      requires forall id :: id in topology.roster ==> id in threshold
      ensures Valid() && this.topology == topology && this.threshold == threshold && active == seeds && !stopRequested
    {
      this.topology := topology;
      this.threshold := threshold;
      active := seeds;
      stopRequested := false;
    }

    method SetActive(id: AgentId)
      requires Valid() && id in topology.roster
      modifies this`active
      ensures Valid() && active == old(active) + {id}
    {
      active := active + {id};
    }
  }

  ghost predicate Saturated(topo: Topology, a: set<AgentId>, next: set<AgentId>) {
    next == a || next == topo.Agents()
  }

  method ActivateAll(world: BinaryWorld, newly: seq<AgentId>)
    requires world.Valid() && forall id :: id in newly ==> id in world.topology.roster
    modifies world`active
    ensures world.Valid() && world.active == old(world.active) + Elements(newly)
  {
    for k := 0 to |newly|
      invariant world.Valid() && world.active == old(world.active) + Elements(newly[..k])
    {
      assert newly[..k + 1] == newly[..k] + [newly[k]];
      assert newly[k] in newly;
      world.SetActive(newly[k]);
    }
    assert newly[..|newly|] == newly;
  }

  /** The source's counter test `total_active >= n` says that everyone is active. */
  lemma TotalActive(topo: Topology, prev: set<AgentId>, newly: seq<AgentId>)
    requires topo.WellFormed() && prev <= topo.Agents() && NoRepeats(newly)
    requires forall id :: id in newly ==> id in topo.roster && id !in prev
    ensures |newly| == 0 <==> prev + Elements(newly) == prev
    ensures CountIn(topo.roster, prev) + |newly| >= |topo.roster| <==> prev + Elements(newly) == topo.Agents()
    ensures CountIn(topo.roster, prev) == |prev|
  {
    assert topo.Agents() == Elements(topo.roster);
    CountInCardinality(topo.roster, prev);
    ElementsCardinality(newly);
    ElementsCardinality(topo.roster);
    var all := prev + Elements(newly);
    assert |all| == |prev| + |newly| by { assert all - prev == Elements(newly); }
    SubsetCardinality(all, topo.Agents());
    SubsetCardinality(prev, all);
  }
}
