// Agents and the topology that connects them.
module Agents {

  type AgentId = nat

  ghost predicate Distinct(roster: seq<AgentId>) {
    forall i, j :: 0 <= i < j < |roster| ==> roster[i] != roster[j]
  }

  /** Who may influence whom; both accessors answer from the agent roster. */
  datatype Topology = Topology(roster: seq<AgentId>, links: map<AgentId, seq<AgentId>>) {
    ghost function Agents(): set<AgentId> { set id | id in roster }

    ghost predicate WellFormed() {
      && Distinct(roster)
      && (forall id :: id in links <==> id in roster)
      && (forall id, nb {:trigger nb in links[id]} :: id in links && nb in links[id] ==> nb in roster)
    }

    /** Every agent sees every other agent. */
    ghost predicate Complete() {
      forall i, j {:trigger j in links[i]} :: i in roster && j in roster && i != j && i in links ==> j in links[i]
    }

    /** Two agents see each other or neither sees the other. */
    ghost predicate Symmetric() {
      forall i, j {:trigger j in links[i]} :: i in links && j in links ==> (j in links[i] <==> i in links[j])
    }
  }
}
