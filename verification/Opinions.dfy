// The world capabilities the opinion mechanisms use: a roster, a topology and one scalar per agent.
module Opinions {
  import opened RealSums
  import opened Agents

  type Profile = map<AgentId, real>

  /** `x` gives an opinion to exactly the agents of the roster. */
  ghost predicate Covers(topo: Topology, x: Profile) {
    forall id :: id in x <==> id in topo.roster
  }

  /** A world whose agents each carry one scalar opinion. */
  class OpinionWorld {
    const topology: Topology
    var opinion: Profile

    ghost predicate Valid()
      reads this
    {
      topology.WellFormed() && Covers(topology, opinion)
    }

    constructor (topology: Topology, opinion: Profile)
      requires topology.WellFormed() && Covers(topology, opinion)
      ensures Valid() && this.topology == topology && this.opinion == opinion
    {
      this.topology := topology;
      this.opinion := opinion;
    }

    method SetOpinion(id: AgentId, value: real)
      requires Valid() && id in topology.roster
      modifies this
      ensures Valid() && opinion == old(opinion)[id := value]
    {
      opinion := opinion[id := value];
    }

    /** The batch write-back that ends every synchronous update. */
    method WriteAll(values: seq<real>)
      requires Valid() && |values| == |topology.roster|
      modifies this
      ensures Valid()
      ensures forall k :: 0 <= k < |values| ==> Value(opinion, topology.roster[k]) == values[k]
    {
      var roster := topology.roster;
      for idx := 0 to |roster|
        invariant Valid()
        invariant forall k :: 0 <= k < idx ==> Value(opinion, roster[k]) == values[k]
      {
        SetOpinion(roster[idx], values[idx]);
      }
    }
  }

  // ---- totals over a roster ----

  function Value(x: Profile, id: AgentId): real { if id in x then x[id] else 0.0 }

  datatype Moment = First | Second

  function Power(m: Moment, v: real): real { if m.First? then v else v * v }

  /** The sum of the opinions of the listed agents, or of their squares. */
  function Total(m: Moment, roster: seq<AgentId>, x: Profile): real {
    if |roster| == 0 then 0.0
    else Total(m, roster[..|roster| - 1], x) + Power(m, Value(x, roster[|roster| - 1]))
  }

  lemma {:induction false} TotalUnaffected(m: Moment, roster: seq<AgentId>, x: Profile, y: Profile)
    requires forall id :: id in roster ==> Value(x, id) == Value(y, id)
    ensures Total(m, roster, x) == Total(m, roster, y)
  {
    if |roster| > 0 {
      TotalUnaffected(m, roster[..|roster| - 1], x, y);
    }
  }

  lemma {:induction false} TotalUpdate(m: Moment, roster: seq<AgentId>, x: Profile, id: AgentId, v: real)
    requires Distinct(roster) && id in roster && id in x
    ensures Total(m, roster, x[id := v]) == Total(m, roster, x) + Power(m, v) - Power(m, x[id])
  {
    hide Power;
    var n := |roster| - 1;
    if roster[n] == id {
      TotalUnaffected(m, roster[..n], x, x[id := v]);
    } else {
      TotalUpdate(m, roster[..n], x, id, v);
    }
  }
}
