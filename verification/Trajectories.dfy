// Multi-agent trajectory collection: the buffer, the collecting mechanism and one training episode.
module Trajectories {
  import opened RealSums
  import opened Sorting
  import opened Agents

  type Observation = seq<real>

  datatype Transition = Transition(obs: Observation, action: nat, reward: real)

  /** An agent's decision in one step. */
  datatype Decision = Decision(obs: Observation, action: nat)

  type Pending = map<AgentId, Decision>

  type Episodes = map<AgentId, seq<Transition>>

  function History(episodes: Episodes, agent: AgentId): seq<Transition> {
    if agent in episodes then episodes[agent] else []
  }

  // ---- ascending keys: a BTreeMap iterates in key order ----

  /** `order` lists exactly the keys `s` in ascending order. */
  ghost predicate KeysInOrder(s: set<AgentId>, order: seq<AgentId>) {
    StrictlyAscending(order) && forall a :: a in order <==> a in s
  }

  lemma {:induction false} SmallestExists(s: set<AgentId>) returns (a: AgentId)
    requires s != {}
    ensures a in s && forall b :: b in s ==> a <= b
  {
    var first :| first in s;
    a := first;
    if b :| b in s && b < first {
      var rest := set x | x in s && x < first;
      assert b in rest && first !in rest;
      a := SmallestExists(rest);
      forall x | x in s ensures a <= x {
        if x < first {
          assert x in rest;
        }
      }
    }
  }

  /** Any set of keys can be listed in order. */
  lemma {:induction false} OrderExists(s: set<AgentId>) returns (order: seq<AgentId>)
    ensures KeysInOrder(s, order)
  {
    if s == {} {
      order := [];
    } else {
      var a := SmallestExists(s);
      var rest := OrderExists(s - {a});
      order := [a] + rest;
      forall k | 0 <= k < |rest| ensures a < rest[k] {
        assert rest[k] in rest;
      }
    }
  }

  /** The keys of an ordered map. */
  method OrderedKeys(s: set<AgentId>) returns (order: seq<AgentId>)
    ensures KeysInOrder(s, order)
  {
    order := [];
    var rest := s;
    while rest != {}
      invariant rest <= s && StrictlyAscending(order)
      invariant forall a :: a in order <==> a in s - rest
      invariant forall a, b :: a in order && b in rest ==> a < b
      decreases rest
    {
      ghost var least := SmallestExists(rest);
      var a: AgentId :| a in rest && forall b :: b in rest ==> a <= b;
      forall k | 0 <= k < |order| ensures order[k] < a {
        assert order[k] in order;
      }
      order := order + [a];
      rest := rest - {a};
    }
  }

  /** Collects per-agent trajectories for one episode. */
  class TrajectoryBuffer {
    var pending: Pending
    var episodes: Episodes

    constructor ()
      ensures pending == map[] && episodes == map[]
    {
      pending := map[];
      episodes := map[];
    }

    method BeginDecision(agent: AgentId, obs: Observation, action: nat)
      modifies this`pending
      ensures pending == old(pending)[agent := Decision(obs, action)]
    {
      pending := pending[agent := Decision(obs, action)];
    }

    /** Finalises the agent's pending decision; nothing happens when it has none. */
    method Complete(agent: AgentId, reward: real)
      modifies this
      ensures pending == old(pending) - {agent}
      ensures agent !in old(pending) ==> episodes == old(episodes)
      ensures agent in old(pending) ==>
        var d := old(pending)[agent];
        episodes == old(episodes)[agent := History(old(episodes), agent) + [Transition(d.obs, d.action, reward)]]
    {
      if agent in pending {
        var d := pending[agent];
        pending := pending - {agent};
        episodes := episodes[agent := (if agent in episodes then episodes[agent] else []) + [Transition(d.obs, d.action, reward)]];
      } else {
        assert pending - {agent} == pending;
      }
    }

    method PendingAgents() returns (agents: seq<AgentId>)
      ensures KeysInOrder(pending.Keys, agents)
    {
      agents := OrderedKeys(pending.Keys);
    }

    /** Drains the episode: one trajectory per agent, in agent order. */
    method TakeEpisode() returns (trajectories: seq<seq<Transition>>, ghost agents: seq<AgentId>)
      modifies this
      ensures pending == map[] && episodes == map[]
      ensures KeysInOrder(old(episodes).Keys, agents)
      ensures |trajectories| == |agents| && forall k :: 0 <= k < |agents| ==> agents[k] in old(episodes) && trajectories[k] == old(episodes)[agents[k]]
    {
      var order := OrderedKeys(episodes.Keys);
      agents := order;
      assert forall k :: 0 <= k < |order| ==> order[k] in order;
      trajectories := seq(|order|, k requires 0 <= k < |order| && order[k] in episodes reads this => episodes[order[k]]);
      pending := map[];
      episodes := map[];
    }

    method Clear()
      modifies this
      ensures pending == map[] && episodes == map[]
    {
      pending := map[];
      episodes := map[];
    }
  }

  // ---- one step in collect mode ----

  /** What the encoder and the policy answer for one agent of the activation order; `None` is a skip. */
  datatype Choice = Skip(agent: AgentId) | Act(agent: AgentId, decision: Decision)

  /** The pending decisions after a step's choices: an agent that acts more than once keeps its last decision. */
  function DecidedFrom(pending: Pending, choices: seq<Choice>): Pending {
    if |choices| == 0 then pending
    else
      var before := DecidedFrom(pending, choices[..|choices| - 1]);
      match choices[|choices| - 1]
      case Skip(_) => before
      case Act(agent, d) => before[agent := d]
  }

  function Decided(choices: seq<Choice>): Pending { DecidedFrom(map[], choices) }

  predicate ActsAt(choices: seq<Choice>, k: nat, agent: AgentId) {
    k < |choices| && choices[k].Act? && choices[k].agent == agent
  }

  /** An agent's decision is that of its last act in the step, or the one pending before when it does not act. */
  lemma {:induction false} DecisionOfLastAct(pending: Pending, choices: seq<Choice>, agent: AgentId)
    ensures agent in DecidedFrom(pending, choices) <==> agent in pending || Acts(choices, agent)
    ensures forall k: nat | ActsAt(choices, k, agent) && (forall l: nat :: ActsAt(choices, l, agent) ==> l <= k) ::
              DecidedFrom(pending, choices)[agent] == choices[k].decision
    ensures (forall k: nat :: !ActsAt(choices, k, agent)) && agent in pending ==> DecidedFrom(pending, choices)[agent] == pending[agent]
  {
    if |choices| > 0 {
      var n := |choices| - 1;
      DecisionOfLastAct(pending, choices[..n], agent);
      assert forall k: nat :: k < n ==> ActsAt(choices[..n], k, agent) == ActsAt(choices, k, agent);
      assert forall k: nat :: ActsAt(choices, k, agent) ==> k < n || k == n;
      assert ActsAt(choices, n, agent) <==> choices[n].Act? && choices[n].agent == agent;
    }
  }

  /** The collecting mechanism's `apply`: records each acting agent's observation and action. */
  method Collect(buffer: TrajectoryBuffer, choices: seq<Choice>)
    modifies buffer`pending
    ensures buffer.pending == DecidedFrom(old(buffer.pending), choices)
  {
    for k := 0 to |choices|
      invariant buffer.pending == DecidedFrom(old(buffer.pending), choices[..k])
    {
      assert choices[..k + 1][..k] == choices[..k];
      match choices[k]
      case Skip(_) =>
      case Act(agent, d) => buffer.BeginDecision(agent, d.obs, d.action);
    }
    assert choices[..|choices|] == choices;
  }

  /** Rewards attributed after each step. */
  type Rewards = (nat, AgentId) -> real

  /** The transitions of one agent over the first `n` steps: one per step in which it acted, in order. */
  function Expected(steps: seq<seq<Choice>>, rewards: Rewards, agent: AgentId): seq<Transition> {
    if |steps| == 0 then []
    else
      var n := |steps| - 1;
      var d := Decided(steps[n]);
      Expected(steps[..n], rewards, agent) + (if agent in d then [Transition(d[agent].obs, d[agent].action, rewards(n, agent))] else [])
  }

  ghost predicate Acts(choices: seq<Choice>, agent: AgentId) {
    exists k: nat :: ActsAt(choices, k, agent)
  }

  /** In how many of the first `t` steps the agent acted. */
  ghost function ActedBefore(steps: seq<seq<Choice>>, t: nat, agent: AgentId): nat
    requires t <= |steps|
  {
    if t == 0 then 0
    else ActedBefore(steps, t - 1, agent) + (if Acts(steps[t - 1], agent) then 1 else 0)
  }

  lemma {:induction false} ActedBeforePrefix(steps: seq<seq<Choice>>, n: nat, t: nat, agent: AgentId)
    requires t <= n <= |steps|
    ensures ActedBefore(steps[..n], t, agent) == ActedBefore(steps, t, agent)
  {
    if t > 0 {
      ActedBeforePrefix(steps, n, t - 1, agent);
      assert steps[..n][t - 1] == steps[t - 1];
    }
  }

  lemma {:induction false} ActedBeforeGrows(steps: seq<seq<Choice>>, t: nat, n: nat, agent: AgentId)
    requires t < n <= |steps| && Acts(steps[t], agent)
    ensures ActedBefore(steps, t, agent) < ActedBefore(steps, n, agent)
  {
    if t < n - 1 {
      ActedBeforeGrows(steps, t, n - 1, agent);
    }
  }

  /** The expected trajectory entry by entry: the decision of the agent's last act in a step, with the reward attributed
      to it after that step, at the position given by the number of earlier steps in which it acted. */
  lemma {:induction false} ExpectedEntry(steps: seq<seq<Choice>>, rewards: Rewards, agent: AgentId, t: nat, k: nat)
    requires t < |steps| && ActsAt(steps[t], k, agent) && forall l: nat :: ActsAt(steps[t], l, agent) ==> l <= k
    ensures |Expected(steps, rewards, agent)| == ActedBefore(steps, |steps|, agent)
    ensures var at := ActedBefore(steps, t, agent); var d := steps[t][k].decision;
            at < |Expected(steps, rewards, agent)| && Expected(steps, rewards, agent)[at] == Transition(d.obs, d.action, rewards(t, agent))
  {
    var n := |steps| - 1;
    ExpectedLength(steps, rewards, agent);
    ActedBeforeGrows(steps, t, |steps|, agent);
    if t == n {
      ExpectedLength(steps[..n], rewards, agent);
      ActedBeforePrefix(steps, n, n, agent);
      DecisionOfLastAct(map[], steps[n], agent);
    } else {
      ExpectedEntry(steps[..n], rewards, agent, t, k);
      ActedBeforePrefix(steps, n, t, agent);
    }
  }

  lemma {:induction false} ExpectedLength(steps: seq<seq<Choice>>, rewards: Rewards, agent: AgentId)
    ensures |Expected(steps, rewards, agent)| == ActedBefore(steps, |steps|, agent)
  {
    if |steps| > 0 {
      var n := |steps| - 1;
      ExpectedLength(steps[..n], rewards, agent);
      ActedBeforePrefix(steps, n, n, agent);
      DecisionOfLastAct(map[], steps[n], agent);
    }
  }

  /** `episodes` holds exactly the agents that acted, each with its expected transitions. */
  ghost predicate Recorded(episodes: Episodes, steps: seq<seq<Choice>>, rewards: Rewards) {
    && (forall a :: a in episodes ==> episodes[a] != [])
    && (forall a :: History(episodes, a) == Expected(steps, rewards, a))
  }

  // ---- totals ----

  function RewardSum(ts: seq<Transition>): real {
    if |ts| == 0 then 0.0 else RewardSum(ts[..|ts| - 1]) + ts[|ts| - 1].reward
  }

  /** The rewards over the trajectories of the listed agents. */
  function RewardTotal(episodes: Episodes, agents: seq<AgentId>): real {
    if |agents| == 0 then 0.0
    else RewardTotal(episodes, agents[..|agents| - 1]) + RewardSum(History(episodes, agents[|agents| - 1]))
  }

  lemma RewardSumPush(ts: seq<Transition>, t: Transition)
    ensures RewardSum(ts + [t]) == RewardSum(ts) + t.reward
  {
    assert (ts + [t])[..|ts|] == ts;
  }

  lemma {:induction false} RewardTotalUnaffected(before: Episodes, after: Episodes, agents: seq<AgentId>)
    requires forall a :: a in agents ==> History(before, a) == History(after, a)
    ensures RewardTotal(before, agents) == RewardTotal(after, agents)
  {
    if |agents| > 0 {
      assert agents[|agents| - 1] in agents;
      RewardTotalUnaffected(before, after, agents[..|agents| - 1]);
    }
  }

  /** One more transition adds its reward, over any list that holds the agent once. */
  lemma {:induction false} RewardTotalPush(before: Episodes, after: Episodes, agents: seq<AgentId>, a: AgentId, t: Transition)
    requires StrictlyAscending(agents) && a in agents
    requires forall b :: History(after, b) == if b == a then History(before, a) + [t] else History(before, b)
    ensures RewardTotal(after, agents) == RewardTotal(before, agents) + t.reward
  {
    var n := |agents| - 1;
    assert agents == agents[..n] + [agents[n]];
    if agents[n] == a {
      RewardSumPush(History(before, a), t);
      RewardTotalUnaffected(before, after, agents[..n]);
    } else {
      RewardTotalPush(before, after, agents[..n], a, t);
    }
  }

  // ---- the episode ----

  /** The progress of paying out: the first `k` of `acted` have their transition and are no longer pending. */
  ghost predicate PaidSoFar(left: Pending, done: Episodes, pending: Pending, episodes: Episodes, acted: seq<AgentId>, k: nat,
                            t: nat, rewards: Rewards)
    requires k <= |acted|
  {
    && (forall a :: a in left <==> a in pending && a !in acted[..k])
    && (forall a :: a in left ==> left[a] == pending[a])
    && (forall a :: a in done <==> a in episodes || a in acted[..k])
    && (forall a {:trigger History(done, a)} ::
          History(done, a) == History(episodes, a) + (if a in acted[..k] then PaidTo(pending, t, rewards, a) else []))
  }

  lemma PaidNext(left: Pending, done: Episodes, pending: Pending, episodes: Episodes, acted: seq<AgentId>, k: nat, t: nat, rewards: Rewards)
    requires k < |acted| && StrictlyAscending(acted) && PaidSoFar(left, done, pending, episodes, acted, k, t, rewards)
    requires acted[k] in pending
    ensures acted[k] in left && left[acted[k]] == pending[acted[k]]
    ensures var a, d := acted[k], pending[acted[k]];
            PaidSoFar(left - {a}, done[a := History(done, a) + [Transition(d.obs, d.action, rewards(t, a))]], pending, episodes, acted, k + 1, t, rewards)
  {
    var aid, d := acted[k], pending[acted[k]];
    assert acted[..k + 1] == acted[..k] + [aid];
    assert aid !in acted[..k];
    var after := done[aid := History(done, aid) + [Transition(d.obs, d.action, rewards(t, aid))]];
    forall a ensures History(after, a) == if a == aid then History(done, a) + PaidTo(pending, t, rewards, a) else History(done, a) { }
    assert History(done, aid) == History(episodes, aid) + [];
    hide History, PaidTo;
  }

  /** Completes the pending decision of the next agent. */
  method PayOne(buffer: TrajectoryBuffer, ghost pending: Pending, ghost episodes: Episodes, acted: seq<AgentId>, k: nat, t: nat,
                rewards: Rewards, ghost all: seq<AgentId>) returns (r: real)
    requires k < |acted| && StrictlyAscending(acted)
    requires PaidSoFar(buffer.pending, buffer.episodes, pending, episodes, acted, k, t, rewards)
    requires acted[k] in pending && StrictlyAscending(all) && acted[k] in all
    modifies buffer
    ensures PaidSoFar(buffer.pending, buffer.episodes, pending, episodes, acted, k + 1, t, rewards)
    ensures r == RewardTotal(buffer.episodes, all) - RewardTotal(old(buffer.episodes), all)
  {
    PaidNext(buffer.pending, buffer.episodes, pending, episodes, acted, k, t, rewards);
    hide PaidSoFar;
    var aid := acted[k];
    r := rewards(t, aid);
    ghost var before := buffer.episodes;
    ghost var d := buffer.pending[aid];
    buffer.Complete(aid, r);
    RewardTotalPush(before, buffer.episodes, all, aid, Transition(d.obs, d.action, r));
  }

  /** The rewards of the agents pending after a step are paid out in agent order. */
  method RewardStep(buffer: TrajectoryBuffer, t: nat, rewards: Rewards, ghost all: seq<AgentId>) returns (paid: real)
    requires StrictlyAscending(all) && forall a :: a in buffer.pending ==> a in all
    modifies buffer
    ensures buffer.pending == map[]
    ensures forall a :: History(buffer.episodes, a) == History(old(buffer.episodes), a) + PaidTo(old(buffer.pending), t, rewards, a)
    ensures forall a :: a in buffer.episodes <==> a in old(buffer.episodes) || a in old(buffer.pending)
    ensures paid == RewardTotal(buffer.episodes, all) - RewardTotal(old(buffer.episodes), all)
  {
    var acted := buffer.PendingAgents();
    ghost var pending, episodes := buffer.pending, buffer.episodes;
    paid := 0.0;
    for k := 0 to |acted|
      invariant PaidSoFar(buffer.pending, buffer.episodes, pending, episodes, acted, k, t, rewards)
      invariant paid == RewardTotal(buffer.episodes, all) - RewardTotal(episodes, all)
    {
      hide PaidSoFar, RewardTotal;
      assert acted[k] in acted;
      var r := PayOne(buffer, pending, episodes, acted, k, t, rewards, all);
      paid := paid + r;
    }
    assert acted[..|acted|] == acted;
    assert buffer.pending == map[];
  }

  function PaidTo(pending: Pending, t: nat, rewards: Rewards, a: AgentId): seq<Transition> {
    if a in pending then [Transition(pending[a].obs, pending[a].action, rewards(t, a))] else []
  }

  /** Everyone who acts in some step. */
  ghost function Actors(steps: seq<seq<Choice>>): set<AgentId> {
    if |steps| == 0 then {} else Actors(steps[..|steps| - 1]) + Decided(steps[|steps| - 1]).Keys
  }

  lemma {:induction false} ActorsHaveHistories(steps: seq<seq<Choice>>, rewards: Rewards)
    ensures forall a :: a in Actors(steps) <==> Expected(steps, rewards, a) != []
  {
    hide Decided;
    if |steps| > 0 {
      ActorsHaveHistories(steps[..|steps| - 1], rewards);
    }
  }

  lemma {:induction false} ActorsOfPrefix(steps: seq<seq<Choice>>, t: nat)
    requires t < |steps|
    ensures Decided(steps[t]).Keys <= Actors(steps)
  {
    hide Decided;
    if t < |steps| - 1 {
      ActorsOfPrefix(steps[..|steps| - 1], t);
    }
  }

  lemma {:induction false} EmptyTotal(agents: seq<AgentId>)
    ensures RewardTotal(map[], agents) == 0.0
  {
    if |agents| > 0 {
      EmptyTotal(agents[..|agents| - 1]);
    }
  }

  /** The rollout of one episode: each step collects decisions and then pays rewards. */
  method Rollout(buffer: TrajectoryBuffer, steps: seq<seq<Choice>>, rewards: Rewards, ghost all: seq<AgentId>) returns (totalReward: real)
    requires buffer.pending == map[] && buffer.episodes == map[]
    requires KeysInOrder(Actors(steps), all)
    modifies buffer
    ensures buffer.pending == map[]
    ensures Recorded(buffer.episodes, steps, rewards)
    ensures totalReward == RewardTotal(buffer.episodes, all)
  {
    hide DecidedFrom;
    totalReward := 0.0;
    EmptyTotal(all);
    for t := 0 to |steps|
      invariant buffer.pending == map[]
      invariant Recorded(buffer.episodes, steps[..t], rewards)
      invariant totalReward == RewardTotal(buffer.episodes, all)
    {
      assert steps[..t + 1][..t] == steps[..t];
      ActorsOfPrefix(steps, t);
      Collect(buffer, steps[t]);
      ghost var before := buffer.episodes;
      var paid := RewardStep(buffer, t, rewards, all);
      RecordedNext(before, buffer.episodes, steps[..t + 1], rewards);
      totalReward := totalReward + paid;
    }
    assert steps[..|steps|] == steps;
  }

  lemma RecordedNext(before: Episodes, after: Episodes, steps: seq<seq<Choice>>, rewards: Rewards)
    requires |steps| > 0 && Recorded(before, steps[..|steps| - 1], rewards)
    requires forall a :: History(after, a) == History(before, a) + PaidTo(Decided(steps[|steps| - 1]), |steps| - 1, rewards, a)
    requires forall a :: a in after <==> a in before || a in Decided(steps[|steps| - 1])
    ensures Recorded(after, steps, rewards)
  {
    hide Decided;
    forall a ensures History(after, a) == Expected(steps, rewards, a) { }
    forall a | a in after ensures after[a] != [] {
      assert History(after, a) == after[a];
    }
  }

  function TrajectoryTotal(trajectories: seq<seq<Transition>>): real {
    if |trajectories| == 0 then 0.0
    else TrajectoryTotal(trajectories[..|trajectories| - 1]) + RewardSum(trajectories[|trajectories| - 1])
  }

  lemma {:induction false} TotalsAgree(episodes: Episodes, agents: seq<AgentId>, trajectories: seq<seq<Transition>>)
    requires |trajectories| == |agents| && forall k :: 0 <= k < |agents| ==> trajectories[k] == History(episodes, agents[k])
    ensures TrajectoryTotal(trajectories) == RewardTotal(episodes, agents)
  {
    if |agents| > 0 {
      TotalsAgree(episodes, agents[..|agents| - 1], trajectories[..|agents| - 1]);
    }
  }

  /** One training episode. The update receives one trajectory per agent that acted, in agent order,
      each holding one transition per step in which the agent acted, in step order; the reported total
      is the sum of the rewards of exactly those transitions; the buffer is left empty. */
  method Episode(buffer: TrajectoryBuffer, steps: seq<seq<Choice>>, rewards: Rewards)
    returns (totalReward: real, trajectories: seq<seq<Transition>>, ghost agents: seq<AgentId>)
    modifies buffer
    ensures buffer.pending == map[] && buffer.episodes == map[]
    ensures KeysInOrder(Actors(steps), agents) && |trajectories| == |agents|
    ensures forall k :: 0 <= k < |agents| ==> trajectories[k] == Expected(steps, rewards, agents[k])
    ensures totalReward == TrajectoryTotal(trajectories)
  {
    hide Decided, Expected;
    buffer.Clear();
    ghost var all := OrderExists(Actors(steps));
    totalReward := Rollout(buffer, steps, rewards, all);
    ghost var episodes := buffer.episodes;
    ActorsHaveHistories(steps, rewards);
    forall a ensures a in episodes <==> a in Actors(steps) {
      assert History(episodes, a) == Expected(steps, rewards, a);
    }
    assert episodes.Keys == Actors(steps);
    trajectories, agents := buffer.TakeEpisode();
    AscendingUnique(all, agents);
    forall k | 0 <= k < |agents| ensures trajectories[k] == History(episodes, agents[k]) == Expected(steps, rewards, agents[k]) { }
    TotalsAgree(episodes, agents, trajectories);
  }
}
