// Group conformity: synchronous within-group averaging and its closed form over whole runs.
module GroupConformity {
  import opened Options
  import opened RealSums
  import opened Sorting
  import opened Agents
  import opened Opinions

  type GroupId = nat

  /** The three accessors of a partitioned world. */
  datatype Partition = Partition(groups: seq<GroupId>, groupOf: map<AgentId, GroupId>, members: map<GroupId, seq<AgentId>>) {
    function MembersOf(g: GroupId): seq<AgentId> {
      SortDedup(if g in members then members[g] else [])
    }

    /** The accessors agree: an agent's group is listed, and lists exactly the agents mapped to it. */
    ghost predicate Consistent(roster: seq<AgentId>) {
      && (forall id :: id in groupOf <==> id in roster)
      && (forall id :: id in groupOf ==> groupOf[id] in groups && groupOf[id] in members)
      && (forall g, id {:trigger id in members[g]} :: g in members ==> (id in members[g] <==> id in groupOf && groupOf[id] == g))
    }
  }

  /** The conformity rate is clamped at construction. */
  function ClampRate(alpha: real): (r: real)
    ensures 0.0 <= r <= 1.0
    ensures 0.0 <= alpha <= 1.0 ==> r == alpha
    ensures alpha < 0.0 ==> r == 0.0
    ensures alpha > 1.0 ==> r == 1.0
  {
    Min(Max(alpha, 0.0), 1.0)
  }

  function Average(ids: seq<AgentId>, x: Profile): real
    requires |ids| > 0
  {
    Total(First, ids, x) / |ids| as real
  }

  /** The mean opinion of a listed group with members. */
  function GroupMean(part: Partition, x: Profile, g: GroupId): Option<real> {
    var members := part.MembersOf(g);
    if g in part.groups && |members| > 0 then Some(Average(members, x)) else None
  }

  function Nudge(alpha: real, xi: real, mean: real): real { xi + alpha * (mean - xi) }

  function NewOpinion(alpha: real, part: Partition, x: Profile, id: AgentId): real
    requires id in part.groupOf
  {
    var xi := Value(x, id);
    match GroupMean(part, x, part.groupOf[id])
    case Some(mean) => Nudge(alpha, xi, mean)
    case None => xi
  }

  /** `mean` times the number of members is the sum of their opinions. */
  ghost predicate IsMeanOf(members: seq<AgentId>, x: Profile, mean: real) {
    |members| > 0 && |members| as real * mean == Total(First, members, x)
  }

  /** What a step does to an agent: it closes the fraction alpha of its gap to the mean of its group, if the group is
      listed and has members, and stays otherwise. */
  ghost predicate Conforms(alpha: real, part: Partition, x: Profile, y: Profile, id: AgentId) {
    id in part.groupOf &&
    var members := part.MembersOf(part.groupOf[id]);
    if part.groupOf[id] in part.groups && |members| > 0 then
      exists mean :: IsMeanOf(members, x, mean) && Value(y, id) - Value(x, id) == alpha * (mean - Value(x, id))
    else Value(y, id) == Value(x, id)
  }

  /** The group mean is the mean of the group. */
  lemma GroupMeanIsMean(part: Partition, x: Profile, g: GroupId)
    requires GroupMean(part, x, g).Some?
    ensures IsMeanOf(part.MembersOf(g), x, GroupMean(part, x, g).value)
  {
    hide Average, IsMeanOf, SortDedup;
    AverageIsMean(part.MembersOf(g), x);
  }

  lemma AverageIsMean(ids: seq<AgentId>, x: Profile)
    requires |ids| > 0
    ensures IsMeanOf(ids, x, Average(ids, x))
  {
    hide Total;
    MeanFromTotal(Total(First, ids, x), |ids|);
  }

  lemma SameMeanSameTotal(ids: seq<AgentId>, x: Profile, y: Profile, mean: real)
    requires IsMeanOf(ids, x, mean) && IsMeanOf(ids, y, mean)
    ensures Total(First, ids, x) == Total(First, ids, y)
  {
    hide Total;
  }

  lemma StepConforms(alpha: real, part: Partition, roster: seq<AgentId>, x: Profile, id: AgentId)
    requires (forall k :: k in roster ==> k in part.groupOf) && id in roster
    ensures Conforms(alpha, part, x, Step(alpha, part, roster, x), id)
  {
    var g := part.groupOf[id];
    if GroupMean(part, x, g).Some? {
      GroupMeanIsMean(part, x, g);
    }
    hide Average, IsMeanOf;
  }

  ghost function Step(alpha: real, part: Partition, roster: seq<AgentId>, x: Profile): Profile
    requires forall id :: id in roster ==> id in part.groupOf
  {
    map id | id in roster :: NewOpinion(alpha, part, x, id)
  }

  method AverageOf(world: OpinionWorld, members: seq<AgentId>) returns (mean: real)
    requires |members| > 0
    ensures mean == Average(members, world.opinion)
  {
    var sum := 0.0;
    for m := 0 to |members|
      invariant sum == Total(First, members[..m], world.opinion)
    {
      assert members[..m + 1][..m] == members[..m];
      sum := sum + Value(world.opinion, members[m]);
    }
    assert members[..|members|] == members;
    mean := sum / |members| as real;
  }

  /** The group loop: one entry per listed group with members, summed in id order. */
  method GroupMeans(world: OpinionWorld, part: Partition) returns (groupMean: map<GroupId, real>)
    ensures forall g :: g in groupMean <==> GroupMean(part, world.opinion, g).Some?
    ensures forall g :: g in groupMean ==> GroupMean(part, world.opinion, g) == Some(groupMean[g])
    ensures forall g :: g in groupMean ==> IsMeanOf(part.MembersOf(g), world.opinion, groupMean[g])
  {
    hide IsMeanOf;
    hide Average, SortDedup;
    var groupIds := SortDedup(part.groups);
    SortDedupSorts(part.groups);
    groupMean := map[];
    for k := 0 to |groupIds|
      invariant forall g :: g in groupMean <==> g in groupIds[..k] && |part.MembersOf(g)| > 0
      invariant forall g :: g in groupMean ==> GroupMean(part, world.opinion, g) == Some(groupMean[g])
    {
      var g := groupIds[k];
      var members := part.MembersOf(g);
      assert g in groupIds && groupIds[..k + 1] == groupIds[..k] + [g];
      if |members| > 0 {
        var mean := AverageOf(world, members);
        groupMean := groupMean[g := mean];
      }
    }
    assert groupIds[..|groupIds|] == groupIds;
    forall g | g in groupMean ensures IsMeanOf(part.MembersOf(g), world.opinion, groupMean[g]) {
      GroupMeanIsMean(part, world.opinion, g);
    }
  }

  /** The mechanism's `apply`: all group means from the snapshot first, then the batch write-back. */
  method Apply(alpha: real, world: OpinionWorld, part: Partition)
    requires world.Valid() && forall id :: id in world.topology.roster ==> id in part.groupOf
    modifies world
    ensures world.Valid()
    ensures world.opinion == Step(alpha, part, world.topology.roster, old(world.opinion))
    ensures forall id :: id in world.topology.roster ==> Conforms(alpha, part, old(world.opinion), world.opinion, id)
  {
    hide GroupMean, Nudge, Conforms;
    var ids := world.topology.roster;
    ghost var x := world.opinion;
    var groupMean := GroupMeans(world, part);
    var newOpinions: seq<real> := [];
    for idx := 0 to |ids|
      invariant |newOpinions| == idx && world.opinion == x
      invariant forall k :: 0 <= k < idx ==> newOpinions[k] == NewOpinion(alpha, part, x, ids[k])
    {
      var xi := Value(world.opinion, ids[idx]);
      var g := part.groupOf[ids[idx]];
      newOpinions := newOpinions + [if g in groupMean then Nudge(alpha, xi, groupMean[g]) else xi];
    }
    world.WriteAll(newOpinions);
    ghost var y := Step(alpha, part, ids, x);
    assert world.opinion.Keys == y.Keys;
    forall id | id in ids ensures world.opinion[id] == y[id] {
      var k :| 0 <= k < |ids| && ids[k] == id;
      assert Value(world.opinion, ids[k]) == newOpinions[k];
    }
    forall id | id in ids ensures Conforms(alpha, part, x, y, id) {
      StepConforms(alpha, part, ids, x, id);
    }
  }

  // ---- whole runs ----

  ghost function Run(alpha: real, part: Partition, roster: seq<AgentId>, x: Profile, n: nat): Profile
    requires forall id :: id in roster ==> id in part.groupOf
  {
    if n == 0 then x else Step(alpha, part, roster, Run(alpha, part, roster, x, n - 1))
  }

  function Power(b: real, n: nat): real { if n == 0 then 1.0 else b * Power(b, n - 1) }

  /** `g` is a group of at least one agent, all of whose members are listed. */
  ghost predicate Populated(part: Partition, roster: seq<AgentId>, g: GroupId) {
    part.Consistent(roster) && exists id :: id in part.groupOf && part.groupOf[id] == g
  }

  lemma MembersBelong(part: Partition, roster: seq<AgentId>, g: GroupId)
    requires Populated(part, roster, g)
    ensures |part.MembersOf(g)| > 0 && g in part.groups
    ensures forall id :: id in part.MembersOf(g) <==> id in part.groupOf && part.groupOf[id] == g
    ensures forall id :: id in part.MembersOf(g) ==> id in roster
  {
    SortDedupSorts(part.members[g]);
    var id :| id in part.groupOf && part.groupOf[id] == g;
    assert id in part.MembersOf(g);
  }

  /** The total of `n` opinions after each was nudged toward `mean`. */
  function Pulled(alpha: real, n: nat, mean: real, total: real): real { total + alpha * (n as real * mean - total) }

  lemma PulledNext(alpha: real, n: nat, mean: real, total: real, v: real)
    ensures Pulled(alpha, 0, mean, 0.0) == 0.0
    ensures Pulled(alpha, n + 1, mean, total + v) == Pulled(alpha, n, mean, total) + Nudge(alpha, v, mean)
  {
    var a := n as real * mean - total;
    assert (n + 1) as real * mean - (total + v) == a + (mean - v);
    assert alpha * (a + (mean - v)) == alpha * a + alpha * (mean - v);
  }

  lemma {:induction false} NudgeTotal(alpha: real, ids: seq<AgentId>, x: Profile, y: Profile, mean: real)
    requires forall id :: id in ids ==> Value(y, id) == Nudge(alpha, Value(x, id), mean)
    ensures Total(First, ids, y) == Pulled(alpha, |ids|, mean, Total(First, ids, x))
  {
    hide Nudge, Pulled;
    PulledNext(alpha, 0, mean, 0.0, 0.0);
    if |ids| > 0 {
      var m := |ids| - 1;
      NudgeTotal(alpha, ids[..m], x, y, mean);
      PulledNext(alpha, m, mean, Total(First, ids[..m], x), Value(x, ids[m]));
    }
  }

  lemma MeanFromTotal(total: real, n: nat)
    requires n > 0
    ensures n as real * (total / n as real) == total
  { }

  lemma NudgeKeepsAverage(alpha: real, ids: seq<AgentId>, x: Profile, y: Profile)
    requires |ids| > 0
    requires forall id :: id in ids ==> Value(y, id) == Nudge(alpha, Value(x, id), Average(ids, x))
    ensures Average(ids, y) == Average(ids, x)
  {
    hide Nudge;
    NudgeTotal(alpha, ids, x, y, Average(ids, x));
    MeanFromTotal(Total(First, ids, x), |ids|);
  }

  /** What a step does to one agent of a populated group. */
  lemma StepNudges(alpha: real, part: Partition, roster: seq<AgentId>, x: Profile, id: AgentId)
    requires part.Consistent(roster) && id in roster
    ensures GroupMean(part, x, part.groupOf[id]).Some?
    ensures Value(Step(alpha, part, roster, x), id) == Nudge(alpha, Value(x, id), GroupMean(part, x, part.groupOf[id]).value)
  {
    hide Nudge, Average;
    MembersBelong(part, roster, part.groupOf[id]);
  }

  /** A step keeps the mean of every populated group. */
  lemma StepKeepsMean(alpha: real, part: Partition, roster: seq<AgentId>, x: Profile, g: GroupId)
    requires Populated(part, roster, g)
    ensures GroupMean(part, x, g).Some?
    ensures GroupMean(part, Step(alpha, part, roster, x), g) == GroupMean(part, x, g)
  {
    hide Nudge, Average, Step;
    MembersBelong(part, roster, g);
    var ids, y := part.MembersOf(g), Step(alpha, part, roster, x);
    forall id | id in ids ensures Value(y, id) == Nudge(alpha, Value(x, id), Average(ids, x)) {
      StepNudges(alpha, part, roster, x, id);
    }
    NudgeKeepsAverage(alpha, ids, x, y);
  }

  /** A run keeps the sum of the opinions of every populated group. */
  lemma {:induction false} RunKeepsTotal(alpha: real, part: Partition, roster: seq<AgentId>, x: Profile, n: nat, g: GroupId)
    requires Populated(part, roster, g)
    ensures Total(First, part.MembersOf(g), Run(alpha, part, roster, x, n)) == Total(First, part.MembersOf(g), x)
  {
    hide GroupMean, Step, Total, IsMeanOf, SortDedup;
    if n > 0 {
      RunKeepsTotal(alpha, part, roster, x, n - 1, g);
      var prev := Run(alpha, part, roster, x, n - 1);
      var next := Step(alpha, part, roster, prev);
      StepKeepsMean(alpha, part, roster, prev, g);
      GroupMeanIsMean(part, prev, g);
      GroupMeanIsMean(part, next, g);
      SameMeanSameTotal(part.MembersOf(g), prev, next, GroupMean(part, prev, g).value);
    }
  }

  /** The agent's position, as its group mean plus a share of its first gap. */
  function Closed(mean: real, power: real, gap: real): real { mean + power * gap }

  lemma NudgeClosed(alpha: real, mean: real, n: nat, gap: real)
    ensures Nudge(alpha, Closed(mean, Power(1.0 - alpha, n), gap), mean) == Closed(mean, Power(1.0 - alpha, n + 1), gap)
  {
    var p := Power(1.0 - alpha, n);
    assert (1.0 - alpha) * p * gap == p * gap - alpha * (p * gap);
  }

  /** After `n` steps every agent's distance to its group mean has shrunk by (1 - alpha)^n, and the
      mean itself has not moved. */
  lemma {:induction false} ClosedForm(alpha: real, part: Partition, roster: seq<AgentId>, x: Profile, n: nat, id: AgentId)
    requires part.Consistent(roster) && id in roster
    ensures GroupMean(part, x, part.groupOf[id]).Some?
    ensures var mean := GroupMean(part, x, part.groupOf[id]).value;
            var xn := Run(alpha, part, roster, x, n);
            && GroupMean(part, xn, part.groupOf[id]) == Some(mean)
            && Value(xn, id) == Closed(mean, Power(1.0 - alpha, n), Value(x, id) - mean)
  {
    hide Step, GroupMean, Nudge;
    var g := part.groupOf[id];
    StepKeepsMean(alpha, part, roster, x, g);
    if n > 0 {
      hide Closed;
      ClosedForm(alpha, part, roster, x, n - 1, id);
      var prev := Run(alpha, part, roster, x, n - 1);
      StepKeepsMean(alpha, part, roster, prev, g);
      StepNudges(alpha, part, roster, prev, id);
      var mean := GroupMean(part, x, g).value;
      NudgeClosed(alpha, mean, n - 1, Value(x, id) - mean);
    }
  }
}
