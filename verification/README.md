# Verified models of the simulation platform's core algorithms

This Dafny project models the self-contained algorithms of the agent-based simulation platform and proves
what they are for. Loops, buffers and objects of the Rust code appear as methods, arrays and classes; each is proved
against a function or predicate, and the theorems are about those. Numbers of type `f64` and `f32` are reals; NaN and
the infinities are separate values where the code tests for them. Random draws are arbitrary streams passed as
arguments, and a shuffle is an arbitrary permutation, so every theorem holds for every seed.

| modules | what they model |
|---|---|
| `Opinions`, `HegselmannKrause`, `OpinionFreeze`, `Deffuant`, `GroupConformity` | opinion dynamics: windows, order, permanent splits, fixed points and how soon they are reached, conservation, closed forms |
| `BinaryStates`, `ThresholdContagion`, `SiContagion`, `Reachability`, `NetworkMetrics` | contagion that stops itself, and breadth-first reach |
| `LargestRemainder`, `Shares` | initial-action shares resolved to one action per agent |
| `MixedRadix`, `Odometer`, `MixedStrategies` | expected payoffs and regrets of mixed strategies |
| `Grid`, `GridNeighbors`, `GridScan`, `GridSteps`, `GridIndex` | wrap-aware distance as fewest moves, the three neighbour listings, two-way occupancy |
| `Engine`, `EngineTrace`, `Simulation` | stepping call by call, stopping, observing, snapshot and restore, the random horizon |
| `Transport`, `Distribution`, `Clusters` | Wasserstein distance as optimal transport, clusters as connected components |
| `Trajectories`, `PolicyReturns` | episode collection, returns and advantages |
| `CsvTables`, `TextSplit`, `Choice` | wide CSV tables that read back, first mentioned choice |
| `Options`, `RealSums`, `Sorting`, `Counting`, `Agents` | shared types and sums |

`dafny verify dfyconfig.toml` checks everything.

## Where the code differs from what its documentation suggests

The models follow the code. Each point is proved, with the exact condition.

- `wasserstein_1d` returns 0 for degenerate input, so a degenerate middle argument breaks the triangle
  inequality (`Distribution.TriangleIff`, `Distribution.TriangleFailsThroughZeroMass`).
- `extract_first_choice` is stable under reordering exactly when no synonym is shared by two labels: on a full tie
  the first listed label wins (`Choice.OrderIndependentIff`).
- A regret can be slightly negative, because a strategy may sum to a little more or less than 1: it is never negative,
  whatever the payoffs, exactly when the role's probabilities sum to 1 (`MixedStrategies.RegretNonNegativeIff`;
  `MixedStrategies.RegretCanBeNegative` is a concrete case, `MixedStrategies.RegretAlmostNonNegative` a bound).
- The rounding errors of `resolve_shares` start at exactly 10^9 agents (too many assigned) and just above it
  (too many left); from 10^9 agents on a zero share can win an agent (`LargestRemainder.OvershootReachableIff`,
  `LargestRemainder.ShortfallReachableIff`, `LargestRemainder.ZeroShareWinnableIff`).
- `GridIndex::place` on an agent already placed leaves its old cell filled, so the two maps stay inverse exactly when
  the agent was unplaced (`GridIndex.Index.Place`). `move_to` onto such a stale cell then succeeds without moving
  the agent (`GridIndex.MoveOntoStaleCell`); a successful `move_to` leaves the record at its target exactly when the
  target was vacant or recorded before (`GridIndex.Index.MoveTo`).
- In Hegselmann-Krause an agent is always in its own window, as the code's comment has it, exactly when neither bound is
  negative (`HegselmannKrause.DefinedIff`, `HegselmannKrause.NegativeBoundExcludesSelf`); `Apply` requires it.
- The cells found by the radius-1 scan are not always sorted before the sort, as a comment has it: they are exactly on
  fixed grids, away from the seams of a torus and on the smallest tori (`GridScan.ScanSortedIff`,
  `GridScan.UnsortedAtCorner`).

## Model

| member | source | states |
|---|---|---|
| HegselmannKrause.MeanIsInternal | crates/socsim-mechanisms/src/means.rs:128-171 | both averaging operators return a value between the least and the greatest input, for every draw |
| HegselmannKrause.RandomMeanDivides | crates/socsim-mechanisms/src/means.rs:152-169 | the random mean divides the span from the least to the greatest input, both of them inputs, in the proportion of the draw |
| HegselmannKrause.ApplyMean | crates/socsim-mechanisms/src/means.rs:128-171 | the accumulating loops of the arithmetic and the random mean compute the mathematical operator |
| HegselmannKrause.Gather | crates/socsim-mechanisms/src/opinion.rs:179-188 | the inner loop collects exactly the in-window opinions, in agent-id order |
| HegselmannKrause.Apply | crates/socsim-mechanisms/src/opinion.rs:147-200 | the three-phase apply (snapshot, confidence sets, batch write-back) installs the synchronous step of the old opinions |
| HegselmannKrause.ArithmeticStep | crates/socsim-mechanisms/src/opinion.rs:154-197 | the new opinion times the number of agents seen is the sum of their opinions, an agent seeing itself and the neighbours within its bounds, each once |
| HegselmannKrause.DefinedIff | crates/socsim-mechanisms/src/opinion.rs:180-187 | on a non-empty roster, whatever the topology and opinions, no mean is taken over an empty set if and only if neither bound is negative |
| HegselmannKrause.NegativeBoundExcludesSelf | crates/socsim-mechanisms/src/opinion.rs:181-187 | with bound -1 a lone agent has an empty confidence set |
| HegselmannKrause.StepInsideWindow | crates/socsim-mechanisms/src/opinion.rs:100-115 | on any topology and for any operator a step moves an agent down by at most the left bound and up by at most the right bound |
| HegselmannKrause.DriftIsBounded | crates/socsim-mechanisms/src/opinion.rs:100-115 | over n steps the drift is at most n left bounds down and n right bounds up; a zero bound makes every run one-sided |
| HegselmannKrause.SplitIsPermanent | crates/socsim-mechanisms/src/opinion.rs:154-197 | two sides further apart than both bounds stay apart for ever, the lower side under its old maximum and the upper side over its old minimum, on any topology |
| HegselmannKrause.RangeNeverWidens | crates/socsim-mechanisms/src/opinion.rs:154-197 | no run ever leaves the initial range of opinions |
| HegselmannKrause.WindowMeansOrdered | crates/socsim-mechanisms/src/opinion.rs:147-197 | of two agents seeing the same ids, the one with the smaller opinion has the smaller window mean, symmetric or asymmetric bounds |
| HegselmannKrause.StepKeepsOrder | crates/socsim-mechanisms/src/opinion.rs:147-197 | one step on the complete graph with the arithmetic mean keeps the order of any two agents |
| HegselmannKrause.RunKeepsOrder | crates/socsim-mechanisms/src/opinion.rs:147-197 | so does any number of steps |
| HegselmannKrause.FixedPointIff | crates/socsim-mechanisms/src/opinion.rs:147-197 | on the complete graph with the arithmetic mean a step changes nothing if and only if any two opinions are equal or further apart than the larger of the two bounds |
| OpinionFreeze.IsolatedStays | crates/socsim-mechanisms/src/opinion.rs:154-197 | an agent out of everybody else's reach keeps its opinion and stays out of reach |
| OpinionFreeze.Progress | crates/socsim-mechanisms/src/opinion.rs:147-197 | within two steps the lowest agent that is not isolated becomes isolated or rises by at least the bound over twice the squared number of agents |
| OpinionFreeze.FreezesWithin | crates/socsim-mechanisms/src/means.rs:56-62 | with a symmetric bound on the complete graph a run of the arithmetic mean settles within an explicit number of steps, polynomial in the number of agents and in range over bound |
| OpinionFreeze.ReachesFixedPoint | crates/socsim-mechanisms/src/means.rs:56-62 | so every such run reaches a fixed point and never leaves it |
| Opinions.OpinionWorld.SetOpinion | crates/socsim-mechanisms/src/opinion.rs:194-197 | writes one agent and no other |
| Opinions.OpinionWorld.WriteAll | crates/socsim-mechanisms/src/opinion.rs:194-197 | the write-back gives every roster agent its own computed value |
| Deffuant.Attempt | crates/socsim-mechanisms/src/opinion.rs:276-291 | one attempt draws at most one pair and contracts it from the pre-update values if it is within the bound |
| Deffuant.Apply | crates/socsim-mechanisms/src/opinion.rs:263-295 | the loop is pairsPerStep attempts over the scheduler order, or the roster when there is none; an empty pool consumes no draws |
| Deffuant.DrawnAreValid | crates/socsim-mechanisms/src/opinion.rs:266-283 | every drawn pair consists of two different roster agents |
| Deffuant.EveryPairDrawable | crates/socsim-mechanisms/src/opinion.rs:275-283 | every pair of a pool agent and another of its neighbours can be drawn |
| Deffuant.AttemptsAndDraws | crates/socsim-mechanisms/src/opinion.rs:263-292 | a step makes its number of attempts: one draw for each and one more for each that found a partner |
| Deffuant.MeetShrinksGap | crates/socsim-mechanisms/src/opinion.rs:283-290 | within the bound both agents move toward each other by mu times the gap, which shrinks by the factor 1 - 2 mu; beyond it, and for everybody else, nothing happens |
| Deffuant.RangeNeverWidens | crates/socsim-mechanisms/src/opinion.rs:275-292 | with a rate in [0, 1] no run leaves the initial range of opinions |
| Deffuant.MeetConserves | crates/socsim-mechanisms/src/opinion.rs:285-291 | one event keeps the sum of opinions and lowers the sum of squares by exactly 2 mu (1 - mu) times the squared gap |
| Deffuant.EventsConserve | crates/socsim-mechanisms/src/opinion.rs:275-292 | any event sequence keeps the sum, hence the mean, and lowers the sum of squares by the total of those losses |
| Deffuant.UnchangedIffNothingMoved | crates/socsim-mechanisms/src/opinion.rs:275-292 | for 0 < mu < 1 the sum of squares after a run equals that before if and only if no event of the run changed the profile |
| GroupConformity.ClampRate | crates/socsim-mechanisms/src/group.rs:56-60 | the stored rate is the given one inside [0, 1] and the nearer end of it otherwise |
| GroupConformity.GroupMeans | crates/socsim-mechanisms/src/group.rs:91-106 | the table holds exactly the listed groups that have members, each with a value that times the number of members is the sum of their opinions |
| GroupConformity.Apply | crates/socsim-mechanisms/src/group.rs:79-125 | every agent closes the fraction alpha of its gap to the mean of its group in the snapshot, if that group is listed and has members, and stays otherwise |
| GroupConformity.GroupMeanIsMean | crates/socsim-mechanisms/src/group.rs:96-104 | a group value times the number of members is the sum of their opinions |
| GroupConformity.StepConforms | crates/socsim-mechanisms/src/group.rs:107-119 | what a step does to an agent, against that description of the mean |
| GroupConformity.StepKeepsMean | crates/socsim-mechanisms/src/group.rs:79-122 | with consistent accessors a step keeps the mean of every populated group |
| GroupConformity.RunKeepsTotal | crates/socsim-mechanisms/src/group.rs:79-122 | any number of steps keeps the sum of the opinions of every populated group |
| GroupConformity.ClosedForm | crates/socsim-mechanisms/src/group.rs:79-122 | after n steps an agent is at its group mean plus (1 - alpha)^n times its initial distance from it |
| Distribution.NormalizedIsDistribution | crates/socsim-metrics/src/distribution.rs:202-208 | a successful normalisation is non-negative, sums to 1 and has an entry per input |
| Distribution.NormalizedIff | crates/socsim-metrics/src/distribution.rs:202-208 | normalising succeeds if and only if some mass is positive; the result is proportional to the masses with negative ones counted as 0 |
| Distribution.NormalizationUnique | crates/socsim-metrics/src/distribution.rs:202-208 | only one vector is proportional to the masses and sums to 1 |
| Transport.CostIsFlow | crates/socsim-metrics/src/distribution.rs:232-250 | the cost of moving mass by the index distance is the sum over all cuts of the mass crossing them |
| Transport.FlowAtLeastGap | crates/socsim-metrics/src/distribution.rs:256-266 | every coupling moves at least the CDF difference over every cut |
| Transport.ComonotoneIsCoupling | crates/socsim-metrics/src/distribution.rs:256-266 | the coupling built from the minima of the two CDFs has the right marginals and no negative entry |
| Transport.ComonotoneFlow | crates/socsim-metrics/src/distribution.rs:256-266 | it moves exactly the CDF difference over every cut |
| Transport.CdfDistanceIsTransportCost | crates/socsim-metrics/src/distribution.rs:232-266 | the CDF sum is the optimal transport cost: no coupling is cheaper and one attains it |
| Distribution.Wasserstein1d | crates/socsim-metrics/src/distribution.rs:250-267 | the loop returns the optimal transport cost of the normalised inputs, 0 for degenerate ones, and the index distance for two point masses |
| Distribution.PointMassDistance | crates/socsim-metrics/src/distribution.rs:250-267 | between two inputs with all mass at i and at j the distance is the index distance |
| Distribution.WassersteinSymmetric | crates/socsim-metrics/src/distribution.rs:245-250 | symmetry, degenerate inputs included |
| Distribution.WassersteinSeparates | crates/socsim-metrics/src/distribution.rs:250-267 | on comparable inputs the distance is 0 if and only if the normalised inputs are equal |
| Distribution.TriangleIff | crates/socsim-metrics/src/distribution.rs:247-250 | the triangle inequality holds if and only if the outer inputs are not comparable, or the middle one is comparable with the first, or the outer ones normalise alike |
| Distribution.TriangleFailsThroughZeroMass | crates/socsim-metrics/src/distribution.rs:247-257 | an all-zero middle input breaks the triangle inequality |
| Distribution.MeanDiffAtMostNemd | crates/socsim-metrics/src/distribution.rs:280-305 | for every range the mean difference is at most the normalised distance, and neither is negative |
| Distribution.MeanDiffIsNemdIff | crates/socsim-metrics/src/distribution.rs:280-305 | the two agree if and only if one cumulative distribution lies on one side of the other throughout |
| Distribution.NemdUnitInterval | crates/socsim-metrics/src/distribution.rs:272-285 | with range k - 1 the normalised distance lies in [0, 1] |
| Distribution.NemdIsOneIff | crates/socsim-metrics/src/distribution.rs:272-285 | it is 1 if and only if all mass sits at opposite ends of the scale |
| LargestRemainder.ApportionmentOptimal | crates/socsim-games/src/assemble.rs:115-142 | no integer vector with the same total deviates less in absolute value from the quotas |
| LargestRemainder.ApportionmentUnique | crates/socsim-games/src/assemble.rs:127-142 | the rule, with listed order breaking ties, determines the counts |
| LargestRemainder.LargerQuotaNoFewer | crates/socsim-games/src/assemble.rs:130-142 | a larger quota gets no fewer agents, and of two equal ones the earlier listed gets no fewer |
| LargestRemainder.SmallPopulationsNeverFail | crates/socsim-games/src/assemble.rs:115-139 | below 10^9 agents neither rounding error can occur for accepted shares |
| LargestRemainder.OvershootReachableIff | crates/socsim-games/src/assemble.rs:121-128 | some accepted shares overshoot n agents if and only if n is at least 10^9 |
| LargestRemainder.ShortfallReachableIff | crates/socsim-games/src/assemble.rs:121-139 | some accepted shares leave more agents than entries if and only if n exceeds 10^9 |
| LargestRemainder.ZeroShareGetsNothing | crates/socsim-games/src/assemble.rs:115-142 | a zero share gets nobody unless the shares fall short by a whole agent |
| LargestRemainder.ZeroShareSafe | crates/socsim-games/src/assemble.rs:90-142 | so never when the shares sum to 1 or more, nor below 10^9 agents |
| LargestRemainder.ZeroShareWinnableIff | crates/socsim-games/src/assemble.rs:90-142 | a zero share can win an agent if and only if there are at least 10^9 agents |
| Shares.SortByFraction | crates/socsim-games/src/assemble.rs:130-134 | a permutation of the indices, by descending fractional part, listed order kept among equals |
| Shares.HandOut | crates/socsim-games/src/assemble.rs:140-142 | one more agent for exactly the first entries of the order |
| Shares.Apportion | crates/socsim-games/src/assemble.rs:115-142 | succeeds exactly when neither rounding check fails, with the unique apportionment; otherwise says which check failed and by how much |
| Shares.ExpandCounts | crates/socsim-games/src/assemble.rs:144-147 | the expanded list holds every action as often as its count |
| Shares.ResolveShares | crates/socsim-games/src/assemble.rs:72-152 | succeeds exactly on well-configured shares that pass both rounding checks; the shuffled result realises the apportionment; an error is the justified one |
| Shares.RealisedIsApportionment | crates/socsim-games/src/assemble.rs:115-152 | on success the numbers of agents holding the actions are the apportionment of n times each entry's own share |
| Shares.ErrorDetermined | crates/socsim-games/src/assemble.rs:78-139 | at most one error is justified: the first failing check at its first failing place |
| ThresholdContagion.Evaluate | crates/socsim-mechanisms/src/contagion.rs:158-176 | an agent fires if and only if its threshold is finite and its active neighbour entries number at least threshold times max(degree, 1) |
| ThresholdContagion.Scan | crates/socsim-mechanisms/src/contagion.rs:152-178 | lists exactly the inactive agents that fire against the snapshot, each once, and counts the active ones |
| ThresholdContagion.ThresholdRound | crates/socsim-mechanisms/src/contagion.rs:145-187 | an inactive roster agent becomes active if and only if its threshold is finite and its active neighbour entries number at least threshold times max(degree, 1); active ones stay; a stop is requested exactly when nothing changed or everybody is active |
| ThresholdContagion.ActivatesIff | crates/socsim-mechanisms/src/contagion.rs:165-176 | the round on sets against that count |
| ThresholdContagion.IsolatedActivatesIff | crates/socsim-mechanisms/src/contagion.rs:173-176 | an agent without neighbours activates if and only if its threshold is at most 0 |
| BinaryStates.TotalActive | crates/socsim-mechanisms/src/contagion.rs:180-186 | the counter test total_active >= n says that everybody is active |
| ThresholdContagion.ApplyGlobal | crates/socsim-mechanisms/src/contagion.rs:231-235 | the global form is a round with one threshold for all |
| ThresholdContagion.ApplyPerAgent | crates/socsim-mechanisms/src/contagion.rs:282-296 | the per-agent form is a round with the thresholds read from the world |
| ThresholdContagion.PerAgentIsGlobal | crates/socsim-mechanisms/src/contagion.rs:231-296 | with equal thresholds the per-agent form is the global one |
| ThresholdContagion.RunToStop | crates/socsim-mechanisms/src/contagion.rs:143-187 | rounds until the stop end in the least set that contains the seeds and is closed under the rule, after at most max(1, n - the number of seeds) rounds |
| ThresholdContagion.RosterOrderIrrelevant | crates/socsim-mechanisms/src/contagion.rs:143-187 | the outcome does not depend on the order of the roster |
| ThresholdContagion.OutcomeMonotone | crates/socsim-mechanisms/src/contagion.rs:143-187 | more seeds and lower thresholds never shrink the outcome |
| SiContagion.Expose | crates/socsim-mechanisms/src/contagion.rs:96-110 | one agent is infected exactly by the first successful trial over its active neighbours, with the draws consumed so far |
| SiContagion.TrialsIff | crates/socsim-mechanisms/src/contagion.rs:108-114 | an agent is infected if and only if one of the next draws, one per active neighbour, is below p; draws are used up to the first that is |
| SiContagion.InfectedIff | crates/socsim-mechanisms/src/contagion.rs:102-114 | so over a whole visit, each agent's draws following those used for the agents visited before it |
| SiContagion.Apply | crates/socsim-mechanisms/src/contagion.rs:76-130 | apply is the synchronous infection step over any scheduler order of roster agents, or the roster; a stop is requested exactly when the counters say so |
| SiContagion.CountsOutIffSaturated | crates/socsim-mechanisms/src/contagion.rs:124-128 | when the order holds every agent once, the counter test holds if and only if nothing changed or everybody is active |
| SiContagion.ActiveWithinDistance | crates/socsim-mechanisms/src/contagion.rs:76-130 | for every probability and draws, agents active after k rounds lie within distance k of the seeds; with certain infection they are exactly that ball |
| SiContagion.Round | crates/socsim-mechanisms/src/contagion.rs:76-130 | a stop is requested exactly at saturation, and a round that goes on infects somebody and spares somebody |
| SiContagion.RunToStop | crates/socsim-mechanisms/src/contagion.rs:76-130 | for every beta the run is exactly the rounds up to the first saturated one, at most max(1, n - number of seeds) of them; the outcome lies in the reachable set and with beta at least 1 is that set |
| Reachability.BallIsDistance | crates/socsim-mechanisms/src/contagion.rs:85-110 | the iterated neighbourhood is the set of agents at path distance at most k |
| Reachability.ReachableIsLeast | crates/socsim-metrics/src/network.rs:106-141 | the set of path ends is the least closed set containing the seeds |
| NetworkMetrics.Expand | crates/socsim-metrics/src/network.rs:133-139 | expanding a node keeps the search invariant and makes progress |
| NetworkMetrics.Reach | crates/socsim-metrics/src/network.rs:121-139 | the breadth-first visited set is exactly the set reachable from the active nodes |
| NetworkMetrics.ReachFraction | crates/socsim-metrics/src/network.rs:117-141 | the reachable share of the nodes, 0 for an empty network |
| NetworkMetrics.ReachAgreesWithContagion | crates/socsim-metrics/src/network.rs:106-116 | run on one symmetric world, the breadth-first search visits exactly the agents active when certain SI contagion stops |
| Reachability.SymmetricReachable | crates/socsim-mechanisms/src/contagion.rs:85-110 | on a symmetric topology the direction of links does not matter |
| Odometer.AdvanceProfile | crates/socsim-games/src/mixed.rs:209-218 | the in-place odometer computes the tick and reports whether it wrapped around |
| Odometer.TickIsNext | crates/socsim-games/src/mixed.rs:209-218 | a tick moves to the next rank and ends exactly at the last profile, back at all zeros |
| Odometer.EveryProfileOnce | crates/socsim-games/src/mixed.rs:187-206 | every action profile is visited at exactly one position of the walk |
| Odometer.RankSumIsNested | crates/socsim-games/src/mixed.rs:187-206 | summing in odometer order is summing over all profiles |
| MixedStrategies.WeightsTotal | crates/socsim-games/src/mixed.rs:187-206 | the probabilities of all profiles add up to the product of the roles' masses |
| MixedStrategies.NewStrategy | crates/socsim-games/src/mixed.rs:40-48 | accepts exactly the non-empty finite non-negative vectors whose sum is within 1e-9 of 1, unchanged |
| MixedStrategies.ValidateProfile | crates/socsim-games/src/mixed.rs:157-179 | fails exactly on a role-count or dimension mismatch and names the first one |
| MixedStrategies.ActionPayoffsValidated | crates/socsim-games/src/mixed.rs:181-207 | terminates with, for every action, the sum over the profiles playing it of the others' probability times payoff; skipping zero-probability profiles changes nothing |
| MixedStrategies.DotIsPayoff | crates/socsim-games/src/mixed.rs:97-103 | weighting the action payoffs by the role's own probabilities gives the full multilinear sum |
| MixedStrategies.ExpectedPayoff | crates/socsim-games/src/mixed.rs:85-104 | returns that multilinear sum, or the error of the first failed check |
| MixedStrategies.PurePayoff | crates/socsim-games/src/mixed.rs:85-104 | when every role plays one action the expected payoff is the payoff of that profile |
| MixedStrategies.StrategiesArePlayable | crates/socsim-games/src/mixed.rs:157-179 | a validated profile leaves no role without an action, so the walk is never empty |
| MixedStrategies.Regrets | crates/socsim-games/src/mixed.rs:123-143 | returns for each role the best action payoff less the expected payoff |
| MixedStrategies.RegretDecomposes | crates/socsim-games/src/mixed.rs:123-143 | regret is the probability-weighted shortfall of the played actions plus the best payoff times what the probabilities lack to 1 |
| MixedStrategies.RegretAlmostNonNegative | crates/socsim-games/src/mixed.rs:123-143 | for every accepted profile regret is at least -1e-9 times the absolute best payoff |
| MixedStrategies.ExactRegret | crates/socsim-games/src/mixed.rs:123-143 | with probabilities summing to exactly 1 regret is non-negative, and 0 if and only if every played action is a best response |
| MixedStrategies.OwnStrategyIrrelevant | crates/socsim-games/src/mixed.rs:181-207 | a role's action payoffs do not depend on its own strategy |
| MixedStrategies.ZeroRegretIffNash | crates/socsim-games/src/mixed.rs:123-155 | all regrets are 0 if and only if no role can gain by any exact deviation |
| MixedStrategies.RegretNonNegativeIff | crates/socsim-games/src/mixed.rs:123-143 | for given strategies a role's regret is non-negative whatever the payoffs if and only if its probabilities sum to exactly 1 |
| MixedStrategies.RegretCanBeNegative | crates/socsim-games/src/mixed.rs:40-48 | a concrete accepted profile of a best-responding role with negative regret |
| Grid.WrapIsModulo | crates/socsim-grid/src/lib.rs:488-491 | the truncating-remainder formula yields the representative in [0, len) |
| Grid.ToroidalOffset | crates/socsim-grid/src/lib.rs:495-501 | no offset that wraps a to b is shorter than the toroidal difference |
| Grid.ShortOffsetWraps | crates/socsim-grid/src/lib.rs:495-501 | and one offset of exactly that length wraps a to b |
| Grid.CandidateIsNeighbor | crates/socsim-grid/src/lib.rs:156-174 | every offset that passes the shape and boundary tests leads to another cell within the radius |
| Grid.NeighborIsCandidate | crates/socsim-grid/src/lib.rs:236-275 | every other cell within the radius is reached by a scanned offset that passes them, on every torus however small |
| Grid.NeighborSymmetric | crates/socsim-grid/src/lib.rs:305-314 | being neighbours is symmetric |
| GridSteps.DistanceIsFewestMoves | crates/socsim-grid/src/lib.rs:305-314 | the distance of two cells is the least number of single moves from one to the other, clipped or wrapped at the border |
| GridNeighbors.NeighborsRadiusInto | crates/socsim-grid/src/lib.rs:236-275 | strictly sorted, exactly the other cells at distance at most the radius |
| GridNeighbors.ListingUnique | crates/socsim-grid/src/lib.rs:236-275 | only one list has that property |
| GridNeighbors.CollectOne | crates/socsim-grid/src/lib.rs:373-399 | the radius-1 scan never writes past eight slots and collects exactly the neighbours |
| GridScan.ScanSortedIff | crates/socsim-grid/src/lib.rs:377-415 | the cells as collected are in row-major order already if and only if the grid is fixed, or the centre is away from the seams of the torus, or the torus is so small that wrapping does not show |
| GridScan.UnsortedAtCorner | crates/socsim-grid/src/lib.rs:377-380 | around the corner of the 3 x 3 torus they are not |
| GridNeighbors.FillBuffer | crates/socsim-grid/src/lib.rs:373-415 | sorting the collected cells and copying them without repeats leaves the listing in the first slots |
| GridNeighbors.NeighborsIter.constructor | crates/socsim-grid/src/lib.rs:373-415 | a new iterator has that listing still to yield |
| GridNeighbors.NeighborsIter.Next | crates/socsim-grid/src/lib.rs:421-429 | yields the remaining cells in order and then nothing |
| GridNeighbors.NeighborsIter.SizeHint | crates/socsim-grid/src/lib.rs:431-434 | the exact number of cells still to come |
| GridNeighbors.IteratorAgrees | crates/socsim-grid/src/lib.rs:277-297 | the iterator yields the list the buffered form returns |
| GridNeighbors.AdjacencyRadius | crates/socsim-grid/src/lib.rs:335-355 | every slice of the compressed table lies inside it and is the indices of that cell's listing |
| GridNeighbors.RowMeaning | crates/socsim-grid/src/lib.rs:446-484 | a slice is ascending and holds exactly the other indices within the radius |
| GridIndex.Index.constructor | crates/socsim-grid/src/lib.rs:569-576 | a new index has every cell vacant and nobody placed |
| GridIndex.Index.Place | crates/socsim-grid/src/lib.rs:611-620 | the errors in order; a success writes one cell and one record; the two maps stay inverse if and only if the agent was unplaced |
| GridIndex.Index.MoveTo | crates/socsim-grid/src/lib.rs:647-674 | the errors in order; a success vacates the old cell and fills the new one; it leaves the record at the target if and only if the target was vacant or recorded before; inverse maps stay inverse |
| GridIndex.MoveOntoStaleCell | crates/socsim-grid/src/lib.rs:607-664 | an agent placed in two cells can be moved onto the first with success and without effect |
| GridIndex.Index.Occupant | crates/socsim-grid/src/lib.rs:625-631 | the agent in the cell, none out of bounds |
| GridIndex.Index.VacantCells | crates/socsim-grid/src/lib.rs:677-685 | exactly the vacant cells in strict row-major order |
| GridIndex.Index.NearestVacant | crates/socsim-grid/src/lib.rs:699-712 | the row-major first of the vacant cells at least distance, none exactly on a full grid |
| GridIndex.DistinctCells | crates/socsim-grid/src/lib.rs:611-674 | after any calls distinct placed agents have distinct recorded cells |
| GridIndex.PlacedConsistent | crates/socsim-grid/src/lib.rs:611-620 | placing keeps every record pointing at a cell that holds its agent |
| GridIndex.MovedConsistent | crates/socsim-grid/src/lib.rs:647-674 | so does moving |
| GridIndex.CellsConserved | crates/socsim-grid/src/lib.rs:677-691 | with inverse maps vacant cells plus placed agents are rows times columns |
| Simulation.Simulation.Step | crates/socsim-engine/src/lib.rs:98-136 | the driver's step over mutable fields is its calls: with the clock advanced and the scratch cleared, one call per phase and registered mechanism in phase then insertion order, each on the state its predecessor left, the first failed one last |
| EngineTrace.StepIsItsCalls | crates/socsim-engine/src/lib.rs:98-136 | the same of the model step |
| EngineTrace.StopIffAsked | crates/socsim-engine/src/lib.rs:119-131 | after a step the stop flag is raised if and only if it was before or some call of the step asked |
| Simulation.Simulation.Run | crates/socsim-engine/src/lib.rs:144-149 | the loop ends in the state after n steps, the first with time up, a stop requested or a step failed |
| EngineTrace.RunEnds | crates/socsim-engine/src/lib.rs:144-149 | every run ends there |
| EngineTrace.RunEndsWhenAsked | crates/socsim-engine/src/lib.rs:144-149 | a run ends after the first step in which any mechanism asks |
| Simulation.Simulation.RunUntil | crates/socsim-engine/src/lib.rs:161-172 | ends at the first step after which the predicate holds, or where run halts, and not before |
| Simulation.Simulation.RunObserved | crates/socsim-engine/src/lib.rs:207-227 | ends where run ends; one report per successful step in order, none after a stop |
| Simulation.Simulation.RunSteps | crates/socsim-engine/src/lib.rs:144-149 | k loop iterations are the k-step state |
| Simulation.Simulation.TakeSnapshot | crates/socsim-engine/src/lib.rs:288-295 | captures world, clock, generator and stop flag |
| Simulation.Simulation.Restore | crates/socsim-engine/src/lib.rs:304-309 | overwrites those and clears the scratch |
| Engine.RunFromAnyStep | crates/socsim-engine/src/lib.rs:144-149 | continuing from the state after any number of steps ends where the run ends |
| Engine.ResumeIsExact | crates/socsim-engine/src/lib.rs:283-310 | restoring a snapshot and running ends with the world, clock, generator, stop flag and outcome of the uninterrupted run |
| Simulation.ResumeElsewhere | crates/socsim-engine/src/lib.rs:283-310 | the same for two driver objects whose continuation mechanisms stand at any internal position |
| Simulation.NewContinuation | crates/socsim-mechanisms/src/continuation_probability.rs:59-72 | accepts exactly the finite probabilities in [0, 1] |
| Simulation.ContinuationProbability.DrawForStep | crates/socsim-mechanisms/src/continuation_probability.rs:84-97 | the variate of step t is stream element t - 1 whatever the generator's position, rewinding included |
| Simulation.ContinuationProbability.Apply | crates/socsim-mechanisms/src/continuation_probability.rs:109-120 | requests a stop, and records it with step, delta and variate, exactly when that variate is at least delta |
| Engine.StepWithContinuation | crates/socsim-mechanisms/src/continuation_probability.rs:14-44 | wherever it is inserted, the mechanism changes nothing in a step but the stop flag, raised exactly when the variate is at least delta |
| Engine.UnchangedBeforeStop | crates/socsim-mechanisms/src/continuation_probability.rs:14-44 | before its stop the whole trajectory is that of the model without it |
| Engine.EndsAtFirstStop | crates/socsim-mechanisms/src/continuation_probability.rs:109-120 | at the first variate of at least delta the run ends, in the state the other model has there |
| Clusters.DistinctClusters | crates/socsim-metrics/src/stats.rs:166-181 | the sorted-gap sweep counts the connected components of the graph joining values at most tol apart |
| Clusters.ClustersCountComponents | crates/socsim-metrics/src/stats.rs:156-181 | for tol >= 0 there is a labelling with exactly that many labels whose classes are the components |
| Clusters.ClustersPermutationInvariant | crates/socsim-metrics/src/stats.rs:166-181 | the count depends only on how often each value occurs |
| Clusters.AscendingUnique | crates/socsim-metrics/src/stats.rs:170-171 | the ascending sort of a list is unique |
| Trajectories.TrajectoryBuffer.BeginDecision | crates/socsim-marl/src/buffer.rs:30-32 | records or replaces the agent's pending decision only |
| Trajectories.TrajectoryBuffer.Complete | crates/socsim-marl/src/buffer.rs:37-45 | moves the pending decision with its reward to the end of the agent's trajectory; nothing when none is pending |
| Trajectories.TrajectoryBuffer.PendingAgents | crates/socsim-marl/src/buffer.rs:48-50 | the pending agents in ascending order |
| Trajectories.TrajectoryBuffer.TakeEpisode | crates/socsim-marl/src/buffer.rs:55-58 | one trajectory per agent in agent order, and both maps empty |
| Trajectories.TrajectoryBuffer.Clear | crates/socsim-marl/src/buffer.rs:61-64 | both maps empty |
| Trajectories.Collect | crates/socsim-marl/src/mechanism.rs:91-108 | in collect mode the choices of a step are recorded on top of what was pending |
| Trajectories.DecisionOfLastAct | crates/socsim-marl/src/mechanism.rs:91-108 | what is then pending for an agent is the decision of its last act, or the earlier one when it did not act |
| Trajectories.RewardStep | crates/socsim-marl/src/trainer.rs:92-99 | after a step's reward loop nothing is pending, each pending agent got one transition, and the paid sum is what the trajectories gained |
| Trajectories.Rollout | crates/socsim-marl/src/trainer.rs:88-100 | over an episode the buffer holds, per agent, one transition per step it acted in, in order, and the total is their reward sum |
| Trajectories.ExpectedEntry | crates/socsim-marl/src/trainer.rs:88-100 | the entry of a step in which the agent acted is its last decision of that step with the reward of that step, at the position given by the number of earlier steps it acted in |
| Trajectories.Episode | crates/socsim-marl/src/trainer.rs:84-108 | the update receives exactly those trajectories in agent order, total_reward is the sum of their rewards, and the buffer is left empty |
| PolicyReturns.ReturnRecurrence | crates/socsim-marl/src/net.rs:146-149 | the discounted sum of later rewards satisfies the backward recurrence |
| PolicyReturns.EpisodeReturns | crates/socsim-marl/src/net.rs:144-149 | the backward loop fills in the discounted sum at every step |
| PolicyReturns.Flatten | crates/socsim-marl/src/net.rs:138-155 | flattened observations, actions and returns stay aligned, transition by transition |
| PolicyReturns.FlatRow | crates/socsim-marl/src/net.rs:150-170 | in the flat tensor the row of a transition is its observation, beside its action |
| PolicyReturns.AdvantagesSumToZero | crates/socsim-marl/src/net.rs:162-166 | advantages sum to 0 for any deviation of at least 1e-6 |
| PolicyReturns.AdvantageGap | crates/socsim-marl/src/net.rs:162-166 | two advantages differ by the difference of the returns in units of the deviation |
| PolicyReturns.AdvantagesKeepOrder | crates/socsim-marl/src/net.rs:162-166 | and keep the order of the returns |
| CsvTables.FirstSeenOrder | crates/socsim-log/src/lib.rs:350-356 | columns are distinct, are exactly the recorded names, and come in order of first occurrence |
| CsvTables.LateColumnMissing | crates/socsim-log/src/lib.rs:350-360 | a column not yet seen was recorded in no earlier call, so back-filling with missing is right |
| CsvTables.WidenedRow | crates/socsim-log/src/lib.rs:357-360 | widening a stored row gives its alignment to the longer column list |
| CsvTables.CsvRecorder.RecordRow | crates/socsim-log/src/lib.rs:348-373 | after any calls the columns of every table are the recorded names, and each cell holds the first value recorded under its name in its call, or is missing when its call has no such name |
| CsvTables.LookupHolds | crates/socsim-log/src/lib.rs:361-371 | a lookup returns the first value recorded under the name, and missing when there is none |
| CsvTables.RebuildHolds | crates/socsim-log/src/lib.rs:348-373 | so does every cell of a table rebuilt from its calls |
| CsvTables.CsvRecorder.SetColumns | crates/socsim-log/src/lib.rs:231-236 | pins a schema without touching stored rows |
| CsvTables.SchemaAgreesWithLog | crates/socsim-log/src/lib.rs:274-302 | schema-pinned output is determined by the log: recorded values under the schema's names, empty otherwise |
| CsvTables.AutoAgreesWithLog | crates/socsim-log/src/lib.rs:254-271 | auto-discovered output likewise under the first-seen columns |
| CsvTables.CsvRecorder.TableCsv | crates/socsim-log/src/lib.rs:245-251 | rendering is that function of the log and the pinned schema, none for an unknown table; split at line ends and commas it reads back as the columns, times and recorded values |
| CsvTables.RenderReadsBack | crates/socsim-log/src/lib.rs:254-302 | rendered text without separators inside its fields reads back field by field |
| TextSplit.SplitJoined | crates/socsim-log/src/lib.rs:254-302 | text joined by a separator splits into the parts of both sides |
| Choice.FindOnWordBoundary | crates/socsim-llm/src/parse.rs:193-207 | terminates with the first bounded occurrence, or none exactly when there is none |
| Choice.BoundedBetween | crates/socsim-llm/src/parse.rs:193-215 | a needle between two texts is bounded if and only if neither text touches it with a letter or digit |
| Choice.WordChars | crates/socsim-llm/src/parse.rs:209-215 | the characters of words are the 26 letters in both cases and the ten digits |
| Choice.LowercaseLetters | crates/socsim-llm/src/parse.rs:162-171 | lowercasing maps each capital to its small letter and keeps everything else |
| Choice.ExtractFirstChoice | crates/socsim-llm/src/parse.rs:161-188 | the label of the earliest bounded mention, the longest on a tie and then the first listed; none exactly when nothing is mentioned |
| Choice.AnswerExists | crates/socsim-llm/src/parse.rs:161-188 | every text has such an answer |
| Choice.OrderIrrelevant | crates/socsim-llm/src/parse.rs:148-151 | without shared synonyms the answer is the same under every reordering or regrouping of labels and synonyms |
| Choice.ReorderedSameVocabulary | crates/socsim-llm/src/parse.rs:143-151 | reordering labels, and synonyms within labels, keeps what stands for what |
| Choice.OrderIndependentIff | crates/socsim-llm/src/parse.rs:148-151 | the answer is independent of the order of the labels if and only if no lowercased synonym is shared by two labels |

## Left out

- Floating-point rounding, bit-identical summation orders and `f64` overflow: all arithmetic is over the reals.
- HegselmannKrause.ApplyMean: the geometric, harmonic and power means are not modelled, because they need roots or logarithms, or opinions that are never 0.
- HegselmannKrause.MeanIsInternal: covers the arithmetic and the random operator only, for the same reason.
- Geometric, harmonic and power means, Euclidean distances and the ordinal standard deviation: roots and
  transcendentals have no exact contract over the reals; the mean operators modelled are the arithmetic and the
  random one, the metrics Chebyshev and Manhattan.
- Infinite CSV values and number formatting: a recorded value is a real or NaN, and the two printers are parameters of the rendering.
- Random number generators, seeds and shuffles: draws are arbitrary streams, shuffles arbitrary permutations.
- Machine word limits: indices, counts and the clock are unbounded naturals.
- Engine recorders and events, saving to and loading from files, and `step_reported` on its own: they carry data out of the run without acting on it.
- Engine mechanisms are modelled as functions of phase, clock, order, world, generator and scratch; a mechanism that rewrites the clock through the world, or keeps hidden state other than the continuation generator, is outside the model.
- Trajectories.Episode: an environment step that fails, which aborts training, is not modelled; the steps of an episode are given as the choices made in them.
- Tensors, the gradient step, softmax sampling and the square root in the standard deviation: `PolicyReturns` takes any deviation of at least the floor.
- Choice.ExtractFirstChoice: text outside ASCII, where lowercasing can change lengths and byte positions, is not modelled.
- The world assembly around `resolve_shares` (`build_world_with`, kinds, rules, matching), whose parts call into code with its own state.
- Axelrod culture, social judgement, Lorenz and clamping updates, inequality indices, component sizes, key-value caches and text-fence helpers: they would only add easy members.
- Network clients, command line, configuration files, dataset download and log files: input and output.
