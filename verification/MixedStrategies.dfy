// Mixed strategies: expected payoffs by the odometer walk, regrets, and Nash equilibria.
module MixedStrategies {
  import opened Options
  import opened RealSums
  import opened Odometer

  const TOLERANCE: real := 0.000000001

  /** A game by its action counts and payoffs. */
  datatype Game = Game(counts: seq<nat>, payoff: (nat, Profile) -> real)

  type Strategy = seq<real>

  datatype MixedError =
    | NotADistribution
    | Dimension(role: nat, expected: nat, actual: nat)
    | RoleCount(expected: nat, actual: nat)

  function Mass(s: Strategy): real { SumF(a => At(s, a), |s|) }

  /** What `MixedStrategy` guarantees of its probabilities. */
  ghost predicate IsStrategy(s: Strategy) {
    && |s| > 0
    && (forall a :: 0 <= a < |s| ==> s[a] >= 0.0)
    && Abs(Mass(s) - 1.0) <= TOLERANCE
  }

  /** The sum of the finite entries. */
  function FloatTotal(probs: seq<Float>): real {
    if |probs| == 0 then 0.0
    else FloatTotal(probs[..|probs| - 1]) + (if probs[|probs| - 1].Finite? then probs[|probs| - 1].value else 0.0)
  }

  lemma {:induction false} FloatTotalIsMass(probs: seq<Float>, s: Strategy)
    requires |s| == |probs| && forall a :: 0 <= a < |s| ==> s[a] == if probs[a].Finite? then probs[a].value else 0.0
    ensures FloatTotal(probs) == Mass(s)
  {
    if |s| > 0 {
      var n := |s| - 1;
      FloatTotalIsMass(probs[..n], s[..n]);
      SumExt(a => At(s, a), a => At(s[..n], a), n);
    }
  }

  /** Validates a probability vector without normalising it. */
  method NewStrategy(probs: seq<Float>) returns (r: Result<Strategy, MixedError>)
    ensures r.Ok? <==> (forall a :: 0 <= a < |probs| ==> probs[a].Finite?)
                       && IsStrategy(seq(|probs|, a requires 0 <= a < |probs| => if probs[a].Finite? then probs[a].value else 0.0))
    ensures r.Ok? ==> IsStrategy(r.value) && |r.value| == |probs| && forall a :: 0 <= a < |probs| ==> probs[a] == Finite(r.value[a])
    ensures r.Err? ==> r.error == NotADistribution
    ensures r.Ok? <==>
      && |probs| > 0 && (forall a :: 0 <= a < |probs| ==> probs[a].Finite? && probs[a].value >= 0.0)
      && -0.000000001 <= FloatTotal(probs) - 1.0 <= 0.000000001
  {
    FloatTotalIsMass(probs, seq(|probs|, a requires 0 <= a < |probs| => if probs[a].Finite? then probs[a].value else 0.0));
    ghost var all := seq(|probs|, a requires 0 <= a < |probs| => if probs[a].Finite? then probs[a].value else 0.0);
    if |probs| == 0 {
      return Err(NotADistribution);
    }
    var values: Strategy := [];
    for a := 0 to |probs|
      invariant |values| == a && forall k :: 0 <= k < a ==> probs[k] == Finite(values[k]) && values[k] >= 0.0
    {
      if !probs[a].Finite? || probs[a].value < 0.0 {
        assert all[a] == if probs[a].Finite? then probs[a].value else 0.0;
        return Err(NotADistribution);
      }
      values := values + [probs[a].value];
    }
    assert values == all;
    r := if Abs(Mass(values) - 1.0) > TOLERANCE then Err(NotADistribution) else Ok(values);
  }

  ghost predicate ValidStrategies(game: Game, strategies: seq<Strategy>) {
    && |game.counts| > 0
    && |strategies| == |game.counts|
    && forall r :: 0 <= r < |strategies| ==> |strategies[r]| == game.counts[r]
  }

  /** The dimension checks; `None` is success. */
  method ValidateProfile(game: Game, strategies: seq<Strategy>) returns (error: Option<MixedError>)
    ensures error.None? <==> ValidStrategies(game, strategies)
    ensures error.Some? ==> match error.value
      case RoleCount(expected, actual) =>
        expected == |game.counts| && actual == |strategies| && (expected == 0 || actual != expected)
      case Dimension(r, expected, actual) =>
        && |strategies| == |game.counts| && r < |strategies|
        && expected == game.counts[r] && actual == |strategies[r]| && actual != expected
        && forall k :: 0 <= k < r ==> |strategies[k]| == game.counts[k]
      case NotADistribution => false
  {
    if |game.counts| == 0 || |strategies| != |game.counts| {
      return Some(RoleCount(|game.counts|, |strategies|));
    }
    for r := 0 to |strategies|
      invariant forall k :: 0 <= k < r ==> |strategies[k]| == game.counts[k]
    {
      if |strategies[r]| != game.counts[r] {
        return Some(Dimension(r, game.counts[r], |strategies[r]|));
      }
    }
    error := None;
  }

  // ---- the mathematical payoffs ----

  /** The product of the roles' probabilities of their actions in `p`, leaving out role `skip`. */
  function Weight(strategies: seq<Strategy>, p: Profile, skip: int): real
    requires |p| == |strategies|
  {
    if |p| == 0 then 1.0
    else
      var n := |p| - 1;
      Mul(Weight(strategies[..n], p[..n], skip), if n == skip then 1.0 else At(strategies[n], p[n]))
  }

  ghost function FullTerm(game: Game, strategies: seq<Strategy>, role: nat): Profile -> real {
    p => if |p| == |strategies| then Mul(Weight(strategies, p, -1), game.payoff(role, p)) else 0.0
  }

  ghost function ActionTerm(game: Game, strategies: seq<Strategy>, role: nat, a: int): Profile -> real {
    p => if |p| == |strategies| && role < |p| && p[role] == a then Mul(Weight(strategies, p, role), game.payoff(role, p)) else 0.0
  }

  /** The expected payoff of `role`: the sum over all profiles of their probability times the payoff. */
  ghost function Payoff(game: Game, strategies: seq<Strategy>, role: nat): real {
    Nested(game.counts, FullTerm(game, strategies, role))
  }

  /** The payoff of the pure action `a`: the same sum over the profiles in which `role` plays `a`,
      weighted by the other roles' probabilities only. */
  ghost function ActionValue(game: Game, strategies: seq<Strategy>, role: nat, a: int): real {
    Nested(game.counts, ActionTerm(game, strategies, role, a))
  }

  // ---- the walk ----

  /** The probability of the other roles' actions, multiplied up role by role. */
  method OthersProbability(strategies: seq<Strategy>, profile: Profile, role: nat) returns (probability: real)
    requires |profile| == |strategies|
    ensures probability == Weight(strategies, profile, role)
  {
    probability := 1.0;
    for index := 0 to |profile|
      invariant probability == Weight(strategies[..index], profile[..index], role)
    {
      assert strategies[..index + 1][..index] == strategies[..index] && profile[..index + 1][..index] == profile[..index];
      probability := Mul(probability, if index == role then 1.0 else At(strategies[index], profile[index]));
    }
    assert strategies[..|profile|] == strategies && profile[..|profile|] == profile;
  }

  /** The contribution of the profile at rank `i` to the entry of action `a`. */
  ghost function Visit(game: Game, strategies: seq<Strategy>, role: nat, a: int): int -> real
    requires Playable(game.counts)
  {
    i => if i < 0 then 0.0 else ActionTerm(game, strategies, role, a)(Unrank(game.counts, i))
  }

  /** One profile's contribution to one entry. */
  lemma VisitOne(game: Game, strategies: seq<Strategy>, role: nat, a: int, i: nat, p: Profile)
    requires Playable(game.counts) && |strategies| == |game.counts| && role < |strategies|
    requires p == Unrank(game.counts, i)
    ensures Visit(game, strategies, role, a)(i) ==
            if p[role] == a then Mul(Weight(strategies, p, role), game.payoff(role, p)) else 0.0
  {
    assert Visit(game, strategies, role, a)(i) == ActionTerm(game, strategies, role, a)(p);
  }

  lemma ZeroTimes(x: real)
    ensures Mul(0.0, x) == 0.0
  { }

  /** The payoff of every pure action of `role`. The walk skips profiles of probability zero, visits
      every profile once, and stops. */
  method ActionPayoffsValidated(game: Game, role: nat, strategies: seq<Strategy>) returns (result: seq<real>)
    requires ValidStrategies(game, strategies) && Playable(game.counts) && role < |game.counts|
    ensures |result| == game.counts[role]
    ensures forall a :: 0 <= a < |result| ==> result[a] == ActionValue(game, strategies, role, a)
  {
    hide Mul, Weight, Tick, Unrank, ActionTerm, Visit;
    var counts := game.counts;
    var n := |counts|;
    result := seq(counts[role], _ => 0.0);
    var profile := new int[n](_ => 0);
    ghost var k := 0;
    var more := true;
    assert profile[..] == Zeros(n);
    StartOfWalk(counts);
    while more
      invariant 0 <= k <= Size(counts) && |result| == counts[role]
      invariant more ==> k < Size(counts) && profile[..] == Unrank(counts, k) && ValidProfile(counts, profile[..])
      invariant !more ==> k == Size(counts)
      invariant forall a :: 0 <= a < |result| ==> result[a] == SumF(Visit(game, strategies, role, a), k)
      decreases Size(counts) - k, more
    {
      ghost var p := profile[..];
      var probability := OthersProbability(strategies, profile[..], role);
      forall a | 0 <= a < |result|
        ensures Visit(game, strategies, role, a)(k) == if p[role] == a then Mul(probability, game.payoff(role, p)) else 0.0
      {
        VisitOne(game, strategies, role, a, k, p);
      }
      if probability != 0.0 {
        result := result[profile[role] := result[profile[role]] + Mul(probability, game.payoff(role, profile[..]))];
      } else {
        ZeroTimes(game.payoff(role, p));
      }
      WalkStep(counts, p, k);
      more := AdvanceProfile(profile, counts);
      k := k + 1;
    }
    forall a | 0 <= a < |result| ensures result[a] == ActionValue(game, strategies, role, a) {
      VisitTotal(game, strategies, role, a);
    }
  }

  lemma StartOfWalk(counts: seq<nat>)
    requires Playable(counts)
    ensures 0 < Size(counts) && Zeros(|counts|) == Unrank(counts, 0) && ValidProfile(counts, Zeros(|counts|))
  {
    ZerosFirst(counts);
    RankInRange(counts, Zeros(|counts|));
    UnrankRank(counts, Zeros(|counts|));
  }

  lemma WalkStep(counts: seq<nat>, p: Profile, k: nat)
    requires Playable(counts) && k < Size(counts) && p == Unrank(counts, k) && ValidProfile(counts, p)
    ensures Tick(counts, p).0 <==> k + 1 < Size(counts)
    ensures Tick(counts, p).0 ==> Tick(counts, p).1 == Unrank(counts, k + 1) && ValidProfile(counts, Tick(counts, p).1)
  {
    TickIsNext(counts, p);
    RankUnrank(counts, k);
    if Tick(counts, p).0 {
      UnrankRank(counts, Tick(counts, p).1);
    }
  }

  lemma VisitTotal(game: Game, strategies: seq<Strategy>, role: nat, a: int)
    requires Playable(game.counts)
    ensures SumF(Visit(game, strategies, role, a), Size(game.counts)) == ActionValue(game, strategies, role, a)
  {
    hide ActionTerm, Unrank;
    RankSumIsNested(game.counts, ActionTerm(game, strategies, role, a), Visit(game, strategies, role, a));
  }

  // ---- expected payoff ----

  /** The probability-weighted sum of action payoffs. */
  function Dot(values: seq<real>, s: Strategy): real {
    SumF(a => Mul(At(values, a), At(s, a)), |s|)
  }

  lemma MulAssoc(x: real, y: real, z: real)
    ensures Mul(Mul(x, y), z) == Mul(x, Mul(y, z)) == Mul(Mul(x, z), y)
    ensures Mul(x, y) == Mul(y, x) && Mul(x, 1.0) == x && Mul(x, 0.0) == 0.0
  {
    assert x * y * z == x * (y * z) == x * z * y;
  }

  /** A profile's full probability is the role's own factor times that of the others. */
  lemma {:induction false} FullWeight(strategies: seq<Strategy>, p: Profile, role: nat)
    requires |p| == |strategies|
    ensures role < |p| ==> Weight(strategies, p, -1) == Mul(Weight(strategies, p, role), At(strategies[role], p[role]))
    ensures role >= |p| ==> Weight(strategies, p, -1) == Weight(strategies, p, role)
  {
    hide Mul;
    if |p| > 0 {
      var n := |p| - 1;
      FullWeight(strategies[..n], p[..n], role);
      var x := At(strategies[n], p[n]);
      if role < n {
        MulAssoc(Weight(strategies[..n], p[..n], role), At(strategies[role], p[role]), x);
      } else if role == n {
        MulAssoc(Weight(strategies[..n], p[..n], role), 1.0, x);
      }
    }
  }

  lemma FullTermSplits(game: Game, strategies: seq<Strategy>, role: nat, p: Profile, a: int)
    requires |p| == |strategies| && role < |p|
    ensures Mul(At(strategies[role], a), ActionTerm(game, strategies, role, a)(p)) ==
            if p[role] == a then FullTerm(game, strategies, role)(p) else 0.0
  {
    hide Mul;
    FullWeight(strategies, p, role);
    MulAssoc(Weight(strategies, p, role), At(strategies[role], a), game.payoff(role, p));
    MulAssoc(At(strategies[role], a), Mul(Weight(strategies, p, role), game.payoff(role, p)), 1.0);
    MulAssoc(Mul(Weight(strategies, p, role), game.payoff(role, p)), At(strategies[role], a), 1.0);
    MulAssoc(At(strategies[role], a), 0.0, 0.0);
  }

  ghost function Grid(game: Game, strategies: seq<Strategy>, role: nat): Table
    requires Playable(game.counts) && role < |strategies|
  {
    (a, i) => Mul(At(strategies[role], a), Visit(game, strategies, role, a)(i))
  }

  lemma GridRow(game: Game, strategies: seq<Strategy>, role: nat, a: int)
    requires Playable(game.counts) && ValidStrategies(game, strategies) && role < |strategies|
    ensures Row(Grid(game, strategies, role), a, Size(game.counts)) ==
            Mul(At(strategies[role], a), ActionValue(game, strategies, role, a))
  {
    var v, x := Visit(game, strategies, role, a), At(strategies[role], a);
    hide Visit;
    assert forall i :: Grid(game, strategies, role)(a, i) == Mul(x, v(i)) == x * v(i);
    SumScale(i => Grid(game, strategies, role)(a, i), x, v, Size(game.counts));
    VisitTotal(game, strategies, role, a);
  }

  lemma GridCol(game: Game, strategies: seq<Strategy>, role: nat, i: nat)
    requires Playable(game.counts) && ValidStrategies(game, strategies) && role < |strategies| && i < Size(game.counts)
    ensures Col(Grid(game, strategies, role), i, game.counts[role]) ==
            FullTerm(game, strategies, role)(Unrank(game.counts, i))
  {
    var p, g := Unrank(game.counts, i), Grid(game, strategies, role);
    RankUnrank(game.counts, i);
    forall a ensures g(a, i) == if p[role] == a then FullTerm(game, strategies, role)(p) else 0.0 {
      FullTermSplits(game, strategies, role, p, a);
      assert Visit(game, strategies, role, a)(i) == ActionTerm(game, strategies, role, a)(p);
    }
    hide Grid, FullTerm, Unrank;
    SumSingle(a => g(a, i), game.counts[role], p[role]);
  }

  /** Weighting the action payoffs by the role's own probabilities gives the full multilinear sum. */
  lemma DotIsPayoff(game: Game, strategies: seq<Strategy>, role: nat, values: seq<real>)
    requires Playable(game.counts) && ValidStrategies(game, strategies) && role < |strategies|
    requires |values| == game.counts[role]
    requires forall a :: 0 <= a < |values| ==> values[a] == ActionValue(game, strategies, role, a)
    ensures Dot(values, strategies[role]) == Payoff(game, strategies, role)
  {
    hide Grid, ActionValue, FullTerm, Unrank, Mul;
    var g, n, size := Grid(game, strategies, role), game.counts[role], Size(game.counts);
    var s := strategies[role];
    forall a | 0 <= a < n ensures Mul(At(values, a), At(s, a)) == Row(g, a, size) {
      GridRow(game, strategies, role, a);
      MulAssoc(values[a], s[a], 1.0);
    }
    SumExt(a => Mul(At(values, a), At(s, a)), a => Row(g, a, size), n);
    SumSwap(g, n, size);
    forall i | 0 <= i < size ensures Col(g, i, n) == FullTerm(game, strategies, role)(Unrank(game.counts, i)) {
      GridCol(game, strategies, role, i);
    }
    RankSumIsNested(game.counts, FullTerm(game, strategies, role), i => Col(g, i, n));
  }

  method ExpectedPayoff(game: Game, role: nat, strategies: seq<Strategy>) returns (r: Result<real, MixedError>)
    requires forall k :: 0 <= k < |strategies| ==> IsStrategy(strategies[k])
    ensures r.Ok? <==> ValidStrategies(game, strategies) && role < |game.counts|
    ensures r.Ok? ==> r.value == Payoff(game, strategies, role)
    ensures r.Err? && ValidStrategies(game, strategies) ==> r.error == RoleCount(|game.counts|, role + 1)
  {
    var error := ValidateProfile(game, strategies);
    if error.Some? {
      return Err(error.value);
    }
    if role >= |game.counts| {
      return Err(RoleCount(|game.counts|, role + 1));
    }
    StrategiesArePlayable(game, strategies);
    var values := ActionPayoffsValidated(game, role, strategies);
    DotIsPayoff(game, strategies, role, values);
    r := Ok(Dot(values, strategies[role]));
  }

  /** A validated profile leaves every role with an action, so the walk terminates. */
  lemma StrategiesArePlayable(game: Game, strategies: seq<Strategy>)
    requires ValidStrategies(game, strategies) && forall k :: 0 <= k < |strategies| ==> IsStrategy(strategies[k])
    ensures Playable(game.counts)
  {
    forall r | 0 <= r < |game.counts| ensures game.counts[r] > 0 {
      assert IsStrategy(strategies[r]);
    }
  }

  // ---- regret ----

  function Best(values: seq<real>): real
    requires |values| > 0
  {
    if |values| == 1 then values[0] else Max(Best(values[..|values| - 1]), values[|values| - 1])
  }

  lemma {:induction false} BestIsGreatest(values: seq<real>)
    requires |values| > 0
    ensures forall a :: 0 <= a < |values| ==> values[a] <= Best(values)
    ensures exists a :: 0 <= a < |values| && values[a] == Best(values)
  {
    if |values| == 1 {
      assert values[0] == Best(values);
    } else {
      var n := |values| - 1;
      BestIsGreatest(values[..n]);
      var a :| 0 <= a < n && values[..n][a] == Best(values[..n]);
      assert values[a] == Best(values[..n]);
      assert values[n] <= Best(values);
    }
  }

  ghost function ActionValues(game: Game, strategies: seq<Strategy>, role: nat): seq<real>
    requires role < |game.counts|
  {
    seq(game.counts[role], a => ActionValue(game, strategies, role, a))
  }

  /** How much the best pure action of `role` would gain. */
  ghost function Regret(game: Game, strategies: seq<Strategy>, role: nat): real
    requires role < |game.counts| && game.counts[role] > 0
  {
    Best(ActionValues(game, strategies, role)) - Payoff(game, strategies, role)
  }

  method Regrets(game: Game, strategies: seq<Strategy>) returns (r: Result<seq<real>, MixedError>)
    requires forall k :: 0 <= k < |strategies| ==> IsStrategy(strategies[k])
    ensures r.Ok? <==> ValidStrategies(game, strategies)
    ensures r.Ok? ==> Playable(game.counts) && |r.value| == |game.counts|
    ensures r.Ok? ==> forall role :: 0 <= role < |r.value| ==> r.value[role] == Regret(game, strategies, role)
  {
    var error := ValidateProfile(game, strategies);
    if error.Some? {
      return Err(error.value);
    }
    StrategiesArePlayable(game, strategies);
    hide Payoff, ActionValue;
    var result: seq<real> := [];
    for role := 0 to |game.counts|
      invariant |result| == role
      invariant forall k :: 0 <= k < role ==> result[k] == Regret(game, strategies, k)
    {
      var values := ActionPayoffsValidated(game, role, strategies);
      assert values == ActionValues(game, strategies, role);
      DotIsPayoff(game, strategies, role, values);
      var best := values[0];
      for a := 1 to |values|
        invariant best == Best(values[..a])
      {
        assert values[..a + 1][..a] == values[..a];
        best := Max(best, values[a]);
      }
      assert values[..|values|] == values;
      result := result + [best - Dot(values, strategies[role])];
    }
    r := Ok(result);
  }

  /** The shortfall of the played actions against the best one, weighted by how often they are played. */
  function Slack(values: seq<real>, s: Strategy): real
    requires |values| == |s| > 0
  {
    SumF(a => SlackOf(values, s, a), |s|)
  }

  function SlackOf(values: seq<real>, s: Strategy, a: int): real
    requires |values| > 0
  {
    Mul(At(s, a), Best(values) - At(values, a))
  }

  /** Regret is the slack, plus the best payoff times what the probabilities lack to 1. */
  lemma RegretDecomposes(values: seq<real>, s: Strategy)
    requires |values| == |s| > 0
    ensures Best(values) - Dot(values, s) == Mul(Best(values), 1.0 - Mass(s)) + Slack(values, s)
  {
    var b := Best(values);
    var scaled := (a: int) => Mul(b, At(s, a));
    forall a ensures Mul(b, At(s, a)) == SlackOf(values, s, a) + Mul(At(values, a), At(s, a)) {
      SlackTerm(b, At(values, a), At(s, a));
    }
    hide Mul, SlackOf;
    MulSum(scaled, b, a => At(s, a), |s|);
    MulMinus(b, Mass(s));
    SumAdd(scaled, a => SlackOf(values, s, a), a => Mul(At(values, a), At(s, a)), |s|);
  }

  lemma SlackTerm(b: real, v: real, x: real)
    ensures Mul(b, x) == Mul(x, b - v) + Mul(v, x)
  {
    assert x * (b - v) == x * b - x * v;
  }

  lemma MulMinus(b: real, m: real)
    ensures Mul(b, 1.0 - m) == b - Mul(b, m)
  { }

  lemma {:induction false} NonNegativeSum(f: int -> real, n: nat)
    requires forall i :: 0 <= i < n ==> f(i) >= 0.0
    ensures SumF(f, n) >= 0.0
    ensures SumF(f, n) == 0.0 <==> forall i :: 0 <= i < n ==> f(i) == 0.0
  {
    if n > 0 {
      NonNegativeSum(f, n - 1);
    }
  }

  lemma ProductZero(x: real, y: real)
    requires x >= 0.0 && y >= 0.0
    ensures Mul(x, y) >= 0.0
    ensures Mul(x, y) == 0.0 <==> x == 0.0 || y == 0.0
  {
    if x > 0.0 && y > 0.0 {
      assert x * y > 0.0;
    }
  }

  /** Slack vanishes exactly when every action played with positive probability is a best one. */
  lemma SlackVanishesIff(values: seq<real>, s: Strategy)
    requires |values| == |s| > 0 && forall a :: 0 <= a < |s| ==> s[a] >= 0.0
    ensures Slack(values, s) >= 0.0
    ensures Slack(values, s) == 0.0 <==> forall a :: 0 <= a < |s| && s[a] > 0.0 ==> values[a] == Best(values)
  {
    BestIsGreatest(values);
    forall a | 0 <= a < |s|
      ensures SlackOf(values, s, a) >= 0.0
      ensures SlackOf(values, s, a) == 0.0 <==> s[a] == 0.0 || values[a] == Best(values)
    {
      ProductZero(s[a], Best(values) - values[a]);
    }
    hide SlackOf;
    var f := a => SlackOf(values, s, a);
    NonNegativeSum(f, |s|);
    SumExt(f, a => SlackOf(values, s, a), |s|);
    forall a | 0 <= a < |s| ensures f(a) == SlackOf(values, s, a) { }
  }

  lemma SmallFactor(b: real, e: real)
    requires Abs(e) <= TOLERANCE
    ensures Mul(b, e) >= -TOLERANCE * Abs(b)
  {
    var t := TOLERANCE;
    if b >= 0.0 {
      var w := e + t;
      assert b * w >= 0.0 && b * w == b * e + b * t;
    } else {
      var c, w := -b, t - e;
      assert c * w >= 0.0 && c * w == c * t - c * e;
    }
  }

  /** For every accepted profile regret is at least -1e-9 times the best payoff in absolute value. */
  lemma RegretAlmostNonNegative(game: Game, strategies: seq<Strategy>, role: nat)
    requires Playable(game.counts) && ValidStrategies(game, strategies) && role < |strategies|
    requires IsStrategy(strategies[role])
    ensures Regret(game, strategies, role) >= -TOLERANCE * Abs(Best(ActionValues(game, strategies, role)))
  {
    var values, s := ActionValues(game, strategies, role), strategies[role];
    hide ActionValue, Payoff, Mass, Mul;
    DotIsPayoff(game, strategies, role, values);
    RegretDecomposes(values, s);
    SlackVanishesIff(values, s);
    SmallFactor(Best(values), 1.0 - Mass(s));
  }

  ghost predicate Exact(s: Strategy) { (forall a :: 0 <= a < |s| ==> s[a] >= 0.0) && Mass(s) == 1.0 }

  ghost predicate BestResponding(game: Game, strategies: seq<Strategy>, role: nat)
    requires ValidStrategies(game, strategies) && role < |strategies| && game.counts[role] > 0
  {
    forall a :: 0 <= a < game.counts[role] && strategies[role][a] > 0.0 ==>
      ActionValues(game, strategies, role)[a] == Best(ActionValues(game, strategies, role))
  }

  /** With probabilities that sum to exactly 1 regret is non-negative, and zero exactly when every
      action the role plays is a best response. */
  lemma ExactRegret(game: Game, strategies: seq<Strategy>, role: nat)
    requires Playable(game.counts) && ValidStrategies(game, strategies) && role < |strategies| && Exact(strategies[role])
    ensures Regret(game, strategies, role) >= 0.0
    ensures Regret(game, strategies, role) == 0.0 <==> BestResponding(game, strategies, role)
  {
    var values, s := ActionValues(game, strategies, role), strategies[role];
    assert Mul(Best(values), 0.0) == 0.0;
    hide ActionValue, Payoff, Mul;
    DotIsPayoff(game, strategies, role, values);
    RegretDecomposes(values, s);
    SlackVanishesIff(values, s);
  }

  // ---- Nash equilibrium ----

  /** No role gains by switching to any other mixed strategy. */
  ghost predicate IsNash(game: Game, strategies: seq<Strategy>)
    requires ValidStrategies(game, strategies)
  {
    forall role, tau :: 0 <= role < |strategies| && |tau| == game.counts[role] && Exact(tau) ==>
      Payoff(game, strategies[role := tau], role) <= Payoff(game, strategies, role)
  }

  lemma {:induction false} WeightIgnoresSkipped(strategies: seq<Strategy>, tau: Strategy, p: Profile, role: nat)
    requires |p| == |strategies| && role < |p|
    ensures Weight(strategies[role := tau], p, role) == Weight(strategies, p, role)
  {
    hide Mul;
    var n := |p| - 1;
    if role < n {
      assert strategies[role := tau][..n] == strategies[..n][role := tau];
      WeightIgnoresSkipped(strategies[..n], tau, p[..n], role);
    } else {
      assert strategies[role := tau][..n] == strategies[..n];
    }
  }

  /** A role's action payoffs do not depend on its own strategy. */
  lemma OwnStrategyIrrelevant(game: Game, strategies: seq<Strategy>, role: nat, tau: Strategy)
    requires Playable(game.counts) && ValidStrategies(game, strategies) && role < |strategies|
    ensures ActionValues(game, strategies[role := tau], role) == ActionValues(game, strategies, role)
  {
    var other := strategies[role := tau];
    forall a | 0 <= a < game.counts[role] ensures ActionValue(game, other, role, a) == ActionValue(game, strategies, role, a) {
      var v, w := Visit(game, other, role, a), Visit(game, strategies, role, a);
      forall i: nat ensures v(i) == w(i) {
        WeightIgnoresSkipped(strategies, tau, Unrank(game.counts, i), role);
        VisitOne(game, other, role, a, i, Unrank(game.counts, i));
        VisitOne(game, strategies, role, a, i, Unrank(game.counts, i));
      }
      hide Visit;
      SumExt(v, w, Size(game.counts));
      VisitTotal(game, other, role, a);
      VisitTotal(game, strategies, role, a);
    }
  }

  lemma DeviationPayoff(game: Game, strategies: seq<Strategy>, role: nat, tau: Strategy)
    requires Playable(game.counts) && ValidStrategies(game, strategies) && role < |strategies| && |tau| == game.counts[role]
    ensures Payoff(game, strategies[role := tau], role) == Dot(ActionValues(game, strategies, role), tau)
  {
    hide ActionValue, Payoff, Mul;
    var other := strategies[role := tau];
    OwnStrategyIrrelevant(game, strategies, role, tau);
    var values := ActionValues(game, other, role);
    DotIsPayoff(game, other, role, values);
  }

  function Pure(n: nat, action: nat): Strategy { seq(n, a => if a == action then 1.0 else 0.0) }

  lemma PureIsExact(values: seq<real>, action: nat)
    requires action < |values|
    ensures Exact(Pure(|values|, action)) && Dot(values, Pure(|values|, action)) == values[action]
  {
    var s := Pure(|values|, action);
    SumSingle(a => At(s, a), |s|, action);
    assert forall a :: Mul(At(values, a), At(s, a)) == if a == action then values[action] else 0.0;
    hide Mul;
    SumSingle(a => Mul(At(values, a), At(s, a)), |s|, action);
  }

  lemma ExactDotAtMostBest(values: seq<real>, tau: Strategy)
    requires |values| == |tau| > 0 && Exact(tau)
    ensures Dot(values, tau) <= Best(values)
  {
    assert Mul(Best(values), 0.0) == 0.0;
    hide Mul;
    RegretDecomposes(values, tau);
    SlackVanishesIff(values, tau);
  }

  /** All regrets are zero exactly at the Nash equilibria. */
  lemma ZeroRegretIffNash(game: Game, strategies: seq<Strategy>)
    requires Playable(game.counts) && ValidStrategies(game, strategies)
    requires forall r :: 0 <= r < |strategies| ==> Exact(strategies[r])
    ensures (forall r :: 0 <= r < |strategies| ==> Regret(game, strategies, r) == 0.0) <==> IsNash(game, strategies)
  {
    hide Payoff, ActionValue, Dot;
    if IsNash(game, strategies) {
      forall r | 0 <= r < |strategies| ensures Regret(game, strategies, r) == 0.0 {
        NashRegret(game, strategies, r);
      }
    } else {
      var role, tau :| 0 <= role < |strategies| && |tau| == game.counts[role] && Exact(tau) &&
        Payoff(game, strategies[role := tau], role) > Payoff(game, strategies, role);
      DeviationPayoff(game, strategies, role, tau);
      ExactDotAtMostBest(ActionValues(game, strategies, role), tau);
      assert Regret(game, strategies, role) > 0.0;
    }
  }

  lemma NashRegret(game: Game, strategies: seq<Strategy>, r: nat)
    requires Playable(game.counts) && ValidStrategies(game, strategies) && IsNash(game, strategies)
    requires r < |strategies| && Exact(strategies[r])
    ensures Regret(game, strategies, r) == 0.0
  {
    hide Payoff, ActionValue, Dot;
    var values := ActionValues(game, strategies, r);
    BestIsGreatest(values);
    var a :| 0 <= a < |values| && values[a] == Best(values);
    PureIsExact(values, a);
    DeviationPayoff(game, strategies, r, Pure(|values|, a));
    ExactRegret(game, strategies, r);
  }

  // ---- what the payoffs are ----

  function MassProduct(strategies: seq<Strategy>): real {
    if |strategies| == 0 then 1.0
    else Mul(MassProduct(strategies[..|strategies| - 1]), Mass(strategies[|strategies| - 1]))
  }

  lemma {:induction false} NestedWeights(strategies: seq<Strategy>, counts: seq<nat>, f: Profile -> real, w: real)
    requires |counts| == |strategies| && forall k :: 0 <= k < |counts| ==> |strategies[k]| == counts[k]
    requires forall p: Profile :: |p| == |counts| ==> f(p) == Mul(w, Weight(strategies, p, -1))
    ensures Nested(counts, f) == Mul(w, MassProduct(strategies))
  {
    if |counts| > 0 {
      var n := |counts| - 1;
      var g, s := SumOut(f, counts[n]), strategies[n];
      forall q: Profile | |q| == n ensures g(q) == Mul(Mul(w, Mass(s)), Weight(strategies[..n], q, -1)) {
        LastRoleSum(strategies, f, w, q);
      }
      hide Weight, Mul, SumOut;
      NestedWeights(strategies[..n], counts[..n], g, Mul(w, Mass(s)));
      MulAssoc(w, Mass(s), MassProduct(strategies[..n]));
      MulAssoc(w, MassProduct(strategies[..n]), Mass(s));
    }
  }

  lemma LastRoleSum(strategies: seq<Strategy>, f: Profile -> real, w: real, q: Profile)
    requires |strategies| == |q| + 1
    requires forall p: Profile :: |p| == |strategies| ==> f(p) == Mul(w, Weight(strategies, p, -1))
    ensures SumOut(f, |strategies[|q|]|)(q) == Mul(Mul(w, Mass(strategies[|q|])), Weight(strategies[..|q|], q, -1))
  {
    var n := |q|;
    var s, v := strategies[n], Mul(w, Weight(strategies[..n], q, -1));
    forall a ensures f(q + [a]) == Mul(v, At(s, a)) {
      assert (q + [a])[..n] == q;
      MulAssoc(w, Weight(strategies[..n], q, -1), At(s, a));
    }
    hide Weight, Mul;
    MulSum(a => f(q + [a]), v, a => At(s, a), |s|);
    MulAssoc(w, Weight(strategies[..n], q, -1), Mass(s));
  }

  /** The probabilities of all profiles add up to the product of the roles' masses. */
  lemma WeightsTotal(counts: seq<nat>, strategies: seq<Strategy>)
    requires |counts| == |strategies| && forall k :: 0 <= k < |counts| ==> |strategies[k]| == counts[k]
    ensures Nested(counts, p => if |p| == |strategies| then Weight(strategies, p, -1) else 0.0) == MassProduct(strategies)
  {
    var f := (p: Profile) => if |p| == |strategies| then Weight(strategies, p, -1) else 0.0;
    forall p: Profile | |p| == |counts| ensures f(p) == Mul(1.0, Weight(strategies, p, -1)) {
      MulAssoc(Weight(strategies, p, -1), 1.0, 1.0);
    }
    NestedWeights(strategies, counts, f, 1.0);
    MulAssoc(MassProduct(strategies), 1.0, 1.0);
  }

  /** Everybody plays the actions of `q` for certain. */
  function PureProfile(counts: seq<nat>, q: Profile): (r: seq<Strategy>)
    requires ValidProfile(counts, q)
    ensures |r| == |counts|
  {
    seq(|counts|, k requires 0 <= k < |counts| => Pure(counts[k], q[k]))
  }

  lemma {:induction false} PureWeight(strategies: seq<Strategy>, counts: seq<nat>, q: Profile, p: Profile)
    requires ValidProfile(counts, q) && ValidProfile(counts, p) && |strategies| == |counts|
    requires forall k :: 0 <= k < |counts| ==> strategies[k] == Pure(counts[k], q[k])
    ensures Weight(strategies, p, -1) == if p == q then 1.0 else 0.0
  {
    if |p| > 0 {
      var n := |p| - 1;
      PureWeight(strategies[..n], counts[..n], q[..n], p[..n]);
      assert p == p[..n] + [p[n]] && q == q[..n] + [q[n]];
      assert At(strategies[n], p[n]) == if p[n] == q[n] then 1.0 else 0.0;
      MulAssoc(1.0, 1.0, 1.0);
    }
  }

  /** When everybody plays for certain, the expected payoff is that of the profile played. With the payoff linear in
      every role's strategy, this determines it. */
  lemma PurePayoff(game: Game, q: Profile, role: nat)
    requires Playable(game.counts) && ValidProfile(game.counts, q)
    ensures Payoff(game, PureProfile(game.counts, q), role) == game.payoff(role, q)
  {
    var counts, strategies := game.counts, PureProfile(game.counts, q);
    var f := FullTerm(game, strategies, role);
    var e := (i: int) => if i < 0 then 0.0 else f(Unrank(counts, i));
    var k := Rank(counts, q);
    UnrankRank(counts, q);
    RankInRange(counts, q);
    forall i: nat | i < Size(counts) ensures e(i) == if i == k then game.payoff(role, q) else 0.0 {
      var p := Unrank(counts, i);
      RankUnrank(counts, i);
      PureWeight(strategies, counts, q, p);
      assert f(p) == Mul(Weight(strategies, p, -1), game.payoff(role, p));
      MulAssoc(game.payoff(role, p), 1.0, 1.0);
      ZeroTimes(game.payoff(role, p));
    }
    hide FullTerm, Unrank, Mul, Weight;
    RankSumIsNested(counts, f, e);
    SumSingle(e, Size(counts), k);
  }

  // ---- when regret cannot be negative ----

  lemma NoMass(s: Strategy)
    requires forall a :: 0 <= a < |s| ==> s[a] == 0.0
    ensures Mass(s) == 0.0
  {
    SumConst(0.0, a => At(s, a), |s|);
  }

  lemma PlayedAction(s: Strategy) returns (a: nat)
    requires IsStrategy(s)
    ensures a < |s| && s[a] > 0.0
  {
    if i: nat :| i < |s| && s[i] > 0.0 {
      a := i;
    } else {
      a := 0;
      NoMass(s);
    }
  }

  /** A profile in which every role plays an action of positive probability. */
  lemma {:induction false} SupportProfile(strategies: seq<Strategy>) returns (q: Profile)
    requires forall k :: 0 <= k < |strategies| ==> IsStrategy(strategies[k])
    ensures |q| == |strategies|
    ensures forall k :: 0 <= k < |q| ==> 0 <= q[k] < |strategies[k]| && strategies[k][q[k]] > 0.0
  {
    if |strategies| == 0 {
      q := [];
    } else {
      var n := |strategies| - 1;
      q := SupportProfile(strategies[..n]);
      var a := PlayedAction(strategies[n]);
      q := q + [a];
    }
  }

  lemma ProductPositive(x: real, y: real)
    requires x > 0.0 && y > 0.0
    ensures Mul(x, y) > 0.0
  {
    ProductZero(x, y);
  }

  lemma {:induction false} SupportWeight(strategies: seq<Strategy>, q: Profile, role: int)
    requires |q| == |strategies|
    requires forall k :: 0 <= k < |q| ==> 0 <= q[k] < |strategies[k]| && strategies[k][q[k]] > 0.0
    ensures Weight(strategies, q, role) > 0.0
  {
    hide Mul;
    if |q| > 0 {
      var n := |q| - 1;
      SupportWeight(strategies[..n], q[..n], role);
      ProductPositive(Weight(strategies[..n], q[..n], role), if n == role then 1.0 else At(strategies[n], q[n]));
    }
  }

  lemma {:induction false} WeightIgnoresOwnAction(strategies: seq<Strategy>, p: Profile, role: nat, a: int)
    requires |p| == |strategies| && role < |p|
    ensures Weight(strategies, p[role := a], role) == Weight(strategies, p, role)
  {
    hide Mul;
    var n := |p| - 1;
    if role < n {
      assert p[role := a][..n] == p[..n][role := a];
      WeightIgnoresOwnAction(strategies[..n], p[..n], role, a);
    } else {
      assert p[role := a][..n] == p[..n];
    }
  }

  /** Pays `v` exactly when the roles other than `role` play as in `q`. */
  function Spike(counts: seq<nat>, q: Profile, role: nat, v: real): Game {
    Game(counts, (_, p: Profile) => if role < |p| == |q| && p[role := q[role]] == q then v else 0.0)
  }

  lemma SpikeValue(counts: seq<nat>, strategies: seq<Strategy>, q: Profile, role: nat, v: real, a: nat)
    requires Playable(counts) && |strategies| == |counts| && role < |counts| && ValidProfile(counts, q) && a < counts[role]
    ensures ActionValue(Spike(counts, q, role, v), strategies, role, a) == Mul(Weight(strategies, q, role), v)
  {
    var game := Spike(counts, q, role, v);
    var f := Visit(game, strategies, role, a);
    var top := q[role := a];
    var k := Rank(counts, top);
    UnrankRank(counts, top);
    RankInRange(counts, top);
    ZeroTimes(0.0);
    forall i: nat | i < Size(counts) && i != k ensures f(i) == 0.0 {
      var p := Unrank(counts, i);
      RankUnrank(counts, i);
      VisitOne(game, strategies, role, a, i, p);
      if p[role] == a && game.payoff(role, p) != 0.0 {
        SamePlay(p, q, role, a);
      }
    }
    VisitOne(game, strategies, role, a, k, top);
    assert top[role := q[role]] == q;
    WeightIgnoresOwnAction(strategies, q, role, a);
    hide Visit, Mul, ActionValue;
    SumSingle(f, Size(counts), k);
    VisitTotal(game, strategies, role, a);
  }

  lemma SamePlay(p: Profile, q: Profile, role: nat, a: int)
    requires role < |p| == |q| && p[role := q[role]] == q && p[role] == a
    ensures p == q[role := a]
  {
    assert p == p[role := q[role]][role := a];
  }

  /** The regret of `role` in such a game. */
  lemma SpikeRegret(counts: seq<nat>, strategies: seq<Strategy>, q: Profile, role: nat, v: real)
    requires Playable(counts) && ValidStrategies(Spike(counts, q, role, v), strategies) && role < |counts| && ValidProfile(counts, q)
    ensures Regret(Spike(counts, q, role, v), strategies, role) == Mul(Mul(Weight(strategies, q, role), v), 1.0 - Mass(strategies[role]))
  {
    var game, s := Spike(counts, q, role, v), strategies[role];
    var c := Mul(Weight(strategies, q, role), v);
    var values := ActionValues(game, strategies, role);
    forall a | 0 <= a < |values| ensures values[a] == c {
      SpikeValue(counts, strategies, q, role, v, a);
    }
    hide Mul, ActionValue, Payoff;
    DotIsPayoff(game, strategies, role, values);
    BestIsGreatest(values);
    RegretDecomposes(values, s);
    forall a | 0 <= a < |s| ensures SlackOf(values, s, a) == 0.0 {
      MulAssoc(At(s, a), 0.0, 0.0);
    }
    SumConst(0.0, a => SlackOf(values, s, a), |s|);
  }

  /** Whatever the payoffs, a role's regret is never negative exactly when its probabilities sum to 1. */
  lemma RegretNonNegativeIff(counts: seq<nat>, strategies: seq<Strategy>, role: nat)
    requires Playable(counts) && |strategies| == |counts| && role < |counts|
    requires forall k :: 0 <= k < |counts| ==> IsStrategy(strategies[k]) && |strategies[k]| == counts[k]
    ensures (forall game: Game :: game.counts == counts ==> Regret(game, strategies, role) >= 0.0) <==> Mass(strategies[role]) == 1.0
  {
    var mass := Mass(strategies[role]);
    if mass == 1.0 {
      forall game: Game | game.counts == counts ensures Regret(game, strategies, role) >= 0.0 {
        ExactRegret(game, strategies, role);
      }
    } else {
      var q := SupportProfile(strategies);
      SupportWeight(strategies, q, role);
      var w := Weight(strategies, q, role);
      var v := if mass > 1.0 then 1.0 else -1.0;
      SpikeRegret(counts, strategies, q, role, v);
      NegativeProduct(w, v, 1.0 - mass);
      assert Spike(counts, q, role, v).counts == counts;
    }
  }

  lemma NegativeProduct(w: real, v: real, x: real)
    requires w > 0.0 && ((v == 1.0 && x < 0.0) || (v == -1.0 && x > 0.0))
    ensures Mul(Mul(w, v), x) < 0.0
  {
    ProductPositive(w, if x < 0.0 then -x else x);
    assert Mul(w, v) == if v == 1.0 then w else -w;
  }

  /** Within the tolerance but off 1, a best-responding profile can show negative regret. */
  lemma RegretCanBeNegative()
    ensures var game := Game([1], (_, _) => 1.0);
            IsStrategy([1.0 + TOLERANCE]) && BestResponding(game, [[1.0 + TOLERANCE]], 0) && Regret(game, [[1.0 + TOLERANCE]], 0) < 0.0
  {
    var game, s := Game([1], (_, _) => 1.0), [1.0 + TOLERANCE];
    var values := ActionValues(game, [s], 0);
    assert Mass(s) == 1.0 + TOLERANCE by {
      assert SumF(a => At(s, a), 1) == SumF(a => At(s, a), 0) + At(s, 0);
    }
    DotIsPayoff(game, [s], 0, values);
    OneActionValue(game, s);
    assert values == [1.0];
    RegretDecomposes(values, s);
    SlackVanishesIff(values, s);
  }

  lemma OneActionValue(game: Game, s: Strategy)
    requires game == Game([1], (_, _) => 1.0) && |s| == 1
    ensures ActionValue(game, [s], 0, 0) == 1.0
  {
    var f := ActionTerm(game, [s], 0, 0);
    assert game.counts[..0] == [];
    assert SumOut(f, 1)([]) == SumF(a => f([] + [a]), 1) == f([] + [0]);
    assert [] + [0] == [0];
    assert Weight([s], [0], 0) == Mul(Weight([s][..0], [0][..0], 0), 1.0);
  }
}
