// The arithmetic of the policy update: discounted returns, flattening and standardised advantages.
module PolicyReturns {
  import opened RealSums
  import opened Trajectories

  function Pow(g: real, n: nat): real { if n == 0 then 1.0 else Mul(g, Pow(g, n - 1)) }

  /** The discounted term of the `k`-th reward after step `t`. */
  function Discounted(ep: seq<Transition>, gamma: real, t: nat, k: int): real {
    if 0 <= k && t + k < |ep| then Mul(Pow(gamma, k), ep[t + k].reward) else 0.0
  }

  /** The return from step `t`: the sum of gamma^(k) r_(t+k) over the rest of the episode. */
  function Return(ep: seq<Transition>, gamma: real, t: nat): real
    requires t <= |ep|
  {
    SumF(k => Discounted(ep, gamma, t, k), |ep| - t)
  }

  lemma MulLaws(x: real, y: real, z: real)
    ensures Mul(x, Mul(y, z)) == Mul(Mul(x, y), z)
    ensures Mul(x, y + z) == Mul(x, y) + Mul(x, z)
    ensures Mul(1.0, x) == x && Mul(x, 0.0) == 0.0
  {
    assert x * (y * z) == (x * y) * z;
  }

  /** Shifting the first term off: the tail is gamma times the return one step later. */
  lemma {:induction false} DiscountedTail(ep: seq<Transition>, gamma: real, t: nat, n: nat)
    requires t < |ep| && n < |ep| - t
    ensures SumF(k => Discounted(ep, gamma, t, k), n + 1)
         == ep[t].reward + Mul(gamma, SumF(k => Discounted(ep, gamma, t + 1, k), n))
  {
    hide Mul;
    MulLaws(ep[t].reward, 0.0, 0.0);
    MulLaws(gamma, 0.0, 0.0);
    if n > 0 {
      DiscountedTail(ep, gamma, t, n - 1);
      MulLaws(gamma, Pow(gamma, n - 1), ep[t + n].reward);
      MulLaws(gamma, SumF(k => Discounted(ep, gamma, t + 1, k), n - 1), Discounted(ep, gamma, t + 1, n - 1));
      assert Discounted(ep, gamma, t, n) == Mul(gamma, Discounted(ep, gamma, t + 1, n - 1));
    } else {
      assert Discounted(ep, gamma, t, 0) == ep[t].reward;
    }
  }

  /** The recurrence the backward loop uses. */
  lemma ReturnRecurrence(ep: seq<Transition>, gamma: real, t: nat)
    requires t < |ep|
    ensures Return(ep, gamma, t) == ep[t].reward + Mul(gamma, Return(ep, gamma, t + 1))
  {
    DiscountedTail(ep, gamma, t, |ep| - t - 1);
  }

  /** The backward loop over one episode. */
  method EpisodeReturns(ep: seq<Transition>, gamma: real) returns (returns_: seq<real>)
    ensures |returns_| == |ep| && forall t :: 0 <= t < |ep| ==> returns_[t] == Return(ep, gamma, t)
  {
    hide Mul, Return;
    var g := 0.0;
    var buf := new real[|ep|](_ => 0.0);
    var t := |ep|;
    EmptyReturn(ep, gamma);
    while t > 0
      invariant 0 <= t <= |ep| && g == Return(ep, gamma, t)
      invariant forall k :: t <= k < |ep| ==> buf[k] == Return(ep, gamma, k)
    {
      t := t - 1;
      ReturnRecurrence(ep, gamma, t);
      g := ep[t].reward + Mul(gamma, g);
      buf[t] := g;
    }
    returns_ := buf[..];
  }

  lemma EmptyReturn(ep: seq<Transition>, gamma: real)
    ensures Return(ep, gamma, |ep|) == 0.0
  { }

  // ---- flattening ----

  /** The first flat position of episode `e`. */
  function Offset(episodes: seq<seq<Transition>>, e: nat): nat
    requires e <= |episodes|
  {
    if e == 0 then 0 else Offset(episodes, e - 1) + |episodes[e - 1]|
  }

  /** The flat vectors line up: position `Offset(e) + t` holds the action and the return of transition
      `t` of episode `e`, and its observation follows those before it. */
  ghost predicate Aligned(episodes: seq<seq<Transition>>, gamma: real, n: nat, obs: seq<Observation>, actions: seq<nat>, returns_: seq<real>)
    requires n <= |episodes|
  {
    && |obs| == |actions| == |returns_| == Offset(episodes, n)
    && forall e: nat, t: nat :: e < n && t < |episodes[e]| ==> RowAt(episodes, gamma, e, t, obs, actions, returns_)
  }

  ghost predicate RowAt(episodes: seq<seq<Transition>>, gamma: real, e: nat, t: nat,
                        obs: seq<Observation>, actions: seq<nat>, returns_: seq<real>)
    requires e < |episodes| && t < |episodes[e]| && |obs| == |actions| == |returns_|
  {
    var at := Offset(episodes, e) + t;
    && at < |actions|
    && obs[at] == episodes[e][t].obs
    && actions[at] == episodes[e][t].action
    && returns_[at] == Return(episodes[e], gamma, t)
  }

  /** Observations laid end to end. */
  function Concat(obs: seq<Observation>): Observation {
    if |obs| == 0 then [] else Concat(obs[..|obs| - 1]) + obs[|obs| - 1]
  }

  lemma AlignedNext(episodes: seq<seq<Transition>>, gamma: real, n: nat, obs: seq<Observation>, actions: seq<nat>, returns_: seq<real>,
                    o: seq<Observation>, a: seq<nat>, r: seq<real>)
    requires n < |episodes| && Aligned(episodes, gamma, n, obs, actions, returns_)
    requires |o| == |a| == |r| == |episodes[n]|
    requires forall t :: 0 <= t < |a| ==> o[t] == episodes[n][t].obs && a[t] == episodes[n][t].action && r[t] == Return(episodes[n], gamma, t)
    ensures Aligned(episodes, gamma, n + 1, obs + o, actions + a, returns_ + r)
  {
    hide Return;
    forall e: nat, t: nat | e < n + 1 && t < |episodes[e]|
      ensures RowAt(episodes, gamma, e, t, obs + o, actions + a, returns_ + r)
    {
      if e < n {
        assert RowAt(episodes, gamma, e, t, obs, actions, returns_);
      }
    }
  }

  /** One episode's observations, actions and returns. */
  method Unzip(ep: seq<Transition>, gamma: real) returns (obs: seq<Observation>, actions: seq<nat>, returns_: seq<real>)
    ensures |obs| == |actions| == |returns_| == |ep|
    ensures forall t :: 0 <= t < |ep| ==> obs[t] == ep[t].obs && actions[t] == ep[t].action && returns_[t] == Return(ep, gamma, t)
  {
    hide Return;
    var epReturns := EpisodeReturns(ep, gamma);
    obs, actions, returns_ := [], [], [];
    for t := 0 to |ep|
      invariant |obs| == |actions| == |returns_| == t
      invariant forall k :: 0 <= k < t ==> obs[k] == ep[k].obs && actions[k] == ep[k].action && returns_[k] == Return(ep, gamma, k)
    {
      obs := obs + [ep[t].obs];
      actions := actions + [ep[t].action];
      returns_ := returns_ + [epReturns[t]];
    }
  }

  /** The flat vectors line up with all episodes, the observations laid end to end. */
  ghost predicate IsFlattening(episodes: seq<seq<Transition>>, gamma: real, obsFlat: Observation, actions: seq<nat>, returns_: seq<real>) {
    exists obs :: Aligned(episodes, gamma, |episodes|, obs, actions, returns_) && obsFlat == Concat(obs)
  }

  /** The flat vectors handed to the gradient step. */
  method Flatten(episodes: seq<seq<Transition>>, gamma: real) returns (obsFlat: Observation, actions: seq<nat>, returns_: seq<real>)
    ensures IsFlattening(episodes, gamma, obsFlat, actions, returns_)
  {
    hide Aligned;
    obsFlat, actions, returns_ := [], [], [];
    ghost var obs: seq<Observation> := [];
    NothingAligned(episodes, gamma);
    for e := 0 to |episodes|
      invariant Aligned(episodes, gamma, e, obs, actions, returns_)
      invariant obsFlat == Concat(obs)
    {
      var o, a, r := Unzip(episodes[e], gamma);
      AlignedNext(episodes, gamma, e, obs, actions, returns_, o, a, r);
      obsFlat := ExtendAll(obsFlat, obs, o);
      obs, actions, returns_ := obs + o, actions + a, returns_ + r;
    }
  }

  /** `extend_from_slice` for each row. */
  method ExtendAll(obsFlat: Observation, ghost obs: seq<Observation>, o: seq<Observation>) returns (longer: Observation)
    requires obsFlat == Concat(obs)
    ensures longer == Concat(obs + o)
  {
    longer := obsFlat;
    assert obs + o[..0] == obs;
    for t := 0 to |o|
      invariant longer == Concat(obs + o[..t])
    {
      assert (obs + o[..t + 1])[..|obs + o[..t + 1]| - 1] == obs + o[..t];
      longer := longer + o[t];
    }
    assert o[..|o|] == o;
  }

  lemma NothingAligned(episodes: seq<seq<Transition>>, gamma: real)
    ensures Aligned(episodes, gamma, 0, [], [], [])
  { }

  /** Rows of equal width, laid end to end, are found at multiples of the width. */
  lemma {:induction false} ConcatRows(obs: seq<Observation>, width: nat, k: nat)
    requires k < |obs| && forall i :: 0 <= i < |obs| ==> |obs[i]| == width
    ensures |Concat(obs)| == |obs| * width && 0 <= k * width <= (k + 1) * width <= |obs| * width
    ensures Concat(obs)[k * width..(k + 1) * width] == obs[k]
  {
    var n := |obs| - 1;
    ConcatLength(obs, width);
    ConcatLength(obs[..n], width);
    RowBounds(k, n, width);
    if k < n {
      ConcatRows(obs[..n], width, k);
      assert Concat(obs)[k * width..(k + 1) * width] == Concat(obs[..n])[k * width..(k + 1) * width];
    }
  }

  lemma RowBounds(k: nat, n: nat, width: nat)
    requires k <= n
    ensures 0 <= k * width <= (k + 1) * width <= (n + 1) * width
    ensures k < n ==> (k + 1) * width <= n * width
  { }

  lemma {:induction false} ConcatLength(obs: seq<Observation>, width: nat)
    requires forall i :: 0 <= i < |obs| ==> |obs[i]| == width
    ensures |Concat(obs)| == |obs| * width
  {
    if |obs| > 0 {
      ConcatLength(obs[..|obs| - 1], width);
      assert |obs| * width == (|obs| - 1) * width + width;
    }
  }

  /** In the flat tensors of observations of one width, the row of a transition is its observation. */
  lemma FlatRow(episodes: seq<seq<Transition>>, gamma: real, obsFlat: Observation, actions: seq<nat>, returns_: seq<real>,
                width: nat, e: nat, t: nat)
    requires IsFlattening(episodes, gamma, obsFlat, actions, returns_) && e < |episodes| && t < |episodes[e]|
    requires forall i, k :: 0 <= i < |episodes| && 0 <= k < |episodes[i]| ==> |episodes[i][k].obs| == width
    ensures var at := Offset(episodes, e) + t;
            && at < |actions| == |returns_| && |obsFlat| == |actions| * width
            && 0 <= at * width <= (at + 1) * width <= |obsFlat|
            && obsFlat[at * width..(at + 1) * width] == episodes[e][t].obs
            && actions[at] == episodes[e][t].action
  {
    var obs :| Aligned(episodes, gamma, |episodes|, obs, actions, returns_) && obsFlat == Concat(obs);
    assert RowAt(episodes, gamma, e, t, obs, actions, returns_);
    AllWide(episodes, gamma, obs, actions, returns_, width);
    ConcatRows(obs, width, Offset(episodes, e) + t);
  }

  lemma AllWide(episodes: seq<seq<Transition>>, gamma: real, obs: seq<Observation>, actions: seq<nat>, returns_: seq<real>, width: nat)
    requires Aligned(episodes, gamma, |episodes|, obs, actions, returns_)
    requires forall i, k :: 0 <= i < |episodes| && 0 <= k < |episodes[i]| ==> |episodes[i][k].obs| == width
    ensures forall i :: 0 <= i < |obs| ==> |obs[i]| == width
  {
    forall i | 0 <= i < |obs| ensures |obs[i]| == width {
      var e, t := EntryAt(episodes, |episodes|, i);
      assert RowAt(episodes, gamma, e, t, obs, actions, returns_);
    }
  }

  /** The transition a flat position belongs to. */
  lemma {:induction false} EntryAt(episodes: seq<seq<Transition>>, n: nat, i: nat) returns (e: nat, t: nat)
    requires n <= |episodes| && i < Offset(episodes, n)
    ensures e < n && t < |episodes[e]| && Offset(episodes, e) + t == i
  {
    if i >= Offset(episodes, n - 1) {
      e, t := n - 1, i - Offset(episodes, n - 1);
    } else {
      e, t := EntryAt(episodes, n - 1, i);
    }
  }

  // ---- advantages ----

  const MIN_STD: real := 0.000001

  function Mean(xs: seq<real>): real
    requires |xs| > 0
  {
    SumF(i => At(xs, i), |xs|) / |xs| as real
  }

  function Standardised(xs: seq<real>, std: real): (r: seq<real>)
    requires |xs| > 0 && std >= MIN_STD
    ensures |r| == |xs|
  {
    seq(|xs|, i requires 0 <= i < |xs| => (xs[i] - Mean(xs)) / std)
  }

  /** Whatever the standard deviation, as long as it is floored, the advantages sum to zero. */
  lemma AdvantagesSumToZero(xs: seq<real>, std: real)
    requires |xs| > 0 && std >= MIN_STD
    ensures SumF(i => At(Standardised(xs, std), i), |xs|) == 0.0
  {
    var adv, inverse := Standardised(xs, std), 1.0 / std;
    var gap := (i: int) => At(xs, i) - Mean(xs);
    forall i | 0 <= i < |xs| ensures At(adv, i) == Mul(inverse, gap(i)) {
      Quotient(xs[i] - Mean(xs), std);
    }
    hide Mul, Standardised, Mean;
    CentredSum(xs, gap);
    MulSum(i => At(adv, i), inverse, gap, |xs|);
    MulPlus(inverse, 0.0, 0.0);
  }

  lemma CentredSum(xs: seq<real>, gap: int -> real)
    requires |xs| > 0 && forall i :: 0 <= i < |xs| ==> gap(i) == At(xs, i) - Mean(xs)
    ensures SumF(gap, |xs|) == 0.0
  {
    var minus := (i: int) => -Mean(xs);
    MeanTimes(xs);
    SumConst(-Mean(xs), minus, |xs|);
    hide Mean;
    SumAdd(gap, i => At(xs, i), minus, |xs|);
  }

  lemma MeanTimes(xs: seq<real>)
    requires |xs| > 0
    ensures |xs| as real * -Mean(xs) == -SumF(i => At(xs, i), |xs|)
  { }

  lemma Quotient(x: real, std: real)
    requires std > 0.0
    ensures x / std == Mul(1.0 / std, x)
  { }

  /** Advantages differ by the difference of the returns in units of the deviation. */
  lemma AdvantageGap(xs: seq<real>, std: real, i: nat, j: nat)
    requires |xs| > 0 && std >= MIN_STD && i < |xs| && j < |xs|
    ensures (Standardised(xs, std)[i] - Standardised(xs, std)[j]) * std == xs[i] - xs[j]
  {
    var a, b := xs[i] - Mean(xs), xs[j] - Mean(xs);
    assert (a / std) * std == a && (b / std) * std == b;
  }

  /** Centring and scaling keep the order of the returns. */
  lemma AdvantagesKeepOrder(xs: seq<real>, std: real, i: nat, j: nat)
    requires |xs| > 0 && std >= MIN_STD && i < |xs| && j < |xs|
    ensures Standardised(xs, std)[i] < Standardised(xs, std)[j] <==> xs[i] < xs[j]
  {
    var x, y := xs[i] - Mean(xs), xs[j] - Mean(xs);
    hide Mean;
    assert (x / std) * std == x && (y / std) * std == y;
  }
}
