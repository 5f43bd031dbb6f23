// Initial-action shares resolved to one action per agent.
module Shares {
  import opened Options
  import opened RealSums
  import opened LargestRemainder

  datatype ShareError =
    | NoActions
    | BadShare(index: nat)
    | BadTotal(total: real)
    | ActionRejected(role: nat, index: nat)
    | DuplicateAction(index: nat, first: nat)
    | TooManyAssigned(floored: int)
    | TooManyLeft(remaining: int)

  ghost predicate GoodShare(s: Float) { s.Finite? && s.value >= 0.0 }

  ghost predicate DistinctActions<A>(shares: seq<(A, Float)>) {
    forall i, j :: 0 <= i < j < |shares| ==> shares[i].0 != shares[j].0
  }

  /** The finite values, in order. */
  function Values<A>(shares: seq<(A, Float)>): (r: seq<real>)
    ensures |r| == |shares|
  {
    seq(|shares|, i requires 0 <= i < |shares| => if shares[i].1.Finite? then shares[i].1.value else 0.0)
  }

  /** Finite non-negative shares that sum to 1 within the tolerance. */
  ghost predicate GoodShares<A>(shares: seq<(A, Float)>) {
    (forall i :: 0 <= i < |shares| ==> GoodShare(shares[i].1)) && Accepted(Values(shares))
  }

  /** Every role accepts each of the first `m` actions. */
  ghost predicate Playable<A>(shares: seq<(A, Float)>, nRoles: nat, check: (nat, A) -> bool, m: nat)
    requires m <= |shares|
  {
    forall i, role :: 0 <= i < m && 0 <= role < nRoles ==> check(role, shares[i].0)
  }

  /** Everything checked before any rounding. */
  ghost predicate WellConfigured<A>(shares: seq<(A, Float)>, nRoles: nat, check: (nat, A) -> bool) {
    GoodShares(shares) && Playable(shares, nRoles, check, |shares|) && DistinctActions(shares)
  }

  /** What each error says about the input: the first check that fails, and where it first fails. */
  ghost predicate Justified<A>(e: ShareError, shares: seq<(A, Float)>, nRoles: nat, check: (nat, A) -> bool, n: nat) {
    match e
    case NoActions => shares == []
    case BadShare(i) =>
      i < |shares| && !GoodShare(shares[i].1) && forall k :: 0 <= k < i ==> GoodShare(shares[k].1)
    case BadTotal(total) =>
      && |shares| > 0 && (forall k :: 0 <= k < |shares| ==> GoodShare(shares[k].1))
      && total == Sum(Values(shares)) && Abs(total - 1.0) > TOLERANCE
    case ActionRejected(role, i) =>
      && GoodShares(shares) && i < |shares| && role < nRoles && !check(role, shares[i].0)
      && Playable(shares, nRoles, check, i) && forall q :: 0 <= q < role ==> check(q, shares[i].0)
    case DuplicateAction(i, first) =>
      && GoodShares(shares) && Playable(shares, nRoles, check, |shares|)
      && first < i < |shares| && shares[first].0 == shares[i].0 && DistinctActions(shares[..i])
    case TooManyAssigned(floored) =>
      WellConfigured(shares, nRoles, check) && floored == FloorSum(Values(shares), n) > n
    case TooManyLeft(remaining) =>
      WellConfigured(shares, nRoles, check) && remaining == n - FloorSum(Values(shares), n) > |shares|
  }

  /** At most one error is justified: the checks have a fixed order and report their first failure. */
  lemma {:induction false} ErrorDetermined<A(!new)>(e: ShareError, f: ShareError, shares: seq<(A, Float)>, nRoles: nat, check: (nat, A) -> bool, n: nat)
    requires Justified(e, shares, nRoles, check, n) && Justified(f, shares, nRoles, check, n)
    ensures e == f
  {
    hide FloorSum, Abs, Sum, Values;
  }

  // ---- stable sort by fractional part, largest first ----

  ghost predicate IsOrder(quotas: seq<real>, order: seq<nat>) {
    && (forall a :: 0 <= a < |order| ==> order[a] < |quotas|)
    && forall a, b :: 0 <= a < b < |order| ==> Before(quotas, order[a], order[b])
  }

  /** All indices below `m`, each once. */
  ghost predicate Lists(order: seq<nat>, m: nat) {
    && |order| == m
    && (forall a :: 0 <= a < m ==> order[a] < m)
    && (forall i :: 0 <= i < m ==> i in order)
  }

  lemma ListsInserted(order: seq<nat>, m: nat, p: nat)
    requires Lists(order, m) && p <= m
    ensures Lists(order[..p] + [m] + order[p..], m + 1)
  {
    var longer := order[..p] + [m] + order[p..];
    assert order == order[..p] + order[p..];
    forall i | 0 <= i < m + 1 ensures i in longer {
      if i == m {
        assert longer[p] == m;
      } else {
        assert i in order;
        assert i in order[..p] || i in order[p..];
      }
    }
  }

  /** The library's stable descending sort of the indices `0..`, as an insertion sort. */
  method SortByFraction(quotas: seq<real>) returns (order: seq<nat>)
    ensures IsOrder(quotas, order) && Lists(order, |quotas|)
  {
    hide Frac;
    order := [];
    for i := 0 to |quotas|
      invariant IsOrder(quotas, order) && Lists(order, i)
    {
      var p := |order|;
      while p > 0 && Frac(quotas[order[p - 1]]) < Frac(quotas[i])
        invariant 0 <= p <= |order|
        invariant forall a :: p <= a < |order| ==> Before(quotas, i, order[a])
      {
        p := p - 1;
      }
      ListsInserted(order, i, p);
      order := order[..p] + [i] + order[p..];
    }
  }

  lemma DistinctInOrder(quotas: seq<real>, order: seq<nat>, a: int, b: int)
    requires IsOrder(quotas, order) && 0 <= a < |order| && 0 <= b < |order| && a != b
    ensures order[a] != order[b]
  {
    if a < b {
      assert Before(quotas, order[a], order[b]);
    } else {
      assert Before(quotas, order[b], order[a]);
    }
  }

  /** One more agent for each of the first `remaining` entries of the order. */
  method HandOut(quotas: seq<real>, order: seq<nat>, remaining: nat) returns (counts: seq<int>)
    requires IsOrder(quotas, order) && remaining <= |order|
    ensures |counts| == |quotas| && SumInt(counts) == SumInt(Floors(quotas)) + remaining
    ensures forall a :: 0 <= a < |order| ==> counts[order[a]] == Floor(quotas[order[a]]) + (if a < remaining then 1 else 0)
  {
    counts := Floors(quotas);
    assert forall i :: 0 <= i < |quotas| ==> counts[i] == Floor(quotas[i]);
    hide Floor, Before;
    for k := 0 to remaining
      invariant |counts| == |quotas| && SumInt(counts) == SumInt(Floors(quotas)) + k
      invariant forall a :: 0 <= a < |order| ==> counts[order[a]] == Floor(quotas[order[a]]) + (if a < k then 1 else 0)
    {
      SumIntUpdate(counts, order[k], counts[order[k]] + 1);
      forall a | 0 <= a < |order| && a != k ensures order[a] != order[k] {
        DistinctInOrder(quotas, order, a, k);
      }
      counts := counts[order[k] := counts[order[k]] + 1];
    }
  }

  lemma HandedOut(quotas: seq<real>, n: int, order: seq<nat>, remaining: nat, counts: seq<int>)
    requires IsOrder(quotas, order) && Lists(order, |quotas|) && |counts| == |quotas| && SumInt(counts) == n
    requires forall a :: 0 <= a < |order| ==> counts[order[a]] == Floor(quotas[order[a]]) + (if a < remaining then 1 else 0)
    ensures IsApportionment(quotas, n, counts)
  {
    hide Floor, Before;
    forall i | 0 <= i < |quotas| ensures counts[i] == Floor(quotas[i]) || RoundedUp(quotas, counts, i) {
      assert i in order;
    }
    forall i, j | 0 <= i < |quotas| && 0 <= j < |quotas| && RoundedUp(quotas, counts, i) && !RoundedUp(quotas, counts, j)
      ensures Before(quotas, i, j)
    {
      assert i in order && j in order;
      var a :| 0 <= a < |order| && order[a] == i;
      var b :| 0 <= b < |order| && order[b] == j;
      assert a < remaining <= b;
    }
  }

  /** Rounds down, then hands the remaining agents out in order of fractional part. */
  method Apportion(shares: seq<real>, n: nat) returns (r: Result<seq<int>, ShareError>)
    ensures r.Ok? ==> IsApportionment(Quotas(shares, n), n, r.value)
    ensures r.Ok? <==> FloorSum(shares, n) <= n && n - FloorSum(shares, n) <= |shares|
    ensures r.Err? ==> r.error == if FloorSum(shares, n) > n then TooManyAssigned(FloorSum(shares, n))
                                  else TooManyLeft(n - FloorSum(shares, n))
  {
    var quotas := Quotas(shares, n);
    var floored := SumInt(Floors(quotas));
    if floored > n {
      return Err(TooManyAssigned(floored));
    }
    var remaining := n - floored;
    var order := SortByFraction(quotas);
    if remaining > |order| {
      return Err(TooManyLeft(remaining));
    }
    hide IsOrder, IsApportionment;
    var counts := HandOut(quotas, order, remaining);
    HandedOut(quotas, n, order, remaining, counts);
    r := Ok(counts);
  }

  // ---- expansion ----

  /** Each action repeated as often as its count says, in listed order. */
  function Expand<A>(shares: seq<(A, Float)>, counts: seq<int>): seq<A>
    requires |counts| == |shares| && forall i :: 0 <= i < |counts| ==> counts[i] >= 0
  {
    if |shares| == 0 then []
    else
      var m := |shares| - 1;
      Expand(shares[..m], counts[..m]) + seq(counts[m], _ => shares[m].0)
  }

  lemma {:induction false} RepeatCount<A>(a: A, k: nat, b: A)
    ensures multiset(seq(k, _ => a))[b] == if b == a then k else 0
  {
    if k > 0 {
      assert seq(k, _ => a) == seq(k - 1, _ => a) + [a];
      RepeatCount(a, k - 1, b);
    }
  }

  lemma {:induction false} ExpandCounts<A>(shares: seq<(A, Float)>, counts: seq<int>, b: A)
    requires |counts| == |shares| && forall i :: 0 <= i < |counts| ==> counts[i] >= 0
    requires DistinctActions(shares)
    ensures |Expand(shares, counts)| == SumInt(counts)
    ensures forall i :: 0 <= i < |shares| && shares[i].0 == b ==> multiset(Expand(shares, counts))[b] == counts[i]
    ensures (forall i :: 0 <= i < |shares| ==> shares[i].0 != b) ==> multiset(Expand(shares, counts))[b] == 0
  {
    if |shares| > 0 {
      var m := |shares| - 1;
      ExpandCounts(shares[..m], counts[..m], b);
      RepeatCount(shares[m].0, counts[m], b);
      assert multiset(Expand(shares, counts)) == multiset(Expand(shares[..m], counts[..m])) + multiset(seq(counts[m], _ => shares[m].0));
    }
  }

  /** Every listed action is held by exactly as many agents as an apportionment of `n` gives it. */
  ghost predicate Realises<A>(actions: seq<A>, shares: seq<(A, Float)>, n: nat) {
    exists counts :: RealisesCounts(actions, shares, n, counts)
  }

  ghost predicate RealisesCounts<A>(actions: seq<A>, shares: seq<(A, Float)>, n: nat, counts: seq<int>) {
    && |actions| == n
    && IsApportionment(Quotas(Values(shares), n), n, counts)
    && forall i :: 0 <= i < |shares| ==> multiset(actions)[shares[i].0] == counts[i]
  }

  /** How many agents hold each listed action. */
  ghost function Held<A>(actions: seq<A>, shares: seq<(A, Float)>): (r: seq<int>)
    ensures |r| == |shares|
  {
    seq(|shares|, i requires 0 <= i < |shares| => multiset(actions)[shares[i].0])
  }

  /** Realised shares: one action per agent, and the numbers of agents holding the actions are the apportionment of
      any quotas that are `n` times the share of each entry. */
  lemma {:induction false} RealisedIsApportionment<A>(actions: seq<A>, shares: seq<(A, Float)>, n: nat, asked: seq<real>)
    requires Realises(actions, shares, n) && |asked| == |shares|
    requires forall i :: 0 <= i < |shares| ==> shares[i].1.Finite? && asked[i] == n as real * shares[i].1.value
    ensures |actions| == n && IsApportionment(asked, n, Held(actions, shares))
  {
    hide IsApportionment;
    var counts :| RealisesCounts(actions, shares, n, counts);
    forall i | 0 <= i < |shares| ensures asked[i] == Quotas(Values(shares), n)[i] {
      assert Values(shares)[i] == shares[i].1.value;
    }
    assert asked == Quotas(Values(shares), n);
    AsLong(asked, n, counts);
    assert Held(actions, shares) == counts;
  }

  lemma AsLong(quotas: seq<real>, n: nat, counts: seq<int>)
    requires IsApportionment(quotas, n, counts)
    ensures |counts| == |quotas|
  { }

  /** The checks of the source in their order; `shuffle` is any permutation. */
  method ResolveShares<A(==,!new)>(shares: seq<(A, Float)>, nRoles: nat, check: (nat, A) -> bool, n: nat,
                                   shuffle: seq<A> -> seq<A>) returns (r: Result<seq<A>, ShareError>)
    requires forall s :: multiset(shuffle(s)) == multiset(s)
    ensures r.Ok? <==> WellConfigured(shares, nRoles, check) && FloorSum(Values(shares), n) <= n
                       && n - FloorSum(Values(shares), n) <= |shares|
    ensures r.Ok? ==> Realises(r.value, shares, n)
    ensures r.Err? ==> Justified(r.error, shares, nRoles, check, n)
  {
    hide IsApportionment, FloorSum;
    if |shares| == 0 {
      return Err(NoActions);
    }
    for i := 0 to |shares|
      invariant forall k :: 0 <= k < i ==> GoodShare(shares[k].1)
    {
      if !shares[i].1.Finite? || shares[i].1.value < 0.0 {
        return Err(BadShare(i));
      }
    }
    var values := Values(shares);
    var total := Sum(values);
    if Abs(total - 1.0) > TOLERANCE {
      return Err(BadTotal(total));
    }
    for i := 0 to |shares|
      invariant Playable(shares, nRoles, check, i)
    {
      for role := 0 to nRoles
        invariant forall k :: 0 <= k < role ==> check(k, shares[i].0)
      {
        if !check(role, shares[i].0) {
          return Err(ActionRejected(role, i));
        }
      }
    }
    for i := 0 to |shares|
      invariant DistinctActions(shares[..i])
    {
      for first := 0 to i
        invariant forall k :: 0 <= k < first ==> shares[k].0 != shares[i].0
      {
        if shares[first].0 == shares[i].0 {
          return Err(DuplicateAction(i, first));
        }
      }
    }
    assert shares[..|shares|] == shares;
    var apportioned := Apportion(values, n);
    if apportioned.Err? {
      return Err(apportioned.error);
    }
    var counts := apportioned.value;
    CountsNonNegative(values, n, counts);
    var actions := Expand(shares, counts);
    forall i | 0 <= i < |shares| ensures multiset(actions)[shares[i].0] == counts[i] && |actions| == n {
      ExpandCounts(shares, counts, shares[i].0);
    }
    var shuffled := shuffle(actions);
    assert |shuffled| == |multiset(shuffled)| == |multiset(actions)| == |actions|;
    assert RealisesCounts(shuffled, shares, n, counts);
    r := Ok(shuffled);
  }

  lemma CountsNonNegative(values: seq<real>, n: nat, counts: seq<int>)
    requires IsApportionment(Quotas(values, n), n, counts)
    requires forall i :: 0 <= i < |values| ==> values[i] >= 0.0
    ensures |counts| == |values| && SumInt(counts) == n
    ensures forall i :: 0 <= i < |counts| ==> counts[i] >= 0
  {
    forall i | 0 <= i < |counts| ensures counts[i] >= 0 {
      QuotaAdd(n, 0.0, 0.0);
      QuotaMono(n, 0.0, values[i]);
    }
  }
}
