// Largest-remainder apportionment: the rule, its optimality, and when its two rounding errors can occur.
module LargestRemainder {
  import opened RealSums

  function SumInt(s: seq<int>): int {
    if |s| == 0 then 0 else SumInt(s[..|s| - 1]) + s[|s| - 1]
  }

  function Floor(q: real): int { q.Floor }

  function Frac(q: real): real { q - q.Floor as real }

  function Floors(quotas: seq<real>): (r: seq<int>)
    ensures |r| == |quotas|
  {
    seq(|quotas|, i requires 0 <= i < |quotas| => Floor(quotas[i]))
  }

  /** The exact, usually fractional, number of agents a share of `n` is worth. */
  function Quota(n: nat, share: real): real { n as real * share }

  function Quotas(shares: seq<real>, n: nat): (r: seq<real>)
    ensures |r| == |shares|
  {
    seq(|shares|, i requires 0 <= i < |shares| => Quota(n, shares[i]))
  }

  /** Entry `i` comes before entry `j` when agents are left over: larger fraction, then listed earlier. */
  predicate Before(quotas: seq<real>, i: nat, j: nat)
    requires i < |quotas| && j < |quotas|
  {
    Frac(quotas[i]) > Frac(quotas[j]) || (Frac(quotas[i]) == Frac(quotas[j]) && i < j)
  }

  predicate RoundedUp(quotas: seq<real>, counts: seq<int>, i: nat)
    requires i < |quotas| == |counts|
  {
    counts[i] == Floor(quotas[i]) + 1
  }

  /** The rule: quotas rounded down or up, the rounded-up entries being those that come first. */
  ghost predicate IsApportionment(quotas: seq<real>, n: int, counts: seq<int>) {
    && |counts| == |quotas|
    && SumInt(counts) == n
    && (forall i :: 0 <= i < |quotas| ==> counts[i] == Floor(quotas[i]) || RoundedUp(quotas, counts, i))
    && (forall i, j :: 0 <= i < |quotas| && 0 <= j < |quotas| && RoundedUp(quotas, counts, i) && !RoundedUp(quotas, counts, j)
          ==> Before(quotas, i, j))
  }

  // ---- sums ----

  lemma {:induction false} SumIntReal(s: seq<int>, f: int -> real)
    requires forall i :: 0 <= i < |s| ==> f(i) == s[i] as real
    ensures SumInt(s) as real == SumF(f, |s|)
  {
    if |s| > 0 {
      SumIntReal(s[..|s| - 1], f);
    }
  }

  lemma {:induction false} SumIntUpdate(s: seq<int>, k: nat, v: int)
    requires k < |s|
    ensures SumInt(s[k := v]) == SumInt(s) + v - s[k]
  {
    var n := |s| - 1;
    if k == n {
      assert s[k := v][..n] == s[..n];
    } else {
      assert s[k := v][..n] == s[..n][k := v];
      SumIntUpdate(s[..n], k, v);
    }
  }

  // ---- optimality ----

  function Miss(quotas: seq<real>, counts: seq<int>, i: int): real {
    if 0 <= i < |quotas| && i < |counts| then Abs(counts[i] as real - quotas[i]) else 0.0
  }

  /** Total absolute deviation of integer counts from the quotas. */
  function Deviation(quotas: seq<real>, counts: seq<int>): real {
    SumF(i => Miss(quotas, counts, i), |quotas|)
  }

  function Paid(price: real, c: real): real { price * c }

  function Lagrange(quotas: seq<real>, counts: seq<int>, price: real, i: int): real {
    Miss(quotas, counts, i) - Paid(price, if 0 <= i < |counts| then counts[i] as real else 0.0)
  }

  /** A price per agent at which exactly the rounded-up entries gain from one more agent. */
  ghost predicate Separates(quotas: seq<real>, counts: seq<int>, price: real)
    requires |counts| == |quotas|
  {
    && -1.0 <= price <= 1.0
    && forall i :: 0 <= i < |quotas| ==>
      if RoundedUp(quotas, counts, i) then 1.0 - 2.0 * Frac(quotas[i]) <= price else price <= 1.0 - 2.0 * Frac(quotas[i])
  }

  /** The unrounded entry with the largest fraction, if any, sets the price. */
  lemma PriceExists(quotas: seq<real>, n: int, counts: seq<int>) returns (price: real)
    requires IsApportionment(quotas, n, counts)
    ensures Separates(quotas, counts, price)
  {
    price := 1.0;
    for k := 0 to |quotas|
      invariant -1.0 <= price <= 1.0
      invariant forall i :: 0 <= i < k && !RoundedUp(quotas, counts, i) ==> price <= 1.0 - 2.0 * Frac(quotas[i])
      invariant price == 1.0 || exists j :: 0 <= j < k && !RoundedUp(quotas, counts, j) && price == 1.0 - 2.0 * Frac(quotas[j])
    {
      if !RoundedUp(quotas, counts, k) && 1.0 - 2.0 * Frac(quotas[k]) < price {
        price := 1.0 - 2.0 * Frac(quotas[k]);
      }
    }
    forall i | 0 <= i < |quotas| && RoundedUp(quotas, counts, i) ensures 1.0 - 2.0 * Frac(quotas[i]) <= price {
      if price < 1.0 {
        var j :| 0 <= j < |quotas| && !RoundedUp(quotas, counts, j) && price == 1.0 - 2.0 * Frac(quotas[j]);
        assert Before(quotas, i, j);
      }
    }
  }

  /** What `k` more agents cost at the price, against what they change in the deviation. */
  lemma PaidBounds(price: real, k: real)
    requires -1.0 <= price <= 1.0
    ensures k >= 1.0 ==> Paid(price, k) <= k && Paid(price, k) <= k - 1.0 + price
    ensures k <= -1.0 ==> Paid(price, k) <= -k && Paid(price, k) <= -k - 1.0 - price
  {
    var a, b, j, l := 1.0 - price, 1.0 + price, k - 1.0, -k - 1.0;
    assert a * k == k - Paid(price, k) && b * k == k + Paid(price, k);
    if k >= 1.0 {
      ProductNonNegative(a, j);
      ProductNonNegative(a, k);
      assert a * j == a * k - a;
    } else if k <= -1.0 {
      var m := -k;
      ProductNonNegative(b, l);
      ProductNonNegative(b, m);
      assert b * m == -(b * k) && b * l == b * m - b;
    }
  }

  lemma PaidDifference(price: real, c: int, d: int)
    ensures Paid(price, d as real) == Paid(price, c as real) + Paid(price, (d - c) as real)
    ensures d as real == c as real + (d - c) as real
    ensures d > c ==> (d - c) as real >= 1.0
    ensures d < c ==> (d - c) as real <= -1.0
  { }

  /** At that price no other count for one entry beats the apportioned one. */
  lemma EntryOptimal(q: real, c: int, d: int, price: real)
    requires -1.0 <= price <= 1.0
    requires (c == Floor(q) && price <= 1.0 - 2.0 * Frac(q)) || (c == Floor(q) + 1 && 1.0 - 2.0 * Frac(q) <= price)
    ensures Abs(c as real - q) - Paid(price, c as real) <= Abs(d as real - q) - Paid(price, d as real)
  {
    FracRange(q);
    PaidDifference(price, c, d);
    PaidBounds(price, (d - c) as real);
    hide Frac, Floor, Paid;
    if d > c {
      assert d as real >= q;
    } else if d < c {
      assert d as real <= q;
    }
  }

  lemma FracRange(q: real)
    ensures 0.0 <= Frac(q) < 1.0 && q == Floor(q) as real + Frac(q)
  { }

  /** No integer vector with the same total deviates less from the quotas. */
  lemma ApportionmentOptimal(quotas: seq<real>, n: int, counts: seq<int>, other: seq<int>)
    requires IsApportionment(quotas, n, counts)
    requires |other| == |quotas| && SumInt(other) == n
    ensures Deviation(quotas, counts) <= Deviation(quotas, other)
  {
    var price := PriceExists(quotas, n, counts);
    hide Paid;
    forall i | 0 <= i < |quotas| ensures Lagrange(quotas, counts, price, i) <= Lagrange(quotas, other, price, i) {
      EntryOptimal(quotas[i], counts[i], other[i], price);
    }
    hide Lagrange, IsApportionment, Separates;
    SumMono(i => Lagrange(quotas, counts, price, i), i => Lagrange(quotas, other, price, i), |quotas|);
    LagrangeTotal(quotas, counts, price);
    LagrangeTotal(quotas, other, price);
  }

  lemma PaidAdd(price: real, a: real, b: real)
    ensures Paid(price, a + b) == Paid(price, a) + Paid(price, b)
    ensures Paid(price, 0.0) == 0.0
  { }

  lemma {:induction false} PaidSum(price: real, pc: int -> real, c: int -> real, n: nat)
    requires forall i :: 0 <= i < n ==> pc(i) == Paid(price, c(i))
    ensures SumF(pc, n) == Paid(price, SumF(c, n))
  {
    hide Paid;
    PaidAdd(price, 0.0, 0.0);
    if n > 0 {
      PaidSum(price, pc, c, n - 1);
      PaidAdd(price, SumF(c, n - 1), c(n - 1));
    }
  }

  lemma LagrangeTotal(quotas: seq<real>, counts: seq<int>, price: real)
    requires |counts| == |quotas|
    ensures SumF(i => Lagrange(quotas, counts, price, i), |quotas|)
         == Deviation(quotas, counts) - Paid(price, SumInt(counts) as real)
  {
    hide Paid;
    var c := (i: int) => if 0 <= i < |counts| then counts[i] as real else 0.0;
    SumIntReal(counts, c);
    var pc := (i: int) => Paid(price, c(i));
    PaidSum(price, pc, c, |quotas|);
    assert forall i :: Miss(quotas, counts, i) == Lagrange(quotas, counts, price, i) + Paid(price, c(i));
    hide Miss, Lagrange;
    SumAdd(i => Miss(quotas, counts, i), i => Lagrange(quotas, counts, price, i), pc, |quotas|);
  }

  lemma {:induction false} PointwiseSum(c: seq<int>, d: seq<int>)
    requires |c| == |d| && forall i :: 0 <= i < |c| ==> c[i] <= d[i]
    ensures SumInt(c) <= SumInt(d)
    ensures SumInt(c) == SumInt(d) ==> c == d
  {
    if |c| > 0 {
      PointwiseSum(c[..|c| - 1], d[..|d| - 1]);
      assert c == c[..|c| - 1] + [c[|c| - 1]] && d == d[..|d| - 1] + [d[|d| - 1]];
    }
  }

  /** A larger quota gets no fewer agents, and of two equal quotas the one listed earlier gets no fewer. */
  lemma LargerQuotaNoFewer(quotas: seq<real>, n: int, counts: seq<int>, i: nat, j: nat)
    requires IsApportionment(quotas, n, counts) && i < |quotas| && j < |quotas|
    requires quotas[i] > quotas[j] || (quotas[i] == quotas[j] && i < j)
    ensures counts[i] >= counts[j]
  {
    FracRange(quotas[i]);
    FracRange(quotas[j]);
    if RoundedUp(quotas, counts, j) && !RoundedUp(quotas, counts, i) {
      assert Before(quotas, j, i);
    }
  }

  lemma NotBothBefore(quotas: seq<real>, i: nat, j: nat)
    requires i < |quotas| && j < |quotas|
    ensures !(Before(quotas, i, j) && Before(quotas, j, i))
  { }

  /** The rule determines the counts. */
  lemma ApportionmentUnique(quotas: seq<real>, n: int, c: seq<int>, d: seq<int>)
    requires IsApportionment(quotas, n, c) && IsApportionment(quotas, n, d)
    ensures c == d
  {
    hide Floor;
    if i :| 0 <= i < |quotas| && RoundedUp(quotas, c, i) && !RoundedUp(quotas, d, i) {
      forall j | 0 <= j < |quotas| ensures d[j] <= c[j] {
        NotBothBefore(quotas, i, j);
      }
      PointwiseSum(d, c);
    } else {
      forall j | 0 <= j < |quotas| ensures c[j] <= d[j] {
        if RoundedUp(quotas, c, j) {
          assert RoundedUp(quotas, d, j);
        }
      }
      PointwiseSum(c, d);
    }
  }

  // ---- the rounding errors ----

  const TOLERANCE: real := 0.000000001

  ghost predicate Accepted(shares: seq<real>) {
    && |shares| > 0
    && (forall i :: 0 <= i < |shares| ==> shares[i] >= 0.0)
    && Abs(Sum(shares) - 1.0) <= TOLERANCE
  }

  function FloorSum(shares: seq<real>, n: nat): int { SumInt(Floors(Quotas(shares, n))) }

  lemma QuotaAdd(n: nat, a: real, b: real)
    ensures Quota(n, a + b) == Quota(n, a) + Quota(n, b)
    ensures Quota(n, 0.0) == 0.0 && Quota(n, 1.0) == n as real
  { }

  lemma QuotaMono(n: nat, a: real, b: real)
    requires a <= b
    ensures Quota(n, a) <= Quota(n, b)
  { }

  lemma FloorsPush(shares: seq<real>, n: nat, m: nat)
    requires |shares| == m + 1
    ensures FloorSum(shares, n) == FloorSum(shares[..m], n) + Floor(Quota(n, shares[m]))
  {
    assert Floors(Quotas(shares, n))[..m] == Floors(Quotas(shares[..m], n));
  }

  /** The floors lie between the quota total less the number of entries, and the quota total. */
  lemma {:induction false} FloorSumRange(shares: seq<real>, n: nat)
    ensures FloorSum(shares, n) as real <= Quota(n, Sum(shares))
    ensures |shares| > 0 ==> Quota(n, Sum(shares)) - |shares| as real < FloorSum(shares, n) as real
  {
    hide Quota, Floor, Frac;
    QuotaAdd(n, 0.0, 0.0);
    if |shares| > 0 {
      var m := |shares| - 1;
      FloorSumRange(shares[..m], n);
      FloorsPush(shares, n, m);
      QuotaAdd(n, Sum(shares[..m]), shares[m]);
      FracRange(Quota(n, shares[m]));
      hide FloorSum;
    }
  }

  lemma DriftBound(total: real, n: nat)
    requires Abs(total - 1.0) <= TOLERANCE
    ensures Abs(Quota(n, total) - n as real) <= Quota(n, TOLERANCE)
    ensures n < 1_000_000_000 ==> Quota(n, TOLERANCE) < 1.0
    ensures n <= 1_000_000_000 ==> Quota(n, TOLERANCE) <= 1.0
    ensures total >= 1.0 ==> Quota(n, total) >= n as real
  {
    QuotaAdd(n, total, TOLERANCE);
    QuotaAdd(n, 1.0, TOLERANCE);
    QuotaMono(n, total, 1.0 + TOLERANCE);
    QuotaMono(n, 1.0, total + TOLERANCE);
    if total >= 1.0 {
      QuotaMono(n, 1.0, total);
    }
  }

  /** Fewer than 10^9 agents never meet either rounding error. */
  lemma SmallPopulationsNeverFail(shares: seq<real>, n: nat)
    requires Accepted(shares) && n < 1_000_000_000
    ensures FloorSum(shares, n) <= n && n - FloorSum(shares, n) <= |shares|
  {
    FloorSumRange(shares, n);
    DriftBound(Sum(shares), n);
    hide Quota, FloorSum;
  }

  lemma SingleShare(s: real, n: nat)
    ensures Sum([s]) == s
    ensures FloorSum([s], n) == Floor(Quota(n, s))
  {
    hide Quota, Floor;
    assert [s][..0] == [];
    FloorsPush([s], n, 0);
    assert Floors(Quotas([], n)) == [];
  }

  /** Assigning more agents than there are is possible exactly from 10^9 agents on. */
  lemma OvershootReachableIff(n: nat)
    ensures (exists shares :: Accepted(shares) && FloorSum(shares, n) > n) <==> n >= 1_000_000_000
  {
    if n >= 1_000_000_000 {
      var s := 1.0 + TOLERANCE;
      SingleShare(s, n);
      assert Quota(n, s) == n as real + n as real * TOLERANCE >= (n + 1) as real;
      assert Accepted([s]) && FloorSum([s], n) > n;
    } else {
      forall shares | Accepted(shares) ensures FloorSum(shares, n) <= n {
        SmallPopulationsNeverFail(shares, n);
      }
    }
  }

  /** Having more agents left than entries is possible exactly beyond 10^9 agents. */
  lemma ShortfallReachableIff(n: nat)
    ensures (exists shares :: Accepted(shares) && n - FloorSum(shares, n) > |shares|) <==> n > 1_000_000_000
  {
    if n > 1_000_000_000 {
      var s := 1.0 - TOLERANCE;
      SingleShare(s, n);
      assert Quota(n, s) == n as real - n as real * TOLERANCE < (n - 1) as real;
      assert Accepted([s]) && n - FloorSum([s], n) > |[s]|;
    } else {
      forall shares | Accepted(shares) ensures n - FloorSum(shares, n) <= |shares| {
        FloorSumRange(shares, n);
        DriftBound(Sum(shares), n);
      }
    }
  }

  // ---- zero shares ----

  lemma {:induction false} QuotaSum(shares: seq<real>, n: nat, f: int -> real, m: nat)
    requires m <= |shares| && forall i :: 0 <= i < |shares| ==> f(i) == Quota(n, shares[i])
    ensures SumF(f, m) == Quota(n, Sum(shares[..m]))
  {
    hide Quota;
    QuotaAdd(n, 0.0, 0.0);
    if m > 0 {
      QuotaSum(shares, n, f, m - 1);
      assert shares[..m][..m - 1] == shares[..m - 1];
      QuotaAdd(n, Sum(shares[..m - 1]), shares[m - 1]);
    }
  }

  /** If an entry without a fractional part is rounded up, the counts exceed the quotas by a whole agent. */
  lemma RoundedUpWhole(quotas: seq<real>, n: int, counts: seq<int>, z: nat, plain: int -> real)
    requires IsApportionment(quotas, n, counts) && z < |quotas|
    requires Frac(quotas[z]) == 0.0 && RoundedUp(quotas, counts, z)
    requires forall i :: 0 <= i < |quotas| ==> plain(i) == quotas[i]
    ensures n as real >= SumF(plain, |quotas|) + 1.0
  {
    var spike := (i: int) => if i == z then 1.0 else 0.0;
    var q := (i: int) => plain(i) + spike(i);
    var c := (i: int) => if 0 <= i < |counts| then counts[i] as real else 0.0;
    forall i | 0 <= i < |quotas| ensures q(i) <= c(i) {
      FracRange(quotas[i]);
      if !RoundedUp(quotas, counts, i) {
        assert Before(quotas, z, i);
      }
    }
    hide Frac, Floor, IsApportionment, RoundedUp;
    SumMono(q, c, |quotas|);
    SumIntReal(counts, c);
    SumSingle(spike, |quotas|, z);
    SumAdd(q, plain, spike, |quotas|);
  }

  /** An entry with a zero share gets no agents unless the shares fall short by a whole agent. */
  lemma ZeroShareGetsNothing(shares: seq<real>, n: nat, counts: seq<int>, z: nat)
    requires IsApportionment(Quotas(shares, n), n, counts)
    requires z < |shares| && shares[z] == 0.0
    requires n as real - Quota(n, Sum(shares)) < 1.0
    ensures counts[z] == 0
  {
    var quotas := Quotas(shares, n);
    assert |counts| == |quotas|;
    ZeroQuota(n);
    hide Quota, Frac, Floor, IsApportionment;
    CountChoices(quotas, n, counts, z);
    if RoundedUp(quotas, counts, z) {
      RoundedUpZero(shares, n, counts, z);
    }
  }

  lemma RoundedUpZero(shares: seq<real>, n: nat, counts: seq<int>, z: nat)
    requires IsApportionment(Quotas(shares, n), n, counts) && z < |shares|
    requires Frac(Quotas(shares, n)[z]) == 0.0 && RoundedUp(Quotas(shares, n), counts, z)
    ensures n as real - Quota(n, Sum(shares)) >= 1.0
  {
    hide Quota, Frac, Floor, IsApportionment, RoundedUp, Sum, SumF;
    var quotas := Quotas(shares, n);
    var plain := (i: int) => if 0 <= i < |quotas| then quotas[i] else 0.0;
    QuotaSum(shares, n, plain, |shares|);
    assert shares[..|shares|] == shares;
    RoundedUpWhole(quotas, n, counts, z, plain);
  }

  lemma ZeroQuota(n: nat)
    ensures Quota(n, 0.0) == 0.0 && Floor(0.0) == 0 && Frac(0.0) == 0.0
  { }

  lemma CountChoices(quotas: seq<real>, n: int, counts: seq<int>, i: nat)
    requires IsApportionment(quotas, n, counts) && i < |quotas|
    ensures counts[i] == Floor(quotas[i]) || RoundedUp(quotas, counts, i)
  { }

  /** With shares that sum to 1 or more, or within the tolerance below 10^9 agents, that never happens. */
  lemma ZeroShareSafe(shares: seq<real>, n: nat, counts: seq<int>, z: nat)
    requires Accepted(shares) && IsApportionment(Quotas(shares, n), n, counts)
    requires z < |shares| && shares[z] == 0.0
    requires Sum(shares) >= 1.0 || n < 1_000_000_000
    ensures counts[z] == 0
  {
    hide Quota, IsApportionment;
    DriftBound(Sum(shares), n);
    ZeroShareGetsNothing(shares, n, counts, z);
  }

  /** A zero share can receive an agent exactly from 10^9 agents on. */
  lemma ZeroShareWinnableIff(n: nat)
    ensures (exists shares, counts, z: nat ::
               Accepted(shares) && IsApportionment(Quotas(shares, n), n, counts) && z < |shares| && shares[z] == 0.0 && counts[z] > 0)
            <==> n >= 1_000_000_000
  {
    if n >= 1_000_000_000 {
      var shares, counts := [0.0, 1.0 - 1.0 / n as real], [1, n - 1];
      ShortByOne(n);
      assert shares[0] == 0.0 && counts[0] > 0;
    } else {
      forall shares, counts, z: nat
        | Accepted(shares) && IsApportionment(Quotas(shares, n), n, counts) && z < |shares| && shares[z] == 0.0
        ensures counts[z] == 0
      {
        ZeroShareSafe(shares, n, counts, z);
      }
    }
  }

  lemma ShortByOne(n: nat)
    requires n >= 1_000_000_000
    ensures var shares := [0.0, 1.0 - 1.0 / n as real];
            Accepted(shares) && IsApportionment(Quotas(shares, n), n, [1, n - 1])
  {
    var e := 1.0 / n as real;
    assert n as real * e == 1.0;
    assert 0.0 < e <= TOLERANCE;
    var shares, counts := [0.0, 1.0 - e], [1, n - 1];
    assert shares[..1] == [0.0] && [0.0][..0] == [];
    assert Sum([0.0]) == 0.0 && Sum(shares) == 1.0 - e;
    assert Quota(n, 1.0 - e) == (n - 1) as real;
    var quotas := Quotas(shares, n);
    assert quotas[0] == 0.0 && quotas[1] == (n - 1) as real;
    assert counts[..1] == [1] && [1][..0] == [];
    assert SumInt([1]) == 1;
  }
}
