// Ordinal distribution metrics: normalisation, the Wasserstein distance, NEMD and mean difference.
module Distribution {
  import opened Options
  import opened RealSums
  import opened Transport

  function PositiveTotal(p: seq<real>): (total: real)
    ensures total >= 0.0
  {
    if |p| == 0 then 0.0 else PositiveTotal(p[..|p| - 1]) + Max(p[|p| - 1], 0.0)
  }

  /** One mass as a share of the total; a negative mass counts as zero. */
  function Share(w: real, total: real): (r: real)
    requires total > 0.0
    ensures r >= 0.0 && Mul(total, r) == Max(w, 0.0)
  {
    Max(w, 0.0) / total
  }

  /** Masses divided by their positive total, negative masses counting as zero. */
  function Normalized(p: seq<real>): Option<seq<real>> {
    var total := PositiveTotal(p);
    if total <= 0.0 then None else Some(seq(|p|, i requires 0 <= i < |p| => Share(p[i], total)))
  }

  function OrdinalMean(p: seq<real>): real {
    SumF(i => i as real * At(p, i), |p|)
  }

  /** Both sides have a distribution, over the same number of categories. */
  predicate Comparable(p: seq<real>, q: seq<real>) {
    |p| == |q| && Normalized(p).Some? && Normalized(q).Some?
  }

  function Wasserstein(p: seq<real>, q: seq<real>): real {
    if Comparable(p, q) then CdfDistance(Normalized(p).value, Normalized(q).value) else 0.0
  }

  function Nemd(p: seq<real>, q: seq<real>, range: real): real {
    if range <= 0.0 then 0.0 else Wasserstein(p, q) / range
  }

  function MeanDiff(p: seq<real>, q: seq<real>, range: real): real {
    if range <= 0.0 || !Comparable(p, q) then 0.0
    else Abs(OrdinalMean(Normalized(p).value) - OrdinalMean(Normalized(q).value)) / range
  }

  lemma {:induction false} ShareSum(p: seq<real>, total: real, r: seq<real>, n: nat)
    requires total > 0.0 && n <= |p| == |r|
    requires forall i :: 0 <= i < |p| ==> r[i] == Share(p[i], total)
    ensures Mul(total, Cdf(r, n)) == PositiveTotal(p[..n])
  {
    if n == 0 {
      assert Cdf(r, 0) == 0.0;
    } else {
      hide Share, Mul;
      ShareSum(p, total, r, n - 1);
      assert p[..n][..n - 1] == p[..n - 1];
      assert Mul(total, r[n - 1]) == Max(p[n - 1], 0.0);
      MulPlus(total, Cdf(r, n - 1), r[n - 1]);
    }
  }

  lemma UnitFactor(total: real, x: real)
    requires total > 0.0 && total == Mul(total, x)
    ensures x == 1.0
  {
    assert total * (x - 1.0) == 0.0;
  }

  lemma NormalizedIsDistribution(p: seq<real>)
    requires Normalized(p).Some?
    ensures IsDistribution(Normalized(p).value) && |Normalized(p).value| == |p| > 0
  {
    var total, r := PositiveTotal(p), Normalized(p).value;
    assert p[..|p|] == p;
    hide Share, Mul;
    ShareSum(p, total, r, |p|);
    UnitFactor(total, Cdf(r, |p|));
  }

  /** `r` is the probability vector in proportion to the positive part of `p`. */
  ghost predicate IsNormalization(p: seq<real>, r: seq<real>) {
    && IsDistribution(r) && |r| == |p|
    && forall i, j :: 0 <= i < |p| && 0 <= j < |p| ==> Mul(Max(p[j], 0.0), r[i]) == Mul(Max(p[i], 0.0), r[j])
  }

  lemma {:induction false} PositiveTotalIff(p: seq<real>)
    ensures PositiveTotal(p) > 0.0 <==> exists i :: 0 <= i < |p| && p[i] > 0.0
  {
    if |p| > 0 {
      var n := |p| - 1;
      PositiveTotalIff(p[..n]);
      if i :| 0 <= i < n && p[..n][i] > 0.0 {
        assert p[i] > 0.0;
      }
      if i :| 0 <= i < |p| && p[i] > 0.0 {
        assert i < n ==> p[..n][i] > 0.0;
      }
    }
  }

  lemma Proportional(total: real, a: real, b: real, x: real, y: real)
    requires Mul(total, x) == a && Mul(total, y) == b
    ensures Mul(b, x) == Mul(a, y)
  {
    assert total * y * x == total * x * y;
  }

  /** Normalisation succeeds exactly when some mass is positive, and then returns the proportional probabilities. */
  lemma NormalizedIff(p: seq<real>)
    ensures Normalized(p).Some? <==> exists i :: 0 <= i < |p| && p[i] > 0.0
    ensures Normalized(p).Some? ==> IsNormalization(p, Normalized(p).value)
  {
    PositiveTotalIff(p);
    if Normalized(p).Some? {
      var total, r := PositiveTotal(p), Normalized(p).value;
      NormalizedIsDistribution(p);
      hide Mul, Max;
      forall i, j | 0 <= i < |p| && 0 <= j < |p| ensures Mul(Max(p[j], 0.0), r[i]) == Mul(Max(p[i], 0.0), r[j]) {
        assert r[i] == Share(p[i], total) && r[j] == Share(p[j], total);
        Proportional(total, Max(p[i], 0.0), Max(p[j], 0.0), r[i], r[j]);
      }
    }
  }

  /** There is only one such vector. */
  lemma NormalizationUnique(p: seq<real>, r: seq<real>, s: seq<real>)
    requires IsNormalization(p, r) && IsNormalization(p, s) && exists i :: 0 <= i < |p| && p[i] > 0.0
    ensures r == s
  {
    var k :| 0 <= k < |p| && p[k] > 0.0;
    MassOfOne(p, r, k);
    MassOfOne(p, s, k);
    var w := SumF(j => At(PositivePart(p), j), |p|);
    FactorCancels(w, r[k], s[k], p[k]);
    forall i | 0 <= i < |p| ensures r[i] == s[i] {
      assert Mul(Max(p[k], 0.0), r[i]) == Mul(Max(p[i], 0.0), r[k]);
      assert Mul(Max(p[k], 0.0), s[i]) == Mul(Max(p[i], 0.0), s[k]);
      FactorCancels(p[k], r[i], s[i], Mul(Max(p[i], 0.0), r[k]));
    }
  }

  function PositivePart(p: seq<real>): (r: seq<real>)
    ensures |r| == |p|
  {
    seq(|p|, i requires 0 <= i < |p| => Max(p[i], 0.0))
  }

  lemma FactorCancels(w: real, x: real, y: real, c: real)
    requires Mul(w, x) == c && Mul(w, y) == c && (w != 0.0 || c != 0.0)
    ensures x == y
  {
    assert w * (x - y) == 0.0;
    assert w != 0.0;
  }

  /** The total of the positive masses times one probability is that entry's mass. */
  lemma MassOfOne(p: seq<real>, r: seq<real>, k: nat)
    requires IsNormalization(p, r) && k < |p| && p[k] > 0.0
    ensures Mul(SumF(j => At(PositivePart(p), j), |p|), r[k]) == p[k]
  {
    var m := PositivePart(p);
    var rk := r[k];
    forall j | 0 <= j < |p| ensures Mul(rk, At(m, j)) == Mul(p[k], At(r, j)) {
      assert Mul(Max(p[j], 0.0), r[k]) == Mul(Max(p[k], 0.0), r[j]);
      assert Mul(Max(p[j], 0.0), rk) == Mul(rk, Max(p[j], 0.0));
    }
    hide Mul;
    MulSum(j => Mul(rk, At(m, j)), rk, j => At(m, j), |p|);
    MulSum(j => Mul(p[k], At(r, j)), p[k], j => At(r, j), |p|);
    SumExt(j => Mul(rk, At(m, j)), j => Mul(p[k], At(r, j)), |p|);
    SumExt(j => At(r, j), i => At(r, i), |p|);
    Commutes(rk, SumF(j => At(m, j), |p|));
    Commutes(p[k], 1.0);
  }

  lemma Commutes(x: real, y: real)
    ensures Mul(x, y) == Mul(y, x) && Mul(x, 1.0) == x
  { }

  /** All the mass at one place. */
  ghost predicate AllAt(p: seq<real>, i: nat) {
    i < |p| && p[i] > 0.0 && forall k :: 0 <= k < |p| && k != i ==> p[k] <= 0.0
  }

  lemma AllAtNormalized(p: seq<real>, i: nat, t: nat)
    requires AllAt(p, i) && t <= |p|
    ensures Normalized(p).Some? && Cdf(Normalized(p).value, t) == if i < t then 1.0 else 0.0
  {
    NormalizedIff(p);
    var r := Normalized(p).value;
    var f := (k: int) => At(r, k);
    forall k | 0 <= k < |p| && k != i ensures f(k) == 0.0 {
      assert Mul(Max(p[i], 0.0), r[k]) == Mul(Max(p[k], 0.0), r[i]) == 0.0;
      FactorCancels(p[i], r[k], 0.0, 0.0);
    }
    SumSingle(f, |p|, i);
    SumExt(f, k => At(r, k), |p|);
    if i < t {
      SumSingle(f, t, i);
    } else {
      SumConst(0.0, f, t);
    }
    SumExt(f, k => At(r, k), t);
  }

  /** Between two point masses the distance is the number of categories between them. */
  lemma PointMassDistance(p: seq<real>, q: seq<real>, i: nat, j: nat)
    requires |p| == |q| && AllAt(p, i) && AllAt(q, j)
    ensures Wasserstein(p, q) == Abs(i as real - j as real)
  {
    AllAtNormalized(p, i, |p|);
    AllAtNormalized(q, j, |q|);
    var pn, qn := Normalized(p).value, Normalized(q).value;
    forall t | 0 <= t < |p| ensures CdfGap(pn, qn, t) == Crosses(i, j, t) {
      AllAtNormalized(p, i, t + 1);
      AllAtNormalized(q, j, t + 1);
    }
    SumExt(t => CdfGap(pn, qn, t), t => Crosses(i, j, t), |p|);
    StepsAreCuts(i, j, |p|);
  }

  /** The accumulating loop returns the optimal transport cost of the normalised inputs. */
  method Wasserstein1d(p: seq<real>, q: seq<real>) returns (dist: real)
    ensures dist == Wasserstein(p, q)
    ensures !Comparable(p, q) ==> dist == 0.0
    ensures Comparable(p, q) ==> IsTransportCost(Normalized(p).value, Normalized(q).value, dist)
    ensures forall i: nat, j: nat :: |p| == |q| && AllAt(p, i) && AllAt(q, j) ==> dist == Abs(i as real - j as real)
  {
    forall i: nat, j: nat | |p| == |q| && AllAt(p, i) && AllAt(q, j) ensures Wasserstein(p, q) == Abs(i as real - j as real) {
      PointMassDistance(p, q, i, j);
    }
    if |p| != |q| || |p| == 0 {
      return 0.0;
    }
    var np, nq := Normalized(p), Normalized(q);
    if np.None? || nq.None? {
      return 0.0;
    }
    var pn, qn := np.value, nq.value;
    var cumP, cumQ := 0.0, 0.0;
    dist := 0.0;
    for i := 0 to |pn|
      invariant cumP == Cdf(pn, i) && cumQ == Cdf(qn, i)
      invariant dist == SumF(t => CdfGap(pn, qn, t), i)
    {
      cumP := cumP + pn[i];
      cumQ := cumQ + qn[i];
      dist := dist + Abs(cumP - cumQ);
    }
    NormalizedIsDistribution(p);
    NormalizedIsDistribution(q);
    CdfDistanceIsTransportCost(pn, qn);
  }

  // ---- metric laws ----

  lemma CdfSymmetric(p: seq<real>, q: seq<real>)
    requires |p| == |q|
    ensures CdfDistance(p, q) == CdfDistance(q, p)
  {
    forall t ensures CdfGap(p, q, t) == CdfGap(q, p, t) { }
    SumExt(t => CdfGap(p, q, t), t => CdfGap(q, p, t), |p|);
  }

  lemma WassersteinSymmetric(p: seq<real>, q: seq<real>)
    ensures Wasserstein(p, q) == Wasserstein(q, p)
  {
    if Comparable(p, q) {
      CdfSymmetric(Normalized(p).value, Normalized(q).value);
    }
  }

  lemma CdfTriangle(p: seq<real>, q: seq<real>, r: seq<real>)
    requires |p| == |q| == |r|
    ensures CdfDistance(p, r) <= CdfDistance(p, q) + CdfDistance(q, r)
  {
    var both := (t: int) => CdfGap(p, q, t) + CdfGap(q, r, t);
    SumAdd(both, t => CdfGap(p, q, t), t => CdfGap(q, r, t), |p|);
    forall t ensures CdfGap(p, r, t) <= CdfGap(p, q, t) + CdfGap(q, r, t) { }
    SumMono(t => CdfGap(p, r, t), both, |p|);
  }

  lemma {:induction false} ZeroSum(f: int -> real, n: nat)
    requires forall i :: 0 <= i < n ==> f(i) >= 0.0
    ensures SumF(f, n) >= 0.0
    ensures SumF(f, n) == 0.0 ==> forall i :: 0 <= i < n ==> f(i) == 0.0
  {
    if n > 0 {
      ZeroSum(f, n - 1);
    }
  }

  /** The distance separates distributions: it is zero only between equal ones. */
  lemma CdfSeparates(p: seq<real>, q: seq<real>)
    requires |p| == |q|
    ensures CdfDistance(p, q) >= 0.0
    ensures CdfDistance(p, q) == 0.0 <==> p == q
  {
    ZeroSum(t => CdfGap(p, q, t), |p|);
    if CdfDistance(p, q) == 0.0 {
      forall i | 0 <= i < |p| ensures p[i] == q[i] {
        var f := t => CdfGap(p, q, t);
        assert f(i) == 0.0 && (i > 0 ==> f(i - 1) == 0.0);
        assert Cdf(p, i + 1) == Cdf(p, i) + p[i] && Cdf(q, i + 1) == Cdf(q, i) + q[i];
        assert Cdf(p, i) == Cdf(q, i);
      }
    }
    if p == q {
      forall t ensures CdfGap(p, q, t) == 0.0 { }
      SumConst(0.0, t => CdfGap(p, q, t), |p|);
    }
  }

  lemma WassersteinSeparates(p: seq<real>, q: seq<real>)
    requires Comparable(p, q)
    ensures Wasserstein(p, q) >= 0.0
    ensures Wasserstein(p, q) == 0.0 <==> Normalized(p) == Normalized(q)
  {
    CdfSeparates(Normalized(p).value, Normalized(q).value);
  }

  /** The triangle inequality holds exactly unless the middle argument cannot be compared with the
      outer two while those two are comparable and differ: a degenerate input counts as distance 0. */
  lemma TriangleIff(p: seq<real>, q: seq<real>, r: seq<real>)
    ensures Wasserstein(p, r) <= Wasserstein(p, q) + Wasserstein(q, r) <==>
            (!Comparable(p, r) || Comparable(p, q) || Normalized(p) == Normalized(r))
  {
    if Comparable(p, q) {
      WassersteinSeparates(p, q);
    }
    if Comparable(q, r) {
      WassersteinSeparates(q, r);
    }
    if Comparable(p, r) {
      WassersteinSeparates(p, r);
      if Comparable(p, q) {
        CdfTriangle(Normalized(p).value, Normalized(q).value, Normalized(r).value);
      }
    }
  }

  lemma SumPrefix2(a: real, b: real)
    requires a >= 0.0 && b >= 0.0
    ensures PositiveTotal([a, b]) == a + b
  {
    assert [a, b][..1] == [a] && [a][..0] == [];
    assert PositiveTotal([a]) == PositiveTotal([a][..0]) + a;
  }

  /** A concrete failure: an all-zero middle argument makes both legs free. */
  lemma TriangleFailsThroughZeroMass()
    ensures Wasserstein([1.0, 0.0], [0.0, 1.0]) > Wasserstein([1.0, 0.0], [0.0, 0.0]) + Wasserstein([0.0, 0.0], [0.0, 1.0])
  {
    var p, q, r := [1.0, 0.0], [0.0, 0.0], [0.0, 1.0];
    SumPrefix2(1.0, 0.0);
    SumPrefix2(0.0, 0.0);
    SumPrefix2(0.0, 1.0);
    assert Normalized(p).value[0] == 1.0 && Normalized(r).value[0] == 0.0;
    TriangleIff(p, q, r);
  }

  lemma {:induction false} SummationByParts(p: seq<real>, n: nat)
    ensures SumF(i => i as real * At(p, i), n) == n as real * Cdf(p, n) - SumF(t => if t < 0 then 0.0 else Cdf(p, t + 1), n)
  {
    if n > 0 {
      SummationByParts(p, n - 1);
      assert Cdf(p, n) == Cdf(p, n - 1) + At(p, n - 1);
    }
  }

  lemma MeanGapAtMostDistance(p: seq<real>, q: seq<real>)
    requires IsDistribution(p) && IsDistribution(q) && |p| == |q|
    ensures Abs(OrdinalMean(p) - OrdinalMean(q)) <= CdfDistance(p, q)
  {
    var k := |p|;
    var f := (t: int) => if t < 0 then 0.0 else Cdf(p, t + 1);
    var g := (t: int) => if t < 0 then 0.0 else Cdf(q, t + 1);
    SummationByParts(p, k);
    SummationByParts(q, k);
    SumExt(t => if t < 0 then 0.0 else Cdf(p, t + 1), f, k);
    SumExt(t => if t < 0 then 0.0 else Cdf(q, t + 1), g, k);
    var gap := (t: int) => CdfGap(p, q, t);
    var gGap := (t: int) => g(t) + gap(t);
    var fGap := (t: int) => f(t) + gap(t);
    forall t | 0 <= t < k ensures f(t) <= gGap(t) && g(t) <= fGap(t) {
      assert CdfGap(p, q, t) == Abs(f(t) - g(t));
    }
    SumAdd(gGap, g, gap, k);
    SumAdd(fGap, f, gap, k);
    SumMono(f, gGap, k);
    SumMono(g, fGap, k);
    SumExt(t => CdfGap(p, q, t), gap, k);
  }

  /** The mean difference never exceeds the normalised earth mover's distance. */
  lemma MeanDiffAtMostNemd(p: seq<real>, q: seq<real>, range: real)
    ensures 0.0 <= MeanDiff(p, q, range) <= Nemd(p, q, range)
  {
    if range > 0.0 && Comparable(p, q) {
      NormalizedIsDistribution(p);
      NormalizedIsDistribution(q);
      MeanGapAtMostDistance(Normalized(p).value, Normalized(q).value);
      var a := Abs(OrdinalMean(Normalized(p).value) - OrdinalMean(Normalized(q).value));
      DivMono(a, Wasserstein(p, q), range);
    }
  }

  /** One distribution lies entirely below the other: all CDF differences have the same sign. */
  ghost predicate Ordered(p: seq<real>, q: seq<real>) {
    forall t: nat :: t <= |p| ==> Cdf(p, t) >= Cdf(q, t)
  }

  lemma MeansByCdf(p: seq<real>, q: seq<real>)
    requires IsDistribution(p) && IsDistribution(q) && |p| == |q|
    ensures OrdinalMean(q) - OrdinalMean(p) == SumF(t => SignedGap(p, q, t), |p|)
  {
    var k := |p|;
    var f := (t: int) => if t < 0 then 0.0 else Cdf(p, t + 1);
    var g := (t: int) => if t < 0 then 0.0 else Cdf(q, t + 1);
    var d := (t: int) => SignedGap(p, q, t);
    SummationByParts(p, k);
    SummationByParts(q, k);
    SumExt(t => if t < 0 then 0.0 else Cdf(p, t + 1), f, k);
    SumExt(t => if t < 0 then 0.0 else Cdf(q, t + 1), g, k);
    SumAdd(f, g, d, k);
    SumExt(t => SignedGap(p, q, t), d, k);
  }

  function SignedGap(p: seq<real>, q: seq<real>, t: int): real {
    if t < 0 then 0.0 else Cdf(p, t + 1) - Cdf(q, t + 1)
  }

  /** Means apart by the full distance in this direction: the signed gaps are their absolute values. */
  lemma FullMeanGapIff(p: seq<real>, q: seq<real>)
    requires IsDistribution(p) && IsDistribution(q) && |p| == |q|
    ensures OrdinalMean(q) - OrdinalMean(p) == CdfDistance(p, q) <==> Ordered(p, q)
  {
    var k := |p|;
    var d := (t: int) => SignedGap(p, q, t);
    var gap := (t: int) => CdfGap(p, q, t);
    var excess := (t: int) => gap(t) - d(t);
    MeansByCdf(p, q);
    SumExt(t => SignedGap(p, q, t), d, k);
    SumExt(t => CdfGap(p, q, t), gap, k);
    SumAdd(gap, excess, d, k);
    forall t: int | 0 <= t < k ensures excess(t) >= 0.0 && (excess(t) == 0.0 <==> Cdf(p, t + 1) >= Cdf(q, t + 1)) {
      assert d(t) == SignedGap(p, q, t) && gap(t) == CdfGap(p, q, t);
    }
    ZeroSum(excess, k);
    if Ordered(p, q) {
      SumConst(0.0, excess, k);
    } else {
      var t: nat :| t <= k && Cdf(p, t) < Cdf(q, t);
      assert t > 0 && excess(t - 1) != 0.0;
    }
  }

  /** Mean difference and normalised distance agree exactly when one side dominates the other. */
  lemma MeanDiffIsNemdIff(p: seq<real>, q: seq<real>, range: real)
    requires range > 0.0 && Comparable(p, q)
    ensures MeanDiff(p, q, range) == Nemd(p, q, range) <==>
            Ordered(Normalized(p).value, Normalized(q).value) || Ordered(Normalized(q).value, Normalized(p).value)
  {
    var pn, qn := Normalized(p).value, Normalized(q).value;
    NormalizedIsDistribution(p);
    NormalizedIsDistribution(q);
    CdfSymmetric(pn, qn);
    CdfSeparates(pn, qn);
    FullMeanGapIff(pn, qn);
    FullMeanGapIff(qn, pn);
    hide OrdinalMean, CdfDistance, Normalized, Ordered;
    SameQuotient(Abs(OrdinalMean(pn) - OrdinalMean(qn)), CdfDistance(pn, qn), range);
  }

  lemma SameQuotient(a: real, b: real, c: real)
    requires c > 0.0
    ensures a / c == b / c <==> a == b
  {
    assert (a / c) * c == a && (b / c) * c == b;
  }

  lemma DivMono(a: real, b: real, c: real)
    requires 0.0 <= a <= b && c > 0.0
    ensures 0.0 <= a / c <= b / c
  {
    assert (a / c) * c == a && (b / c) * c == b;
  }

  lemma CdfDistanceBound(p: seq<real>, q: seq<real>)
    requires IsDistribution(p) && IsDistribution(q) && |p| == |q| > 0
    ensures 0.0 <= CdfDistance(p, q) <= |p| as real - 1.0
  {
    var k := |p|;
    CdfSeparates(p, q);
    forall t | 0 <= t < k - 1 ensures CdfGap(p, q, t) <= 1.0 {
      CdfBound(p, t);
      CdfBound(q, t);
    }
    SumMono(t => CdfGap(p, q, t), t => 1.0, k - 1);
    SumConst(1.0, t => 1.0, k - 1);
  }

  /** With the natural range `k - 1` the normalised distance lies in `[0, 1]`. */
  lemma NemdUnitInterval(p: seq<real>, q: seq<real>)
    ensures 0.0 <= Nemd(p, q, |p| as real - 1.0) <= 1.0
  {
    var range := |p| as real - 1.0;
    if range > 0.0 && Comparable(p, q) {
      NormalizedIsDistribution(p);
      NormalizedIsDistribution(q);
      CdfDistanceBound(Normalized(p).value, Normalized(q).value);
      DivMono(Wasserstein(p, q), range, range);
      assert range / range == 1.0;
    }
  }

  lemma {:induction false} SumAtBound(f: int -> real, n: nat)
    requires forall i :: 0 <= i < n ==> f(i) <= 1.0
    ensures SumF(f, n) <= n as real
    ensures SumF(f, n) == n as real <==> forall i :: 0 <= i < n ==> f(i) == 1.0
  {
    if n > 0 {
      SumAtBound(f, n - 1);
    }
  }

  ghost predicate OppositeEnds(p: seq<real>, q: seq<real>) {
    |p| == |q| > 0 && p[0] == 1.0 && q[|q| - 1] == 1.0
  }

  lemma EndsCdf(p: seq<real>, q: seq<real>, t: nat)
    requires IsDistribution(p) && IsDistribution(q) && OppositeEnds(p, q) && t + 1 < |p|
    ensures Cdf(p, t + 1) == 1.0 && Cdf(q, t + 1) == 0.0
  {
    assert Cdf(p, 1) == Cdf(p, 0) + p[0];
    CdfMonotone(p, 1, t + 1);
    CdfMonotone(p, t + 1, |p|);
    CdfBound(q, |q| - 1);
    CdfMonotone(q, t + 1, |q| - 1);
  }

  lemma CdfDistanceMaximal(p: seq<real>, q: seq<real>)
    requires IsDistribution(p) && IsDistribution(q) && |p| == |q| >= 2
    ensures CdfDistance(p, q) == |p| as real - 1.0 <==> OppositeEnds(p, q) || OppositeEnds(q, p)
  {
    var k := |p|;
    var f := t => CdfGap(p, q, t);
    forall t | 0 <= t < k - 1
      ensures f(t) == CdfGap(p, q, t) <= 1.0
      ensures OppositeEnds(p, q) || OppositeEnds(q, p) ==> f(t) == 1.0
    {
      CdfBound(p, t);
      CdfBound(q, t);
      if OppositeEnds(p, q) {
        EndsCdf(p, q, t);
      } else if OppositeEnds(q, p) {
        EndsCdf(q, p, t);
      }
    }
    SumAtBound(f, k - 1);
    assert CdfDistance(p, q) == SumF(f, k) == SumF(f, k - 1) by {
      SumExt(t => CdfGap(p, q, t), f, k);
      assert f(k - 1) == CdfGap(p, q, k - 1) == 0.0;
    }
    if CdfDistance(p, q) == k as real - 1.0 {
      assert f(0) == 1.0 && f(k - 2) == 1.0;
      FullGapsAtBothEnds(p, q);
    }
  }

  lemma FullGapsAtBothEnds(p: seq<real>, q: seq<real>)
    requires IsDistribution(p) && IsDistribution(q) && |p| == |q| >= 2
    requires CdfGap(p, q, 0) == 1.0 && CdfGap(p, q, |p| - 2) == 1.0
    ensures OppositeEnds(p, q) || OppositeEnds(q, p)
  {
    var k := |p|;
    CdfBound(p, 0);
    CdfBound(q, 0);
    CdfBound(p, k - 1);
    CdfBound(q, k - 1);
    CdfMonotone(p, 1, k - 1);
    CdfMonotone(q, 1, k - 1);
    assert Cdf(p, 0) == Cdf(q, 0) == 0.0;
  }

  lemma RatioIsOne(w: real, range: real)
    requires range > 0.0
    ensures w / range == 1.0 <==> w == range
  {
    assert (w / range) * range == w;
  }

  /** NEMD reaches 1 exactly when all mass sits at opposite ends of the scale. */
  lemma NemdIsOneIff(p: seq<real>, q: seq<real>)
    requires |p| >= 2 && Comparable(p, q)
    ensures Nemd(p, q, |p| as real - 1.0) == 1.0 <==>
            OppositeEnds(Normalized(p).value, Normalized(q).value) ||
            OppositeEnds(Normalized(q).value, Normalized(p).value)
  {
    NormalizedIsDistribution(p);
    NormalizedIsDistribution(q);
    CdfDistanceMaximal(Normalized(p).value, Normalized(q).value);
    RatioIsOne(Wasserstein(p, q), |p| as real - 1.0);
  }
}
