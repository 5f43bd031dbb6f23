// Optimal transport on the line: every way of moving the masses p onto the masses q costs at
// least the sum of absolute CDF differences, and the comonotone coupling costs exactly that.
module Transport {
  import opened RealSums

  /** Total mass on the positions before `t`. */
  function Cdf(p: seq<real>, t: nat): real {
    SumF(i => At(p, i), t)
  }

  /** Non-negative masses that sum to one. */
  ghost predicate IsDistribution(p: seq<real>) {
    && (forall i :: 0 <= i < |p| ==> p[i] >= 0.0)
    && Cdf(p, |p|) == 1.0
  }

  function CdfGap(p: seq<real>, q: seq<real>, t: int): real {
    if t < 0 then 0.0 else Abs(Cdf(p, t + 1) - Cdf(q, t + 1))
  }

  function CdfDistance(p: seq<real>, q: seq<real>): real {
    SumF(t => CdfGap(p, q, t), |p|)
  }

  /** `g(i, j)` is the mass moved from position `i` to position `j`. */
  ghost predicate IsCoupling(g: Table, p: seq<real>, q: seq<real>) {
    && |p| == |q|
    && (forall i, j :: 0 <= i < |p| && 0 <= j < |p| ==> g(i, j) >= 0.0)
    && (forall i :: 0 <= i < |p| ==> Row(g, i, |p|) == p[i])
    && (forall j :: 0 <= j < |p| ==> Col(g, j, |p|) == q[j])
  }

  function Steps(i: int, j: int): real { Abs(i as real - j as real) }

  function Priced(g: Table): Table { (i, j) => g(i, j) * Steps(i, j) }

  function Cost(g: Table, k: nat): real { ByRows(Priced(g), k, k) }

  /** `c` is the least cost of any coupling of `p` and `q`. */
  ghost predicate IsTransportCost(p: seq<real>, q: seq<real>, c: real) {
    && (exists g: Table :: IsCoupling(g, p, q) && Cost(g, |p|) == c)
    && (forall g: Table :: IsCoupling(g, p, q) ==> c <= Cost(g, |p|))
  }

  // ---- sums over square tables ----

  lemma TotalMono(g: Table, h: Table, k: nat)
    requires forall i, j :: 0 <= i < k && 0 <= j < k ==> g(i, j) <= h(i, j)
    ensures ByRows(g, k, k) <= ByRows(h, k, k)
  {
    forall i | 0 <= i < k ensures Row(g, i, k) <= Row(h, i, k) {
      SumMono(j => g(i, j), j => h(i, j), k);
    }
    SumMono(i => Row(g, i, k), i => Row(h, i, k), k);
  }

  lemma TotalAdd(f: Table, g: Table, h: Table, k: nat)
    requires forall i, j :: 0 <= i < k && 0 <= j < k ==> f(i, j) == g(i, j) + h(i, j)
    ensures ByRows(f, k, k) == ByRows(g, k, k) + ByRows(h, k, k)
  {
    forall i | 0 <= i < k ensures Row(f, i, k) == Row(g, i, k) + Row(h, i, k) {
      SumAdd(j => f(i, j), j => g(i, j), j => h(i, j), k);
    }
    SumAdd(i => Row(f, i, k), i => Row(g, i, k), i => Row(h, i, k), k);
  }

  // ---- cuts ----

  /** The part of `g` that leaves a position up to `t`. */
  function Out(g: Table, t: int): Table { (i, j) => if i <= t then g(i, j) else 0.0 }

  /** The part of `g` that arrives at a position up to `t`. */
  function In(g: Table, t: int): Table { (i, j) => if j <= t then g(i, j) else 0.0 }

  function Crosses(i: int, j: int, t: int): real { if (i <= t) == (j <= t) then 0.0 else 1.0 }

  /** The part of `g` that crosses the cut between `t` and `t + 1`, in either direction. */
  function Crossing(g: Table, t: int): Table { (i, j) => if (i <= t) == (j <= t) then 0.0 else g(i, j) }

  function Flow(g: Table, k: nat, t: int): real { ByRows(Crossing(g, t), k, k) }

  lemma {:induction false} SumCut(cut: int -> real, f: int -> real, n: nat, t: int)
    requires -1 <= t < n
    requires forall i :: 0 <= i < n ==> cut(i) == if i <= t then f(i) else 0.0
    ensures SumF(cut, n) == SumF(f, t + 1)
  {
    if n == t + 1 {
      SumExt(cut, f, n);
    } else {
      SumCut(cut, f, n - 1, t);
    }
  }

  /** The distance between two positions counts the cuts between them. */
  lemma {:induction false} StepsAreCuts(i: int, j: int, n: nat)
    requires 0 <= i && 0 <= j
    ensures SumF(t => Crosses(i, j, t), n) ==
            Abs((if i < n then i else n) as real - (if j < n then j else n) as real)
  {
    if n > 0 {
      StepsAreCuts(i, j, n - 1);
    }
  }

  /** For one source position: its priced row is the sum of its crossings. */
  lemma RowIsFlow(g: Table, i: int, k: nat)
    requires 0 <= i < k
    ensures Row(Priced(g), i, k) == SumF(t => Row(Crossing(g, t), i, k), k)
  {
    var m: Table := (j, t) => Crossing(g, t)(i, j);
    forall j | 0 <= j < k ensures Priced(g)(i, j) == Row(m, j, k) {
      StepsAreCuts(i, j, k);
      assert forall t :: Crossing(g, t)(i, j) == g(i, j) * Crosses(i, j, t);
      SumScale(t => m(j, t), g(i, j), t => Crosses(i, j, t), k);
    }
    SumExt(j => Priced(g)(i, j), j => Row(m, j, k), k);
    SumSwap(m, k, k);
    forall t | 0 <= t < k ensures Col(m, t, k) == Row(Crossing(g, t), i, k) {
      SumExt(j => m(j, t), j => Crossing(g, t)(i, j), k);
    }
    SumExt(t => Col(m, t, k), t => Row(Crossing(g, t), i, k), k);
  }

  lemma CostIsFlow(g: Table, k: nat)
    ensures Cost(g, k) == SumF(t => Flow(g, k, t), k)
  {
    var m: Table := (i, t) => Row(Crossing(g, t), i, k);
    forall i | 0 <= i < k ensures Row(Priced(g), i, k) == Row(m, i, k) {
      RowIsFlow(g, i, k);
      SumExt(t => Row(Crossing(g, t), i, k), t => m(i, t), k);
    }
    SumExt(i => Row(Priced(g), i, k), i => Row(m, i, k), k);
    SumSwap(m, k, k);
    forall t | 0 <= t < k ensures Col(m, t, k) == Flow(g, k, t) {
      SumExt(i => m(i, t), i => Row(Crossing(g, t), i, k), k);
    }
    SumExt(t => Col(m, t, k), t => Flow(g, k, t), k);
  }

  lemma {:induction false} OutRow(g: Table, t: int, i: int, b: nat)
    ensures Row(Out(g, t), i, b) == if i <= t then Row(g, i, b) else 0.0
  {
    if b > 0 {
      OutRow(g, t, i, b - 1);
    }
  }

  lemma {:induction false} InCol(g: Table, t: int, j: int, a: nat)
    ensures Col(In(g, t), j, a) == if j <= t then Col(g, j, a) else 0.0
  {
    if a > 0 {
      InCol(g, t, j, a - 1);
    }
  }

  /** The mass a coupling takes from, and brings to, the positions up to `t`. */
  lemma CouplingBelow(g: Table, p: seq<real>, q: seq<real>, t: int)
    requires IsCoupling(g, p, q) && 0 <= t < |p|
    ensures ByRows(Out(g, t), |p|, |p|) == Cdf(p, t + 1)
    ensures ByRows(In(g, t), |p|, |p|) == Cdf(q, t + 1)
  {
    var k, o, n := |p|, Out(g, t), In(g, t);
    forall i | 0 <= i < k ensures Row(o, i, k) == if i <= t then At(p, i) else 0.0 {
      OutRow(g, t, i, k);
    }
    SumCut(i => Row(o, i, k), i => At(p, i), k, t);
    SumSwap(n, k, k);
    forall j | 0 <= j < k ensures Col(n, j, k) == if j <= t then At(q, j) else 0.0 {
      InCol(g, t, j, k);
    }
    SumCut(j => Col(n, j, k), j => At(q, j), k, t);
  }

  /** Over every cut a coupling must move at least the difference of the masses below it. */
  lemma FlowAtLeastGap(g: Table, p: seq<real>, q: seq<real>, t: int)
    requires IsCoupling(g, p, q) && 0 <= t < |p|
    ensures Flow(g, |p|, t) >= CdfGap(p, q, t)
  {
    var k, o, n, x := |p|, Out(g, t), In(g, t), Crossing(g, t);
    CouplingBelow(g, p, q, t);
    var ox: Table := (i, j) => o(i, j) + x(i, j);
    var nx: Table := (i, j) => n(i, j) + x(i, j);
    TotalAdd(ox, o, x, k);
    TotalAdd(nx, n, x, k);
    TotalMono(o, nx, k);
    TotalMono(n, ox, k);
  }

  // ---- the comonotone coupling ----

  function Joint(p: seq<real>, q: seq<real>, a: nat, b: nat): real { Min(Cdf(p, a), Cdf(q, b)) }

  /** The overlap of the `i`-th quantile interval of `p` with the `j`-th of `q`. */
  function Comonotone(p: seq<real>, q: seq<real>): Table {
    (i, j) => if i < 0 || j < 0 then 0.0 else
      Joint(p, q, i + 1, j + 1) - Joint(p, q, i, j + 1) - Joint(p, q, i + 1, j) + Joint(p, q, i, j)
  }

  lemma {:induction false} CdfMonotone(p: seq<real>, a: nat, b: nat)
    requires forall i :: 0 <= i < |p| ==> p[i] >= 0.0
    requires a <= b
    ensures 0.0 <= Cdf(p, a) <= Cdf(p, b)
    decreases b
  {
    if a < b {
      CdfMonotone(p, a, b - 1);
    } else if a > 0 {
      CdfMonotone(p, a - 1, a - 1);
    }
  }

  lemma CdfBound(p: seq<real>, i: nat)
    requires IsDistribution(p) && i < |p|
    ensures 0.0 <= Cdf(p, i) <= Cdf(p, i + 1) == Cdf(p, i) + p[i] <= 1.0
  {
    CdfMonotone(p, i, i + 1);
    CdfMonotone(p, i + 1, |p|);
  }

  lemma {:induction false} ComonotoneRow(p: seq<real>, q: seq<real>, i: nat, b: nat)
    requires IsDistribution(p) && IsDistribution(q)
    ensures Row(Comonotone(p, q), i, b) == Joint(p, q, i + 1, b) - Joint(p, q, i, b)
  {
    if b == 0 {
      CdfMonotone(p, i, i + 1);
    } else {
      ComonotoneRow(p, q, i, b - 1);
    }
  }

  lemma {:induction false} ComonotoneCol(p: seq<real>, q: seq<real>, j: nat, a: nat)
    requires IsDistribution(p) && IsDistribution(q)
    ensures Col(Comonotone(p, q), j, a) == Joint(p, q, a, j + 1) - Joint(p, q, a, j)
  {
    if a == 0 {
      CdfMonotone(q, j, j + 1);
    } else {
      ComonotoneCol(p, q, j, a - 1);
    }
  }

  lemma {:induction false} ComonotoneBox(p: seq<real>, q: seq<real>, a: nat, b: nat)
    requires IsDistribution(p) && IsDistribution(q)
    ensures ByRows(Comonotone(p, q), a, b) == Joint(p, q, a, b)
  {
    if a == 0 {
      CdfMonotone(q, 0, b);
    } else {
      ComonotoneBox(p, q, a - 1, b);
      ComonotoneRow(p, q, a - 1, b);
    }
  }

  lemma ComonotoneNonNegative(p: seq<real>, q: seq<real>, i: nat, j: nat)
    requires IsDistribution(p) && IsDistribution(q)
    ensures Comonotone(p, q)(i, j) >= 0.0
  {
    CdfMonotone(p, i, i + 1);
    CdfMonotone(q, j, j + 1);
  }

  lemma ComonotoneMarginals(p: seq<real>, q: seq<real>, i: nat)
    requires IsDistribution(p) && IsDistribution(q) && |p| == |q| && i < |p|
    ensures Row(Comonotone(p, q), i, |p|) == p[i]
    ensures Col(Comonotone(p, q), i, |p|) == q[i]
  {
    ComonotoneRow(p, q, i, |p|);
    ComonotoneCol(p, q, i, |p|);
    CdfBound(p, i);
    CdfBound(q, i);
  }

  lemma ComonotoneIsCoupling(p: seq<real>, q: seq<real>)
    requires IsDistribution(p) && IsDistribution(q) && |p| == |q|
    ensures IsCoupling(Comonotone(p, q), p, q)
  {
    var k, g := |p|, Comonotone(p, q);
    forall i, j | 0 <= i < k && 0 <= j < k ensures g(i, j) >= 0.0 {
      ComonotoneNonNegative(p, q, i, j);
    }
    forall i | 0 <= i < k ensures Row(g, i, k) == p[i] {
      ComonotoneMarginals(p, q, i);
    }
    forall j | 0 <= j < k ensures Col(g, j, k) == q[j] {
      ComonotoneMarginals(p, q, j);
    }
  }

  lemma CornerRow(g: Table, t: int, i: int, k: nat)
    requires 0 <= t < k
    ensures Row(In(Out(g, t), t), i, k) == if i <= t then Row(g, i, t + 1) else 0.0
  {
    var o := Out(g, t);
    assert forall j :: In(o, t)(i, j) == if j <= t then o(i, j) else 0.0;
    SumCut(j => In(o, t)(i, j), j => o(i, j), k, t);
    OutRow(g, t, i, t + 1);
  }

  lemma CornerTotal(g: Table, t: int, k: nat)
    requires 0 <= t < k
    ensures ByRows(In(Out(g, t), t), k, k) == ByRows(g, t + 1, t + 1)
  {
    var c := In(Out(g, t), t);
    forall i | 0 <= i < k ensures Row(c, i, k) == if i <= t then Row(g, i, t + 1) else 0.0 {
      CornerRow(g, t, i, k);
    }
    SumCut(i => Row(c, i, k), i => Row(g, i, t + 1), k, t);
  }

  /** The comonotone coupling moves no more over any cut than it must. */
  lemma ComonotoneFlow(p: seq<real>, q: seq<real>, t: int)
    requires IsDistribution(p) && IsDistribution(q) && |p| == |q| && 0 <= t < |p|
    ensures Flow(Comonotone(p, q), |p|, t) == CdfGap(p, q, t)
  {
    var k, g := |p|, Comonotone(p, q);
    ComonotoneIsCoupling(p, q);
    CouplingBelow(g, p, q, t);
    CornerTotal(g, t, k);
    ComonotoneBox(p, q, t + 1, t + 1);
    CrossingsCount(g, t, k);
  }

  /** What leaves plus what arrives below a cut crosses it, or stays below it and counts twice. */
  lemma CrossingsCount(g: Table, t: int, k: nat)
    ensures ByRows(Out(g, t), k, k) + ByRows(In(g, t), k, k)
         == Flow(g, k, t) + 2.0 * ByRows(In(Out(g, t), t), k, k)
  {
    var o, n, x := Out(g, t), In(g, t), Crossing(g, t);
    var c := In(o, t);
    var all: Table := (i, j) => o(i, j) + n(i, j);
    var cc: Table := (i, j) => c(i, j) + c(i, j);
    forall i, j ensures all(i, j) == x(i, j) + cc(i, j) { }
    hide Out, In, Crossing;
    TotalAdd(all, o, n, k);
    TotalAdd(cc, c, c, k);
    TotalAdd(all, x, cc, k);
  }

  /** The CDF sum is the optimal transport cost: no coupling is cheaper and one attains it. */
  lemma CdfDistanceIsTransportCost(p: seq<real>, q: seq<real>)
    requires IsDistribution(p) && IsDistribution(q) && |p| == |q|
    ensures IsTransportCost(p, q, CdfDistance(p, q))
  {
    var k, m := |p|, Comonotone(p, q);
    forall g: Table | IsCoupling(g, p, q) ensures CdfDistance(p, q) <= Cost(g, k) {
      CostIsFlow(g, k);
      forall t | 0 <= t < k ensures CdfGap(p, q, t) <= Flow(g, k, t) {
        FlowAtLeastGap(g, p, q, t);
      }
      SumMono(t => CdfGap(p, q, t), t => Flow(g, k, t), k);
    }
    ComonotoneIsCoupling(p, q);
    CostIsFlow(m, k);
    forall t | 0 <= t < k ensures CdfGap(p, q, t) == Flow(m, k, t) {
      ComonotoneFlow(p, q, t);
    }
    SumExt(t => CdfGap(p, q, t), t => Flow(m, k, t), k);
  }
}
