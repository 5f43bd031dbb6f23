// Distinct value clusters by sorted gaps: the count is the number of connected components.
module Clusters {
  import opened RealSums

  // ---- sorting ----

  function InsertValue(s: seq<real>, x: real): seq<real> {
    if |s| == 0 || s[|s| - 1] <= x then s + [x] else InsertValue(s[..|s| - 1], x) + [s[|s| - 1]]
  }

  /** The ascending sort of the values. */
  function SortValues(s: seq<real>): seq<real> {
    if |s| == 0 then [] else InsertValue(SortValues(s[..|s| - 1]), s[|s| - 1])
  }

  ghost predicate Ascending(s: seq<real>) {
    forall i, j :: 0 <= i <= j < |s| ==> s[i] <= s[j]
  }

  /** How often `x` occurs. */
  function Count(s: seq<real>, x: real): nat {
    if |s| == 0 then 0 else Count(s[..|s| - 1], x) + (if s[|s| - 1] == x then 1 else 0)
  }

  /** The same values, each as often. */
  ghost predicate SameValues(s: seq<real>, t: seq<real>) {
    |s| == |t| && forall x :: Count(s, x) == Count(t, x)
  }

  lemma {:induction false} CountPositive(s: seq<real>, x: real)
    ensures Count(s, x) > 0 <==> exists i :: 0 <= i < |s| && s[i] == x
  {
    if |s| > 0 {
      var n := |s| - 1;
      CountPositive(s[..n], x);
      if i :| 0 <= i < n && s[..n][i] == x {
        assert s[i] == x;
      }
    }
  }

  lemma CountPush(s: seq<real>, x: real, y: real)
    ensures Count(s + [x], y) == Count(s, y) + (if x == y then 1 else 0)
  {
    assert (s + [x])[..|s|] == s;
  }

  lemma {:induction false} InsertCounts(s: seq<real>, x: real, y: real)
    ensures Count(InsertValue(s, x), y) == Count(s, y) + (if x == y then 1 else 0)
    ensures |InsertValue(s, x)| == |s| + 1
  {
    if |s| == 0 || s[|s| - 1] <= x {
      CountPush(s, x, y);
    } else {
      var n := |s| - 1;
      InsertCounts(s[..n], x, y);
      CountPush(InsertValue(s[..n], x), s[n], y);
    }
  }

  lemma {:induction false} InsertBound(s: seq<real>, x: real, bound: real)
    requires x <= bound && forall i :: 0 <= i < |s| ==> s[i] <= bound
    ensures forall i :: 0 <= i < |InsertValue(s, x)| ==> InsertValue(s, x)[i] <= bound
  {
    if |s| > 0 && s[|s| - 1] > x {
      InsertBound(s[..|s| - 1], x, bound);
    }
  }

  lemma {:induction false} InsertAscends(s: seq<real>, x: real)
    requires Ascending(s)
    ensures Ascending(InsertValue(s, x))
  {
    if |s| > 0 && s[|s| - 1] > x {
      InsertAscends(s[..|s| - 1], x);
      InsertBound(s[..|s| - 1], x, s[|s| - 1]);
    }
  }

  lemma {:induction false} SortCounts(s: seq<real>, y: real)
    ensures Count(SortValues(s), y) == Count(s, y) && |SortValues(s)| == |s|
  {
    if |s| > 0 {
      SortCounts(s[..|s| - 1], y);
      InsertCounts(SortValues(s[..|s| - 1]), s[|s| - 1], y);
    }
  }

  lemma {:induction false} SortKeeps(s: seq<real>)
    ensures Ascending(SortValues(s)) && SameValues(SortValues(s), s) && |SortValues(s)| == |s|
  {
    if |s| > 0 {
      SortKeeps(s[..|s| - 1]);
      InsertAscends(SortValues(s[..|s| - 1]), s[|s| - 1]);
    }
    SortCounts(s, 0.0);
    forall x ensures Count(SortValues(s), x) == Count(s, x) {
      SortCounts(s, x);
    }
  }

  lemma LastIsGreatest(s: seq<real>, x: real)
    requires Ascending(s) && |s| > 0 && Count(s, x) > 0
    ensures x <= s[|s| - 1]
  {
    CountPositive(s, x);
  }

  lemma SameLast(s: seq<real>, t: seq<real>)
    requires Ascending(s) && Ascending(t) && SameValues(s, t) && |s| > 0
    ensures s[|s| - 1] == t[|t| - 1]
  {
    var x, y := s[|s| - 1], t[|t| - 1];
    CountPositive(s, x);
    CountPositive(t, y);
    LastIsGreatest(s, y);
    LastIsGreatest(t, x);
  }

  /** Ascending sequences with the same values are equal. */
  lemma {:induction false} AscendingUnique(s: seq<real>, t: seq<real>)
    requires Ascending(s) && Ascending(t) && SameValues(s, t)
    ensures s == t
  {
    if |s| > 0 {
      var n := |s| - 1;
      assert s == s[..n] + [s[n]] && t == t[..n] + [t[n]];
      SameLast(s, t);
      forall x ensures Count(s[..n], x) == Count(t[..n], x) {
        assert Count(s, x) == Count(t, x);
      }
      AscendingUnique(s[..n], t[..n]);
    }
  }

  /** An entry of the unsorted values that holds a sorted one, and conversely. */
  lemma EntryOf(values: seq<real>, k: nat) returns (i: nat)
    requires k < |SortValues(values)|
    ensures i < |values| && values[i] == SortValues(values)[k]
  {
    var s := SortValues(values);
    SortCounts(values, s[k]);
    CountPositive(s, s[k]);
    CountPositive(values, s[k]);
    i :| i < |values| && values[i] == s[k];
  }

  lemma PlaceOf(values: seq<real>, i: nat) returns (k: nat)
    requires i < |values|
    ensures k < |SortValues(values)| && SortValues(values)[k] == values[i]
  {
    SortCounts(values, values[i]);
    CountPositive(values, values[i]);
    CountPositive(SortValues(values), values[i]);
    k :| k < |SortValues(values)| && SortValues(values)[k] == values[i];
  }

  // ---- the count ----

  /** The number of gaps wider than `tol` among the first `k + 1` sorted values. */
  function Gaps(s: seq<real>, tol: real, k: nat): nat
    requires k < |s|
  {
    if k == 0 then 0 else Gaps(s, tol, k - 1) + (if Abs(s[k] - s[k - 1]) > tol then 1 else 0)
  }

  function Clusters(values: seq<real>, tol: real): nat {
    SortKeeps(values);
    if |values| == 0 then 0 else Gaps(SortValues(values), tol, |values| - 1) + 1
  }

  /** The sweep over the sorted values. */
  method DistinctClusters(values: seq<real>, tol: real) returns (clusters: nat)
    ensures clusters == Clusters(values, tol)
    ensures tol >= 0.0 ==> IsComponentCount(values, tol, clusters)
  {
    if |values| == 0 {
      assert IsLabelling(values, tol, 0, []);
      return 0;
    }
    var sorted := SortValues(values);
    SortKeeps(values);
    clusters := 1;
    var last := sorted[0];
    for k := 1 to |sorted|
      invariant clusters == Gaps(sorted, tol, k - 1) + 1
      invariant last == sorted[k - 1]
    {
      if Abs(sorted[k] - last) > tol {
        clusters := clusters + 1;
      }
      last := sorted[k];
    }
    if tol >= 0.0 {
      ClustersCountComponents(values, tol);
    }
  }

  // ---- components ----

  /** A path in the graph whose vertices are the entries and whose edges join values at most `tol` apart. */
  ghost predicate IsPath(values: seq<real>, tol: real, p: seq<nat>) {
    && |p| > 0
    && (forall t :: 0 <= t < |p| ==> p[t] < |values|)
    && (forall t :: 1 <= t < |p| ==> Abs(values[p[t]] - values[p[t - 1]]) <= tol)
  }

  ghost predicate Connected(values: seq<real>, tol: real, i: nat, j: nat) {
    exists p :: IsPath(values, tol, p) && p[0] == i && p[|p| - 1] == j
  }

  ghost predicate Uses(labels: seq<nat>, l: nat) { exists i :: 0 <= i < |labels| && labels[i] == l }

  /** A labelling whose classes are exactly the components, using every label below `c`. */
  ghost predicate IsLabelling(values: seq<real>, tol: real, c: nat, labels: seq<nat>) {
    && |labels| == |values|
    && (forall i :: 0 <= i < |values| ==> labels[i] < c)
    && (forall l: nat :: l < c ==> Uses(labels, l))
    && (forall i, j :: 0 <= i < |values| && 0 <= j < |values| ==> (labels[i] == labels[j] <==> Connected(values, tol, i, j)))
  }

  /** The graph has exactly `c` connected components. */
  ghost predicate IsComponentCount(values: seq<real>, tol: real, c: nat) {
    exists labels :: IsLabelling(values, tol, c, labels)
  }

  // ---- sorted runs are connected, wide gaps separate ----

  lemma {:induction false} GapsMonotone(s: seq<real>, tol: real, k: nat, l: nat)
    requires k <= l < |s|
    ensures Gaps(s, tol, k) <= Gaps(s, tol, l)
  {
    if k < l {
      GapsMonotone(s, tol, k, l - 1);
    }
  }

  /** Between sorted positions with different labels there is a gap wider than `tol`. */
  lemma {:induction false} WideGapBetween(s: seq<real>, tol: real, k: nat, l: nat) returns (t: nat)
    requires k < l < |s| && Gaps(s, tol, k) < Gaps(s, tol, l)
    ensures k < t <= l && Abs(s[t] - s[t - 1]) > tol
  {
    if Abs(s[l] - s[l - 1]) > tol {
      t := l;
    } else {
      t := WideGapBetween(s, tol, k, l - 1);
    }
  }

  /** A path cannot cross a gap in the values. */
  lemma {:induction false} PathStaysBelow(values: seq<real>, tol: real, p: seq<nat>, low: real, high: real)
    requires IsPath(values, tol, p) && values[p[0]] <= low && high - low > tol
    requires forall i :: 0 <= i < |values| ==> values[i] <= low || values[i] >= high
    ensures values[p[|p| - 1]] <= low
  {
    if |p| > 1 {
      var n := |p| - 1;
      PathStaysBelow(values, tol, p[..n], low, high);
      assert Abs(values[p[n]] - values[p[n - 1]]) <= tol;
    }
  }

  lemma Reversed(values: seq<real>, tol: real, i: nat, j: nat)
    requires Connected(values, tol, i, j)
    ensures Connected(values, tol, j, i)
  {
    var p :| IsPath(values, tol, p) && p[0] == i && p[|p| - 1] == j;
    var n := |p|;
    var q := seq(n, t requires 0 <= t < n => p[n - 1 - t]);
    forall t | 1 <= t < n ensures Abs(values[q[t]] - values[q[t - 1]]) <= tol {
      assert q[t] == p[n - 1 - t] && q[t - 1] == p[n - t];
      assert Abs(values[p[n - t]] - values[p[n - t - 1]]) <= tol;
    }
    assert IsPath(values, tol, q);
  }

  lemma ExtendPath(values: seq<real>, tol: real, i: nat, m: nat, j: nat)
    requires Connected(values, tol, i, m) && m < |values| && j < |values| && Abs(values[j] - values[m]) <= tol
    ensures Connected(values, tol, i, j)
  {
    var p :| IsPath(values, tol, p) && p[0] == i && p[|p| - 1] == m;
    assert IsPath(values, tol, p + [j]);
  }

  /** A run of sorted values without a wide gap is connected. */
  lemma {:induction false} RunConnected(values: seq<real>, tol: real, k: nat, l: nat, i: nat, j: nat)
    requires tol >= 0.0 && k <= l < |values| && i < |values| && j < |values|
    requires |SortValues(values)| == |values|
    requires var s := SortValues(values); s[k] == values[i] && s[l] == values[j] && Gaps(s, tol, k) == Gaps(s, tol, l)
    ensures Connected(values, tol, i, j)
  {
    var s := SortValues(values);
    if k == l {
      assert IsPath(values, tol, [i, j]);
    } else {
      GapsMonotone(s, tol, k, l - 1);
      GapsMonotone(s, tol, l - 1, l);
      var m := EntryOf(values, l - 1);
      RunConnected(values, tol, k, l - 1, i, m);
      SortKeeps(values);
      hide SortValues, Gaps, SameValues;
      assert Abs(values[j] - values[m]) <= tol;
      ExtendPath(values, tol, i, m, j);
    }
  }

  /** Values with different labels lie on different sides of a wide gap, so no path joins them. */
  lemma GapSeparates(values: seq<real>, tol: real, k: nat, l: nat, i: nat, j: nat)
    requires k < l < |values| && i < |values| && j < |values|
    requires |SortValues(values)| == |values|
    requires var s := SortValues(values); s[k] == values[i] && s[l] == values[j] && Gaps(s, tol, k) < Gaps(s, tol, l)
    requires tol >= 0.0
    ensures !Connected(values, tol, i, j)
  {
    var s := SortValues(values);
    SortKeeps(values);
    var t := WideGapBetween(s, tol, k, l);
    forall e | 0 <= e < |values| ensures values[e] <= s[t - 1] || values[e] >= s[t] {
      var at := PlaceOf(values, e);
    }
    forall p | IsPath(values, tol, p) && p[0] == i ensures p[|p| - 1] != j {
      PathStaysBelow(values, tol, p, s[t - 1], s[t]);
    }
  }

  /** The sorted position of an entry's value. */
  ghost function PositionOf(values: seq<real>, i: nat): (k: nat)
    requires i < |values|
    ensures k < |values| == |SortValues(values)| && SortValues(values)[k] == values[i]
  {
    SortKeeps(values);
    assert exists k: nat :: k < |SortValues(values)| && SortValues(values)[k] == values[i] by {
      var k := PlaceOf(values, i);
    }
    var k: nat :| k < |SortValues(values)| && SortValues(values)[k] == values[i];
    k
  }

  ghost function LabelOf(values: seq<real>, tol: real, i: nat): nat
    requires i < |values|
  {
    Gaps(SortValues(values), tol, PositionOf(values, i))
  }

  lemma LabelsMatchComponents(values: seq<real>, tol: real, i: nat, j: nat)
    requires tol >= 0.0 && i < |values| && j < |values|
    ensures LabelOf(values, tol, i) == LabelOf(values, tol, j) <==> Connected(values, tol, i, j)
  {
    var s, k, l := SortValues(values), PositionOf(values, i), PositionOf(values, j);
    hide SortValues, IsPath;
    if k <= l {
      GapsMonotone(s, tol, k, l);
      if Gaps(s, tol, k) == Gaps(s, tol, l) {
        RunConnected(values, tol, k, l, i, j);
      } else {
        GapSeparates(values, tol, k, l, i, j);
      }
    } else {
      GapsMonotone(s, tol, l, k);
      if Gaps(s, tol, k) == Gaps(s, tol, l) {
        RunConnected(values, tol, l, k, j, i);
        Reversed(values, tol, j, i);
      } else {
        GapSeparates(values, tol, l, k, j, i);
        if Connected(values, tol, i, j) {
          Reversed(values, tol, i, j);
        }
      }
    }
  }

  /** Every label below the count is reached along the sorted values. */
  lemma {:induction false} LabelsReached(s: seq<real>, tol: real, k: nat, l: nat) returns (at: nat)
    requires k < |s| && l <= Gaps(s, tol, k)
    ensures at <= k && Gaps(s, tol, at) == l
  {
    if l == Gaps(s, tol, k) {
      at := k;
    } else {
      at := LabelsReached(s, tol, k - 1, l);
    }
  }

  /** Positions that hold the same value carry the same label when `tol` is not negative. */
  lemma {:induction false} EqualValuesEqualLabels(s: seq<real>, tol: real, k: nat, l: nat)
    requires Ascending(s) && tol >= 0.0 && k <= l < |s| && s[k] == s[l]
    ensures Gaps(s, tol, k) == Gaps(s, tol, l)
  {
    if k < l {
      assert s[k] <= s[l - 1] <= s[l];
      EqualValuesEqualLabels(s, tol, k, l - 1);
    }
  }

  lemma LabelUsed(values: seq<real>, tol: real, l: nat) returns (i: nat)
    requires tol >= 0.0 && l < Clusters(values, tol)
    ensures i < |values| && LabelOf(values, tol, i) == l
  {
    var s := SortValues(values);
    SortKeeps(values);
    var at := LabelsReached(s, tol, |values| - 1, l);
    i := EntryOf(values, at);
    var k := PositionOf(values, i);
    hide SortValues;
    if k <= at {
      EqualValuesEqualLabels(s, tol, k, at);
    } else {
      EqualValuesEqualLabels(s, tol, at, k);
    }
  }

  /** For a non-negative tolerance the sweep counts the connected components. */
  lemma ClustersCountComponents(values: seq<real>, tol: real)
    requires tol >= 0.0
    ensures IsComponentCount(values, tol, Clusters(values, tol))
  {
    var n, c := |values|, Clusters(values, tol);
    var labels := seq(n, i requires 0 <= i < n => LabelOf(values, tol, i));
    forall i: nat | i < n ensures labels[i] < c {
      GapsMonotone(SortValues(values), tol, PositionOf(values, i), n - 1);
    }
    hide LabelOf, Connected, Clusters;
    forall l: nat | l < c ensures Uses(labels, l) {
      var i := LabelUsed(values, tol, l);
      assert labels[i] == l;
    }
    forall i: nat, j: nat | i < n && j < n ensures labels[i] == labels[j] <==> Connected(values, tol, i, j) {
      LabelsMatchComponents(values, tol, i, j);
    }
    assert IsLabelling(values, tol, c, labels);
  }

  /** The count does not depend on the order of the input. */
  lemma ClustersPermutationInvariant(values: seq<real>, other: seq<real>, tol: real)
    requires SameValues(values, other)
    ensures Clusters(values, tol) == Clusters(other, tol)
  {
    SortKeeps(values);
    SortKeeps(other);
    AscendingUnique(SortValues(values), SortValues(other));
  }
}
