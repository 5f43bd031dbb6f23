// The lattice: wrap-aware distance, the three neighbour listings, and their agreement.
module Grid {
  import opened Options
  import opened MixedRadix

  datatype Neighborhood = Moore | VonNeumann

  datatype Boundary = Fixed | Toroidal

  datatype Metric = Chebyshev | Manhattan

  type Cell = (nat, nat)

  datatype Grid = Grid(rows: nat, cols: nat, boundary: Boundary) {
    predicate Has(cell: Cell) { cell.0 < rows && cell.1 < cols }

    predicate IsEmpty() { rows == 0 || cols == 0 }
  }

  // ---- one axis ----

  function AbsInt(x: int): nat { if x < 0 then -x else x }

  /** The remainder with the sign of the dividend. */
  function TruncRem(a: int, b: nat): int
    requires b > 0
  {
    if a >= 0 then a % b else -((-a) % b)
  }

  /** A signed coordinate wrapped into `0..len`. */
  function Wrap(v: int, len: nat): (r: int)
    requires len > 0
  {
    TruncRem(TruncRem(v, len) + len, len)
  }

  function ToroidalDiff(a: nat, b: nat, len: nat): int {
    if len == 0 then 0
    else
      var d := AbsInt(a - b);
      if d < len - d then d else len - d
  }

  lemma WrapIsModulo(v: int, len: nat)
    requires len > 0
    ensures 0 <= Wrap(v, len) < len
    ensures exists m: int :: v == Flat(m, len, Wrap(v, len))
  {
    if v >= 0 {
      RemainderUnique(v % len + len, len, v % len, 1);
      assert v == Flat(v / len, len, v % len);
    } else {
      var w := (-v) % len;
      if w == 0 {
        RemainderUnique(len, len, 0, 1);
        assert v == Flat(-((-v) / len), len, 0);
      } else {
        RemainderUnique(len - w, len, len - w, 0);
        var m := -((-v) / len) - 1;
        assert v == Flat(m, len, len - w);
      }
    }
  }

  lemma RemainderUnique(x: nat, len: nat, r: nat, q: nat)
    requires len > 0 && r < len && x == q * len + r
    ensures x % len == r
  {
    FlatQuot(q, len, r);
  }

  /** Of all offsets that wrap `a` to `b`, the shortest has length `ToroidalDiff(a, b)`. */
  lemma ToroidalOffset(a: nat, b: nat, len: nat, d: int)
    requires a < len && b < len && Wrap(a + d, len) == b
    ensures ToroidalDiff(a, b, len) <= AbsInt(d)
  {
    WrapIsModulo(a + d, len);
    var m: int :| a + d == Flat(m, len, b);
    WholeBlocks(m - 1, len);
    WholeBlocks(m, len);
    WholeBlocks(m + 1, len);
    assert (m - 1) * len == m * len - len && (m + 1) * len == m * len + len;
    if m >= 2 || m <= -2 {
      assert AbsInt(d) >= len;
    }
  }

  lemma WrapNear(v: int, len: nat, m: int)
    requires len > 0 && -1 <= m <= 1 && 0 <= v - m * len < len
    ensures Wrap(v, len) == v - m * len
  {
    WrapIsModulo(v, len);
    var k: int :| v == Flat(k, len, Wrap(v, len));
    WholeBlocks(k - m, len);
    assert (k - m) * len == k * len - m * len;
  }

  /** The shortest offset from `a` to `b` on a wrapped axis. */
  function ShortOffset(a: nat, b: nat, len: nat): int {
    if AbsInt(a - b) <= len - AbsInt(a - b) then b - a
    else if a < b then b - a - len else b - a + len
  }

  lemma ShortOffsetWraps(a: nat, b: nat, len: nat)
    requires a < len && b < len
    ensures AbsInt(ShortOffset(a, b, len)) == ToroidalDiff(a, b, len)
    ensures Wrap(a + ShortOffset(a, b, len), len) == b
  {
    var d := ShortOffset(a, b, len);
    WrapNear(a + d, len, if d == b - a then 0 else if a < b then -1 else 1);
  }

  // ---- the plane ----

  function Combine(metric: Metric, dr: int, dc: int): int {
    match metric
    case Chebyshev => if dr < dc then dc else dr
    case Manhattan => dr + dc
  }

  /** The wrap-aware distance. */
  function Distance(g: Grid, metric: Metric, a: Cell, b: Cell): int {
    match g.boundary
    case Fixed => Combine(metric, AbsInt(a.0 - b.0), AbsInt(a.1 - b.1))
    case Toroidal => Combine(metric, ToroidalDiff(a.0, b.0, g.rows), ToroidalDiff(a.1, b.1, g.cols))
  }

  function MetricOf(nbhd: Neighborhood): Metric { if nbhd.Moore? then Chebyshev else Manhattan }

  /** A candidate coordinate resolved to a cell, clipped or wrapped. */
  function Resolve(g: Grid, r: int, c: int): Option<Cell> {
    if g.IsEmpty() then None
    else match g.boundary
      case Fixed => if 0 <= r < g.rows && 0 <= c < g.cols then Some((r, c)) else None
      case Toroidal =>
        WrapIsModulo(r, g.rows);
        WrapIsModulo(c, g.cols);
        Some((Wrap(r, g.rows), Wrap(c, g.cols)))
  }

  predicate InShape(nbhd: Neighborhood, radius: nat, dr: int, dc: int) {
    Combine(MetricOf(nbhd), AbsInt(dr), AbsInt(dc)) <= radius
  }

  /** The grid cell the offset leads to, if it is in the shape, on the grid and not the centre. */
  function Candidate(g: Grid, nbhd: Neighborhood, radius: nat, r: nat, c: nat, dr: int, dc: int): Option<Cell> {
    if (dr == 0 && dc == 0) || !InShape(nbhd, radius, dr, dc) || Resolve(g, r + dr, c + dc) == Some((r, c)) then None
    else Resolve(g, r + dr, c + dc)
  }

  /** The neighbourhood as a relation: another cell of the grid within the radius. */
  predicate IsNeighbor(g: Grid, nbhd: Neighborhood, radius: nat, centre: Cell, cell: Cell) {
    g.Has(cell) && cell != centre && Distance(g, MetricOf(nbhd), centre, cell) <= radius
  }

  /** Coordinates a wrapped grid can interpret: on a torus the centre must be one of its cells. */
  predicate Centred(g: Grid, r: nat, c: nat) {
    g.boundary.Fixed? || g.IsEmpty() || g.Has((r, c))
  }

  /** Every candidate is a neighbour. */
  lemma CandidateIsNeighbor(g: Grid, nbhd: Neighborhood, radius: nat, r: nat, c: nat, dr: int, dc: int)
    requires Centred(g, r, c) && Candidate(g, nbhd, radius, r, c, dr, dc).Some?
    ensures IsNeighbor(g, nbhd, radius, (r, c), Candidate(g, nbhd, radius, r, c, dr, dc).value)
  {
    if g.boundary.Toroidal? {
      var cell := Candidate(g, nbhd, radius, r, c, dr, dc).value;
      hide Wrap, ToroidalDiff;
      WrapIsModulo(r + dr, g.rows);
      WrapIsModulo(c + dc, g.cols);
      ToroidalOffset(r, cell.0, g.rows, dr);
      ToroidalOffset(c, cell.1, g.cols, dc);
    }
  }

  /** The offset that leads from one cell to another by the shortest way. */
  function OffsetTo(g: Grid, a: Cell, b: Cell): (int, int) {
    match g.boundary
    case Fixed => (b.0 - a.0, b.1 - a.1)
    case Toroidal => (ShortOffset(a.0, b.0, g.rows), ShortOffset(a.1, b.1, g.cols))
  }

  /** The shortest offset leads to its cell, and is as long as the cell is far. */
  lemma OffsetResolves(g: Grid, metric: Metric, a: Cell, b: Cell)
    requires Centred(g, a.0, a.1) && g.Has(b)
    ensures var (dr, dc) := OffsetTo(g, a, b);
            && Resolve(g, a.0 + dr, a.1 + dc) == Some(b)
            && Combine(metric, AbsInt(dr), AbsInt(dc)) == Distance(g, metric, a, b)
  {
    if g.boundary.Toroidal? {
      ShortOffsetWraps(a.0, b.0, g.rows);
      ShortOffsetWraps(a.1, b.1, g.cols);
      hide Wrap, ToroidalDiff, ShortOffset;
    }
  }

  /** Every neighbour is the candidate of its shortest offset, which lies in the scanned square. */
  lemma NeighborIsCandidate(g: Grid, nbhd: Neighborhood, radius: nat, r: nat, c: nat, cell: Cell)
    requires Centred(g, r, c) && IsNeighbor(g, nbhd, radius, (r, c), cell)
    ensures var (dr, dc) := OffsetTo(g, (r, c), cell);
            AbsInt(dr) <= radius && AbsInt(dc) <= radius && Candidate(g, nbhd, radius, r, c, dr, dc) == Some(cell)
  {
    hide Distance, OffsetTo, Resolve, Centred;
    OffsetResolves(g, MetricOf(nbhd), (r, c), cell);
    var (dr, dc) := OffsetTo(g, (r, c), cell);
    if dr == 0 && dc == 0 {
      ZeroOffset(g, r, c);
    }
  }

  lemma ZeroOffset(g: Grid, r: nat, c: nat)
    requires Centred(g, r, c)
    ensures Resolve(g, r, c) == Some((r, c)) || Resolve(g, r, c) == None
  {
    if g.boundary.Toroidal? && !g.IsEmpty() {
      WrapNear(r, g.rows, 0);
      WrapNear(c, g.cols, 0);
    }
  }

  lemma ToroidalDiffSymmetric(a: nat, b: nat, len: nat)
    ensures ToroidalDiff(a, b, len) == ToroidalDiff(b, a, len)
  { }

  /** Being neighbours is symmetric. */
  lemma NeighborSymmetric(g: Grid, nbhd: Neighborhood, radius: nat, a: Cell, b: Cell)
    requires g.Has(a) && g.Has(b)
    ensures IsNeighbor(g, nbhd, radius, a, b) <==> IsNeighbor(g, nbhd, radius, b, a)
  {
    ToroidalDiffSymmetric(a.0, b.0, g.rows);
    ToroidalDiffSymmetric(a.1, b.1, g.cols);
  }

  // ---- row-major order ----

  predicate Less(a: Cell, b: Cell) { a.0 < b.0 || (a.0 == b.0 && a.1 < b.1) }

  ghost predicate StrictlySorted(s: seq<Cell>) {
    forall i, j :: 0 <= i < j < |s| ==> Less(s[i], s[j])
  }

  ghost predicate Sorted(s: seq<Cell>) {
    forall i, j :: 0 <= i < j < |s| ==> !Less(s[j], s[i])
  }

  function InsertCell(s: seq<Cell>, x: Cell): (r: seq<Cell>)
    ensures |r| == |s| + 1
  {
    if |s| == 0 || !Less(x, s[|s| - 1]) then s + [x]
    else InsertCell(s[..|s| - 1], x) + [s[|s| - 1]]
  }

  /** `sort_unstable` on cells. */
  function SortCells(s: seq<Cell>): (r: seq<Cell>)
    ensures |r| == |s|
  {
    if |s| == 0 then [] else InsertCell(SortCells(s[..|s| - 1]), s[|s| - 1])
  }

  lemma {:induction false} InsertCellMembers(s: seq<Cell>, x: Cell)
    ensures forall y :: y in InsertCell(s, x) <==> y in s || y == x
  {
    if |s| > 0 && Less(x, s[|s| - 1]) {
      InsertCellMembers(s[..|s| - 1], x);
      assert s == s[..|s| - 1] + [s[|s| - 1]];
    }
  }

  lemma {:induction false} InsertCellSorted(s: seq<Cell>, x: Cell)
    requires Sorted(s)
    ensures Sorted(InsertCell(s, x))
  {
    if |s| > 0 && Less(x, s[|s| - 1]) {
      var n := |s| - 1;
      var t := InsertCell(s[..n], x);
      InsertCellSorted(s[..n], x);
      InsertCellMembers(s[..n], x);
      forall i | 0 <= i < |t| ensures !Less(s[n], t[i]) {
        assert t[i] in t;
        assert t[i] in s[..n] || t[i] == x;
      }
    }
  }

  lemma {:induction false} SortCellsSorts(s: seq<Cell>)
    ensures Sorted(SortCells(s))
    ensures forall y :: y in SortCells(s) <==> y in s
  {
    if |s| > 0 {
      var n := |s| - 1;
      SortCellsSorts(s[..n]);
      InsertCellSorted(SortCells(s[..n]), s[n]);
      InsertCellMembers(SortCells(s[..n]), s[n]);
      assert s == s[..n] + [s[n]];
    }
  }

  /** `dedup`: drops each element equal to its predecessor. */
  function Dedup(s: seq<Cell>): seq<Cell> {
    if |s| <= 1 then s
    else if s[|s| - 1] == s[|s| - 2] then Dedup(s[..|s| - 1])
    else Dedup(s[..|s| - 1]) + [s[|s| - 1]]
  }

  lemma {:induction false} DedupSorted(s: seq<Cell>)
    requires Sorted(s)
    ensures StrictlySorted(Dedup(s)) && |Dedup(s)| <= |s|
    ensures forall y :: y in Dedup(s) <==> y in s
    ensures |s| > 0 ==> |Dedup(s)| > 0 && Dedup(s)[|Dedup(s)| - 1] == s[|s| - 1]
  {
    if |s| > 1 {
      var n := |s| - 1;
      DedupSorted(s[..n]);
      assert s == s[..n] + [s[n]];
      var t := Dedup(s[..n]);
      assert s[n - 1] in s[..n];
      if s[n] != s[n - 1] {
        forall i | 0 <= i < |t| ensures Less(t[i], s[n]) {
          assert t[i] in t;
          assert t[i] == t[|t| - 1] || Less(t[i], t[|t| - 1]);
        }
      }
    }
  }

  lemma SameMembersNonEmpty(s: seq<Cell>, t: seq<Cell>)
    requires forall y :: y in s ==> y in t
    ensures |s| > 0 ==> |t| > 0
  {
    if |s| > 0 {
      assert s[0] in s;
    }
  }

  /** A strictly sorted list of cells is determined by its members. */
  lemma {:induction false} SortedUnique(s: seq<Cell>, t: seq<Cell>)
    requires StrictlySorted(s) && StrictlySorted(t) && forall y :: y in s <==> y in t
    ensures s == t
  {
    SameMembersNonEmpty(s, t);
    SameMembersNonEmpty(t, s);
    if |s| > 0 {
      var m, n := |s| - 1, |t| - 1;
      assert s == s[..m] + [s[m]] && t == t[..n] + [t[n]];
      assert s[m] in t && t[n] in s;
      assert s[m] == t[n];
      forall y ensures y in s[..m] <==> y in t[..n] {
        assert y in s[..m] <==> y in s && y != s[m];
        assert y in t[..n] <==> y in t && y != t[n];
      }
      SortedUnique(s[..m], t[..n]);
    }
  }
}
