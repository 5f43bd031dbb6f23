// The grid distance is the least number of single moves between two cells.
module GridSteps {
  import opened Options
  import opened Grid
  import opened GridScan

  /** The offsets of a single move: to one of the eight cells around, or to one of the four beside. */
  predicate IsMove(nbhd: Neighborhood, dr: int, dc: int) {
    && -1 <= dr <= 1 && -1 <= dc <= 1
    && (dr != 0 || dc != 0)
    && (nbhd.VonNeumann? ==> dr == 0 || dc == 0)
  }

  /** `b` is reached from `a` in one move, clipped or wrapped at the border. */
  ghost predicate OneMove(g: Grid, nbhd: Neighborhood, a: Cell, b: Cell) {
    exists dr: int, dc: int :: IsMove(nbhd, dr, dc) && Resolve(g, a.0 + dr, a.1 + dc) == Some(b)
  }

  /** `b` is reached from `a` in exactly `n` moves. */
  ghost predicate Moves(g: Grid, nbhd: Neighborhood, a: Cell, b: Cell, n: nat)
    decreases n
  {
    if n == 0 then a == b
    else exists mid: Cell :: OneMove(g, nbhd, a, mid) && Moves(g, nbhd, mid, b, n - 1)
  }

  /** One axis of the distance. */
  function AxisDistance(boundary: Boundary, a: nat, b: nat, len: nat): int {
    if boundary.Fixed? then AbsInt(a - b) else ToroidalDiff(a, b, len)
  }

  /** One axis of a move. */
  function AxisMove(boundary: Boundary, a: nat, len: nat, d: int): int {
    if boundary.Fixed? then a + d else Shifted(a, len, d)
  }

  lemma MoveByAxis(g: Grid, a: Cell, b: Cell, dr: int, dc: int)
    requires g.Has(a) && -1 <= dr <= 1 && -1 <= dc <= 1
    ensures Resolve(g, a.0 + dr, a.1 + dc) == Some(b) <==>
            g.Has(b) && AxisMove(g.boundary, a.0, g.rows, dr) == b.0 && AxisMove(g.boundary, a.1, g.cols, dc) == b.1
  {
    if g.boundary.Toroidal? {
      WrapShifted(a.0, g.rows, dr);
      WrapShifted(a.1, g.cols, dc);
      hide Wrap;
    }
  }

  lemma DistanceByAxis(g: Grid, metric: Metric, a: Cell, b: Cell)
    ensures Distance(g, metric, a, b) == Combine(metric, AxisDistance(g.boundary, a.0, b.0, g.rows), AxisDistance(g.boundary, a.1, b.1, g.cols))
  { }

  /** A move changes the distance along an axis by no more than its offset. */
  lemma AxisMoveBound(boundary: Boundary, a: nat, b: nat, len: nat, d: int, c: nat)
    requires a < len && b < len && c < len && -1 <= d <= 1 && AxisMove(boundary, a, len, d) == c
    ensures 0 <= AxisDistance(boundary, a, b, len) <= AxisDistance(boundary, c, b, len) + AbsInt(d)
  { }

  /** The direction of the shorter way. */
  function Toward(boundary: Boundary, a: nat, b: nat, len: nat): int {
    if a == b then 0
    else if boundary.Fixed? || AbsInt(a - b) <= len - AbsInt(a - b) then (if a < b then 1 else -1)
    else if a < b then -1 else 1
  }

  lemma TowardShortens(boundary: Boundary, a: nat, b: nat, len: nat)
    requires a < len && b < len
    ensures var d := Toward(boundary, a, b, len); var c := AxisMove(boundary, a, len, d);
            && 0 <= c < len
            && AxisDistance(boundary, c, b, len) == AxisDistance(boundary, a, b, len) - AbsInt(d)
            && (d == 0 <==> AxisDistance(boundary, a, b, len) == 0)
  { }

  lemma DistanceZeroIff(g: Grid, metric: Metric, a: Cell, b: Cell)
    requires g.Has(a) && g.Has(b)
    ensures Distance(g, metric, a, b) >= 0
    ensures Distance(g, metric, a, b) == 0 <==> a == b
  { }

  /** No single move brings two cells closer by more than one. */
  lemma OneMoveBound(g: Grid, nbhd: Neighborhood, a: Cell, mid: Cell, b: Cell)
    requires g.Has(a) && g.Has(b) && OneMove(g, nbhd, a, mid)
    ensures g.Has(mid) && Distance(g, MetricOf(nbhd), a, b) <= Distance(g, MetricOf(nbhd), mid, b) + 1
  {
    hide Resolve, Distance, AxisMove, AxisDistance;
    var dr: int, dc: int :| IsMove(nbhd, dr, dc) && Resolve(g, a.0 + dr, a.1 + dc) == Some(mid);
    MoveByAxis(g, a, mid, dr, dc);
    DistanceByAxis(g, MetricOf(nbhd), a, b);
    DistanceByAxis(g, MetricOf(nbhd), mid, b);
    AxisMoveBound(g.boundary, a.0, b.0, g.rows, dr, mid.0);
    AxisMoveBound(g.boundary, a.1, b.1, g.cols, dc, mid.1);
  }

  /** Towards any other cell there is a move that brings it closer by one. */
  lemma MoveCloser(g: Grid, nbhd: Neighborhood, a: Cell, b: Cell) returns (mid: Cell)
    requires g.Has(a) && g.Has(b) && a != b
    ensures OneMove(g, nbhd, a, mid) && g.Has(mid) && Distance(g, MetricOf(nbhd), mid, b) == Distance(g, MetricOf(nbhd), a, b) - 1
  {
    DistanceZeroIff(g, MetricOf(nbhd), a, b);
    var dr, dc := Toward(g.boundary, a.0, b.0, g.rows), Toward(g.boundary, a.1, b.1, g.cols);
    TowardShortens(g.boundary, a.0, b.0, g.rows);
    TowardShortens(g.boundary, a.1, b.1, g.cols);
    if nbhd.VonNeumann? && dr != 0 {
      dc := 0;
    }
    mid := (AxisMove(g.boundary, a.0, g.rows, dr), AxisMove(g.boundary, a.1, g.cols, dc));
    DistanceByAxis(g, MetricOf(nbhd), a, b);
    DistanceByAxis(g, MetricOf(nbhd), mid, b);
    hide Resolve, Distance, AxisDistance, Toward;
    MoveByAxis(g, a, mid, dr, dc);
    assert IsMove(nbhd, dr, dc);
  }

  /** The distance of two cells is the least number of single moves from one to the other. */
  lemma {:induction false} DistanceIsFewestMoves(g: Grid, nbhd: Neighborhood, a: Cell, b: Cell)
    requires g.Has(a) && g.Has(b)
    ensures var d := Distance(g, MetricOf(nbhd), a, b); d >= 0 && Moves(g, nbhd, a, b, d)
    ensures forall n: nat :: Moves(g, nbhd, a, b, n) ==> Distance(g, MetricOf(nbhd), a, b) <= n
    decreases Distance(g, MetricOf(nbhd), a, b)
  {
    hide Distance, OneMove;
    DistanceZeroIff(g, MetricOf(nbhd), a, b);
    if a != b {
      var mid := MoveCloser(g, nbhd, a, b);
      DistanceIsFewestMoves(g, nbhd, mid, b);
    }
    forall n: nat | Moves(g, nbhd, a, b, n) ensures Distance(g, MetricOf(nbhd), a, b) <= n {
      MovesBound(g, nbhd, a, b, n);
    }
  }

  lemma {:induction false} MovesBound(g: Grid, nbhd: Neighborhood, a: Cell, b: Cell, n: nat)
    requires g.Has(a) && g.Has(b) && Moves(g, nbhd, a, b, n)
    ensures Distance(g, MetricOf(nbhd), a, b) <= n
    decreases n
  {
    hide Distance, OneMove;
    if n == 0 {
      DistanceZeroIff(g, MetricOf(nbhd), a, b);
    } else {
      var mid: Cell :| OneMove(g, nbhd, a, mid) && Moves(g, nbhd, mid, b, n - 1);
      OneMoveBound(g, nbhd, a, mid, b);
      MovesBound(g, nbhd, mid, b, n - 1);
    }
  }
}
