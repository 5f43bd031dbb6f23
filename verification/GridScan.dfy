// The order in which the radius-1 scan meets its cells, and when it is row-major already.
module GridScan {
  import opened Options
  import opened MixedRadix
  import opened Grid
  import opened GridNeighbors

  ghost predicate InOrder(g: Grid, nbhd: Neighborhood, r: nat, c: nat, i: nat, j: nat) {
    var a, b := CandidateAt(g, nbhd, r, c, i), CandidateAt(g, nbhd, r, c, j);
    a.Some? && b.Some? ==> !Less(b.value, a.value)
  }

  ghost predicate PairsInOrder(g: Grid, nbhd: Neighborhood, r: nat, c: nat, k: nat) {
    forall i: nat, j: nat :: i < j < k ==> InOrder(g, nbhd, r, c, i, j)
  }

  lemma MorePairs(g: Grid, nbhd: Neighborhood, r: nat, c: nat, k: nat)
    ensures PairsInOrder(g, nbhd, r, c, k + 1) <==>
            PairsInOrder(g, nbhd, r, c, k) && forall i: nat :: i < k ==> InOrder(g, nbhd, r, c, i, k)
  {
    hide InOrder;
  }

  lemma {:induction false} ScanMembers(g: Grid, nbhd: Neighborhood, r: nat, c: nat, k: nat)
    ensures forall cell :: cell in ScanOrder(g, nbhd, r, c, k) <==> exists i: nat :: i < k && CandidateAt(g, nbhd, r, c, i) == Some(cell)
  {
    hide CandidateAt;
    if k > 0 {
      ScanMembers(g, nbhd, r, c, k - 1);
    }
  }

  lemma SortedPush(s: seq<Cell>, x: Cell)
    ensures Sorted(s + [x]) <==> Sorted(s) && forall y :: y in s ==> !Less(x, y)
  {
    hide Less;
    var t := s + [x];
    if Sorted(t) {
      forall i, j | 0 <= i < j < |s| ensures !Less(s[j], s[i]) {
        assert !Less(t[j], t[i]);
      }
      forall y | y in s ensures !Less(x, y) {
        var i :| 0 <= i < |s| && s[i] == y;
        assert !Less(t[|s|], t[i]);
      }
    }
  }

  /** The scan is in order exactly when any two of its candidates are. */
  lemma {:induction false} SortedByPairs(g: Grid, nbhd: Neighborhood, r: nat, c: nat, k: nat)
    ensures Sorted(ScanOrder(g, nbhd, r, c, k)) <==> PairsInOrder(g, nbhd, r, c, k)
  {
    hide CandidateAt, Less;
    if k > 0 {
      var cand, before := CandidateAt(g, nbhd, r, c, k - 1), ScanOrder(g, nbhd, r, c, k - 1);
      SortedByPairs(g, nbhd, r, c, k - 1);
      ScanMembers(g, nbhd, r, c, k - 1);
      if cand.Some? {
        SortedPush(before, cand.value);
        NewPairs(g, nbhd, r, c, k - 1, before);
      } else {
        assert before + [] == before;
      }
      MorePairs(g, nbhd, r, c, k - 1);
    }
  }

  lemma {:induction false} NewPairs(g: Grid, nbhd: Neighborhood, r: nat, c: nat, k: nat, cells: seq<Cell>)
    requires CandidateAt(g, nbhd, r, c, k).Some?
    requires forall cell :: cell in cells <==> exists i: nat :: i < k && CandidateAt(g, nbhd, r, c, i) == Some(cell)
    ensures (forall y :: y in cells ==> !Less(CandidateAt(g, nbhd, r, c, k).value, y)) <==> forall i: nat :: i < k ==> InOrder(g, nbhd, r, c, i, k)
  {
    hide CandidateAt, Less;
    if forall i: nat :: i < k ==> InOrder(g, nbhd, r, c, i, k) {
      forall y | y in cells ensures !Less(CandidateAt(g, nbhd, r, c, k).value, y) {
        var i: nat :| i < k && CandidateAt(g, nbhd, r, c, i) == Some(y);
        assert InOrder(g, nbhd, r, c, i, k);
      }
    }
  }

  /** Neither neighbour of `a` on a wrapped axis lies across the seam. */
  predicate Inner(a: nat, len: nat) { 1 <= a && a + 2 <= len }

  /** The radius-1 scan meets its cells in row-major order. */
  predicate ScanAscends(g: Grid, nbhd: Neighborhood, r: nat, c: nat) {
    g.boundary.Fixed? || g.IsEmpty() ||
    match nbhd
    case Moore =>
      (g.rows + g.cols <= 3) || (Inner(r, g.rows) && (g.cols == 1 || Inner(c, g.cols)))
    case VonNeumann =>
      if g.rows == 1 then g.cols <= 2 || Inner(c, g.cols)
      else if g.cols == 1 then g.rows <= 2 || Inner(r, g.rows)
      else Inner(r, g.rows) && (g.cols == 2 || Inner(c, g.cols))
  }

  function Previous(a: nat, len: nat): int { if a == 0 then len - 1 else a - 1 }

  function Following(a: nat, len: nat): int { if a + 1 == len then 0 else a + 1 }

  lemma Wrapped(a: nat, len: nat)
    requires a < len
    ensures Wrap(a - 1, len) == Previous(a, len) && Wrap(a, len) == a && Wrap(a + 1, len) == Following(a, len)
  {
    WrapNear(a - 1, len, if a == 0 then -1 else 0);
    WrapNear(a, len, 0);
    WrapNear(a + 1, len, if a + 1 == len then 1 else 0);
  }

  function Shifted(a: nat, len: nat, d: int): int { if d < 0 then Previous(a, len) else if d > 0 then Following(a, len) else a }

  lemma WrapShifted(a: nat, len: nat, d: int)
    requires a < len && -1 <= d <= 1
    ensures Wrap(a + d, len) == Shifted(a, len, d) >= 0
  {
    hide Wrap;
    Wrapped(a, len);
  }

  lemma CandidateOnTorus(g: Grid, nbhd: Neighborhood, r: nat, c: nat, dr: int, dc: int)
    requires g.boundary.Toroidal? && g.Has((r, c)) && -1 <= dr <= 1 && -1 <= dc <= 1
    ensures var row, col := Shifted(r, g.rows, dr), Shifted(c, g.cols, dc);
            && row >= 0 && col >= 0
            && Candidate(g, nbhd, 1, r, c, dr, dc) ==
               if (nbhd.VonNeumann? && dr != 0 && dc != 0) || (row == r && col == c) then None else Some((row, col))
  {
    hide Wrap, Flat, Shifted;
    WrapShifted(r, g.rows, dr);
    WrapShifted(c, g.cols, dc);
    AtCentre(r, g.rows, c, g.cols);
  }

  lemma AtCentre(r: nat, rows: nat, c: nat, cols: nat)
    ensures Shifted(r, rows, 0) == r && Shifted(c, cols, 0) == c
  { }

  /** The cells found by the radius-1 scan are in row-major order exactly on a fixed grid, or away from the seams of
      a torus, or on tori so small that wrapping does not show. */
  lemma ScanSortedIff(g: Grid, nbhd: Neighborhood, r: nat, c: nat)
    requires Centred(g, r, c)
    ensures Sorted(ScanOrder(g, nbhd, r, c, 9)) <==> ScanAscends(g, nbhd, r, c)
  {
    SortedByPairs(g, nbhd, r, c, 9);
    if g.boundary.Toroidal? && !g.IsEmpty() {
      TorusPairs(g, nbhd, r, c);
    } else {
      FixedPairs(g, nbhd, r, c);
    }
  }

  /** A concrete case: around the corner of the 3 x 3 torus the scan starts in the last row. */
  lemma UnsortedAtCorner(g: Grid)
    requires g.boundary.Toroidal? && g.rows == 3 && g.cols == 3
    ensures !Sorted(ScanOrder(g, Moore, 0, 0, 9))
  {
    ScanSortedIff(g, Moore, 0, 0);
  }

  lemma FixedPairs(g: Grid, nbhd: Neighborhood, r: nat, c: nat)
    requires g.boundary.Fixed? || g.IsEmpty()
    ensures PairsInOrder(g, nbhd, r, c, 9)
  { }

  lemma TorusPairs(g: Grid, nbhd: Neighborhood, r: nat, c: nat)
    requires g.boundary.Toroidal? && g.Has((r, c))
    ensures PairsInOrder(g, nbhd, r, c, 9) <==> ScanAscends(g, nbhd, r, c)
  {
    hide Candidate;
    forall dr: int, dc: int | -1 <= dr <= 1 && -1 <= dc <= 1 {
      CandidateOnTorus(g, nbhd, r, c, dr, dc);
    }
    if ScanAscends(g, nbhd, r, c) {
    } else if nbhd.Moore? {
      assert !InOrder(g, nbhd, r, c, 0, 1) || !InOrder(g, nbhd, r, c, 0, 2) || !InOrder(g, nbhd, r, c, 1, 2) || !InOrder(g, nbhd, r, c, 0, 3)
          || !InOrder(g, nbhd, r, c, 3, 6) || !InOrder(g, nbhd, r, c, 0, 6) || !InOrder(g, nbhd, r, c, 2, 3);
    } else {
      assert !InOrder(g, nbhd, r, c, 1, 3) || !InOrder(g, nbhd, r, c, 1, 5) || !InOrder(g, nbhd, r, c, 3, 5) || !InOrder(g, nbhd, r, c, 1, 7)
          || !InOrder(g, nbhd, r, c, 3, 7);
    }
  }
}
