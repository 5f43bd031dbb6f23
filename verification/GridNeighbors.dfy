// The neighbour listings of a grid: the buffered list, the radius-1 iterator and the CSR table.
module GridNeighbors {
  import opened Options
  import opened MixedRadix
  import opened Grid

  /** Exactly the neighbours of the centre, in strict row-major order. */
  ghost predicate IsListing(g: Grid, nbhd: Neighborhood, radius: nat, centre: Cell, list: seq<Cell>) {
    && StrictlySorted(list)
    && forall cell: Cell :: cell in list <==> IsNeighbor(g, nbhd, radius, centre, cell)
  }

  /** There is only one such list. */
  lemma ListingUnique(g: Grid, nbhd: Neighborhood, radius: nat, centre: Cell, s: seq<Cell>, t: seq<Cell>)
    requires IsListing(g, nbhd, radius, centre, s) && IsListing(g, nbhd, radius, centre, t)
    ensures s == t
  {
    hide IsNeighbor;
    SortedUnique(s, t);
  }

  // ---- the scan over offsets ----

  /** Offsets before `(dr, dc)` in the scan order of the square. */
  predicate Scanned(dr: int, dc: int, x: int, y: int) { x < dr || (x == dr && y < dc) }

  /** `out` holds the candidates of the scanned offsets and nothing but neighbours. */
  ghost predicate ScanState(g: Grid, nbhd: Neighborhood, radius: nat, r: nat, c: nat, dr: int, dc: int, out: seq<Cell>) {
    && (forall cell: Cell :: cell in out ==> IsNeighbor(g, nbhd, radius, (r, c), cell))
    && (forall x: int, y: int {:trigger Candidate(g, nbhd, radius, r, c, x, y)} ::
          AbsInt(x) <= radius && AbsInt(y) <= radius && Scanned(dr, dc, x, y) && Candidate(g, nbhd, radius, r, c, x, y).Some?
          ==> Candidate(g, nbhd, radius, r, c, x, y).value in out)
  }

  lemma ScanNext(g: Grid, nbhd: Neighborhood, radius: nat, r: nat, c: nat, dr: int, dc: int, out: seq<Cell>)
    requires Centred(g, r, c) && ScanState(g, nbhd, radius, r, c, dr, dc, out)
    ensures var cand := Candidate(g, nbhd, radius, r, c, dr, dc);
            ScanState(g, nbhd, radius, r, c, dr, dc + 1, if cand.Some? then out + [cand.value] else out)
  {
    hide IsNeighbor;
    var cand := Candidate(g, nbhd, radius, r, c, dr, dc);
    if cand.Some? {
      CandidateIsNeighbor(g, nbhd, radius, r, c, dr, dc);
    }
    hide Candidate;
    forall x: int, y: int | Scanned(dr, dc + 1, x, y) ensures Scanned(dr, dc, x, y) || (x == dr && y == dc) { }
  }

  lemma ScanNextRow(g: Grid, nbhd: Neighborhood, radius: nat, r: nat, c: nat, dr: int, dc: int, out: seq<Cell>)
    requires ScanState(g, nbhd, radius, r, c, dr, dc, out) && dc > radius
    ensures ScanState(g, nbhd, radius, r, c, dr + 1, -(radius as int), out)
  {
    hide IsNeighbor, Candidate;
  }

  /** A complete scan has collected exactly the neighbours. */
  lemma ScanComplete(g: Grid, nbhd: Neighborhood, radius: nat, r: nat, c: nat, dr: int, dc: int, out: seq<Cell>)
    requires Centred(g, r, c) && ScanState(g, nbhd, radius, r, c, dr, dc, out) && dr > radius
    ensures forall cell: Cell :: cell in out <==> IsNeighbor(g, nbhd, radius, (r, c), cell)
  {
    forall cell: Cell | IsNeighbor(g, nbhd, radius, (r, c), cell) ensures cell in out {
      NeighborIsCandidate(g, nbhd, radius, r, c, cell);
      var (x, y) := OffsetTo(g, (r, c), cell);
      hide IsNeighbor, Candidate, OffsetTo;
      assert Scanned(dr, dc, x, y);
    }
  }

  /** Sorting and removing duplicates turns the collected neighbours into the listing. */
  lemma FinishListing(g: Grid, nbhd: Neighborhood, radius: nat, centre: Cell, out: seq<Cell>)
    requires forall cell: Cell :: cell in out <==> IsNeighbor(g, nbhd, radius, centre, cell)
    ensures IsListing(g, nbhd, radius, centre, Dedup(SortCells(out)))
  {
    hide IsNeighbor;
    SortCellsSorts(out);
    DedupSorted(SortCells(out));
  }

  /** All cells within `radius`, collected offset by offset, then sorted and deduplicated. */
  method NeighborsRadiusInto(g: Grid, r: nat, c: nat, nbhd: Neighborhood, radius: nat) returns (out: seq<Cell>)
    requires Centred(g, r, c)
    ensures IsListing(g, nbhd, radius, (r, c), out)
  {
    out := [];
    if radius == 0 || g.IsEmpty() {
      NoNeighbors(g, nbhd, radius, (r, c));
      return;
    }
    hide Candidate, IsNeighbor, ScanState;
    var rad: int := radius;
    var dr := -rad;
    EmptyScan(g, nbhd, radius, r, c, dr);
    while dr <= rad
      invariant -rad <= dr <= rad + 1
      invariant ScanState(g, nbhd, radius, r, c, dr, -rad, out)
    {
      var dc := -rad;
      while dc <= rad
        invariant -rad <= dc <= rad + 1
        invariant ScanState(g, nbhd, radius, r, c, dr, dc, out)
      {
        ScanNext(g, nbhd, radius, r, c, dr, dc, out);
        out := Push(g, nbhd, radius, r, c, dr, dc, out);
        dc := dc + 1;
      }
      ScanNextRow(g, nbhd, radius, r, c, dr, dc, out);
      dr := dr + 1;
    }
    ScanComplete(g, nbhd, radius, r, c, dr, -rad, out);
    FinishListing(g, nbhd, radius, (r, c), out);
    out := Dedup(SortCells(out));
  }

  /** The body of the scan: the centre offset, the shape test, the boundary, and the centre cell. */
  method Push(g: Grid, nbhd: Neighborhood, radius: nat, r: nat, c: nat, dr: int, dc: int, out: seq<Cell>) returns (more: seq<Cell>)
    ensures var cand := Candidate(g, nbhd, radius, r, c, dr, dc);
            more == if cand.Some? then out + [cand.value] else out
  {
    more := out;
    if dr == 0 && dc == 0 {
      return;
    }
    var inShape := match nbhd
      case Moore => (if AbsInt(dr) < AbsInt(dc) then AbsInt(dc) else AbsInt(dr)) <= radius
      case VonNeumann => AbsInt(dr) + AbsInt(dc) <= radius;
    if !inShape {
      return;
    }
    match Resolve(g, r + dr, c + dc)
    case None =>
    case Some(cell) =>
      if cell != (r, c) {
        more := more + [cell];
      }
  }

  lemma EmptyScan(g: Grid, nbhd: Neighborhood, radius: nat, r: nat, c: nat, dr: int)
    requires dr == -(radius as int)
    ensures ScanState(g, nbhd, radius, r, c, dr, dr, [])
  {
    hide Candidate;
  }

  lemma NoNeighbors(g: Grid, nbhd: Neighborhood, radius: nat, centre: Cell)
    requires radius == 0 || g.IsEmpty()
    requires Centred(g, centre.0, centre.1)
    ensures forall cell: Cell :: !IsNeighbor(g, nbhd, radius, centre, cell)
  {
    forall cell: Cell ensures !IsNeighbor(g, nbhd, radius, centre, cell) {
      if g.Has(cell) && cell != centre {
        DistanceSeparates(g, MetricOf(nbhd), centre, cell);
      }
    }
  }

  lemma DistanceSeparates(g: Grid, metric: Metric, a: Cell, b: Cell)
    requires Centred(g, a.0, a.1) && g.Has(b) && a != b
    ensures Distance(g, metric, a, b) > 0
  { }

  // ---- the radius-1 iterator ----

  /** Collects the neighbours in a scratch buffer, sorts it, and copies it without repeats. */
  method FillBuffer(g: Grid, r: nat, c: nat, nbhd: Neighborhood, buf: array<Cell>) returns (len: nat)
    requires Centred(g, r, c) && buf.Length == 8
    modifies buf
    ensures len <= 8 && IsListing(g, nbhd, 1, (r, c), buf[..len])
  {
    hide IsNeighbor, StrictlySorted, Dedup, SortCells;
    len := 0;
    if !g.IsEmpty() {
      var tmp := new Cell[8](_ => (0, 0));
      var tmpLen := CollectOne(g, r, c, nbhd, tmp);
      ghost var found := tmp[..tmpLen];
      SortPrefix(tmp, tmpLen);
      FinishListing(g, nbhd, 1, (r, c), found);
      len := DedupInto(tmp, tmpLen, buf);
    } else {
      NoNeighbors(g, nbhd, 1, (r, c));
      EmptyListing(g, nbhd, 1, (r, c));
    }
  }

  lemma EmptyListing(g: Grid, nbhd: Neighborhood, radius: nat, centre: Cell)
    requires forall cell: Cell :: !IsNeighbor(g, nbhd, radius, centre, cell)
    ensures IsListing(g, nbhd, radius, centre, [])
  { }

  /** Walks a fixed buffer of eight cells. */
  class NeighborsIter {
    const buf: array<Cell>
    var len: nat
    var pos: nat

    ghost predicate Valid()
      reads this, buf
    {
      buf.Length == 8 && pos <= len <= 8
    }

    /** What the iterator has still to yield. */
    ghost function Remaining(): seq<Cell>
      requires Valid()
      reads this, buf
    {
      buf[pos..len]
    }

    /** Enumerates the 3 x 3 offsets into a buffer of eight, sorts it and drops repeats. */
    constructor (g: Grid, r: nat, c: nat, nbhd: Neighborhood)
      requires Centred(g, r, c)
      ensures Valid() && fresh(buf)
      ensures IsListing(g, nbhd, 1, (r, c), Remaining())
    {
      var b := new Cell[8](_ => (0, 0));
      buf := b;
      len := 0;
      pos := 0;
      new;
      len := FillBuffer(g, r, c, nbhd, buf);
    }

    method Next() returns (cell: Option<Cell>)
      requires Valid()
      modifies this`pos
      ensures Valid() && len == old(len)
      ensures if old(Remaining()) == [] then cell == None && Remaining() == []
              else cell == Some(old(Remaining())[0]) && Remaining() == old(Remaining())[1..]
    {
      if pos < len {
        cell := Some(buf[pos]);
        pos := pos + 1;
      } else {
        cell := None;
      }
    }

    /** The exact number of cells still to come. */
    method SizeHint() returns (rem: nat)
      requires Valid()
      ensures rem == |Remaining()|
    {
      rem := len - pos;
    }
  }

  /** The number of offsets of the 3 x 3 square, without the centre, before `(dr, dc)`. */
  function SlotsBefore(dr: int, dc: int): int {
    3 * (dr + 1) + (dc + 1) - (if Scanned(dr, dc, 0, 0) then 1 else 0)
  }

  /** The candidate of the `k`-th offset of the 3 x 3 square in row-major order. */
  function CandidateAt(g: Grid, nbhd: Neighborhood, r: nat, c: nat, k: nat): Option<Cell> {
    Candidate(g, nbhd, 1, r, c, k / 3 - 1, k % 3 - 1)
  }

  /** The cells collected from the first `k` offsets, in scan order. */
  function ScanOrder(g: Grid, nbhd: Neighborhood, r: nat, c: nat, k: nat): seq<Cell> {
    if k == 0 then []
    else
      var cand := CandidateAt(g, nbhd, r, c, k - 1);
      ScanOrder(g, nbhd, r, c, k - 1) + (if cand.Some? then [cand.value] else [])
  }

  /** `out` is what the scan has collected before offset `(dr, dc)`. */
  ghost predicate Collected(g: Grid, nbhd: Neighborhood, r: nat, c: nat, dr: int, dc: int, out: seq<Cell>)
    requires dr >= -1 && dc >= -1
  {
    ScanState(g, nbhd, 1, r, c, dr, dc, out) && out == ScanOrder(g, nbhd, r, c, 3 * (dr + 1) + dc + 1)
  }

  lemma CollectNext(g: Grid, nbhd: Neighborhood, r: nat, c: nat, dr: int, dc: int, out: seq<Cell>)
    requires Centred(g, r, c) && -1 <= dr <= 1 && -1 <= dc <= 1 && Collected(g, nbhd, r, c, dr, dc, out)
    ensures var cand := Candidate(g, nbhd, 1, r, c, dr, dc);
            Collected(g, nbhd, r, c, dr, dc + 1, if cand.Some? then out + [cand.value] else out)
  {
    hide Candidate, ScanState;
    ScanNext(g, nbhd, 1, r, c, dr, dc, out);
    assert out + [] == out;
  }

  lemma CollectNextRow(g: Grid, nbhd: Neighborhood, r: nat, c: nat, dr: int, out: seq<Cell>)
    requires dr >= -1 && Collected(g, nbhd, r, c, dr, 2, out)
    ensures Collected(g, nbhd, r, c, dr + 1, -1, out)
  {
    hide Candidate, ScanState, ScanOrder;
    ScanNextRow(g, nbhd, 1, r, c, dr, 2, out);
  }

  lemma NothingCollected(g: Grid, nbhd: Neighborhood, r: nat, c: nat)
    ensures Collected(g, nbhd, r, c, -1, -1, [])
  {
    EmptyScan(g, nbhd, 1, r, c, -1);
  }

  /** Writes the candidate of one offset, if there is one, to the next slot. */
  method CollectOffset(g: Grid, r: nat, c: nat, nbhd: Neighborhood, dr: int, dc: int, tmp: array<Cell>, tmpLen: nat) returns (len: nat)
    requires Centred(g, r, c) && -1 <= dr <= 1 && -1 <= dc <= 1
    requires tmpLen <= SlotsBefore(dr, dc) && tmp.Length == 8 && Collected(g, nbhd, r, c, dr, dc, tmp[..tmpLen])
    modifies tmp
    ensures len <= SlotsBefore(dr, dc + 1) && len <= 8 && Collected(g, nbhd, r, c, dr, dc + 1, tmp[..len])
  {
    hide Candidate, Collected;
    CollectNext(g, nbhd, r, c, dr, dc, tmp[..tmpLen]);
    ghost var before := tmp[..tmpLen];
    var cand := TestOne(g, r, c, nbhd, dr, dc);
    len := tmpLen;
    if cand.Some? {
      tmp[len] := cand.value;
      len := len + 1;
      assert tmp[..len] == before + [cand.value];
    }
  }

  /** Fills the eight slots in scan order; the write index never runs past them. */
  method CollectOne(g: Grid, r: nat, c: nat, nbhd: Neighborhood, tmp: array<Cell>) returns (tmpLen: nat)
    requires Centred(g, r, c) && tmp.Length == 8
    modifies tmp
    ensures tmpLen <= 8 && tmp[..tmpLen] == ScanOrder(g, nbhd, r, c, 9)
    ensures forall cell: Cell :: cell in tmp[..tmpLen] <==> IsNeighbor(g, nbhd, 1, (r, c), cell)
  {
    hide Candidate, IsNeighbor, Collected, ScanOrder;
    tmpLen := 0;
    NothingCollected(g, nbhd, r, c);
    assert tmp[..0] == [];
    var dr := -1;
    while dr <= 1
      invariant -1 <= dr <= 2 && tmpLen <= SlotsBefore(dr, -1) && tmpLen <= 8
      invariant Collected(g, nbhd, r, c, dr, -1, tmp[..tmpLen])
    {
      var dc := -1;
      while dc <= 1
        invariant -1 <= dc <= 2 && tmpLen <= SlotsBefore(dr, dc) && tmpLen <= 8
        invariant Collected(g, nbhd, r, c, dr, dc, tmp[..tmpLen])
      {
        tmpLen := CollectOffset(g, r, c, nbhd, dr, dc, tmp, tmpLen);
        dc := dc + 1;
      }
      CollectNextRow(g, nbhd, r, c, dr, tmp[..tmpLen]);
      dr := dr + 1;
    }
    AllCollected(g, nbhd, r, c, tmp[..tmpLen]);
  }

  lemma AllCollected(g: Grid, nbhd: Neighborhood, r: nat, c: nat, out: seq<Cell>)
    requires Centred(g, r, c) && Collected(g, nbhd, r, c, 2, -1, out)
    ensures out == ScanOrder(g, nbhd, r, c, 9)
    ensures forall cell: Cell :: cell in out <==> IsNeighbor(g, nbhd, 1, (r, c), cell)
  {
    hide Candidate, IsNeighbor, ScanState, ScanOrder;
    ScanComplete(g, nbhd, 1, r, c, 2, -1, out);
  }

  /** The radius-1 tests, with the shape test written out for radius 1. */
  method TestOne(g: Grid, r: nat, c: nat, nbhd: Neighborhood, dr: int, dc: int) returns (cand: Option<Cell>)
    requires -1 <= dr <= 1 && -1 <= dc <= 1
    ensures cand == Candidate(g, nbhd, 1, r, c, dr, dc)
    ensures dr == 0 && dc == 0 ==> cand == None
  {
    cand := None;
    if dr == 0 && dc == 0 {
      return;
    }
    var inShape := match nbhd
      case Moore => true
      case VonNeumann => AbsInt(dr) + AbsInt(dc) <= 1;
    if inShape {
      match Resolve(g, r + dr, c + dc)
      case None =>
      case Some(cell) =>
        if cell != (r, c) {
          cand := Some(cell);
        }
    }
  }

  /** `sort_unstable` on the first `n` slots. */
  method SortPrefix(a: array<Cell>, n: nat)
    requires n <= a.Length
    modifies a
    ensures a[..n] == SortCells(old(a[..n]))
  {
    ghost var was := a[..n];
    var sorted := SortCells(a[..n]);
    for i := 0 to n
      invariant forall k :: 0 <= k < i ==> a[k] == sorted[k]
    {
      a[i] := sorted[i];
    }
    assert a[..n] == sorted;
  }

  /** Copies the first `n` slots without adjacent repeats. */
  method DedupInto(tmp: array<Cell>, n: nat, buf: array<Cell>) returns (len: nat)
    requires tmp != buf && n <= tmp.Length && n <= buf.Length
    modifies buf
    ensures len <= n && buf[..len] == Dedup(tmp[..n])
  {
    len := 0;
    for i := 0 to n
      invariant len <= i && buf[..len] == Dedup(tmp[..i])
      invariant tmp[..] == old(tmp[..])
    {
      assert tmp[..i + 1][..i] == tmp[..i];
      assert buf[..len] == Dedup(tmp[..i]);
      ghost var was := buf[..len];
      if i == 0 || tmp[i] != tmp[i - 1] {
        buf[len] := tmp[i];
        len := len + 1;
        assert buf[..len] == was + [tmp[i]];
      }
    }
  }

  /** Takes cells until there are none. */
  method Walk(it: NeighborsIter) returns (walked: seq<Cell>)
    requires it.Valid()
    modifies it`pos
    ensures it.Valid() && walked == old(it.Remaining())
  {
    walked := [];
    var more := true;
    while more
      invariant it.Valid() && walked + it.Remaining() == old(it.Remaining())
      invariant !more ==> it.Remaining() == []
      decreases |it.Remaining()|, more
    {
      ghost var rest := it.Remaining();
      var cell := it.Next();
      if cell.Some? {
        assert rest == [cell.value] + it.Remaining();
        walked := walked + [cell.value];
      } else {
        more := false;
      }
    }
  }

  /** The iterator yields the same list as the buffered listing. */
  method IteratorAgrees(g: Grid, r: nat, c: nat, nbhd: Neighborhood) returns (list: seq<Cell>, walked: seq<Cell>)
    requires Centred(g, r, c)
    ensures IsListing(g, nbhd, 1, (r, c), list) && walked == list
  {
    hide IsListing;
    list := NeighborsRadiusInto(g, r, c, nbhd, 1);
    var it := new NeighborsIter(g, r, c, nbhd);
    ListingUnique(g, nbhd, 1, (r, c), list, it.Remaining());
    walked := Walk(it);
  }

  // ---- the CSR table ----

  function CellOf(g: Grid, idx: nat): Cell
    requires g.cols > 0
  {
    (Quot(idx, g.cols), Rem(idx, g.cols))
  }

  function Len(g: Grid): int { Flat(g.rows, g.cols, 0) }

  function IndexOf(g: Grid, cell: Cell): int { Flat(cell.0, g.cols, cell.1) }

  /** Flat indices and cells correspond. */
  lemma IndexRoundTrip(g: Grid, cell: Cell)
    requires g.Has(cell)
    ensures 0 <= IndexOf(g, cell) < Len(g) && CellOf(g, IndexOf(g, cell)) == cell
  {
    FlatQuot(cell.0, g.cols, cell.1);
    FlatBounds(cell.0, g.rows, g.cols, cell.1);
  }

  lemma CellRoundTrip(g: Grid, idx: nat)
    requires idx < Len(g)
    ensures g.cols > 0 && g.Has(CellOf(g, idx)) && IndexOf(g, CellOf(g, idx)) == idx
  {
    if g.cols > 0 {
      QuotFlat(idx, g.cols);
      FlatBounds(Quot(idx, g.cols), g.rows, g.cols, Rem(idx, g.cols));
    }
  }

  /** Row-major order of cells is the order of their indices. */
  lemma OrderOfIndices(g: Grid, a: Cell, b: Cell)
    requires g.Has(a) && g.Has(b)
    ensures Less(a, b) <==> IndexOf(g, a) < IndexOf(g, b)
  {
    FlatBounds(a.0, b.0, g.cols, a.1);
    FlatBounds(b.0, a.0, g.cols, b.1);
    assert Flat(b.0, g.cols, 0) + b.1 == Flat(b.0, g.cols, b.1) && Flat(a.0, g.cols, 0) + a.1 == Flat(a.0, g.cols, a.1);
  }

  function Indices(g: Grid, list: seq<Cell>): (r: seq<int>)
    ensures |r| == |list|
  {
    seq(|list|, k requires 0 <= k < |list| => IndexOf(g, list[k]))
  }

  datatype Adjacency = Adjacency(offsets: seq<nat>, flat: seq<int>) {
    ghost predicate WellFormed() {
      && |offsets| > 0
      && (forall i, j :: 0 <= i <= j < |offsets| ==> offsets[i] <= offsets[j])
      && offsets[|offsets| - 1] <= |flat|
    }

    function CellCount(): nat { if |offsets| == 0 then 0 else |offsets| - 1 }

    /** The stored slice of one cell. */
    function Neighbors(idx: nat): seq<int>
      requires WellFormed() && idx < CellCount()
    {
      flat[offsets[idx]..offsets[idx + 1]]
    }
  }

  /** The slice of cell `idx` lists exactly the indices of its neighbours, ascending. */
  ghost predicate RowCorrect(g: Grid, nbhd: Neighborhood, radius: nat, idx: nat, row: seq<int>)
    requires idx < Len(g) && g.cols > 0
  {
    exists list: seq<Cell> :: IsListing(g, nbhd, radius, CellOf(g, idx), list) && row == Indices(g, list)
  }

  method AdjacencyRadius(g: Grid, nbhd: Neighborhood, radius: nat) returns (adj: Adjacency)
    ensures adj.WellFormed() && adj.CellCount() == Len(g)
    ensures forall idx: nat :: idx < Len(g) ==> g.cols > 0 && RowCorrect(g, nbhd, radius, idx, adj.Neighbors(idx))
  {
    hide IsListing, RowCorrect;
    var n := Len(g);
    FlatNonNegative(g.rows, g.cols);
    var offsets: seq<nat> := [0];
    var flat: seq<int> := [];
    for idx := 0 to n
      invariant |offsets| == idx + 1 && offsets[idx] == |flat|
      invariant forall i, j :: 0 <= i <= j < |offsets| ==> offsets[i] <= offsets[j]
      invariant idx > 0 ==> g.cols > 0
      invariant forall k: nat :: k < idx ==> RowCorrect(g, nbhd, radius, k, flat[offsets[k]..offsets[k + 1]])
    {
      CellRoundTrip(g, idx);
      var cell := CellOf(g, idx);
      var buf := NeighborsRadiusInto(g, cell.0, cell.1, nbhd, radius);
      ghost var was := flat;
      flat := flat + Indices(g, buf);
      offsets := offsets + [|flat|];
      assert flat[offsets[idx]..offsets[idx + 1]] == Indices(g, buf);
      RowFromListing(g, nbhd, radius, idx, buf);
      forall k: nat | k < idx ensures flat[offsets[k]..offsets[k + 1]] == was[offsets[k]..offsets[k + 1]] { }
    }
    adj := Adjacency(offsets, flat);
  }

  lemma RowFromListing(g: Grid, nbhd: Neighborhood, radius: nat, idx: nat, list: seq<Cell>)
    requires idx < Len(g) && g.cols > 0 && IsListing(g, nbhd, radius, CellOf(g, idx), list)
    ensures RowCorrect(g, nbhd, radius, idx, Indices(g, list))
  { }

  /** What a correct slice means in terms of indices alone. */
  lemma RowMeaning(g: Grid, nbhd: Neighborhood, radius: nat, idx: nat, row: seq<int>)
    requires idx < Len(g) && g.cols > 0 && RowCorrect(g, nbhd, radius, idx, row)
    ensures forall i, j :: 0 <= i < j < |row| ==> row[i] < row[j]
    ensures forall other: nat :: other < Len(g) ==>
      (other in row <==> other != idx && Distance(g, MetricOf(nbhd), CellOf(g, idx), CellOf(g, other)) <= radius)
  {
    var list :| IsListing(g, nbhd, radius, CellOf(g, idx), list) && row == Indices(g, list);
    hide Distance, Less, CellOf;
    forall i, j | 0 <= i < j < |row| ensures row[i] < row[j] {
      assert list[i] in list && list[j] in list;
      OrderOfIndices(g, list[i], list[j]);
    }
    forall other: nat | other < Len(g)
      ensures other in row <==> other != idx && Distance(g, MetricOf(nbhd), CellOf(g, idx), CellOf(g, other)) <= radius
    {
      CellRoundTrip(g, other);
      CellRoundTrip(g, idx);
      var cell := CellOf(g, other);
      if cell in list {
        var k :| 0 <= k < |list| && list[k] == cell;
        assert row[k] == other;
      }
      if other in row {
        var k :| 0 <= k < |row| && row[k] == other;
        assert list[k] in list;
        IndexRoundTrip(g, list[k]);
      }
    }
  }
}
