// The occupancy index: which agent sits in which cell, kept in both directions.
module GridIndex {
  import opened Options
  import opened Agents
  import opened MixedRadix
  import opened Grid
  import opened GridNeighbors

  datatype GridError =
    | OutOfBounds(r: nat, c: nat, rows: nat, cols: nat)
    | CellOccupied(row: nat, col: nat, occupant: AgentId)
    | UnknownAgent(id: AgentId)

  datatype Outcome = Done | Failed(error: GridError)

  /** The occupant of a cell in a row-major table. */
  function OccupantIn(g: Grid, cells: seq<Option<AgentId>>, cell: Cell): Option<AgentId>
    requires |cells| == Len(g) && g.Has(cell)
  {
    IndexRoundTrip(g, cell);
    cells[IndexOf(g, cell)]
  }

  /** Each placed agent's recorded cell holds that agent. */
  ghost predicate Consistent(g: Grid, cells: seq<Option<AgentId>>, positions: map<AgentId, Cell>) {
    && |cells| == Len(g)
    && forall id :: id in positions ==> g.Has(positions[id]) && OccupantIn(g, cells, positions[id]) == Some(id)
  }

  /** The two directions are inverse: no cell holds an agent recorded elsewhere. */
  ghost predicate Inverse(g: Grid, cells: seq<Option<AgentId>>, positions: map<AgentId, Cell>) {
    && Consistent(g, cells, positions)
    && forall cell: Cell {:trigger OccupantIn(g, cells, cell)} :: g.Has(cell) && OccupantIn(g, cells, cell).Some? ==>
         OccupantIn(g, cells, cell).value in positions && positions[OccupantIn(g, cells, cell).value] == cell
  }

  /** Distinct placed agents have distinct cells. */
  lemma DistinctCells(g: Grid, cells: seq<Option<AgentId>>, positions: map<AgentId, Cell>, a: AgentId, b: AgentId)
    requires Consistent(g, cells, positions) && a in positions && b in positions && a != b
    ensures positions[a] != positions[b]
  {
    assert OccupantIn(g, cells, positions[a]) == Some(a);
    assert OccupantIn(g, cells, positions[b]) == Some(b);
  }

  /** Writing one cell changes the occupant of that cell only. */
  lemma WriteCell(g: Grid, cells: seq<Option<AgentId>>, target: Cell, v: Option<AgentId>)
    requires |cells| == Len(g) && g.Has(target)
    ensures 0 <= IndexOf(g, target) < |cells|
    ensures forall cell: Cell {:trigger OccupantIn(g, cells[IndexOf(g, target) := v], cell)} :: g.Has(cell) ==>
      OccupantIn(g, cells[IndexOf(g, target) := v], cell) == if cell == target then v else OccupantIn(g, cells, cell)
  {
    hide IndexOf, CellOf;
    IndexRoundTrip(g, target);
    forall cell: Cell | g.Has(cell)
      ensures OccupantIn(g, cells[IndexOf(g, target) := v], cell) == if cell == target then v else OccupantIn(g, cells, cell)
    {
      IndexRoundTrip(g, cell);
    }
  }

  lemma AllVacant(g: Grid, cells: seq<Option<AgentId>>)
    requires |cells| == Len(g) && forall i :: 0 <= i < |cells| ==> cells[i] == None
    ensures Inverse(g, cells, map[])
    ensures forall cell: Cell :: g.Has(cell) ==> OccupantIn(g, cells, cell) == None
  {
    hide IndexOf, CellOf;
    forall cell: Cell | g.Has(cell) ensures OccupantIn(g, cells, cell) == None {
      IndexRoundTrip(g, cell);
    }
  }

  /** `a` is nearer to `from` than `b`, or as near and earlier in row-major order. */
  predicate NearerOrFirst(g: Grid, metric: Metric, from: Cell, a: Cell, b: Cell) {
    || Distance(g, metric, from, a) < Distance(g, metric, from, b)
    || (Distance(g, metric, from, a) == Distance(g, metric, from, b) && Less(a, b))
  }

  /** `list[at]` is the first of the nearest among the first `k` cells. */
  ghost predicate FirstNearest(g: Grid, metric: Metric, from: Cell, list: seq<Cell>, k: nat, at: nat)
    requires at < k <= |list|
  {
    && (forall i :: 0 <= i < at ==> Distance(g, metric, from, list[at]) < Distance(g, metric, from, list[i]))
    && (forall i :: at <= i < k ==> Distance(g, metric, from, list[at]) <= Distance(g, metric, from, list[i]))
  }

  class Index {
    const grid: Grid
    const cells: array<Option<AgentId>>
    var positions: map<AgentId, Cell>

    ghost predicate Valid()
      reads this, cells
    {
      Consistent(grid, cells[..], positions)
    }

    ghost predicate TwoWay()
      reads this, cells
    {
      Inverse(grid, cells[..], positions)
    }

    ghost function At(cell: Cell): Option<AgentId>
      requires cells.Length == Len(grid) && grid.Has(cell)
      reads this, cells
    {
      OccupantIn(grid, cells[..], cell)
    }

    constructor (grid: Grid)
      ensures Valid() && TwoWay() && this.grid == grid && positions == map[] && fresh(cells)
      ensures forall cell: Cell :: grid.Has(cell) ==> At(cell) == None
    {
      this.grid := grid;
      FlatNonNegative(grid.rows, grid.cols);
      cells := new Option<AgentId>[Len(grid)](_ => None);
      positions := map[];
      new;
      hide OccupantIn, Len;
      AllVacant(grid, cells[..]);
    }

    /** Places an agent in a free cell. The old cell of an agent placed before is not vacated, so the
        index stays two-way exactly when the agent was unplaced. */
    method Place(id: AgentId, r: nat, c: nat) returns (outcome: Outcome)
      requires Valid()
      modifies this`positions, cells
      ensures Valid()
      ensures !grid.Has((r, c)) ==> outcome == Failed(OutOfBounds(r, c, grid.rows, grid.cols))
      ensures grid.Has((r, c)) && old(At((r, c))).Some? ==> outcome == Failed(CellOccupied(r, c, old(At((r, c))).value))
      ensures grid.Has((r, c)) && old(At((r, c))).None? ==> outcome == Done
      ensures outcome.Failed? ==> positions == old(positions) && cells[..] == old(cells[..])
      ensures outcome.Done? ==> positions == old(positions)[id := (r, c)]
      ensures outcome.Done? ==> forall cell: Cell :: grid.Has(cell) ==>
        At(cell) == if cell == (r, c) then Some(id) else old(At(cell))
      ensures outcome.Done? && old(TwoWay()) ==> (TwoWay() <==> id !in old(positions))
    {
      if r >= grid.rows || c >= grid.cols {
        return Failed(OutOfBounds(r, c, grid.rows, grid.cols));
      }
      IndexRoundTrip(grid, (r, c));
      var i := IndexOf(grid, (r, c));
      if cells[i].Some? {
        return Failed(CellOccupied(r, c, cells[i].value));
      }
      ghost var was, recorded := cells[..], positions;
      WriteCell(grid, was, (r, c), Some(id));
      cells[i] := Some(id);
      assert cells[..] == was[i := Some(id)];
      positions := positions[id := (r, c)];
      outcome := Done;
      PlacedConsistent(grid, was, recorded, id, (r, c));
    }

    /** The agent in a cell; none for a vacant or out-of-bounds cell. */
    method Occupant(r: nat, c: nat) returns (occupant: Option<AgentId>)
      requires Valid()
      ensures occupant == if grid.Has((r, c)) then At((r, c)) else None
    {
      if r < grid.rows && c < grid.cols {
        IndexRoundTrip(grid, (r, c));
        occupant := cells[IndexOf(grid, (r, c))];
      } else {
        occupant := None;
      }
    }

    /** Moves a placed agent: the old cell is vacated and the new one filled. A target cell that holds
        the agent itself is left alone together with the record, which then names the target only if it did before. */
    method MoveTo(id: AgentId, r: nat, c: nat) returns (outcome: Outcome)
      requires Valid()
      modifies this`positions, cells
      ensures Valid()
      ensures id !in old(positions) ==> outcome == Failed(UnknownAgent(id))
      ensures id in old(positions) && !grid.Has((r, c)) ==> outcome == Failed(OutOfBounds(r, c, grid.rows, grid.cols))
      ensures id in old(positions) && grid.Has((r, c)) && old(At((r, c))).Some? && old(At((r, c))).value != id
        ==> outcome == Failed(CellOccupied(r, c, old(At((r, c))).value))
      ensures id in old(positions) && grid.Has((r, c)) && (old(At((r, c))) == None || old(At((r, c))) == Some(id)) ==> outcome == Done
      ensures outcome.Failed? || old(At((r, c))) == Some(id) ==> positions == old(positions) && cells[..] == old(cells[..])
      ensures outcome.Done? && old(At((r, c))) == None ==>
        && positions == old(positions)[id := (r, c)]
        && forall cell: Cell :: grid.Has(cell) ==>
             At(cell) == if cell == (r, c) then Some(id) else if cell == old(positions)[id] then None else old(At(cell))
      ensures old(TwoWay()) ==> TwoWay()
      ensures outcome.Done? ==> (positions[id] == (r, c) <==> old(At((r, c))) == None || old(positions)[id] == (r, c))
      ensures outcome.Done? && old(TwoWay()) ==> positions[id] == (r, c)
    {
      if id !in positions {
        return Failed(UnknownAgent(id));
      }
      var from := positions[id];
      if r >= grid.rows || c >= grid.cols {
        return Failed(OutOfBounds(r, c, grid.rows, grid.cols));
      }
      IndexRoundTrip(grid, (r, c));
      var target := IndexOf(grid, (r, c));
      if cells[target].Some? {
        if cells[target].value != id {
          return Failed(CellOccupied(r, c, cells[target].value));
        }
        assert At((r, c)) == Some(id);
        return Done;
      }
      ghost var was, recorded := cells[..], positions;
      IndexRoundTrip(grid, from);
      WriteCell(grid, was, from, None);
      cells[IndexOf(grid, from)] := None;
      ghost var vacated := was[IndexOf(grid, from) := None];
      assert cells[..] == vacated;
      WriteCell(grid, vacated, (r, c), Some(id));
      cells[target] := Some(id);
      assert cells[..] == vacated[target := Some(id)];
      positions := positions[id := (r, c)];
      outcome := Done;
      MovedConsistent(grid, was, recorded, id, (r, c));
    }

    /** All vacant cells in row-major order. */
    method VacantCells() returns (vacant: seq<Cell>)
      requires Valid()
      ensures StrictlySorted(vacant)
      ensures forall cell: Cell :: cell in vacant <==> grid.Has(cell) && At(cell) == None
      ensures |vacant| == CountNone(cells[..])
    {
      vacant := [];
      for i := 0 to cells.Length
        invariant StrictlySorted(vacant) && |vacant| == CountNone(cells[..i])
        invariant forall cell: Cell :: cell in vacant <==> grid.Has(cell) && IndexOf(grid, cell) < i && At(cell) == None
      {
        assert cells[..i + 1][..i] == cells[..i];
        CellRoundTrip(grid, i);
        ghost var before := vacant;
        var cell := CellOf(grid, i);
        if cells[i] == None {
          vacant := vacant + [cell];
        }
        hide Less, CellOf, IndexOf;
        AppendCell(grid, cells[..], i, before, vacant);
      }
      assert cells[..cells.Length] == cells[..];
      forall cell: Cell | grid.Has(cell) ensures IndexOf(grid, cell) < cells.Length {
        IndexRoundTrip(grid, cell);
      }
    }

    /** The vacant cell nearest to `from`, the first in row-major order among equals. */
    method NearestVacant(from: Cell, metric: Metric) returns (best: Option<Cell>)
      requires Valid() && Centred(grid, from.0, from.1)
      ensures best.None? <==> forall cell: Cell :: grid.Has(cell) ==> At(cell).Some?
      ensures best.Some? ==> grid.Has(best.value) && At(best.value) == None
      ensures best.Some? ==> forall cell: Cell :: grid.Has(cell) && At(cell) == None && cell != best.value ==>
        NearerOrFirst(grid, metric, from, best.value, cell)
    {
      hide Distance;
      var vacant := VacantCells();
      ghost var at := 0;
      best := None;
      for k := 0 to |vacant|
        invariant best.None? <==> k == 0
        invariant best.Some? ==> at < k && vacant[at] == best.value && FirstNearest(grid, metric, from, vacant, k, at)
      {
        if best.None? || Distance(grid, metric, from, vacant[k]) < Distance(grid, metric, from, best.value) {
          best := Some(vacant[k]);
          at := k;
        }
      }
      if |vacant| > 0 {
        assert vacant[at] in vacant;
        hide At;
        forall cell: Cell | cell in vacant && cell != best.value
          ensures NearerOrFirst(grid, metric, from, best.value, cell)
        {
          var i :| 0 <= i < |vacant| && vacant[i] == cell;
        }
      }
    }
  }

  /** Placed in two cells, an agent can be moved to the first with success and without effect. */
  method MoveOntoStaleCell(grid: Grid, id: AgentId, first: Cell, second: Cell) returns (index: Index, outcome: Outcome)
    requires grid.Has(first) && grid.Has(second) && first != second
    ensures index.Valid() && index.grid == grid && outcome == Done
    ensures index.positions == map[id := second]
    ensures index.At(first) == Some(id) && index.At(second) == Some(id) && !index.TwoWay()
  {
    index := new Index(grid);
    var placed := index.Place(id, first.0, first.1);
    placed := index.Place(id, second.0, second.1);
    outcome := index.MoveTo(id, first.0, first.1);
  }

  lemma PlacedConsistent(g: Grid, cells: seq<Option<AgentId>>, positions: map<AgentId, Cell>, id: AgentId, target: Cell)
    requires Consistent(g, cells, positions) && g.Has(target) && OccupantIn(g, cells, target) == None
    ensures 0 <= IndexOf(g, target) < |cells|
    ensures var after := cells[IndexOf(g, target) := Some(id)];
            && Consistent(g, after, positions[id := target])
            && (Inverse(g, cells, positions) ==> (Inverse(g, after, positions[id := target]) <==> id !in positions))
  {
    WriteCell(g, cells, target, Some(id));
    hide OccupantIn, IndexOf;
    var after, recorded := cells[IndexOf(g, target) := Some(id)], positions[id := target];
    if Inverse(g, cells, positions) && id in positions {
      assert OccupantIn(g, after, positions[id]) == Some(id) && positions[id] != target;
      assert !Inverse(g, after, recorded);
    }
  }

  lemma MovedConsistent(g: Grid, cells: seq<Option<AgentId>>, positions: map<AgentId, Cell>, id: AgentId, target: Cell)
    requires Consistent(g, cells, positions) && id in positions && g.Has(target) && OccupantIn(g, cells, target) == None
    ensures 0 <= IndexOf(g, target) < |cells| && 0 <= IndexOf(g, positions[id]) < |cells|
    ensures var after := cells[IndexOf(g, positions[id]) := None][IndexOf(g, target) := Some(id)];
            && Consistent(g, after, positions[id := target])
            && (Inverse(g, cells, positions) ==> Inverse(g, after, positions[id := target]))
  {
    var from := positions[id];
    WriteCell(g, cells, from, None);
    var vacated := cells[IndexOf(g, from) := None];
    WriteCell(g, vacated, target, Some(id));
    hide OccupantIn, IndexOf;
    var after, recorded := vacated[IndexOf(g, target) := Some(id)], positions[id := target];
    forall other | other in positions && other != id
      ensures g.Has(positions[other]) && OccupantIn(g, after, positions[other]) == Some(other)
    {
      DistinctCells(g, cells, positions, other, id);
      assert OccupantIn(g, vacated, positions[other]) == Some(other);
    }
    if Inverse(g, cells, positions) {
      forall cell: Cell | g.Has(cell) && OccupantIn(g, after, cell).Some?
        ensures OccupantIn(g, after, cell).value in recorded && recorded[OccupantIn(g, after, cell).value] == cell
      {
        assert cell != target ==> OccupantIn(g, after, cell) == OccupantIn(g, vacated, cell) == OccupantIn(g, cells, cell);
      }
    }
  }

  lemma AppendCell(g: Grid, cells: seq<Option<AgentId>>, i: nat, before: seq<Cell>, after: seq<Cell>)
    requires |cells| == Len(g) && i < Len(g) && g.cols > 0
    requires StrictlySorted(before)
    requires forall cell: Cell :: cell in before <==> g.Has(cell) && IndexOf(g, cell) < i && OccupantIn(g, cells, cell) == None
    requires after == if cells[i] == None then before + [CellOf(g, i)] else before
    ensures StrictlySorted(after)
    ensures forall cell: Cell :: cell in after <==> g.Has(cell) && IndexOf(g, cell) < i + 1 && OccupantIn(g, cells, cell) == None
  {
    CellRoundTrip(g, i);
    var new_ := CellOf(g, i);
    assert OccupantIn(g, cells, new_) == cells[i];
    forall k | 0 <= k < |before| ensures Less(before[k], new_) {
      assert before[k] in before;
      OrderOfIndices(g, before[k], new_);
    }
    forall cell: Cell | g.Has(cell) && IndexOf(g, cell) == i ensures cell == new_ {
      IndexRoundTrip(g, cell);
    }
    hide Less, CellOf, IndexOf, OccupantIn;
  }

  // ---- conservation of cells ----

  function CountNone(cells: seq<Option<AgentId>>): nat {
    if |cells| == 0 then 0 else CountNone(cells[..|cells| - 1]) + (if cells[|cells| - 1].None? then 1 else 0)
  }

  /** The occupants of the first `k` cells. */
  ghost function Occupants(cells: seq<Option<AgentId>>, k: nat): set<AgentId>
    requires k <= |cells|
  {
    if k == 0 then {} else Occupants(cells, k - 1) + (if cells[k - 1].Some? then {cells[k - 1].value} else {})
  }

  lemma {:induction false} OccupantsMembers(cells: seq<Option<AgentId>>, k: nat)
    requires k <= |cells|
    ensures forall id :: id in Occupants(cells, k) <==> exists i :: 0 <= i < k && cells[i] == Some(id)
  {
    if k > 0 {
      OccupantsMembers(cells, k - 1);
      forall id ensures id in Occupants(cells, k) <==> exists i :: 0 <= i < k && cells[i] == Some(id) {
        if id in Occupants(cells, k - 1) {
          var i :| 0 <= i < k - 1 && cells[i] == Some(id);
        }
        if cells[k - 1] == Some(id) { }
      }
    }
  }

  ghost predicate DistinctOccupants(cells: seq<Option<AgentId>>) {
    forall i, j :: 0 <= i < j < |cells| && cells[i].Some? && cells[j].Some? ==> cells[i] != cells[j]
  }

  lemma NewOccupant(cells: seq<Option<AgentId>>, k: nat)
    requires 0 < k <= |cells| && DistinctOccupants(cells) && cells[k - 1].Some?
    ensures cells[k - 1].value !in Occupants(cells, k - 1)
  {
    OccupantsMembers(cells, k - 1);
  }

  lemma {:induction false} CountOccupants(cells: seq<Option<AgentId>>, k: nat)
    requires k <= |cells| && DistinctOccupants(cells)
    ensures CountNone(cells[..k]) + |Occupants(cells, k)| == k
  {
    if k > 0 {
      CountOccupants(cells, k - 1);
      assert cells[..k][..k - 1] == cells[..k - 1];
      hide DistinctOccupants;
      if cells[k - 1].Some? {
        NewOccupant(cells, k);
      } else {
        assert Occupants(cells, k) == Occupants(cells, k - 1);
      }
    }
  }

  lemma CellsAreOccupants(g: Grid, cells: seq<Option<AgentId>>, i: nat)
    requires |cells| == Len(g) && i < |cells|
    ensures g.cols > 0 && g.Has(CellOf(g, i)) && OccupantIn(g, cells, CellOf(g, i)) == cells[i]
  {
    CellRoundTrip(g, i);
  }

  lemma TwoWayDistinct(g: Grid, cells: seq<Option<AgentId>>, positions: map<AgentId, Cell>)
    requires Inverse(g, cells, positions)
    ensures DistinctOccupants(cells)
  {
    hide IndexOf, CellOf;
    forall i: nat, j: nat | i < j < |cells| && cells[i].Some? && cells[j].Some? ensures cells[i] != cells[j] {
      CellsAreOccupants(g, cells, i);
      CellsAreOccupants(g, cells, j);
      CellRoundTrip(g, i);
      CellRoundTrip(g, j);
    }
  }

  lemma OccupantsArePlaced(g: Grid, cells: seq<Option<AgentId>>, positions: map<AgentId, Cell>)
    requires Inverse(g, cells, positions)
    ensures Occupants(cells, |cells|) == positions.Keys
  {
    hide IndexOf, CellOf;
    OccupantsMembers(cells, |cells|);
    forall id ensures id in Occupants(cells, |cells|) <==> id in positions {
      if id in positions {
        IndexRoundTrip(g, positions[id]);
        assert cells[IndexOf(g, positions[id])] == Some(id);
      }
      if i :| 0 <= i < |cells| && cells[i] == Some(id) {
        CellsAreOccupants(g, cells, i);
      }
    }
  }

  /** With a two-way index the vacant cells and the placed agents together fill the grid. */
  lemma CellsConserved(g: Grid, cells: seq<Option<AgentId>>, positions: map<AgentId, Cell>)
    requires Inverse(g, cells, positions)
    ensures CountNone(cells) + |positions| == Len(g) == g.rows * g.cols
  {
    TwoWayDistinct(g, cells, positions);
    OccupantsArePlaced(g, cells, positions);
    hide OccupantIn, Occupants, CountNone, DistinctOccupants;
    CountOccupants(cells, |cells|);
    assert cells[..|cells|] == cells;
    assert |positions| == |positions.Keys|;
  }
}
