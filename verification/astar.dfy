/** AAStarController: A* over the grid manager's cells. Cells are numbered
    row-major with the grid manager's width, neighbours come from
    GetNeighbors, a step costs MovementCostBetween times max(1, Cost) of the
    cell entered, and the octile heuristic guides the open set. */
module AStar {
  import opened Geometry
  import opened GridIndex
  import opened GridManager
  import opened SearchCore
  import opened Octile

  /** The controller's own GridWidth property default. */
  const ControllerDefaultWidth: int := 30

  /** The index of a cell in the grid manager's array. */
  function CellIndex(gm: Grid, c: Point): int {
    XYToIndex(gm.width, c.x, c.y)
  }

  /** IndexToXY, decoding with the grid manager's width, the same width
      CellIndex encodes with. */
  function CellOfIndex(gm: Grid, k: int): (c: Point)
    requires gm.width > 0
    ensures CellIndex(gm, c) == k
    ensures 0 <= k < |gm.cells| && Shaped(gm) ==> Inside(gm, c)
  {
    var c := IndexToXY(gm.width, k);
    if 0 <= k < |gm.cells| && Shaped(gm) then
      IndexOfCoords(gm.width, gm.height, k);
      c
    else c
  }

  /** Decoding what CellIndex encoded gives the cell back, for every inside
      cell. */
  lemma CellIndexRoundTrip(gm: Grid, c: Point)
    requires Inside(gm, c)
    ensures CellOfIndex(gm, CellIndex(gm, c)) == c
    ensures Shaped(gm) ==> 0 <= CellIndex(gm, c) < |gm.cells|
  {
    CoordsOfIndex(gm.width, gm.height, c.x, c.y);
    IndexInRange(gm.width, gm.height, c.x, c.y);
  }

  /** As written, RunAStar decodes indices with the controller's own
      GridWidth while the grid manager encodes them with its GridWidth. */
  function CellOfIndexAsWritten(controllerWidth: int, k: int): Point
    requires controllerWidth > 0
  {
    IndexToXY(controllerWidth, k)
  }

  /** With both actors at their defaults (grid manager 50 wide, controller
      30 wide) cell (0, 1) is encoded as 50 and decoded as (20, 1), so a
      returned path would name the wrong cells. */
  lemma DefaultWidthsMisplaceCells()
    ensures CellIndex(DefaultGrid, Point(0, 1)) == 50
    ensures CellOfIndexAsWritten(ControllerDefaultWidth, CellIndex(DefaultGrid, Point(0, 1))) == Point(20, 1)
    ensures CellOfIndex(DefaultGrid, CellIndex(DefaultGrid, Point(0, 1))) == Point(0, 1)
  {
    CellIndexRoundTrip(DefaultGrid, Point(0, 1));
  }

  /** A start or goal cell RunAStar accepts: inside, with a valid array
      index and a non-negative cost. */
  predicate ValidEndpoint(gm: Grid, c: Point)
    requires Shaped(gm)
  {
    Inside(gm, c) && CellAt(gm, c).cost >= 0
  }

  /** The indices of the cells GetNeighbors returns for the cell at k. */
  function NeighbourIndices(gm: Grid, k: int): seq<int> {
    if Shaped(gm) && gm.width > 0 then
      var ns := GetNeighbors(gm, CellOfIndex(gm, k));
      seq(|ns|, i requires 0 <= i < |ns| => CellIndex(gm, ns[i]))
    else []
  }

  /** The cell at an inside point has exactly the indices of its
      GetNeighbors cells as neighbours, and each of those lies in the
      array. */
  lemma NeighbourIndicesOfCell(gm: Grid, p: Point)
    requires Shaped(gm) && Inside(gm, p)
    ensures forall q :: q in GetNeighbors(gm, p) ==> CellIndex(gm, q) in NeighbourIndices(gm, CellIndex(gm, p))
    ensures forall k :: k in NeighbourIndices(gm, CellIndex(gm, p)) ==>
      0 <= k < |gm.cells| && CellOfIndex(gm, k) in GetNeighbors(gm, p)
  {
    CellIndexRoundTrip(gm, p);
    var ns := GetNeighbors(gm, p);
    NeighboursAreAdjacentCells(gm, p);
    forall q | q in ns
      ensures CellIndex(gm, q) in NeighbourIndices(gm, CellIndex(gm, p))
    {
      var i :| 0 <= i < |ns| && ns[i] == q;
      assert NeighbourIndices(gm, CellIndex(gm, p))[i] == CellIndex(gm, q);
    }
    forall k | k in NeighbourIndices(gm, CellIndex(gm, p))
      ensures 0 <= k < |gm.cells| && CellOfIndex(gm, k) in GetNeighbors(gm, p)
    {
      var i :| 0 <= i < |ns| && CellIndex(gm, ns[i]) == k;
      CellIndexRoundTrip(gm, ns[i]);
    }
  }

  /** Neighbour lists only name array slots. */
  lemma NeighbourIndicesInRange(gm: Grid)
    requires Shaped(gm) && gm.width > 0
    ensures forall k, j | 0 <= k < |gm.cells| && 0 <= j < |NeighbourIndices(gm, k)| ::
      0 <= NeighbourIndices(gm, k)[j] < |gm.cells|
  {
    forall k, j | 0 <= k < |gm.cells| && 0 <= j < |NeighbourIndices(gm, k)|
      ensures 0 <= NeighbourIndices(gm, k)[j] < |gm.cells|
    {
      var p := CellOfIndex(gm, k);
      NeighbourIndicesOfCell(gm, p);
      assert NeighbourIndices(gm, k)[j] in NeighbourIndices(gm, CellIndex(gm, p));
    }
  }

  /** TerrainCost: max(1, Cost) of a valid index, 1 otherwise. */
  function TerrainCost(gm: Grid, k: int): (t: real)
    ensures t >= 1.0
  {
    if 0 <= k < |gm.cells| then Max(1, gm.cells[k].cost) as real else 1.0
  }

  /** The graph RunAStar searches: the grid manager's cells, GetNeighbors
      adjacency, no shortcuts, step cost MovementCostBetween * TerrainCost
      of the cell entered, octile heuristic towards the goal. */
  function SearchGraph(gm: Grid, diag: real, goal: int): (gr: Graph)
    requires Shaped(gm) && gm.width > 0
    ensures GraphOk(gr) && gr.n == |gm.cells|
  {
    NeighbourIndicesInRange(gm);
    Graph(
      |gm.cells|,
      k => NeighbourIndices(gm, k),
      (p, k) => false,
      (p, k) => MovementCostBetween(gm.width, diag, p, k) * TerrainCost(gm, k),
      k => Heuristic(gm.width, diag, k, goal))
  }

  /** A walk between cells becomes a walk between their indices. */
  lemma CellWalkIsIndexWalk(gm: Grid, diag: real, goal: int, ps: seq<Point>)
    requires Shaped(gm) && gm.width > 0 && CellWalk(gm, ps) && Inside(gm, ps[0])
    ensures var ws := seq(|ps|, i requires 0 <= i < |ps| => CellIndex(gm, ps[i]));
      Walk(SearchGraph(gm, diag, goal), ws)
  {
    var gr := SearchGraph(gm, diag, goal);
    var ws := seq(|ps|, i requires 0 <= i < |ps| => CellIndex(gm, ps[i]));
    assert forall i | 0 <= i < |ps| :: Inside(gm, ps[i]) by {
      forall i | 0 <= i < |ps|
        ensures Inside(gm, ps[i])
      {
        if i > 0 {
          NeighboursAreAdjacentCells(gm, ps[i - 1]);
        }
      }
    }
    forall i | 0 <= i < |ws|
      ensures 0 <= ws[i] < gr.n
    {
      CellIndexRoundTrip(gm, ps[i]);
    }
    forall i | 0 <= i < |ws| - 1
      ensures ws[i + 1] in gr.neighbours(ws[i])
    {
      NeighbourIndicesOfCell(gm, ps[i]);
    }
  }

  /** RunAStar(StartCell, GoalCell): empty unless both cells are inside,
      have valid indices and non-negative cost; otherwise the A* search
      over SearchGraph, its index path decoded back to cells.

      A non-empty result starts at the start, ends at the goal and steps
      each time to a cell GetNeighbors offers; an empty result for valid
      endpoints means no such route exists; a valid start equal to the goal
      gives [start]. */
  method RunAStar(gm: Grid, diag: real, start: Point, goal: Point) returns (path: seq<Point>)
    requires WellFormed(gm)
    ensures !(ValidEndpoint(gm, start) && ValidEndpoint(gm, goal)) ==> path == []
    ensures path != [] ==> path[0] == start && path[|path| - 1] == goal
    ensures forall i | 0 <= i < |path| - 1 :: path[i + 1] in GetNeighbors(gm, path[i])
    ensures ValidEndpoint(gm, start) && ValidEndpoint(gm, goal) && path == [] ==>
      forall ps | CellWalk(gm, ps) && ps[0] == start :: ps[|ps| - 1] != goal
    ensures ValidEndpoint(gm, start) && start == goal ==> path == [start]
  {
    if !Inside(gm, start) || !Inside(gm, goal) {
      return [];
    }
    var startIdx := CellIndex(gm, start);
    var goalIdx := CellIndex(gm, goal);
    CellIndexRoundTrip(gm, start);
    CellIndexRoundTrip(gm, goal);
    if !(0 <= startIdx < |gm.cells|) || !(0 <= goalIdx < |gm.cells|)
       || gm.cells[startIdx].cost < 0 || gm.cells[goalIdx].cost < 0 {
      return [];
    }
    var gr := SearchGraph(gm, diag, goalIdx);
    var found := BestFirst(gr, startIdx, goalIdx);
    path := seq(|found|, i requires 0 <= i < |found| => CellOfIndex(gm, found[i]));
    forall i | 0 <= i < |path| - 1
      ensures path[i + 1] in GetNeighbors(gm, path[i])
    {
      assert Link(gr, found[i], found[i + 1]);
      var p := CellOfIndex(gm, found[i]);
      NeighbourIndicesOfCell(gm, p);
    }
    if found == [] {
      forall ps | CellWalk(gm, ps) && ps[0] == start
        ensures ps[|ps| - 1] != goal
      {
        CellWalkIsIndexWalk(gm, diag, goalIdx, ps);
        var ws := seq(|ps|, i requires 0 <= i < |ps| => CellIndex(gm, ps[i]));
        assert ws[0] == startIdx;
        assert ws[|ws| - 1] == CellIndex(gm, ps[|ps| - 1]);
      }
    }
  }

  /** FindPath(StartWorld, GoalWorld): snap both locations to cells with
      the grid manager's WorldToCell, reject outside or negative-cost
      cells, run A* and map the cells back to their world-space centres.
      Snapping the returned points again gives a GetNeighbors route from the
      start cell to the goal cell. */
  method FindPath(gm: Grid, diag: real, startWorld: Vec3, goalWorld: Vec3) returns (route: seq<Vec3>)
    requires WellFormed(gm) && gm.cellSize != 0.0
    ensures var s, g := WorldToCell(gm, startWorld), WorldToCell(gm, goalWorld);
      && (!(ValidEndpoint(gm, s) && ValidEndpoint(gm, g)) ==> route == [])
      && (route != [] ==> WorldToCell(gm, route[0]) == s && WorldToCell(gm, route[|route| - 1]) == g)
      && (ValidEndpoint(gm, s) && ValidEndpoint(gm, g) && route == [] ==>
            forall ps | CellWalk(gm, ps) && ps[0] == s :: ps[|ps| - 1] != g)
    ensures forall i | 0 <= i < |route| - 1 ::
      WorldToCell(gm, route[i + 1]) in GetNeighbors(gm, WorldToCell(gm, route[i]))
  {
    var s := WorldToCell(gm, startWorld);
    var g := WorldToCell(gm, goalWorld);
    if !Inside(gm, s) || !Inside(gm, g) {
      return [];
    }
    if CellAt(gm, s).cost < 0 || CellAt(gm, g).cost < 0 {
      return [];
    }
    var cells := RunAStar(gm, diag, s, g);
    route := seq(|cells|, i requires 0 <= i < |cells| => CellToWorld(gm, cells[i]));
    assert forall i | 0 <= i < |cells| :: Inside(gm, cells[i]) by {
      forall i | 0 <= i < |cells|
        ensures Inside(gm, cells[i])
      {
        if i > 0 {
          NeighboursAreAdjacentCells(gm, cells[i - 1]);
        }
      }
    }
    forall i | 0 <= i < |cells|
      ensures WorldToCell(gm, route[i]) == cells[i]
    {
      WorldCellRoundTrip(gm, cells[i]);
    }
  }
}
