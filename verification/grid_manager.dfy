/** The shared grid actor (AGridManager): a row-major array of cells with a
    cost and a blocked flag, the neighbour enumeration A* expands through, and
    the centred cell <-> world conversion. */
module GridManager {
  import opened Geometry
  import opened GridIndex

  /** FGridCell. `integrationValue` and `flowDirection` belong to an older
      flow-field variant and are only ever defaulted here. */
  datatype GridCell = GridCell(
    x: int,
    y: int,
    worldLocation: Vec3,
    cost: int,
    blocked: bool,
    integrationValue: real,
    flowDirection: Vec3)

  /** A default-constructed FGridCell. The struct gives X, Y and
      WorldLocation no initialiser; the model fixes them at zero, and
      GenerateGrid overwrites them for every inside cell. */
  function DefaultCell(): (c: GridCell)
    ensures c.cost == 1 && !c.blocked
    ensures c.integrationValue == 0.0 && c.flowDirection == ZeroVector
  {
    GridCell(0, 0, ZeroVector, 1, false, 0.0, ZeroVector)
  }

  /** The actor's grid state: GridOrigin, GridWidth, GridHeight, CellSize
      and the cell array. */
  datatype Grid = Grid(
    origin: Vec3,
    width: int,
    height: int,
    cellSize: real,
    cells: seq<GridCell>)

  /** The actor's property defaults with an empty array. */
  const DefaultGrid: Grid := Grid(ZeroVector, 50, 50, 100.0, [])

  /** The array holds one entry per slot of a `width * height` grid. */
  predicate Shaped(g: Grid) {
    |g.cells| == g.width * g.height
  }

  predicate Inside(g: Grid, p: Point) {
    IsInside(g.width, g.height, p.x, p.y)
  }

  function CellAt(g: Grid, p: Point): GridCell
    requires Shaped(g) && Inside(g, p)
  {
    IndexInRange(g.width, g.height, p.x, p.y);
    g.cells[XYToIndex(g.width, p.x, p.y)]
  }

  /** Every inside slot records its own coordinates, as GenerateGrid leaves it. */
  predicate WellFormed(g: Grid) {
    && Shaped(g)
    && forall x: int, y: int | 0 <= x < g.width && 0 <= y < g.height ::
         CellAt(g, Point(x, y)).x == x && CellAt(g, Point(x, y)).y == y
  }

  /** Half the grid's extent minus half a cell: the shift that centres the
      grid on GridOrigin. */
  function CentringOffset(cells: int, cellSize: real): real {
    (cells as real * cellSize) * 0.5 - cellSize * 0.5
  }

  /** CellToWorld: the centre of a cell in world space. */
  function CellToWorld(g: Grid, c: Point): Vec3 {
    Plus(g.origin, Vec3(
      c.x as real * g.cellSize - CentringOffset(g.width, g.cellSize),
      c.y as real * g.cellSize - CentringOffset(g.height, g.cellSize),
      0.0))
  }

  /** WorldToCell: round to the nearest cell centre, then clamp each axis
      into [0, size - 1]; height is ignored. */
  function WorldToCell(g: Grid, world: Vec3): (c: Point)
    requires g.cellSize != 0.0
    ensures g.width > 0 && g.height > 0 ==> Inside(g, c)
  {
    var local := Minus(world, g.origin);
    var x := RoundToInt((local.x + CentringOffset(g.width, g.cellSize)) / g.cellSize);
    var y := RoundToInt((local.y + CentringOffset(g.height, g.cellSize)) / g.cellSize);
    Point(Clamp(x, 0, g.width - 1), Clamp(y, 0, g.height - 1))
  }

  /** Converting a cell to world space and back gives the same cell. */
  lemma WorldCellRoundTrip(g: Grid, c: Point)
    requires g.cellSize != 0.0 && Inside(g, c)
    ensures WorldToCell(g, CellToWorld(g, c)) == c
  {
    var local := Minus(CellToWorld(g, c), g.origin);
    assert local.x + CentringOffset(g.width, g.cellSize) == c.x as real * g.cellSize;
    assert local.y + CentringOffset(g.height, g.cellSize) == c.y as real * g.cellSize;
    assert (c.x as real * g.cellSize) / g.cellSize == c.x as real;
    assert (c.y as real * g.cellSize) / g.cellSize == c.y as real;
    RoundWhole(c.x);
    RoundWhole(c.y);
  }

  /** The cell GenerateGrid writes at (x, y). */
  function LaidOutCell(g: Grid, x: int, y: int): GridCell {
    DefaultCell().(x := x, y := y, worldLocation := CellToWorld(g, Point(x, y)),
                   cost := 1, blocked := false)
  }

  /** GenerateGrid, cell layout only: empty the array, resize it to
      width * height default cells, then visit every (x, y) in row-major
      order. The obstacle roll and debug drawing it may trigger afterwards
      are separate operations. */
  function GenerateGrid(g: Grid): (r: Grid)
    requires g.width * g.height >= 0
  {
    var n := g.width * g.height;
    if g.width > 0 && g.height > 0 then
      g.(cells := seq(n, i requires 0 <= i < n => LaidOutCell(g, i % g.width, i / g.width)))
    else
      g.(cells := seq(n, i => DefaultCell()))
  }

  /** After GenerateGrid the array has exactly width * height cells, and the
      cell at XYToIndex(x, y) records x and y, sits at CellToWorld(x, y),
      costs 1 and is not blocked; the configuration is untouched. */
  lemma GenerateGridLayout(g: Grid)
    requires g.width * g.height >= 0
    ensures var r := GenerateGrid(g);
      && r.origin == g.origin && r.width == g.width && r.height == g.height
      && r.cellSize == g.cellSize
      && |r.cells| == g.width * g.height
      && WellFormed(r)
      && forall x: int, y: int | IsInside(g.width, g.height, x, y) ::
           && CellAt(r, Point(x, y)).worldLocation == CellToWorld(g, Point(x, y))
           && CellAt(r, Point(x, y)).cost == 1
           && !CellAt(r, Point(x, y)).blocked
  {
    var r := GenerateGrid(g);
    forall x: int, y: int | IsInside(g.width, g.height, x, y)
      ensures CellAt(r, Point(x, y)) == LaidOutCell(g, x, y)
    {
      var i := XYToIndex(g.width, x, y);
      IndexInRange(g.width, g.height, x, y);
      DivModUnique(i, g.width, y, x);
    }
  }

  /** RandomizeGridCosts with the per-cell FMath::FRand() < Chance outcomes
      supplied as `roll`: a rolled cell becomes (Cost -1, blocked), every
      other cell (Cost 1, unblocked). */
  function RandomizeGridCosts(g: Grid, roll: seq<bool>): (r: Grid)
    requires |roll| == |g.cells|
    ensures r.origin == g.origin && r.width == g.width && r.height == g.height
    ensures r.cellSize == g.cellSize && |r.cells| == |g.cells|
    ensures forall i | 0 <= i < |r.cells| ::
      && (r.cells[i].cost < 0 <==> r.cells[i].blocked)
      && ((r.cells[i].cost == -1 && r.cells[i].blocked) || (r.cells[i].cost == 1 && !r.cells[i].blocked))
      && r.cells[i].blocked == roll[i]
      && r.cells[i].(cost := g.cells[i].cost, blocked := g.cells[i].blocked) == g.cells[i]
  {
    g.(cells := seq(|g.cells|, i requires 0 <= i < |g.cells| =>
      if roll[i] then g.cells[i].(cost := -1, blocked := true)
      else g.cells[i].(cost := 1, blocked := false)))
  }

  /** Every outcome of the obstacle roll is reachable: any choice of blocked
      cells is what some roll produces. */
  lemma RandomizeCoversEveryLayout(g: Grid, wanted: seq<bool>)
    requires |wanted| == |g.cells|
    ensures exists roll: seq<bool> | |roll| == |g.cells| ::
      forall i | 0 <= i < |g.cells| :: RandomizeGridCosts(g, roll).cells[i].blocked == wanted[i]
  {
    var r := RandomizeGridCosts(g, wanted);
    assert forall i | 0 <= i < |g.cells| :: r.cells[i].blocked == wanted[i];
  }

  /** GetNeighbors' obstacle test: Cost >= 500 or the blocked flag. A negative
      cost without the flag passes. */
  predicate Passable(c: GridCell) {
    !(c.cost >= 500 || c.blocked)
  }

  /** The eight offsets in GetNeighbors' order: cardinals, then diagonals. */
  const NeighbourOffsets: seq<Offset> := [
    Offset(0, 1), Offset(0, -1), Offset(-1, 0), Offset(1, 0),
    Offset(-1, -1), Offset(1, -1), Offset(1, 1), Offset(-1, 1)]

  function Shift(p: Point, o: Offset): Point {
    Point(p.x + o.dx, p.y + o.dy)
  }

  predicate IsDiagonal(o: Offset) {
    Abs(o.dx) + Abs(o.dy) == 2
  }

  /** Whether GetNeighbors keeps the cell at `from + o`: it is inside and
      passable, and for a diagonal step both cells sharing an edge with the
      source and the target are inside and passable too. */
  predicate Accepts(g: Grid, from: Point, o: Offset)
    requires Shaped(g)
  {
    var n := Shift(from, o);
    && Inside(g, n) && Passable(CellAt(g, n))
    && (IsDiagonal(o) ==>
          var a := Point(from.x + o.dx, from.y);
          var b := Point(from.x, from.y + o.dy);
          && Inside(g, a) && Inside(g, b)
          && Passable(CellAt(g, a)) && Passable(CellAt(g, b)))
  }

  function CollectNeighbours(g: Grid, from: Point, offsets: seq<Offset>): (r: seq<Point>)
    requires Shaped(g)
    ensures |r| <= |offsets|
    ensures forall p :: p in r <==> exists o :: o in offsets && Accepts(g, from, o) && p == Shift(from, o)
  {
    if offsets == [] then []
    else
      var rest := CollectNeighbours(g, from, offsets[1..]);
      assert forall o :: o in offsets <==> o == offsets[0] || o in offsets[1..];
      if Accepts(g, from, offsets[0]) then [Shift(from, offsets[0])] + rest else rest
  }

  /** GetNeighbors(X, Y): the accepted cells among the eight offsets, as the
      positions of the cells it points to. */
  function GetNeighbors(g: Grid, from: Point): (r: seq<Point>)
    requires Shaped(g)
    ensures |r| <= 8
  {
    CollectNeighbours(g, from, NeighbourOffsets)
  }

  /** An independent description of the cells GetNeighbors returns: inside,
      passable, at king-move distance exactly one, and, when diagonal, not
      cutting a corner past an outside or impassable cell. */
  predicate Adjacent(g: Grid, from: Point, p: Point)
    requires Shaped(g)
  {
    && Chebyshev(from, p) == 1
    && Inside(g, p) && Passable(CellAt(g, p))
    && (p.x != from.x && p.y != from.y ==>
          && Inside(g, Point(p.x, from.y)) && Inside(g, Point(from.x, p.y))
          && Passable(CellAt(g, Point(p.x, from.y)))
          && Passable(CellAt(g, Point(from.x, p.y))))
  }

  /** A cell is in GetNeighbors(from) exactly when it is Adjacent to it. */
  lemma GetNeighborsExactly(g: Grid, from: Point, p: Point)
    requires Shaped(g)
    ensures p in GetNeighbors(g, from) <==> Adjacent(g, from, p)
  {
    if Adjacent(g, from, p) {
      var o := Offset(p.x - from.x, p.y - from.y);
      OffsetOfAdjacent(from, p);
      AdjacentAccepted(g, from, p);
      assert Shift(from, o) == p;
    }
    if p in GetNeighbors(g, from) {
      var o :| o in NeighbourOffsets && Accepts(g, from, o) && p == Shift(from, o);
      AcceptedAdjacent(g, from, o);
    }
  }

  /** The step to a cell one king move away is one of the eight offsets. */
  lemma OffsetOfAdjacent(from: Point, p: Point)
    requires Chebyshev(from, p) == 1
    ensures Offset(p.x - from.x, p.y - from.y) in NeighbourOffsets
  {
    var o := Offset(p.x - from.x, p.y - from.y);
    if o.dx == 0 {
      assert o == NeighbourOffsets[0] || o == NeighbourOffsets[1];
    } else if o.dy == 0 {
      assert o == NeighbourOffsets[2] || o == NeighbourOffsets[3];
    } else {
      assert o == NeighbourOffsets[4] || o == NeighbourOffsets[5]
          || o == NeighbourOffsets[6] || o == NeighbourOffsets[7];
    }
  }

  lemma AdjacentAccepted(g: Grid, from: Point, p: Point)
    requires Shaped(g) && Adjacent(g, from, p)
    ensures Accepts(g, from, Offset(p.x - from.x, p.y - from.y))
  {
    var o := Offset(p.x - from.x, p.y - from.y);
    assert Shift(from, o) == p;
    assert IsDiagonal(o) <==> p.x != from.x && p.y != from.y;
    assert Point(from.x + o.dx, from.y) == Point(p.x, from.y);
    assert Point(from.x, from.y + o.dy) == Point(from.x, p.y);
  }

  lemma AcceptedAdjacent(g: Grid, from: Point, o: Offset)
    requires Shaped(g) && o in NeighbourOffsets && Accepts(g, from, o)
    ensures Adjacent(g, from, Shift(from, o))
  {
    var p := Shift(from, o);
    var i :| 0 <= i < |NeighbourOffsets| && NeighbourOffsets[i] == o;
    assert Chebyshev(from, p) == 1;
    assert IsDiagonal(o) <==> p.x != from.x && p.y != from.y;
    assert Point(from.x + o.dx, from.y) == Point(p.x, from.y);
    assert Point(from.x, from.y + o.dy) == Point(from.x, p.y);
  }

  /** Every neighbour is inside, passable, at distance one, and distinct
      from the source. */
  lemma NeighboursAreAdjacentCells(g: Grid, from: Point)
    requires Shaped(g)
    ensures forall p | p in GetNeighbors(g, from) ::
      Inside(g, p) && Chebyshev(from, p) == 1 && Passable(CellAt(g, p)) && p != from
  {
    forall p | p in GetNeighbors(g, from)
      ensures Inside(g, p) && Chebyshev(from, p) == 1 && Passable(CellAt(g, p)) && p != from
    {
      GetNeighborsExactly(g, from, p);
    }
  }

  /** A route that moves from each cell to one GetNeighbors returns for it. */
  predicate CellWalk(g: Grid, ps: seq<Point>)
    requires Shaped(g)
  {
    |ps| >= 1 && forall i | 0 <= i < |ps| - 1 :: ps[i + 1] in GetNeighbors(g, ps[i])
  }
}
