/** AThetaStarController: Lazy Theta* over the controller's own cost map.
    The grid fields it uses (GridWidth, GridHeight, CellSize, GridOrigin,
    CostMap, bAllowDiagonal, bPreventDiagonalCutting) are the ones
    AStarController.h declares; walkability here is `Cost >= 0`, a test of
    its own, distinct from the grid manager's. */
module ThetaStar {
  import opened Geometry
  import opened GridIndex
  import opened Bresenham
  import opened SearchCore
  import opened Octile

  datatype Controller = Controller(
    gridWidth: int,
    gridHeight: int,
    cellSize: real,
    origin: Vec3,
    costMap: seq<int>,
    allowDiagonal: bool,
    preventDiagonalCutting: bool,
    diagonalCost: real)

  /** The property defaults, before any cost map exists. */
  const DefaultController: Controller :=
    Controller(30, 30, 100.0, ZeroVector, [], true, true, 1.41421356237)

  /** The grid manager's GridWidth default. */
  const ManagerDefaultWidth: int := 50

  /** CreateDefaultCostMap(InGridWidth, InGridHeight): a positive argument
      replaces the matching dimension; then the cost map becomes
      GridWidth * GridHeight entries of 1. */
  function CreateDefaultCostMap(c: Controller, inWidth: int, inHeight: int): (r: Controller)
    requires (if inWidth > 0 then inWidth else c.gridWidth) * (if inHeight > 0 then inHeight else c.gridHeight) >= 0
    ensures r.gridWidth == (if inWidth > 0 then inWidth else c.gridWidth)
    ensures r.gridHeight == (if inHeight > 0 then inHeight else c.gridHeight)
    ensures |r.costMap| == r.gridWidth * r.gridHeight
    ensures forall i | 0 <= i < |r.costMap| :: r.costMap[i] == 1
    ensures r.(gridWidth := c.gridWidth, gridHeight := c.gridHeight, costMap := c.costMap) == c
  {
    var w := if inWidth > 0 then inWidth else c.gridWidth;
    var h := if inHeight > 0 then inHeight else c.gridHeight;
    c.(gridWidth := w, gridHeight := h, costMap := seq(w * h, _ => 1))
  }

  /** GenerateCostMap with the actor's location as a parameter: a zero
      origin is replaced by the actor location shifted back by half the
      grid's extent less half a cell; a cost map of the wrong size is
      replaced by the default one. The debug drawing is left out. */
  function GenerateCostMap(c: Controller, actorLocation: Vec3): (r: Controller)
    requires c.gridWidth * c.gridHeight >= 0
    ensures r.gridWidth == c.gridWidth && r.gridHeight == c.gridHeight
    ensures |r.costMap| == r.gridWidth * r.gridHeight
    ensures |c.costMap| == c.gridWidth * c.gridHeight ==> r.costMap == c.costMap
    ensures c.origin != ZeroVector ==> r.origin == c.origin
    ensures c.origin == ZeroVector ==>
      r.origin == Minus(actorLocation, Vec3(
        (c.gridWidth as real * c.cellSize) * 0.5 - c.cellSize * 0.5,
        (c.gridHeight as real * c.cellSize) * 0.5 - c.cellSize * 0.5, 0.0))
  {
    var c1 := if c.origin == ZeroVector then
      c.(origin := Minus(actorLocation, Vec3(
        (c.gridWidth as real * c.cellSize) * 0.5 - c.cellSize * 0.5,
        (c.gridHeight as real * c.cellSize) * 0.5 - c.cellSize * 0.5, 0.0)))
    else c;
    if |c1.costMap| != c1.gridWidth * c1.gridHeight then CreateDefaultCostMap(c1, -1, -1) else c1
  }

  /** IsWalkableIndex: false outside [0, CostMap.Num()), else Cost >= 0. */
  function IsWalkableIndex(c: Controller, i: int): (b: bool)
    ensures b <==> 0 <= i < |c.costMap| && c.costMap[i] >= 0
  {
    if i < 0 || i >= |c.costMap| then false else c.costMap[i] >= 0
  }

  /** A freshly created default map makes every cell of the grid walkable. */
  lemma DefaultMapAllWalkable(c: Controller, inWidth: int, inHeight: int, x: int, y: int)
    requires (if inWidth > 0 then inWidth else c.gridWidth) * (if inHeight > 0 then inHeight else c.gridHeight) >= 0
    requires var r := CreateDefaultCostMap(c, inWidth, inHeight); IsInside(r.gridWidth, r.gridHeight, x, y)
    ensures var r := CreateDefaultCostMap(c, inWidth, inHeight);
      IsWalkableIndex(r, XYToIndex(r.gridWidth, x, y))
  {
    var r := CreateDefaultCostMap(c, inWidth, inHeight);
    IndexInRange(r.gridWidth, r.gridHeight, x, y);
  }

  function Walkable(c: Controller, p: Point): bool {
    IsWalkableIndex(c, XYToIndex(c.gridWidth, p.x, p.y))
  }

  predicate InsideGrid(c: Controller, p: Point) {
    IsInside(c.gridWidth, c.gridHeight, p.x, p.y)
  }

  /** IndexToXY with the controller's own width: the inverse of the
      XYToIndex the controller encodes with. */
  function CellOf(c: Controller, k: int): (p: Point)
    requires c.gridWidth > 0
    ensures XYToIndex(c.gridWidth, p.x, p.y) == k
    ensures 0 <= k < c.gridWidth * c.gridHeight ==> InsideGrid(c, p)
  {
    var p := IndexToXY(c.gridWidth, k);
    if 0 <= k < c.gridWidth * c.gridHeight then
      IndexOfCoords(c.gridWidth, c.gridHeight, k);
      p
    else p
  }

  /** As written, the controller's header decodes indices with the grid
      manager's GridWidth while its XYToIndex encodes with its own. */
  function CellOfAsWritten(managerWidth: int, k: int): Point
    requires managerWidth > 0
  {
    IndexToXY(managerWidth, k)
  }

  /** With both actors at their defaults (controller 30 wide, grid manager
      50 wide) cell (0, 1) is encoded as 30 and decoded as (30, 0), a cell
      outside the 30-wide grid; decoding with the controller's own width
      gives (0, 1) back. */
  lemma DefaultWidthsMisplaceCells()
    ensures XYToIndex(DefaultController.gridWidth, 0, 1) == 30
    ensures CellOfAsWritten(ManagerDefaultWidth, 30) == Point(30, 0)
    ensures !InsideGrid(DefaultController, CellOfAsWritten(ManagerDefaultWidth, 30))
    ensures CellOf(DefaultController, 30) == Point(0, 1)
  {
    ManagerWidthDecode();
    ControllerWidthDecode();
  }

  lemma ManagerWidthDecode()
    ensures CellOfAsWritten(ManagerDefaultWidth, 30) == Point(30, 0)
  {
    assert XYToIndex(50, 30, 0) == 30;
    CoordsOfIndex(50, 50, 30, 0);
  }

  lemma ControllerWidthDecode()
    ensures CellOf(DefaultController, 30) == Point(0, 1)
  {
    assert XYToIndex(30, 0, 1) == 30;
    CoordsOfIndex(30, 30, 0, 1);
  }

  /** The eight offsets in GetNeighborsIndices' order: cardinals first. */
  const Offsets: seq<Offset> := [
    Offset(0, 1), Offset(0, -1), Offset(1, 0), Offset(-1, 0),
    Offset(1, 1), Offset(1, -1), Offset(-1, 1), Offset(-1, -1)]

  /** How many offsets are tried: all 8 with bAllowDiagonal, else the 4
      cardinals. */
  function OffsetCount(c: Controller): nat {
    if c.allowDiagonal then 8 else 4
  }

  /** Whether GetNeighborsIndices keeps `p + o`: inside, walkable, and with
      bPreventDiagonalCutting on a diagonal step, both cells sharing an edge
      with p and p + o walkable (by index; they are not bounds-checked). */
  predicate Accepts(c: Controller, p: Point, o: Offset) {
    var q := Point(p.x + o.dx, p.y + o.dy);
    && InsideGrid(c, q)
    && Walkable(c, q)
    && (c.preventDiagonalCutting && Abs(o.dx) + Abs(o.dy) == 2 ==>
          Walkable(c, Point(p.x + o.dx, p.y)) && Walkable(c, Point(p.x, p.y + o.dy)))
  }

  function Collect(c: Controller, p: Point, offsets: seq<Offset>): seq<int> {
    if offsets == [] then []
    else
      var o := offsets[0];
      var rest := Collect(c, p, offsets[1..]);
      if Accepts(c, p, o) then [XYToIndex(c.gridWidth, p.x + o.dx, p.y + o.dy)] + rest else rest
  }

  /** Every collected index comes from an accepted offset. */
  lemma {:induction false} CollectedFrom(c: Controller, p: Point, offsets: seq<Offset>, k: int) returns (o: Offset)
    requires k in Collect(c, p, offsets)
    ensures o in offsets && Accepts(c, p, o) && k == XYToIndex(c.gridWidth, p.x + o.dx, p.y + o.dy)
  {
    var o0 := offsets[0];
    if Accepts(c, p, o0) && k == XYToIndex(c.gridWidth, p.x + o0.dx, p.y + o0.dy) {
      o := o0;
    } else {
      o := CollectedFrom(c, p, offsets[1..], k);
    }
  }

  /** Every accepted offset contributes its index. */
  lemma {:induction false} CollectedAll(c: Controller, p: Point, offsets: seq<Offset>, o: Offset)
    requires o in offsets && Accepts(c, p, o)
    ensures XYToIndex(c.gridWidth, p.x + o.dx, p.y + o.dy) in Collect(c, p, offsets)
  {
    if o != offsets[0] {
      CollectedAll(c, p, offsets[1..], o);
    }
  }

  /** GetNeighborsIndices(Index). */
  function GetNeighborsIndices(c: Controller, index: int): seq<int>
    requires c.gridWidth > 0
  {
    Collect(c, CellOf(c, index), Offsets[..OffsetCount(c)])
  }

  /** An independent description of a neighbour: one king move away,
      inside and walkable; a diagonal one only with bAllowDiagonal, and with
      bPreventDiagonalCutting only past two walkable corner cells. */
  predicate Neighbour(c: Controller, p: Point, q: Point) {
    && Chebyshev(p, q) == 1
    && InsideGrid(c, q) && Walkable(c, q)
    && (q.x != p.x && q.y != p.y ==>
          && c.allowDiagonal
          && (c.preventDiagonalCutting ==> Walkable(c, Point(q.x, p.y)) && Walkable(c, Point(p.x, q.y))))
  }

  /** k is among GetNeighborsIndices(index) exactly when it names a cell of
      the grid that is a Neighbour of the cell at index. */
  lemma GetNeighborsIndicesExactly(c: Controller, index: int, k: int)
    requires c.gridWidth > 0
    ensures k in GetNeighborsIndices(c, index) <==>
      0 <= k < c.gridWidth * c.gridHeight && Neighbour(c, CellOf(c, index), CellOf(c, k))
  {
    if k in GetNeighborsIndices(c, index) {
      ListedIsNeighbour(c, index, k);
    }
    if 0 <= k < c.gridWidth * c.gridHeight && Neighbour(c, CellOf(c, index), CellOf(c, k)) {
      NeighbourIsListed(c, index, k);
    }
  }

  lemma ListedIsNeighbour(c: Controller, index: int, k: int)
    requires c.gridWidth > 0 && k in GetNeighborsIndices(c, index)
    ensures 0 <= k < c.gridWidth * c.gridHeight && Neighbour(c, CellOf(c, index), CellOf(c, k))
  {
    var p := CellOf(c, index);
    var offs := Offsets[..OffsetCount(c)];
    var o := CollectedFrom(c, p, offs, k);
    var q := Point(p.x + o.dx, p.y + o.dy);
    assert Neighbour(c, p, q) by {
      OffsetShape(c, o);
      AcceptedIsNeighbour(c, p, o);
    }
    CellOfInside(c, q);
  }

  /** An inside cell's index is in range and decodes back to the cell. */
  lemma CellOfInside(c: Controller, q: Point)
    requires c.gridWidth > 0 && InsideGrid(c, q)
    ensures var k := XYToIndex(c.gridWidth, q.x, q.y);
      0 <= k < c.gridWidth * c.gridHeight && CellOf(c, k) == q
  {
    IndexInRange(c.gridWidth, c.gridHeight, q.x, q.y);
    CoordsOfIndex(c.gridWidth, c.gridHeight, q.x, q.y);
  }

  /** An offset GetNeighborsIndices accepts leads to a Neighbour. */
  lemma AcceptedIsNeighbour(c: Controller, p: Point, o: Offset)
    requires Abs(o.dx) <= 1 && Abs(o.dy) <= 1 && o != NoDirection
    requires o.dx != 0 && o.dy != 0 ==> c.allowDiagonal
    requires Accepts(c, p, o)
    ensures Neighbour(c, p, Point(p.x + o.dx, p.y + o.dy))
  {
    var q := Point(p.x + o.dx, p.y + o.dy);
    assert Chebyshev(p, q) == 1;
    if q.x != p.x && q.y != p.y {
      assert Abs(o.dx) + Abs(o.dy) == 2;
      if c.preventDiagonalCutting {
        assert Point(p.x + o.dx, p.y) == Point(q.x, p.y);
        assert Point(p.x, p.y + o.dy) == Point(p.x, q.y);
      }
    }
  }

  /** Each offset tried is a king move, diagonal only when diagonals are
      allowed. */
  lemma OffsetShape(c: Controller, o: Offset)
    requires o in Offsets[..OffsetCount(c)]
    ensures Abs(o.dx) <= 1 && Abs(o.dy) <= 1 && o != NoDirection
    ensures o.dx != 0 && o.dy != 0 ==> c.allowDiagonal
  {
    var offs := Offsets[..OffsetCount(c)];
    var i :| 0 <= i < |offs| && offs[i] == o;
  }

  lemma NeighbourIsListed(c: Controller, index: int, k: int)
    requires c.gridWidth > 0
    requires 0 <= k < c.gridWidth * c.gridHeight && Neighbour(c, CellOf(c, index), CellOf(c, k))
    ensures k in GetNeighborsIndices(c, index)
  {
    var p := CellOf(c, index);
    var q := CellOf(c, k);
    var o := Offset(q.x - p.x, q.y - p.y);
    OffsetListed(c, o);
    NeighbourAccepted(c, p, q);
    assert Point(p.x + o.dx, p.y + o.dy) == q;
    CollectedAll(c, p, Offsets[..OffsetCount(c)], o);
  }

  /** GetNeighborsIndices accepts the offset to any Neighbour. */
  lemma NeighbourAccepted(c: Controller, p: Point, q: Point)
    requires Neighbour(c, p, q)
    ensures Accepts(c, p, Offset(q.x - p.x, q.y - p.y))
  {
    var o := Offset(q.x - p.x, q.y - p.y);
    assert Point(p.x + o.dx, p.y + o.dy) == q;
    assert Point(p.x + o.dx, p.y) == Point(q.x, p.y);
    assert Point(p.x, p.y + o.dy) == Point(p.x, q.y);
  }

  /** Every king move is among the offsets tried, a diagonal one only when
      diagonals are allowed. */
  lemma OffsetListed(c: Controller, o: Offset)
    requires Abs(o.dx) <= 1 && Abs(o.dy) <= 1 && o != NoDirection
    requires o.dx != 0 && o.dy != 0 ==> c.allowDiagonal
    ensures o in Offsets[..OffsetCount(c)]
  {
    var offs := Offsets[..OffsetCount(c)];
    if o.dx == 0 {
      assert o == offs[0] || o == offs[1];
    } else if o.dy == 0 {
      assert o == offs[2] || o == offs[3];
    } else {
      assert o == offs[4] || o == offs[5] || o == offs[6] || o == offs[7];
    }
  }

  /** Every neighbour index names a cell of the grid. */
  lemma NeighboursInRange(c: Controller)
    requires c.gridWidth > 0
    ensures forall index, j | 0 <= j < |GetNeighborsIndices(c, index)| ::
      0 <= GetNeighborsIndices(c, index)[j] < c.gridWidth * c.gridHeight
  {
    forall index, j | 0 <= j < |GetNeighborsIndices(c, index)|
      ensures 0 <= GetNeighborsIndices(c, index)[j] < c.gridWidth * c.gridHeight
    {
      GetNeighborsIndicesExactly(c, index, GetNeighborsIndices(c, index)[j]);
    }
  }

  /** Every cell Bresenham visits from a to b, both included, is walkable. */
  predicate Visible(c: Controller, a: Point, b: Point) {
    AllWalkable(c, Cells(Line(a, b)))
  }

  predicate AllWalkable(c: Controller, cells: seq<Point>) {
    forall q | q in cells :: Walkable(c, q)
  }

  /** The cells from a cursor on are walkable exactly when its own cell is
      and, unless it is the end, so are the cells from the next cursor. */
  lemma AllWalkableFrom(c: Controller, l: Line, cur: Cursor)
    requires OnTrack(l, cur)
    ensures AtEnd(l, cur) ==> (AllWalkable(c, Raster(l, cur)) <==> Walkable(c, At(cur)))
    ensures !AtEnd(l, cur) ==>
      && OnTrack(l, Step(l, cur))
      && (AllWalkable(c, Raster(l, cur)) <==> Walkable(c, At(cur)) && AllWalkable(c, Raster(l, Step(l, cur))))
  {
    if AtEnd(l, cur) {
      assert Raster(l, cur) == [At(cur)];
    } else {
      RasterUnfold(l, cur);
      var rest := Raster(l, Step(l, cur));
      assert forall q :: q in [At(cur)] + rest <==> q == At(cur) || q in rest;
    }
  }

  /** The value HasLineOfSight(FromIdx, ToIdx) computes. */
  predicate LineOfSight(c: Controller, from: int, to: int)
    requires c.gridWidth > 0
  {
    Visible(c, CellOf(c, from), CellOf(c, to))
  }

  /** HasLineOfSight(FromIdx, ToIdx): walk Bresenham's line from one cell
      to the other, failing on the first cell that is not walkable. */
  method HasLineOfSight(c: Controller, from: int, to: int) returns (r: bool)
    requires c.gridWidth > 0
    ensures r <==> LineOfSight(c, from, to)
  {
    r := WalkLine(c, CellOf(c, from), CellOf(c, to));
  }

  /** The Bresenham loop of HasLineOfSight between two decoded cells:
      test the current cell, stop at the end cell, else advance. */
  method WalkLine(c: Controller, p0: Point, p1: Point) returns (r: bool)
    ensures r <==> Visible(c, p0, p1)
  {
    var l := Line(p0, p1);
    var cur := Begin(l);
    BeginOnTrack(l);
    while true
      invariant OnTrack(l, cur)
      invariant Visible(c, p0, p1) <==> AllWalkable(c, Raster(l, cur))
      decreases Remaining(l, cur)
    {
      AllWalkableFrom(c, l, cur);
      if !IsWalkableIndex(c, XYToIndex(c.gridWidth, cur.x, cur.y)) {
        return false;
      }
      if cur.x == p1.x && cur.y == p1.y {
        break;
      }
      StepProgress(l, cur);
      cur := Advance(l, cur);
    }
    return true;
  }

  /** A cell sees itself exactly when it is walkable. */
  lemma LineOfSightToSelf(c: Controller, i: int)
    requires c.gridWidth > 0
    ensures LineOfSight(c, i, i) <==> IsWalkableIndex(c, i)
  {
    var p := CellOf(c, i);
    CellsOfPoint(p);
    assert Cells(Line(p, p)) == [p];
    assert Visible(c, p, p) <==> Walkable(c, p);
  }

  /** Between cells one king move apart, line of sight is both cells being
      walkable. */
  lemma StepVisible(c: Controller, a: Point, b: Point)
    requires Chebyshev(a, b) == 1
    ensures Visible(c, a, b) <==> Walkable(c, a) && Walkable(c, b)
  {
    CellsOfStep(a, b);
  }

  /** The cells at both ends of a visible line are walkable. */
  lemma VisibleEnds(c: Controller, a: Point, b: Point)
    requires Visible(c, a, b)
    ensures Walkable(c, a) && Walkable(c, b)
  {
    CellsShape(Line(a, b));
    assert Cells(Line(a, b))[|Cells(Line(a, b))| - 1] == b;
  }

  /** TerrainCost: max(1, CostMap[Nb]) for a valid index, 1 otherwise. */
  function TerrainCost(c: Controller, k: int): (t: real)
    ensures t >= 1.0
  {
    if 0 <= k < |c.costMap| then Max(1, c.costMap[k]) as real else 1.0
  }

  /** The graph RunThetaStar searches: GridWidth * GridHeight nodes,
      GetNeighborsIndices adjacency, the line-of-sight shortcut to Curr's
      parent, MovementCostBetween * TerrainCost steps and the octile
      heuristic towards the goal, all decoded with the controller's width. */
  function SearchGraph(c: Controller, goal: int): (gr: Graph)
    requires c.gridWidth > 0 && c.gridHeight > 0
    ensures GraphOk(gr) && gr.n == c.gridWidth * c.gridHeight
  {
    NeighboursInRange(c);
    Graph(
      c.gridWidth * c.gridHeight,
      k => GetNeighborsIndices(c, k),
      (p, k) => LineOfSight(c, p, k),
      (p, k) => MovementCostBetween(c.gridWidth, c.diagonalCost, p, k) * TerrainCost(c, k),
      k => Heuristic(c.gridWidth, c.diagonalCost, k, goal))
  }

  /** A start or goal cell RunThetaStar accepts. */
  predicate ValidEndpoint(c: Controller, p: Point) {
    && InsideGrid(c, p)
    && 0 <= XYToIndex(c.gridWidth, p.x, p.y) < |c.costMap|
    && c.costMap[XYToIndex(c.gridWidth, p.x, p.y)] >= 0
  }

  /** A route of Neighbour steps between cells. */
  predicate Route(c: Controller, ps: seq<Point>) {
    |ps| >= 1 && forall i | 0 <= i < |ps| - 1 :: Neighbour(c, ps[i], ps[i + 1])
  }

  /** A route from an inside cell is a walk in the search graph. */
  lemma RouteIsWalk(c: Controller, goal: int, ps: seq<Point>)
    requires c.gridWidth > 0 && c.gridHeight > 0 && Route(c, ps) && InsideGrid(c, ps[0])
    ensures var ws := seq(|ps|, i requires 0 <= i < |ps| => XYToIndex(c.gridWidth, ps[i].x, ps[i].y));
      Walk(SearchGraph(c, goal), ws)
  {
    var gr := SearchGraph(c, goal);
    var ws := seq(|ps|, i requires 0 <= i < |ps| => XYToIndex(c.gridWidth, ps[i].x, ps[i].y));
    forall i | 0 <= i < |ps|
      ensures 0 <= ws[i] < gr.n && CellOf(c, ws[i]) == ps[i]
    {
      assert InsideGrid(c, ps[i]) by {
        if i > 0 {
          assert Neighbour(c, ps[i - 1], ps[i]);
        }
      }
      IndexInRange(c.gridWidth, c.gridHeight, ps[i].x, ps[i].y);
      CoordsOfIndex(c.gridWidth, c.gridHeight, ps[i].x, ps[i].y);
    }
    forall i | 0 <= i < |ws| - 1
      ensures ws[i + 1] in gr.neighbours(ws[i])
    {
      GetNeighborsIndicesExactly(c, ws[i], ws[i + 1]);
    }
  }

  /** RunThetaStar(StartCell, GoalCell): empty unless both cells are inside
      with valid, non-negative cost-map entries; otherwise the Lazy Theta*
      search, its index path decoded back to cells.

      A non-empty result runs from start to goal through inside, walkable
      cells with line of sight between consecutive waypoints; an empty
      result for valid endpoints means no Neighbour route joins them; a
      valid start equal to the goal gives [start]. */
  method RunThetaStar(c: Controller, start: Point, goal: Point) returns (path: seq<Point>)
    ensures !(ValidEndpoint(c, start) && ValidEndpoint(c, goal)) ==> path == []
    ensures path != [] ==> path[0] == start && path[|path| - 1] == goal
    ensures forall i | 0 <= i < |path| :: InsideGrid(c, path[i]) && Walkable(c, path[i])
    ensures forall i | 0 <= i < |path| - 1 :: Visible(c, path[i], path[i + 1])
    ensures ValidEndpoint(c, start) && ValidEndpoint(c, goal) && path == [] ==>
      forall ps: seq<Point> | Route(c, ps) && ps[0] == start :: ps[|ps| - 1] != goal
    ensures ValidEndpoint(c, start) && start == goal ==> path == [start]
  {
    if !InsideGrid(c, start) || !InsideGrid(c, goal) {
      return [];
    }
    var startIdx := XYToIndex(c.gridWidth, start.x, start.y);
    var goalIdx := XYToIndex(c.gridWidth, goal.x, goal.y);
    if !(0 <= startIdx < |c.costMap|) || !(0 <= goalIdx < |c.costMap|)
       || c.costMap[startIdx] < 0 || c.costMap[goalIdx] < 0 {
      return [];
    }
    IndexInRange(c.gridWidth, c.gridHeight, start.x, start.y);
    IndexInRange(c.gridWidth, c.gridHeight, goal.x, goal.y);
    CoordsOfIndex(c.gridWidth, c.gridHeight, start.x, start.y);
    CoordsOfIndex(c.gridWidth, c.gridHeight, goal.x, goal.y);
    var gr := SearchGraph(c, goalIdx);
    var found := BestFirst(gr, startIdx, goalIdx);
    path := seq(|found|, i requires 0 <= i < |found| => CellOf(c, found[i]));
    PathFacts(c, gr, goalIdx, found, path, startIdx);
    if found == [] {
      forall ps: seq<Point> | Route(c, ps) && ps[0] == start
        ensures ps[|ps| - 1] != goal
      {
        RouteIsWalk(c, goalIdx, ps);
        var ws := seq(|ps|, i requires 0 <= i < |ps| => XYToIndex(c.gridWidth, ps[i].x, ps[i].y));
        assert ws[0] == startIdx;
        assert ws[|ws| - 1] == XYToIndex(c.gridWidth, ps[|ps| - 1].x, ps[|ps| - 1].y);
      }
    }
  }

  /** Decoding a search result: every waypoint is inside and walkable, and
      consecutive waypoints see each other. */
  lemma PathFacts(c: Controller, gr: Graph, goal: int, found: seq<int>, path: seq<Point>, startIdx: int)
    requires c.gridWidth > 0 && c.gridHeight > 0 && gr == SearchGraph(c, goal)
    requires forall i | 0 <= i < |found| :: 0 <= found[i] < gr.n
    requires forall i | 0 <= i < |found| - 1 :: Link(gr, found[i], found[i + 1])
    requires found != [] ==> found[0] == startIdx && IsWalkableIndex(c, startIdx)
    requires |path| == |found| && forall i | 0 <= i < |found| :: path[i] == CellOf(c, found[i])
    ensures forall i | 0 <= i < |path| :: InsideGrid(c, path[i]) && Walkable(c, path[i])
    ensures forall i | 0 <= i < |path| - 1 :: Visible(c, path[i], path[i + 1])
  {
    forall i | 0 <= i < |path|
      ensures InsideGrid(c, path[i]) && Walkable(c, path[i])
    {
      if i > 0 {
        assert Link(gr, found[i - 1], found[i]);
        if found[i] in GetNeighborsIndices(c, found[i - 1]) {
          GetNeighborsIndicesExactly(c, found[i - 1], found[i]);
        } else {
          VisibleEnds(c, path[i - 1], path[i]);
        }
      }
    }
    forall i | 0 <= i < |path| - 1
      ensures Visible(c, path[i], path[i + 1])
    {
      assert Link(gr, found[i], found[i + 1]);
      if found[i + 1] in GetNeighborsIndices(c, found[i]) {
        GetNeighborsIndicesExactly(c, found[i], found[i + 1]);
        StepVisible(c, path[i], path[i + 1]);
      }
    }
  }

  /** WorldToCell: floor of the offset from GridOrigin in cells; no clamping. */
  function WorldToCell(c: Controller, world: Vec3): (p: Point)
    requires c.cellSize != 0.0
  {
    var local := Minus(world, c.origin);
    Point(FloorToInt(local.x / c.cellSize), FloorToInt(local.y / c.cellSize))
  }

  /** CellToWorld: the centre of the cell, half a cell past its corner. */
  function CellToWorld(c: Controller, p: Point): Vec3 {
    Plus(c.origin, Vec3(p.x as real * c.cellSize + c.cellSize * 0.5,
                        p.y as real * c.cellSize + c.cellSize * 0.5, 0.0))
  }

  /** Every cell's centre maps back to the cell: floor(x + 0.5) == x. */
  lemma WorldCellRoundTrip(c: Controller, p: Point)
    requires c.cellSize != 0.0
    ensures WorldToCell(c, CellToWorld(c, p)) == p
  {
    var w := CellToWorld(c, p);
    CentreOffset(c.origin.x, p.x, c.cellSize, w.x);
    CentreOffset(c.origin.y, p.y, c.cellSize, w.y);
    assert WorldToCell(c, w) == Point(FloorToInt((w.x - c.origin.x) / c.cellSize),
                                      FloorToInt((w.y - c.origin.y) / c.cellSize));
  }

  /** The centre of cell n along one axis, less the origin, is n + 0.5
      cells, which floors to n. */
  lemma CentreOffset(origin: real, n: int, s: real, world: real)
    requires s != 0.0 && world == origin + (n as real * s + s * 0.5)
    ensures FloorToInt((world - origin) / s) == n
  {
    var a := world - origin;
    assert a == (n as real + 0.5) * s;
    DivCancel(n as real + 0.5, s, a);
    RoundWhole(n);
    assert FloorToInt(n as real + 0.5) == n;
  }

  /** For a positive cell size, a world point lands in the cell whose
      square [X * CellSize, (X + 1) * CellSize) contains it (per axis). */
  lemma WorldToCellSquare(c: Controller, world: Vec3, p: Point)
    requires c.cellSize > 0.0
    ensures WorldToCell(c, world) == p <==>
      && p.x as real * c.cellSize <= world.x - c.origin.x < (p.x + 1) as real * c.cellSize
      && p.y as real * c.cellSize <= world.y - c.origin.y < (p.y + 1) as real * c.cellSize
  {
    var lx, ly := world.x - c.origin.x, world.y - c.origin.y;
    DivideBounds(lx, c.cellSize, p.x);
    DivideBounds(ly, c.cellSize, p.y);
  }

  /** n <= v / s < n + 1 exactly when n * s <= v < (n + 1) * s, for s > 0. */
  lemma DivideBounds(v: real, s: real, n: int)
    requires s > 0.0
    ensures FloorToInt(v / s) == n <==> n as real * s <= v < (n + 1) as real * s
  {
    var q := v / s;
    MulDivCancel(v, s);
    FloorUnique(q, n);
    ScaleIff(n as real, q, s, n as real * s, v);
    ScaleIff((n + 1) as real, q, s, (n + 1) as real * s, v);
  }

  /** The floor of q is n exactly when n <= q < n + 1. */
  lemma FloorUnique(q: real, n: int)
    ensures FloorToInt(q) == n <==> n as real <= q < (n + 1) as real
  {
    var f := FloorToInt(q);
    if n as real <= q < (n + 1) as real {
      assert f < n + 1 && n < f + 1;
    }
  }

  lemma DivCancel(a: real, s: real, product: real)
    requires s != 0.0 && product == a * s
    ensures product / s == a
  {
  }

  lemma MulDivCancel(v: real, s: real)
    requires s != 0.0
    ensures (v / s) * s == v
  {
  }

  /** Scaling by a positive factor keeps the order. */
  lemma ScaleIff(a: real, b: real, s: real, aScaled: real, bScaled: real)
    requires s > 0.0 && aScaled == a * s && bScaled == b * s
    ensures a <= b <==> aScaled <= bScaled
  {
    assert bScaled - aScaled == (b - a) * s;
  }

  /** FindPath(StartWorld, GoalWorld): snap both points to cells, reject
      outside or negative-cost cells, run Lazy Theta* and map the waypoints
      to cell centres. Snapping the returned points again gives the
      waypoints, which run from the start cell to the goal cell with line
      of sight between consecutive ones. FindPath reads the cost map
      without an index check, so the map must cover the grid. */
  method FindPath(c: Controller, startWorld: Vec3, goalWorld: Vec3) returns (route: seq<Vec3>)
    requires c.cellSize != 0.0 && c.gridWidth * c.gridHeight <= |c.costMap|
    ensures var s, g := WorldToCell(c, startWorld), WorldToCell(c, goalWorld);
      && (!(ValidEndpoint(c, s) && ValidEndpoint(c, g)) ==> route == [])
      && (route != [] ==> WorldToCell(c, route[0]) == s && WorldToCell(c, route[|route| - 1]) == g)
    ensures forall i | 0 <= i < |route| - 1 ::
      Visible(c, WorldToCell(c, route[i]), WorldToCell(c, route[i + 1]))
  {
    var s := WorldToCell(c, startWorld);
    var g := WorldToCell(c, goalWorld);
    if !InsideGrid(c, s) || !InsideGrid(c, g) {
      return [];
    }
    IndexInRange(c.gridWidth, c.gridHeight, s.x, s.y);
    IndexInRange(c.gridWidth, c.gridHeight, g.x, g.y);
    if c.costMap[XYToIndex(c.gridWidth, s.x, s.y)] < 0 || c.costMap[XYToIndex(c.gridWidth, g.x, g.y)] < 0 {
      return [];
    }
    var cells := RunThetaStar(c, s, g);
    route := seq(|cells|, i requires 0 <= i < |cells| => CellToWorld(c, cells[i]));
    forall i | 0 <= i < |cells|
      ensures WorldToCell(c, route[i]) == cells[i]
    {
      WorldCellRoundTrip(c, cells[i]);
    }
  }
}
