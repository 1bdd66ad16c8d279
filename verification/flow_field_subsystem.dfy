/** UFlowFieldSubsystem: a column-major grid of flow-field cells, a LIFO
    label-correcting pass that spreads integration costs out from a target
    cell over all eight neighbours (a step costing 1 straight or 1.4
    diagonally, times the entered cell's MovementCost, with cells of
    MovementCost at most 0 never entered), and a pass that points every
    reached cell at its lowest neighbour. */
module FlowFieldSubsystem {
  import opened Geometry
  import opened GridIndex
  import opened Relaxation

  /** The cell the subsystem's code reads and writes (it does not match the
      FFlowFieldCell that FlowFieldTypes.h declares). MovementCost is a whole
      number; IntegrationCost is a Level counted in tenths, so that the 1.4
      diagonal factor stays whole; FlowDirection is the grid step the cell
      points along. */
  datatype FieldCell = FieldCell(
    worldLocation: Vec3,
    flowDirection: Offset,
    integrationCost: Level,
    movementCost: int)

  /** The subsystem's state: GridWidth, GridHeight, CellSize, GridOrigin and
      Grid, indexed Grid[x][y]. */
  datatype Subsystem = Subsystem(
    width: int,
    height: int,
    cellSize: real,
    origin: Vec3,
    grid: seq<seq<FieldCell>>)

  /** Grid holds GridWidth columns of GridHeight cells each, as
      CreateFlowFieldGrid leaves it. */
  predicate Shaped(s: Subsystem) {
    && |s.grid| == s.width
    && forall x :: 0 <= x < |s.grid| ==> |s.grid[x]| == s.height
  }

  predicate IsValidGridCoordinate(s: Subsystem, c: Point) {
    c.x >= 0 && c.y >= 0 && c.x < s.width && c.y < s.height
  }

  function At(s: Subsystem, c: Point): FieldCell
    requires Shaped(s) && IsValidGridCoordinate(s, c)
  {
    s.grid[c.x][c.y]
  }

  // ------------------------------------------------------ world <-> grid

  /** The world position of cell `c`: GridOrigin plus the cell's corner
      offset (the grid is not centred). */
  function GridToWorld(s: Subsystem, c: Point): Vec3 {
    Plus(s.origin, Vec3(c.x as real * s.cellSize, c.y as real * s.cellSize, 0.0))
  }

  /** The position relative to GridOrigin, in cells. */
  function Local(s: Subsystem, world: Vec3): (v: Vec3)
    requires s.cellSize != 0.0
  {
    Vec3((world.x - s.origin.x) / s.cellSize, (world.y - s.origin.y) / s.cellSize, 0.0)
  }

  /** The nearest cell to a world position, clamped into the grid: away
      from the edges each coordinate is the local position rounded half
      up. */
  function WorldToGrid(s: Subsystem, world: Vec3): (c: Point)
    requires s.cellSize != 0.0
    ensures s.width > 0 && s.height > 0 ==> IsValidGridCoordinate(s, c)
    ensures s.width > 0 ==>
      && (c.x > 0 ==> c.x as real - 0.5 <= Local(s, world).x)
      && (c.x < s.width - 1 ==> Local(s, world).x < c.x as real + 0.5)
    ensures s.height > 0 ==>
      && (c.y > 0 ==> c.y as real - 0.5 <= Local(s, world).y)
      && (c.y < s.height - 1 ==> Local(s, world).y < c.y as real + 0.5)
  {
    var v := Local(s, world);
    var x := FloorToInt(v.x + 0.5);
    var y := FloorToInt(v.y + 0.5);
    Point(Clamp(x, 0, s.width - 1), Clamp(y, 0, s.height - 1))
  }

  /** Every cell's world position maps back to the cell. */
  lemma WorldGridRoundTrip(s: Subsystem, c: Point)
    requires s.cellSize != 0.0 && IsValidGridCoordinate(s, c)
    ensures WorldToGrid(s, GridToWorld(s, c)) == c
  {
    var w := GridToWorld(s, c);
    assert (w.x - s.origin.x) / s.cellSize == c.x as real;
    assert (w.y - s.origin.y) / s.cellSize == c.y as real;
    RoundWhole(c.x);
    RoundWhole(c.y);
  }

  // ------------------------------------------------------------- creation

  /** A freshly created cell: at the cell's world position, no flow, the
      maximum-value sentinel and MovementCost 1. */
  function NewCell(s: Subsystem, x: int, y: int): FieldCell {
    FieldCell(GridToWorld(s, Point(x, y)), NoDirection, Unreached, 1)
  }

  /** CreateFlowFieldGrid: record the dimensions, cell size and origin, and
      give every one of the Width x Height cells its world position, no
      flow, the sentinel and MovementCost 1. Whatever cells were there
      before are overwritten field by field. */
  function CreateFlowFieldGrid(s: Subsystem, width: int, height: int, cellSize: real, origin: Vec3): (r: Subsystem)
    requires width >= 0 && height >= 0
    ensures r.width == width && r.height == height && r.cellSize == cellSize && r.origin == origin
    ensures Shaped(r)
    ensures forall c :: IsValidGridCoordinate(r, c) ==>
      && At(r, c).worldLocation == GridToWorld(r, c)
      && At(r, c).flowDirection == NoDirection
      && At(r, c).integrationCost == Unreached
      && At(r, c).movementCost == 1
  {
    var t := Subsystem(width, height, cellSize, origin, []);
    t.(grid := seq(width, x => seq(height, y => NewCell(t, x, y))))
  }

  /** Every created cell's recorded world position lies in the cell it
      belongs to. */
  lemma CreatedCellsLocate(s: Subsystem, width: int, height: int, cellSize: real, origin: Vec3, c: Point)
    requires width >= 0 && height >= 0 && cellSize != 0.0
    requires IsValidGridCoordinate(CreateFlowFieldGrid(s, width, height, cellSize, origin), c)
    ensures var r := CreateFlowFieldGrid(s, width, height, cellSize, origin);
            WorldToGrid(r, At(r, c).worldLocation) == c
  {
    WorldGridRoundTrip(CreateFlowFieldGrid(s, width, height, cellSize, origin), c);
  }

  // ------------------------------------------------------------ neighbours

  /** The eight neighbour offsets in the order both passes visit them: x
      outer from -1 to 1, y inner from -1 to 1, skipping (0, 0). */
  const Ring: seq<Offset> := [
    Offset(-1, -1), Offset(-1, 0), Offset(-1, 1),
    Offset(0, -1), Offset(0, 1),
    Offset(1, -1), Offset(1, 0), Offset(1, 1)]

  function Moved(c: Point, o: Offset): Point {
    Point(c.x + o.dx, c.y + o.dy)
  }

  /** `p` is one of the eight cells around `c`. */
  predicate Adjacent(c: Point, p: Point) {
    p != c && -1 <= p.x - c.x <= 1 && -1 <= p.y - c.y <= 1
  }

  /** `a` comes before `b` in the x-then-y scan. */
  predicate ScanBefore(a: Point, b: Point) {
    a.x < b.x || (a.x == b.x && a.y < b.y)
  }

  predicate InScanOrder(ps: seq<Point>) {
    forall i, j :: 0 <= i < j < |ps| ==> ScanBefore(ps[i], ps[j])
  }

  /** The grid step from `c` to `p`. */
  function Toward(c: Point, p: Point): Offset {
    Offset(p.x - c.x, p.y - c.y)
  }

  lemma RingIsAdjacency(c: Point, p: Point)
    ensures Adjacent(c, p) <==> Toward(c, p) in Ring
  {
  }

  /** `a` comes before `b` when added to the same cell. */
  predicate StepBefore(a: Offset, b: Offset) {
    a.dx < b.dx || (a.dx == b.dx && a.dy < b.dy)
  }

  /** The cells `offsets` lead to from `c` that lie in a `w` x `h` grid, in
      the order of `offsets`. */
  function Keep(w: int, h: int, c: Point, offsets: seq<Offset>): (r: seq<Point>)
    ensures |r| <= |offsets|
    ensures forall p :: p in r <==> IsInside(w, h, p.x, p.y) && Toward(c, p) in offsets
  {
    if offsets == [] then []
    else
      var p := Moved(c, offsets[0]);
      var rest := Keep(w, h, c, offsets[1..]);
      assert Toward(c, p) == offsets[0];
      assert forall q :: Toward(c, q) in offsets <==> Toward(c, q) == offsets[0] || Toward(c, q) in offsets[1..] by {
        assert offsets == [offsets[0]] + offsets[1..];
      }
      if IsInside(w, h, p.x, p.y) then [p] + rest else rest
  }

  predicate StepsInOrder(offsets: seq<Offset>) {
    forall i, j :: 0 <= i < j < |offsets| ==> StepBefore(offsets[i], offsets[j])
  }

  /** Offsets in order lead to cells in scan order. */
  lemma {:induction false} KeepInOrder(w: int, h: int, c: Point, offsets: seq<Offset>)
    requires StepsInOrder(offsets)
    ensures InScanOrder(Keep(w, h, c, offsets))
  {
    if offsets != [] {
      var p := Moved(c, offsets[0]);
      var rest := Keep(w, h, c, offsets[1..]);
      assert StepsInOrder(offsets[1..]) by {
        forall i, j | 0 <= i < j < |offsets[1..]|
          ensures StepBefore(offsets[1..][i], offsets[1..][j])
        {
          assert offsets[1..][i] == offsets[i + 1] && offsets[1..][j] == offsets[j + 1];
        }
      }
      KeepInOrder(w, h, c, offsets[1..]);
      if IsInside(w, h, p.x, p.y) {
        forall j | 0 <= j < |rest| ensures ScanBefore(p, rest[j]) {
          assert rest[j] in rest;
          var k :| 0 <= k < |offsets[1..]| && offsets[1..][k] == Toward(c, rest[j]);
          assert StepBefore(offsets[0], offsets[k + 1]);
        }
      }
    }
  }

  lemma RingInOrder()
    ensures StepsInOrder(Ring)
  {
  }

  /** The in-grid cells around `c` in a `w` x `h` grid, in scan order. */
  function NeighbourCells(w: int, h: int, c: Point): (r: seq<Point>)
    ensures |r| <= 8
    ensures forall p :: p in r <==> IsInside(w, h, p.x, p.y) && Adjacent(c, p)
    ensures InScanOrder(r)
  {
    var r := Keep(w, h, c, Ring);
    RingInOrder();
    KeepInOrder(w, h, c, Ring);
    assert forall p :: p in r <==> IsInside(w, h, p.x, p.y) && Adjacent(c, p) by {
      forall p ensures p in r <==> IsInside(w, h, p.x, p.y) && Adjacent(c, p) {
        RingIsAdjacency(c, p);
      }
    }
    r
  }

  /** The neighbours of a grid cell. */
  function Around(s: Subsystem, c: Point): (r: seq<Point>)
    ensures |r| <= 8
    ensures forall p :: p in r <==> IsValidGridCoordinate(s, p) && Adjacent(c, p)
    ensures InScanOrder(r)
  {
    NeighbourCells(s.width, s.height, c)
  }

  // ----------------------------------------------------------- integration

  /** The step multiplier in tenths: 14 for a diagonal step, 10 for a
      straight one. */
  function StepTenths(u: Point, v: Point): nat {
    if u.x != v.x && u.y != v.y then 14 else 10
  }

  /** A cell the relaxation may enter: in the grid with MovementCost above
      0. */
  predicate Open(s: Subsystem, v: Point) {
    Shaped(s) && IsValidGridCoordinate(s, v) && At(s, v).movementCost > 0
  }

  /** The cost of stepping from `u` onto `v`, in tenths. */
  function EnterCost(s: Subsystem, u: Point, v: Point): nat {
    if Open(s, v) then StepTenths(u, v) * At(s, v).movementCost else 0
  }

  /** The graph the subsystem relaxes. */
  function CellNet(s: Subsystem): Net<Point> {
    Net(c => NeighbourCells(s.width, s.height, c), (u, v) => EnterCost(s, u, v), v => Open(s, v))
  }

  /** No enterable neighbour of cell `c` would be lowered by stepping from
      `c`. */
  predicate SettledAt(s: Subsystem, c: Point)
    requires Shaped(s) && IsValidGridCoordinate(s, c)
  {
    At(s, c).integrationCost.Reached? ==>
      forall p :: p in Around(s, c) && At(s, p).movementCost > 0 ==>
        !Less(Reached(At(s, c).integrationCost.cost + EnterCost(s, c, p)), At(s, p).integrationCost)
  }

  /** No improving relaxation remains anywhere in the grid. */
  ghost predicate Settled(s: Subsystem)
    requires Shaped(s)
  {
    forall c :: IsValidGridCoordinate(s, c) ==> SettledAt(s, c)
  }

  /** Cell `c`, if reached and not `target`, is enterable and is entered
      from a reached neighbour at exactly its own cost. */
  ghost predicate EnteredAt(s: Subsystem, target: Point, c: Point)
    requires Shaped(s) && IsValidGridCoordinate(s, c)
  {
    c != target && At(s, c).integrationCost.Reached? ==>
      && At(s, c).movementCost > 0
      && exists p :: IsValidGridCoordinate(s, p) && c in Around(s, p)
                     && At(s, p).integrationCost.Reached?
                     && At(s, p).integrationCost.cost + EnterCost(s, p, c) == At(s, c).integrationCost.cost
  }

  /** Every reached cell other than `target` is entered at exactly its own
      cost from a reached neighbour. With Settled this does not yet pin the
      costs down when zero-cost steps form a cycle; Cheapest does. */
  ghost predicate Entered(s: Subsystem, target: Point)
    requires Shaped(s)
  {
    forall c :: IsValidGridCoordinate(s, c) ==> EnteredAt(s, target, c)
  }

  /** `r` is `s` with only integration costs changed. */
  ghost predicate OnlyCosts(s: Subsystem, r: Subsystem) {
    && Shaped(s) && Shaped(r)
    && r == s.(grid := r.grid)
    && forall c :: IsValidGridCoordinate(s, c) ==>
         At(r, c) == At(s, c).(integrationCost := At(r, c).integrationCost)
  }

  function Column(x: int, h: int): (r: seq<Point>)
    ensures forall p :: p in r <==> p.x == x && 0 <= p.y < h
  {
    if h <= 0 then [] else Column(x, h - 1) + [Point(x, h - 1)]
  }

  /** Every cell of a `w` x `h` grid, column by column. */
  function AllPoints(w: int, h: int): (r: seq<Point>)
    ensures forall p :: p in r <==> 0 <= p.x < w && 0 <= p.y < h
  {
    if w <= 0 then [] else AllPoints(w - 1, h) + Column(w - 1, h)
  }

  /** The integration cost of every cell, as a map. */
  function CostsOf(s: Subsystem): (m: map<Point, Level>)
    requires Shaped(s)
    ensures forall c :: c in m <==> IsValidGridCoordinate(s, c)
    ensures forall c :: IsValidGridCoordinate(s, c) ==> m[c] == At(s, c).integrationCost
  {
    map c | c in AllPoints(s.width, s.height) :: At(s, c).integrationCost
  }

  /** A route from `target` steps between grid neighbours onto cells of
      positive MovementCost, and costs the sum of its steps' costs. The
      integration costs are exactly the cheapest such costs: a cell is
      reached iff some route from the target ends there, and its cost is
      then the least cost of those routes. */
  ghost predicate Cheapest(s: Subsystem, target: Point)
    requires Shaped(s)
  {
    Shortest(CellNet(s), CostsOf(s), target)
  }

  /** The graph depends only on the shape and the movement costs. */
  lemma CellNetsAgree(s: Subsystem, r: Subsystem)
    requires Shaped(s) && Shaped(r) && r.width == s.width && r.height == s.height
    requires forall c :: IsValidGridCoordinate(s, c) ==> At(r, c).movementCost == At(s, c).movementCost
    ensures NetsAgree(CellNet(s), CellNet(r))
  {
  }

  /** The grid with integration costs taken from `m`. */
  function WithCosts(s: Subsystem, m: map<Point, Level>): (r: Subsystem)
    requires Shaped(s)
    requires forall c :: IsValidGridCoordinate(s, c) ==> c in m
    ensures OnlyCosts(s, r)
    ensures forall c :: IsValidGridCoordinate(s, c) ==> At(r, c).integrationCost == m[c]
  {
    s.(grid := seq(|s.grid|, x requires 0 <= x < |s.grid| =>
             seq(|s.grid[x]|, y requires 0 <= y < |s.grid[x]| =>
               assert IsValidGridCoordinate(s, Point(x, y));
               s.grid[x][y].(integrationCost := m[Point(x, y)]))))
  }

  /** CalculateIntegrationField: reset every cost to the sentinel, set the
      target's to 0 and run the LIFO worklist. The target ends at 0, a
      blocked cell other than the target is never entered, no neighbour can
      be lowered any further, every other reached cost is the cost of
      stepping onto the cell from a reached neighbour, and every cost is the
      cheapest route cost from the target. */
  method CalculateIntegrationField(s: Subsystem, target: Point) returns (r: Subsystem)
    requires Shaped(s) && IsValidGridCoordinate(s, target)
    ensures OnlyCosts(s, r)
    ensures At(r, target).integrationCost == Reached(0)
    ensures forall c :: IsValidGridCoordinate(s, c) && c != target && At(s, c).movementCost <= 0 ==>
      At(r, c).integrationCost == Unreached
    ensures Settled(r)
    ensures Entered(r, target)
    ensures Cheapest(r, target)
  {
    var net := CellNet(s);
    var cells := AllPoints(s.width, s.height);
    ghost var nodes := cells;
    var levels := (map c | c in cells :: Unreached)[target := Reached(0)];
    StartFromTarget(s, levels, target);
    levels := DrainStack(net, levels, [target], nodes, target);
    r := WithCosts(s, levels);
    Integrated(s, levels, r, target);
  }

  /** The target alone reached: a worklist holding just the target, with
      every value supported and realised. */
  lemma StartFromTarget(s: Subsystem, m: map<Point, Level>, target: Point)
    requires forall v :: v in m <==> IsValidGridCoordinate(s, v)
    requires target in m && m[target] == Reached(0)
    requires forall v :: v in m && v != target ==> m[v] == Unreached
    ensures Worklist(CellNet(s), m, [target], true)
    ensures Supported(CellNet(s), m, target)
    ensures Realized(CellNet(s), m, target)
  {
    SourceRealized(CellNet(s), m, target);
  }

  /** A supported, realised fixpoint written back into the grid leaves it
      settled, with every reached cost entered exactly and equal to the
      cheapest route cost. */
  lemma Integrated(s: Subsystem, m: map<Point, Level>, r: Subsystem, target: Point)
    requires OnlyCosts(s, r)
    requires forall v :: v in m <==> IsValidGridCoordinate(s, v)
    requires forall v :: IsValidGridCoordinate(s, v) ==> At(r, v).integrationCost == m[v]
    requires target in m && m[target] == Reached(0)
    requires Fixpoint(CellNet(s), m) && Supported(CellNet(s), m, target) && Realized(CellNet(s), m, target)
    ensures Settled(r) && Entered(r, target) && Cheapest(r, target)
  {
    SettledEntered(s, m, r, target);
    FixpointCheapest(s, m, r, target);
  }

  lemma FixpointCheapest(s: Subsystem, m: map<Point, Level>, r: Subsystem, target: Point)
    requires OnlyCosts(s, r)
    requires forall v :: v in m <==> IsValidGridCoordinate(s, v)
    requires forall v :: IsValidGridCoordinate(s, v) ==> At(r, v).integrationCost == m[v]
    requires target in m && m[target] == Reached(0)
    requires Fixpoint(CellNet(s), m) && Realized(CellNet(s), m, target)
    ensures Cheapest(r, target)
  {
    FixpointShortest(CellNet(s), m, target);
    CellNetsAgree(s, r);
    CostsOfWritten(s, m, r);
    ShortestAgrees(CellNet(s), CellNet(r), m, target);
  }

  /** The costs read back from a grid written from `m` are `m`. */
  lemma CostsOfWritten(s: Subsystem, m: map<Point, Level>, r: Subsystem)
    requires OnlyCosts(s, r)
    requires forall v :: v in m <==> IsValidGridCoordinate(s, v)
    requires forall v :: IsValidGridCoordinate(s, v) ==> At(r, v).integrationCost == m[v]
    ensures CostsOf(r) == m
  {
  }

  lemma SettledEntered(s: Subsystem, m: map<Point, Level>, r: Subsystem, target: Point)
    requires OnlyCosts(s, r)
    requires forall v :: v in m <==> IsValidGridCoordinate(s, v)
    requires forall v :: IsValidGridCoordinate(s, v) ==> At(r, v).integrationCost == m[v]
    requires Fixpoint(CellNet(s), m) && Supported(CellNet(s), m, target)
    ensures Settled(r) && Entered(r, target)
  {
    FixpointTight(CellNet(s), m, target);
    forall c | IsValidGridCoordinate(r, c) ensures SettledAt(r, c) {
      assert Relaxed(CellNet(s), m, c);
      RelaxedSettles(s, m, r, c);
    }
    forall c | IsValidGridCoordinate(r, c) ensures EnteredAt(r, target, c) {
      if c != target && m[c].Reached? {
        var p := TightStep(CellNet(s), m, target, c);
        TightEntered(s, m, r, target, c, p);
      }
    }
  }

  /** A relaxed cell offers no improvement to any enterable neighbour. */
  lemma RelaxedSettles(s: Subsystem, m: map<Point, Level>, r: Subsystem, c: Point)
    requires OnlyCosts(s, r) && IsValidGridCoordinate(s, c)
    requires forall v :: v in m <==> IsValidGridCoordinate(s, v)
    requires forall v :: IsValidGridCoordinate(s, v) ==> At(r, v).integrationCost == m[v]
    requires Relaxed(CellNet(s), m, c)
    ensures SettledAt(r, c)
  {
    assert Around(r, c) == Around(s, c);
  }

  /** A value entered exactly from `p` is entered from a grid neighbour at
      exactly its cost. */
  lemma TightEntered(s: Subsystem, m: map<Point, Level>, r: Subsystem, target: Point, c: Point, p: Point)
    requires OnlyCosts(s, r) && IsValidGridCoordinate(s, c)
    requires forall v :: v in m <==> IsValidGridCoordinate(s, v)
    requires forall v :: IsValidGridCoordinate(s, v) ==> At(r, v).integrationCost == m[v]
    requires c in m && c != target && m[c].Reached?
    requires Open(s, c)
    requires p in m && c in NeighbourCells(s.width, s.height, p) && m[p].Reached?
    requires m[p].cost + EnterCost(s, p, c) == m[c].cost
    ensures EnteredAt(r, target, c)
  {
    assert EnterCost(s, p, c) == EnterCost(r, p, c);
    assert c in Around(r, p);
    assert IsValidGridCoordinate(r, p) && At(r, p).integrationCost == m[p];
    assert At(r, c).integrationCost == m[c];
    assert At(r, p).integrationCost.cost + EnterCost(r, p, c) == At(r, c).integrationCost.cost;
  }

  /** The loop of CalculateIntegrationField: pop the newest cell off the
      stack, relax its neighbours and push the lowered ones, until the stack
      is empty. Started from a single reached node, it ends at a fixpoint
      in which every value stays supported and no closed node has moved. */
  method DrainStack(net: Net<Point>, levels0: map<Point, Level>, stack0: seq<Point>,
                    ghost nodes: seq<Point>, ghost source: Point)
    returns (levels: map<Point, Level>)
    requires Worklist(net, levels0, stack0, true)
    requires Supported(net, levels0, source) && Realized(net, levels0, source)
    requires forall v :: v in levels0 ==> v in nodes
    ensures levels.Keys == levels0.Keys
    ensures NoHigher(levels0, levels)
    ensures forall v :: v in levels0 && !net.open(v) ==> levels[v] == levels0[v]
    ensures Fixpoint(net, levels)
    ensures Supported(net, levels, source) && Realized(net, levels, source)
  {
    levels := levels0;
    var stack := stack0;
    while stack != []
      invariant levels.Keys == levels0.Keys
      invariant Worklist(net, levels, stack, true)
      invariant Supported(net, levels, source) && Realized(net, levels, source)
      invariant NoHigher(levels0, levels)
      invariant forall v :: v in levels0 && !net.open(v) ==> levels[v] == levels0[v]
      invariant forall v :: v in levels ==> v in nodes
      decreases CountUnreached(levels, nodes), SumReached(levels, nodes), |stack|
    {
      var u := stack[|stack| - 1];
      var rest := stack[..|stack| - 1];
      assert stack == rest + [u];
      var after, pushed := Visit(net, levels, stack, u, rest, nodes, true);
      KeepSupported(net, levels, after, u, source);
      KeepRealized(net, levels, after, u, source);
      NoHigherChain(levels0, levels, after);
      levels, stack := after, rest + pushed;
    }
  }

  // ------------------------------------------------------------ directions

  /** The integration costs of the cells around `c`, in scan order. */
  function CostsAround(s: Subsystem, c: Point): (ls: seq<Level>)
    requires Shaped(s)
    ensures |ls| == |Around(s, c)|
    ensures forall k :: 0 <= k < |ls| ==> ls[k] == At(s, Around(s, c)[k]).integrationCost
  {
    var nb := Around(s, c);
    seq(|nb|, k requires 0 <= k < |nb| => assert nb[k] in nb; At(s, nb[k]).integrationCost)
  }

  /** The direction of the world-space vector along grid step `o`, scaled
      by CellSize and normalised: `o` itself for a positive cell size, its
      reverse for a negative one, and zero when the vector is zero. */
  function Heading(o: Offset, cellSize: real): (d: Offset)
    ensures cellSize > 0.0 ==> d == o
    ensures cellSize < 0.0 ==> d == Offset(-o.dx, -o.dy)
    ensures cellSize == 0.0 ==> d == NoDirection
  {
    if cellSize > 0.0 then o
    else if cellSize < 0.0 then Offset(-o.dx, -o.dy)
    else NoDirection
  }

  /** `d` is the direction CalculateFlowDirections owes cell `c`: zero for
      a cell at the sentinel or with every neighbour at the sentinel;
      otherwise the heading to the first neighbour, in scan order, holding
      the lowest cost. The cell's own cost is not compared, so the target
      points somewhere too. */
  ghost predicate FlowsDownhill(s: Subsystem, c: Point, d: Offset)
    requires Shaped(s) && IsValidGridCoordinate(s, c)
  {
    var nb := Around(s, c);
    var ls := CostsAround(s, c);
    && (At(s, c).integrationCost.Unreached? ==> d == NoDirection)
    && (At(s, c).integrationCost.Reached? && (forall k :: 0 <= k < |ls| ==> ls[k].Unreached?) ==>
          d == NoDirection)
    && (At(s, c).integrationCost.Reached? && (exists k :: 0 <= k < |ls| && ls[k].Reached?) ==>
          exists p: nat :: LowestAt(ls, Unreached, p) && p < |nb| && d == Heading(Toward(c, nb[p]), s.cellSize))
  }

  /** The direction of one cell: zero at the sentinel, else scan the
      neighbours keeping the first strictly lower cost, starting from the
      sentinel. */
  function DirectionOf(s: Subsystem, c: Point): (d: Offset)
    requires Shaped(s) && IsValidGridCoordinate(s, c)
    ensures FlowsDownhill(s, c, d)
  {
    if At(s, c).integrationCost.Unreached? then NoDirection
    else
      var nb := Around(s, c);
      var ls := CostsAround(s, c);
      var p := FirstLowest(ls, Unreached);
      if p.At? then Heading(Toward(c, nb[p.pos]), s.cellSize)
      else NoDirection
  }

  /** `r` is `s` with only flow directions changed. */
  ghost predicate OnlyDirections(s: Subsystem, r: Subsystem) {
    && Shaped(s) && Shaped(r)
    && r == s.(grid := r.grid)
    && forall c :: IsValidGridCoordinate(s, c) ==>
         At(r, c) == At(s, c).(flowDirection := At(r, c).flowDirection)
  }

  /** CalculateFlowDirections: every cell gets the direction it is owed. */
  function CalculateFlowDirections(s: Subsystem): (r: Subsystem)
    requires Shaped(s)
    ensures OnlyDirections(s, r)
    ensures forall c :: IsValidGridCoordinate(r, c) ==> FlowsDownhill(r, c, At(r, c).flowDirection)
  {
    var r := s.(grid := seq(|s.grid|, x requires 0 <= x < |s.grid| =>
                   seq(|s.grid[x]|, y requires 0 <= y < |s.grid[x]| =>
                     s.grid[x][y].(flowDirection := DirectionOf(s, Point(x, y))))));
    assert forall c :: IsValidGridCoordinate(r, c) ==> FlowsDownhill(r, c, At(r, c).flowDirection) by {
      forall c | IsValidGridCoordinate(r, c) ensures FlowsDownhill(r, c, At(r, c).flowDirection) {
        FlowsTransfers(s, r, c, DirectionOf(s, c));
      }
    }
    r
  }

  /** Changing only directions keeps the direction a cell is owed. */
  lemma FlowsTransfers(s: Subsystem, r: Subsystem, c: Point, d: Offset)
    requires OnlyDirections(s, r) && IsValidGridCoordinate(s, c)
    requires FlowsDownhill(s, c, d)
    ensures FlowsDownhill(r, c, d)
  {
    assert Around(r, c) == Around(s, c);
    assert CostsAround(r, c) == CostsAround(s, c);
  }

  // ----------------------------------------------------------- generation

  /** GenerateFlowFieldToLocation: nothing happens on an empty grid or when
      the clamped target is still outside the grid (a grid of zero height);
      otherwise integrate from the target cell and recompute every
      direction. */
  method GenerateFlowFieldToLocation(s: Subsystem, targetLocation: Vec3) returns (r: Subsystem)
    requires Shaped(s)
    requires |s.grid| > 0 ==> s.cellSize != 0.0
    ensures |s.grid| == 0 ==> r == s
    ensures |s.grid| > 0 && !IsValidGridCoordinate(s, WorldToGrid(s, targetLocation)) ==> r == s
    ensures |s.grid| > 0 && IsValidGridCoordinate(s, WorldToGrid(s, targetLocation)) ==>
      var t := WorldToGrid(s, targetLocation);
      && Shaped(r) && r.width == s.width && r.height == s.height
      && r.cellSize == s.cellSize && r.origin == s.origin
      && (forall c :: IsValidGridCoordinate(s, c) ==>
            && At(r, c).worldLocation == At(s, c).worldLocation
            && At(r, c).movementCost == At(s, c).movementCost)
      && At(r, t).integrationCost == Reached(0)
      && Settled(r) && Entered(r, t) && Cheapest(r, t)
      && forall c :: IsValidGridCoordinate(r, c) ==> FlowsDownhill(r, c, At(r, c).flowDirection)
  {
    if |s.grid| == 0 {
      return s;
    }
    var t := WorldToGrid(s, targetLocation);
    if !IsValidGridCoordinate(s, t) {
      return s;
    }
    var m := CalculateIntegrationField(s, t);
    r := CalculateFlowDirections(m);
    DirectionsKeepIntegration(m, r, t);
    LayoutKept(s, m, r);
  }

  /** Integrating and then setting directions changes no cell's position
      or movement cost, and no integration cost. */
  lemma LayoutKept(s: Subsystem, m: Subsystem, r: Subsystem)
    requires OnlyCosts(s, m) && OnlyDirections(m, r)
    ensures Shaped(r) && r.width == s.width && r.height == s.height
    ensures r.cellSize == s.cellSize && r.origin == s.origin
    ensures forall c :: IsValidGridCoordinate(s, c) ==>
      && At(r, c).worldLocation == At(s, c).worldLocation
      && At(r, c).movementCost == At(s, c).movementCost
      && At(r, c).integrationCost == At(m, c).integrationCost
  {
  }

  /** Setting directions leaves the integration properties in place. */
  lemma DirectionsKeepIntegration(m: Subsystem, r: Subsystem, t: Point)
    requires OnlyDirections(m, r) && Settled(m) && Entered(m, t) && Cheapest(m, t)
    ensures Settled(r) && Entered(r, t) && Cheapest(r, t)
  {
    CellNetsAgree(m, r);
    assert CostsOf(r) == CostsOf(m);
    ShortestAgrees(CellNet(m), CellNet(r), CostsOf(m), t);
    forall c | IsValidGridCoordinate(r, c) ensures SettledAt(r, c) {
      SettledAtKept(m, r, c);
    }
    forall c | IsValidGridCoordinate(r, c) ensures EnteredAt(r, t, c) {
      EnteredAtKept(m, r, t, c);
    }
  }

  lemma SettledAtKept(m: Subsystem, r: Subsystem, c: Point)
    requires OnlyDirections(m, r) && IsValidGridCoordinate(m, c) && SettledAt(m, c)
    ensures SettledAt(r, c)
  {
    assert Around(r, c) == Around(m, c);
    forall p | p in Around(m, c) ensures EnterCost(r, c, p) == EnterCost(m, c, p) {
    }
  }

  lemma EnteredAtKept(m: Subsystem, r: Subsystem, t: Point, c: Point)
    requires OnlyDirections(m, r) && IsValidGridCoordinate(m, c) && EnteredAt(m, t, c)
    ensures EnteredAt(r, t, c)
  {
    if c != t && At(r, c).integrationCost.Reached? {
      var p :| IsValidGridCoordinate(m, p) && c in Around(m, p)
               && At(m, p).integrationCost.Reached?
               && At(m, p).integrationCost.cost + EnterCost(m, p, c) == At(m, c).integrationCost.cost;
      assert Around(r, p) == Around(m, p);
      assert EnterCost(r, p, c) == EnterCost(m, p, c);
      assert At(r, p).integrationCost == At(m, p).integrationCost;
      assert At(r, c).integrationCost == At(m, c).integrationCost;
      assert IsValidGridCoordinate(r, p) && c in Around(r, p)
             && At(r, p).integrationCost.Reached?
             && At(r, p).integrationCost.cost + EnterCost(r, p, c) == At(r, c).integrationCost.cost;
    }
  }

  /** Once the field is generated, the target cell points at a neighbour
      whenever one of its neighbours can be entered and the cell size is not
      zero: the direction pass never compares a cell with its own cost. */
  lemma {:induction false} TargetGetsDirection(s: Subsystem, t: Point, p: Point)
    requires Shaped(s) && IsValidGridCoordinate(s, t) && s.cellSize != 0.0
    requires At(s, t).integrationCost == Reached(0) && Settled(s)
    requires p in Around(s, t) && At(s, p).movementCost > 0
    requires FlowsDownhill(s, t, At(s, t).flowDirection)
    ensures At(s, t).flowDirection != NoDirection
  {
    assert SettledAt(s, t);
    var nb := Around(s, t);
    var ls := CostsAround(s, t);
    var k :| 0 <= k < |nb| && nb[k] == p;
    assert ls[k].Reached?;
    var q: nat :| LowestAt(ls, Unreached, q) && q < |nb| && At(s, t).flowDirection == Heading(Toward(t, nb[q]), s.cellSize);
    assert nb[q] in nb;
  }

  // ------------------------------------------------------------- queries

  /** GetGridCellAtLocation's answer: no cell, or a copy of one. */
  datatype Lookup = NotFound | Found(cell: FieldCell)

  /** The cell under a world position, if the clamped coordinate lies in
      the grid. */
  function GetGridCellAtLocation(s: Subsystem, worldLocation: Vec3): (r: Lookup)
    requires Shaped(s) && s.cellSize != 0.0
    ensures r.Found? <==> s.width > 0 && s.height > 0
    ensures r.Found? ==> r.cell == At(s, WorldToGrid(s, worldLocation))
  {
    var c := WorldToGrid(s, worldLocation);
    if IsValidGridCoordinate(s, c) then Found(At(s, c)) else NotFound
  }

  /** The stored direction of the cell under a world position, or zero off
      an empty grid. */
  function GetFlowDirectionAtLocation(s: Subsystem, worldLocation: Vec3): (d: Offset)
    requires Shaped(s) && s.cellSize != 0.0
    ensures s.width > 0 && s.height > 0 ==> d == At(s, WorldToGrid(s, worldLocation)).flowDirection
    ensures s.width <= 0 || s.height <= 0 ==> d == NoDirection
  {
    match GetGridCellAtLocation(s, worldLocation)
    case Found(cell) => cell.flowDirection
    case NotFound => NoDirection
  }

  /** At a cell's own world position the query answers that cell's
      direction. */
  lemma FlowAtCell(s: Subsystem, c: Point)
    requires Shaped(s) && s.cellSize != 0.0 && IsValidGridCoordinate(s, c)
    ensures GetFlowDirectionAtLocation(s, GridToWorld(s, c)) == At(s, c).flowDirection
  {
    WorldGridRoundTrip(s, c);
  }
}
