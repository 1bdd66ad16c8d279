/** AFlowFieldController: a row-major array of flow-field cells, a FIFO
    label-correcting pass that spreads integration values out from a target
    cell over the four cardinal neighbours (each step costing the entered
    cell's Cost), and a pass that points every cell at its lowest neighbour
    strictly below its own value. */
module FlowFieldController {
  import opened Geometry
  import opened GridIndex
  import opened Relaxation
  import GridManager

  /** FFlowFieldCell as the controller uses it. Cost is a whole number,
      IntegrationValue a Level, and FlowDirection the unit grid step the cell
      points along. */
  datatype FlowCell = FlowCell(
    worldLocation: Vec3,
    flowDirection: Offset,
    gridX: int,
    gridY: int,
    cost: nat,
    value: Level)

  /** The default constructor: zero location and direction, cell (0, 0),
      Cost 1 and IntegrationValue at the maximum-value sentinel. */
  const DefaultCell: FlowCell := FlowCell(ZeroVector, NoDirection, 0, 0, 1, Unreached)

  /** The actor's state: GridWidth, GridHeight, CellSize, GridOrigin,
      TargetIndex and GridCells. */
  datatype Field = Field(
    width: int,
    height: int,
    cellSize: real,
    origin: Vec3,
    target: Point,
    cells: seq<FlowCell>)

  /** The property defaults: a 30 x 30 grid of 100-unit cells aimed at
      (5, 5), with no cells yet. GridOrigin has no default in the header; the
      model starts it at zero. */
  const DefaultField: Field := Field(30, 30, 100.0, ZeroVector, Point(5, 5), [])

  /** Every slot GetCellAt can hand out exists in the array. The controller
      indexes GridCells without checking its length, so every operation that
      reaches GetCellAt needs this. */
  predicate Indexable(f: Field) {
    f.width * f.height <= |f.cells|
  }

  // ---------------------------------------------------------------- layout

  /** The world position CreateGrid gives cell (x, y): the grid is centred
      on GridOrigin. */
  function CellCentre(f: Field, x: int, y: int): Vec3 {
    Plus(f.origin, Vec3(
      x as real * f.cellSize - GridManager.CentringOffset(f.width, f.cellSize),
      y as real * f.cellSize - GridManager.CentringOffset(f.height, f.cellSize),
      0.0))
  }

  function LaidOut(f: Field, x: int, y: int): FlowCell {
    DefaultCell.(gridX := x, gridY := y, worldLocation := CellCentre(f, x, y))
  }

  lemma PositiveArea(w: int, h: int)
    requires w > 0 && h > 0
    ensures w * h > 0
  {
    MulAtLeast(h, w);
  }

  /** CreateGrid: with a non-positive width, height or cell size it leaves
      the array alone; otherwise it replaces it by width * height default
      cells, appended row by row. */
  function CreateGrid(f: Field): (g: Field)
    ensures f.width <= 0 || f.height <= 0 || f.cellSize <= 0.0 ==> g == f
    ensures f.width > 0 && f.height > 0 && f.cellSize > 0.0 ==>
      g == f.(cells := g.cells) && |g.cells| == f.width * f.height && Indexable(g)
  {
    if f.width <= 0 || f.height <= 0 || f.cellSize <= 0.0 then f
    else
      PositiveArea(f.width, f.height);
      var n := f.width * f.height;
      f.(cells := seq(n, i requires 0 <= i < n => LaidOut(f, i % f.width, i / f.width)))
  }

  /** Each cell records the coordinates of the slot it sits in. */
  predicate LaidOutGrid(f: Field) {
    && Indexable(f)
    && forall x: int, y: int | 0 <= x < f.width && 0 <= y < f.height ::
         0 <= XYToIndex(f.width, x, y) < |f.cells|
         && f.cells[XYToIndex(f.width, x, y)].gridX == x
         && f.cells[XYToIndex(f.width, x, y)].gridY == y
  }

  /** After a successful CreateGrid the slot y * width + x holds the cell for
      (x, y), centred in its square, with the default Cost 1, no direction
      and the sentinel value. */
  lemma CreateGridLayout(f: Field)
    requires f.width > 0 && f.height > 0 && f.cellSize > 0.0
    ensures var g := CreateGrid(f);
      && LaidOutGrid(g)
      && forall x: int, y: int | IsInside(f.width, f.height, x, y) ::
           && g.cells[XYToIndex(f.width, x, y)].worldLocation == CellCentre(f, x, y)
           && g.cells[XYToIndex(f.width, x, y)].cost == 1
           && g.cells[XYToIndex(f.width, x, y)].value == Unreached
           && g.cells[XYToIndex(f.width, x, y)].flowDirection == NoDirection
  {
    var g := CreateGrid(f);
    forall x: int, y: int | IsInside(f.width, f.height, x, y)
      ensures 0 <= XYToIndex(f.width, x, y) < |g.cells|
      ensures g.cells[XYToIndex(f.width, x, y)] == LaidOut(f, x, y)
    {
      var i := XYToIndex(f.width, x, y);
      IndexInRange(f.width, f.height, x, y);
      DivModUnique(i, f.width, y, x);
    }
  }

  // ------------------------------------------------------------ lookups

  /** A cell pointer: null, or the slot it points at. */
  datatype CellRef = Null | Ref(slot: int)

  /** GetCellAt: null outside width x height, else the row-major slot. */
  function GetCellAt(f: Field, x: int, y: int): (r: CellRef)
    ensures r.Null? <==> !IsInside(f.width, f.height, x, y)
    ensures r.Ref? ==> r.slot == XYToIndex(f.width, x, y) && 0 <= r.slot < f.width * f.height
  {
    if !IsInside(f.width, f.height, x, y) then Null
    else
      IndexInRange(f.width, f.height, x, y);
      Ref(XYToIndex(f.width, x, y))
  }

  /** A neighbour pointer together with the offset that found it. */
  datatype Link = Link(slot: int, step: Offset)

  /** GetCellNeighbors' offsets, in the order it tries them. */
  const CardinalOffsets: seq<Offset> := [Offset(1, 0), Offset(-1, 0), Offset(0, 1), Offset(0, -1)]

  /** The in-range cells at `offsets` from (x, y), in the order of
      `offsets`. */
  function Gather(w: int, h: int, x: int, y: int, offsets: seq<Offset>): (r: seq<Link>)
    requires forall p, q :: 0 <= p < q < |offsets| ==> offsets[p] != offsets[q]
    ensures |r| <= |offsets|
    ensures forall l :: l in r <==>
      && l.step in offsets
      && IsInside(w, h, x + l.step.dx, y + l.step.dy)
      && l.slot == XYToIndex(w, x + l.step.dx, y + l.step.dy)
    ensures forall l :: l in r ==> 0 <= l.slot < w * h
    ensures forall p, q :: 0 <= p < q < |r| ==> r[p].step != r[q].step
  {
    if offsets == [] then []
    else
      var o := offsets[0];
      var rest := Gather(w, h, x, y, offsets[1..]);
      assert forall l :: l in rest ==> l.step != o;
      if IsInside(w, h, x + o.dx, y + o.dy) then
        IndexInRange(w, h, x + o.dx, y + o.dy);
        [Link(XYToIndex(w, x + o.dx, y + o.dy), o)] + rest
      else rest
  }

  /** A unit step along one axis. */
  predicate Cardinal(o: Offset) {
    Abs(o.dx) + Abs(o.dy) == 1
  }

  lemma CardinalOffsetsExactly(o: Offset)
    ensures o in CardinalOffsets <==> Cardinal(o)
  {
  }

  /** GetCellNeighbors: the in-range cells one cardinal step from the cell's
      recorded coordinates, with no walkability filter. */
  function GetCellNeighbors(f: Field, c: FlowCell): (r: seq<Link>)
    ensures |r| <= 4
    ensures forall l :: l in r <==>
      && Cardinal(l.step)
      && IsInside(f.width, f.height, c.gridX + l.step.dx, c.gridY + l.step.dy)
      && l.slot == XYToIndex(f.width, c.gridX + l.step.dx, c.gridY + l.step.dy)
    ensures forall l :: l in r ==> 0 <= l.slot < f.width * f.height
    ensures forall p, q :: 0 <= p < q < |r| ==> r[p].step != r[q].step
  {
    var r := Gather(f.width, f.height, c.gridX, c.gridY, CardinalOffsets);
    forall l: Link ensures l in r <==>
      && Cardinal(l.step)
      && IsInside(f.width, f.height, c.gridX + l.step.dx, c.gridY + l.step.dy)
      && l.slot == XYToIndex(f.width, c.gridX + l.step.dx, c.gridY + l.step.dy)
    {
      CardinalOffsetsExactly(l.step);
    }
    r
  }

  /** The value at a slot, reading outside the array as the sentinel. */
  function ValueAt(f: Field, slot: int): Level {
    if 0 <= slot < |f.cells| then f.cells[slot].value else Unreached
  }

  /** The cell's neighbours and their values, in scan order. */
  function Around(f: Field, i: int): seq<Link>
    requires 0 <= i < |f.cells|
  {
    GetCellNeighbors(f, f.cells[i])
  }

  function LevelsAround(f: Field, links: seq<Link>): (ls: seq<Level>)
    ensures |ls| == |links| && forall k :: 0 <= k < |links| ==> ls[k] == ValueAt(f, links[k].slot)
  {
    seq(|links|, k requires 0 <= k < |links| => ValueAt(f, links[k].slot))
  }

  // ------------------------------------------------------------ integration

  /** No neighbour could be lowered through any cell: for every cell u with a
      value and every cell v GetCellNeighbors lists for it,
      I(v) <= I(u) + Cost(v). */
  predicate Settled(f: Field) {
    forall i :: 0 <= i < |f.cells| ==> SettledAt(f, i)
  }

  predicate SettledAt(f: Field, i: int)
    requires 0 <= i < |f.cells|
  {
    f.cells[i].value.Reached? ==>
      forall l :: l in Around(f, i) ==>
        && 0 <= l.slot < |f.cells|
        && !Less(Reached(f.cells[i].value.cost + f.cells[l.slot].cost), f.cells[l.slot].value)
  }

  /** Cell `i`, if reached and not the target slot `t`, is entered from a
      cell that lists it, at exactly I(j) + Cost(i). */
  ghost predicate EnteredAt(f: Field, t: int, i: int)
    requires 0 <= i < |f.cells|
  {
    i != t && f.cells[i].value.Reached? ==>
      exists j :: 0 <= j < |f.cells| && i in Neighbours(f, j) && f.cells[j].value.Reached?
                  && f.cells[j].value.cost + f.cells[i].cost == f.cells[i].value.cost
  }

  /** Every reached value other than the target's is entered exactly from a
      reached neighbour. With Settled this does not yet pin the values down
      when zero-cost cells form a cycle; Cheapest does. */
  ghost predicate Entered(f: Field, t: int) {
    forall i :: 0 <= i < |f.cells| ==> EnteredAt(f, t, i)
  }

  /** A route from slot `t` follows GetCellNeighbors and costs the sum of
      the Costs of the cells it enters. The values are exactly the cheapest
      such costs: a cell is reached iff some route from `t` ends there, and
      its value is then the least cost of those routes. */
  ghost predicate Cheapest(f: Field, t: int) {
    Shortest(FieldNet(f), LevelsOf(f.cells), t)
  }

  /** Every cell is at the sentinel, as SetTargetCell leaves them. */
  predicate AllUnreached(f: Field) {
    forall i :: 0 <= i < |f.cells| ==> f.cells[i].value == Unreached
  }

  /** `g` is `f` with only the integration values changed. */
  predicate OnlyValues(f: Field, g: Field) {
    && g == f.(cells := g.cells)
    && |g.cells| == |f.cells|
    && forall i :: 0 <= i < |f.cells| ==> g.cells[i] == f.cells[i].(value := g.cells[i].value)
  }

  function Slots(links: seq<Link>): (r: seq<int>)
    ensures |r| == |links| && forall k :: 0 <= k < |links| ==> r[k] == links[k].slot
  {
    seq(|links|, k requires 0 <= k < |links| => links[k].slot)
  }

  function Neighbours(f: Field, i: int): seq<int> {
    if 0 <= i < |f.cells| then Slots(Around(f, i)) else []
  }

  function EnterCost(f: Field, v: int): nat {
    if 0 <= v < |f.cells| then f.cells[v].cost else 0
  }

  /** The graph the controller relaxes: slots, their GetCellNeighbors, the
      entered cell's Cost, and no cell closed off. */
  function FieldNet(f: Field): Net<int> {
    Net(i => Neighbours(f, i), (u, v) => EnterCost(f, v), v => true)
  }

  function LevelsOf(cells: seq<FlowCell>): (m: map<int, Level>)
    ensures forall i :: i in m <==> 0 <= i < |cells|
    ensures forall i :: 0 <= i < |cells| ==> m[i] == cells[i].value
  {
    map i | 0 <= i < |cells| :: cells[i].value
  }

  function WithLevels(cells: seq<FlowCell>, m: map<int, Level>): (r: seq<FlowCell>)
    requires forall i :: 0 <= i < |cells| ==> i in m
    ensures |r| == |cells| && forall i :: 0 <= i < |cells| ==> r[i] == cells[i].(value := m[i])
  {
    seq(|cells|, i requires 0 <= i < |cells| => cells[i].(value := m[i]))
  }

  lemma FieldNetClosed(f: Field, m: map<int, Level>)
    requires Indexable(f)
    requires forall i :: i in m <==> 0 <= i < |f.cells|
    ensures Closed(FieldNet(f), m)
  {
  }

  lemma FixpointSettled(f: Field, m: map<int, Level>)
    requires Indexable(f)
    requires forall i :: i in m <==> 0 <= i < |f.cells|
    requires Fixpoint(FieldNet(f), m)
    ensures Settled(f.(cells := WithLevels(f.cells, m)))
  {
    var g := f.(cells := WithLevels(f.cells, m));
    forall i | 0 <= i < |g.cells| ensures SettledAt(g, i) {
      RelaxedSettles(f, m, g, i);
    }
  }

  /** A supported fixpoint written back into the cells is entered exactly
      everywhere. */
  lemma FixpointEntered(f: Field, m: map<int, Level>, t: int)
    requires Indexable(f)
    requires forall i :: i in m <==> 0 <= i < |f.cells|
    requires Fixpoint(FieldNet(f), m) && Supported(FieldNet(f), m, t)
    ensures Entered(f.(cells := WithLevels(f.cells, m)), t)
  {
    FixpointTight(FieldNet(f), m, t);
    var g := f.(cells := WithLevels(f.cells, m));
    forall i | 0 <= i < |g.cells| ensures EnteredAt(g, t, i) {
      TightEnteredAt(f, m, g, t, i);
    }
  }

  /** Under the Bellman equations each cell is entered exactly. */
  lemma TightEnteredAt(f: Field, m: map<int, Level>, g: Field, t: int, i: int)
    requires forall k :: k in m <==> 0 <= k < |f.cells|
    requires Tight(FieldNet(f), m, t)
    requires g == f.(cells := WithLevels(f.cells, m))
    requires 0 <= i < |g.cells|
    ensures EnteredAt(g, t, i)
  {
    if i != t && m[i].Reached? {
      var j := TightStep(FieldNet(f), m, t, i);
      TightEntered(f, m, g, t, i, j);
    }
  }

  /** A value entered exactly from slot `j` is entered from a cell listing
      it. */
  lemma TightEntered(f: Field, m: map<int, Level>, g: Field, t: int, i: int, j: int)
    requires forall k :: k in m <==> 0 <= k < |f.cells|
    requires g == f.(cells := WithLevels(f.cells, m))
    requires 0 <= i < |f.cells| && i != t && m[i].Reached?
    requires j in m && i in Neighbours(f, j) && m[j].Reached?
    requires m[j].cost + EnterCost(f, i) == m[i].cost
    ensures EnteredAt(g, t, i)
  {
    assert Around(g, j) == Around(f, j);
    assert Neighbours(g, j) == Neighbours(f, j);
    assert g.cells[j].value == m[j] && g.cells[i].value == m[i] && g.cells[i].cost == EnterCost(f, i);
  }

  /** With only the target reached, at 0, the values are trivially
      supported and realised. */
  lemma Seeded(f: Field, t: int)
    requires 0 <= t < |f.cells| && AllUnreached(f)
    ensures Supported(FieldNet(f), LevelsOf(f.cells)[t := Reached(0)], t)
    ensures Realized(FieldNet(f), LevelsOf(f.cells)[t := Reached(0)], t)
  {
    SourceRealized(FieldNet(f), LevelsOf(f.cells)[t := Reached(0)], t);
  }

  /** What a drained worklist gives, written back into the cells. */
  lemma FixpointField(f: Field, m: map<int, Level>, t: int)
    requires Indexable(f)
    requires forall i :: i in m <==> 0 <= i < |f.cells|
    requires t in m && m[t] == Reached(0)
    requires Fixpoint(FieldNet(f), m) && Supported(FieldNet(f), m, t) && Realized(FieldNet(f), m, t)
    ensures Settled(f.(cells := WithLevels(f.cells, m)))
    ensures Entered(f.(cells := WithLevels(f.cells, m)), t)
    ensures Cheapest(f.(cells := WithLevels(f.cells, m)), t)
  {
    FixpointSettled(f, m);
    FixpointEntered(f, m, t);
    FixpointCheapest(f, m, t);
  }

  /** A fixpoint whose every reached value is the cost of a real route is,
      written back into the cells, the field of cheapest route costs. */
  lemma FixpointCheapest(f: Field, m: map<int, Level>, t: int)
    requires forall i :: i in m <==> 0 <= i < |f.cells|
    requires t in m && m[t] == Reached(0)
    requires Fixpoint(FieldNet(f), m) && Realized(FieldNet(f), m, t)
    ensures Cheapest(f.(cells := WithLevels(f.cells, m)), t)
  {
    FixpointShortest(FieldNet(f), m, t);
    var g := f.(cells := WithLevels(f.cells, m));
    FieldNetsAgree(f, g);
    assert LevelsOf(g.cells) == m;
    ShortestAgrees(FieldNet(f), FieldNet(g), m, t);
  }

  /** The graph depends only on the layout and the costs. */
  lemma FieldNetsAgree(f: Field, g: Field)
    requires |g.cells| == |f.cells| && g.width == f.width && g.height == f.height
    requires forall j :: 0 <= j < |f.cells| ==>
      && g.cells[j].cost == f.cells[j].cost
      && g.cells[j].gridX == f.cells[j].gridX && g.cells[j].gridY == f.cells[j].gridY
    ensures NetsAgree(FieldNet(f), FieldNet(g))
  {
    forall u ensures FieldNet(f).adj(u) == FieldNet(g).adj(u) {
      if 0 <= u < |f.cells| {
        assert Around(g, u) == Around(f, u);
      }
    }
  }

  /** A relaxed slot offers no improvement to any cell it lists. */
  lemma RelaxedSettles(f: Field, m: map<int, Level>, g: Field, i: int)
    requires Indexable(f)
    requires forall j :: j in m <==> 0 <= j < |f.cells|
    requires 0 <= i < |f.cells| && Relaxed(FieldNet(f), m, i)
    requires g.width == f.width && g.height == f.height && |g.cells| == |f.cells|
    requires forall j :: 0 <= j < |f.cells| ==> g.cells[j] == f.cells[j].(value := m[j])
    ensures SettledAt(g, i)
  {
    assert Around(g, i) == Around(f, i);
    var links := Around(f, i);
    forall l | l in links && m[i].Reached?
      ensures 0 <= l.slot < |f.cells|
      ensures !Less(Reached(m[i].cost + f.cells[l.slot].cost), m[l.slot])
    {
      var k :| 0 <= k < |links| && links[k] == l;
      assert Neighbours(f, i)[k] == l.slot;
    }
  }

  /** ComputeIntegrationField: when TargetIndex names a cell, set it to 0 and
      run the FIFO worklist; otherwise change nothing. Values only go down,
      the target ends at 0, and, started from all-sentinel values as
      SetTargetCell leaves them, no neighbour can be lowered any further and
      every value is the cheapest route cost from the target. */
  method ComputeIntegrationField(f: Field) returns (g: Field)
    requires Indexable(f)
    ensures OnlyValues(f, g)
    ensures GetCellAt(f, f.target.x, f.target.y).Null? ==> g == f
    ensures GetCellAt(f, f.target.x, f.target.y).Ref? ==>
      g.cells[GetCellAt(f, f.target.x, f.target.y).slot].value == Reached(0)
    ensures forall i :: 0 <= i < |f.cells| ==> !Less(f.cells[i].value, g.cells[i].value)
    ensures AllUnreached(f) ==> Settled(g)
    ensures AllUnreached(f) && GetCellAt(f, f.target.x, f.target.y).Ref? ==>
      Entered(g, GetCellAt(f, f.target.x, f.target.y).slot)
    ensures AllUnreached(f) && GetCellAt(f, f.target.x, f.target.y).Ref? ==>
      Cheapest(g, GetCellAt(f, f.target.x, f.target.y).slot)
  {
    var t := GetCellAt(f, f.target.x, f.target.y);
    if t.Null? {
      return f;
    }
    var levels := Flood(f, t.slot);
    g := f.(cells := WithLevels(f.cells, levels));
  }

  /** The body of ComputeIntegrationField once the target is known: put
      the target at 0 and drain the queue. The values only go down, and
      from all-sentinel values the result, written back, is settled and
      holds the cheapest route costs. */
  method Flood(f: Field, t: int) returns (levels: map<int, Level>)
    requires Indexable(f) && 0 <= t < |f.cells|
    ensures forall i :: i in levels <==> 0 <= i < |f.cells|
    ensures levels[t] == Reached(0)
    ensures forall i :: 0 <= i < |f.cells| ==> !Less(f.cells[i].value, levels[i])
    ensures AllUnreached(f) ==>
      var g := f.(cells := WithLevels(f.cells, levels));
      Settled(g) && Entered(g, t) && Cheapest(g, t)
  {
    var net := FieldNet(f);
    ghost var nodes := seq(|f.cells|, i => i);
    ghost var reset := AllUnreached(f);
    levels := LevelsOf(f.cells)[t := Reached(0)];
    ghost var start := levels;
    FieldNetClosed(f, levels);
    assert forall v :: v in levels ==> v in nodes by {
      forall v | v in levels ensures v in nodes {
        assert nodes[v] == v;
      }
    }
    if reset {
      Seeded(f, t);
    }
    levels := DrainQueue(net, levels, [t], nodes, reset, t);
    assert !Less(start[t], levels[t]);
    if reset {
      FixpointField(f, levels, t);
    }
  }

  /** The loop of ComputeIntegrationField: take the oldest cell off the
      queue, relax its neighbours and queue the lowered ones at the back,
      until the queue is empty. */
  method DrainQueue(net: Net<int>, levels0: map<int, Level>, queue0: seq<int>,
                    ghost nodes: seq<int>, ghost settling: bool, ghost source: int)
    returns (levels: map<int, Level>)
    requires Worklist(net, levels0, queue0, settling)
    requires settling ==> Supported(net, levels0, source) && Realized(net, levels0, source)
    requires forall v :: v in levels0 ==> v in nodes
    ensures levels.Keys == levels0.Keys
    ensures NoHigher(levels0, levels)
    ensures settling ==> Fixpoint(net, levels) && Supported(net, levels, source)
    ensures settling ==> Realized(net, levels, source)
  {
    levels := levels0;
    var queue := queue0;
    while queue != []
      invariant levels.Keys == levels0.Keys
      invariant Worklist(net, levels, queue, settling)
      invariant settling ==> Supported(net, levels, source) && Realized(net, levels, source)
      invariant NoHigher(levels0, levels)
      invariant forall v :: v in levels ==> v in nodes
      decreases CountUnreached(levels, nodes), SumReached(levels, nodes), |queue|
    {
      var u := queue[0];
      var rest := queue[1..];
      var after, pushed := Visit(net, levels, queue, u, rest, nodes, settling);
      if settling {
        KeepSupported(net, levels, after, u, source);
        KeepRealized(net, levels, after, u, source);
      }
      NoHigherChain(levels0, levels, after);
      levels, queue := after, rest + pushed;
    }
  }

  // ------------------------------------------------------------ directions

  /** `d` is the direction ComputeDirections owes cell `i`: zero when no
      neighbour is strictly below the cell's own value, else the step to the
      first neighbour, in GetCellNeighbors order, holding the lowest such
      value. */
  predicate Downhill(f: Field, i: int, d: Offset)
    requires 0 <= i < |f.cells|
  {
    && (d == NoDirection <==> forall l :: l in Around(f, i) ==> !Less(ValueAt(f, l.slot), f.cells[i].value))
    && (d != NoDirection ==>
          exists p :: (0 <= p < |Around(f, i)| && Around(f, i)[p].step == d
                       && LowestAt(LevelsAround(f, Around(f, i)), f.cells[i].value, p)))
  }

  /** The direction of one cell: scan the neighbours keeping the first
      strictly lower value. */
  function DirectionOf(f: Field, i: int): (d: Offset)
    requires 0 <= i < |f.cells|
    ensures Downhill(f, i, d)
  {
    var links := Around(f, i);
    var ls := LevelsAround(f, links);
    var p := FirstLowest(ls, f.cells[i].value);
    if p.At? then
      assert Cardinal(links[p.pos].step) by {
        assert links[p.pos] in links;
      }
      links[p.pos].step
    else
      assert forall l :: l in links ==> !Less(ValueAt(f, l.slot), f.cells[i].value) by {
        forall l | l in links ensures !Less(ValueAt(f, l.slot), f.cells[i].value) {
          var k :| 0 <= k < |links| && links[k] == l;
          assert ls[k] == ValueAt(f, l.slot);
        }
      }
      NoDirection
  }

  /** Downhill depends only on the layout and the values. */
  lemma DownhillTransfers(f: Field, g: Field, i: int, d: Offset)
    requires 0 <= i < |f.cells| && |g.cells| == |f.cells|
    requires g.width == f.width && g.height == f.height
    requires forall j :: 0 <= j < |f.cells| ==>
      g.cells[j].value == f.cells[j].value && g.cells[j].gridX == f.cells[j].gridX && g.cells[j].gridY == f.cells[j].gridY
    requires Downhill(f, i, d)
    ensures Downhill(g, i, d)
  {
    assert forall s :: ValueAt(g, s) == ValueAt(f, s);
    assert Around(g, i) == Around(f, i);
    assert LevelsAround(g, Around(g, i)) == LevelsAround(f, Around(f, i));
  }

  /** ComputeDirections: every cell gets its DirectionOf, computed from the
      values as they stand; nothing else changes. */
  function ComputeDirections(f: Field): (g: Field)
    ensures g == f.(cells := g.cells) && |g.cells| == |f.cells|
    ensures forall i :: 0 <= i < |f.cells| ==>
      g.cells[i] == f.cells[i].(flowDirection := g.cells[i].flowDirection)
    ensures forall i :: 0 <= i < |g.cells| ==> Downhill(g, i, g.cells[i].flowDirection)
  {
    var g := f.(cells := seq(|f.cells|, i requires 0 <= i < |f.cells| =>
      f.cells[i].(flowDirection := DirectionOf(f, i))));
    forall i | 0 <= i < |g.cells| ensures Downhill(g, i, g.cells[i].flowDirection) {
      DownhillTransfers(f, g, i, DirectionOf(f, i));
    }
    g
  }

  /** Settled depends only on the layout, the costs and the values. */
  lemma SettledTransfers(f: Field, g: Field)
    requires |g.cells| == |f.cells| && g.width == f.width && g.height == f.height
    requires forall j :: 0 <= j < |f.cells| ==>
      && g.cells[j].value == f.cells[j].value && g.cells[j].cost == f.cells[j].cost
      && g.cells[j].gridX == f.cells[j].gridX && g.cells[j].gridY == f.cells[j].gridY
    requires Settled(f)
    ensures Settled(g)
  {
    forall i | 0 <= i < |g.cells| ensures SettledAt(g, i) {
      assert Around(g, i) == Around(f, i);
      assert SettledAt(f, i);
    }
  }

  /** Cheapest depends only on the layout, the costs and the values. */
  lemma CheapestTransfers(f: Field, g: Field, t: int)
    requires |g.cells| == |f.cells| && g.width == f.width && g.height == f.height
    requires forall j :: 0 <= j < |f.cells| ==>
      && g.cells[j].value == f.cells[j].value && g.cells[j].cost == f.cells[j].cost
      && g.cells[j].gridX == f.cells[j].gridX && g.cells[j].gridY == f.cells[j].gridY
    requires Cheapest(f, t)
    ensures Cheapest(g, t)
  {
    FieldNetsAgree(f, g);
    assert LevelsOf(g.cells) == LevelsOf(f.cells);
    ShortestAgrees(FieldNet(f), FieldNet(g), LevelsOf(f.cells), t);
  }

  /** Entered depends only on the layout, the costs and the values. */
  lemma EnteredTransfers(f: Field, g: Field, t: int)
    requires |g.cells| == |f.cells| && g.width == f.width && g.height == f.height
    requires forall j :: 0 <= j < |f.cells| ==>
      && g.cells[j].value == f.cells[j].value && g.cells[j].cost == f.cells[j].cost
      && g.cells[j].gridX == f.cells[j].gridX && g.cells[j].gridY == f.cells[j].gridY
    requires Entered(f, t)
    ensures Entered(g, t)
  {
    forall i | 0 <= i < |g.cells| ensures EnteredAt(g, t, i) {
      assert EnteredAt(f, t, i);
      if i != t && g.cells[i].value.Reached? {
        var j :| 0 <= j < |f.cells| && i in Neighbours(f, j) && f.cells[j].value.Reached?
                 && f.cells[j].value.cost + f.cells[i].cost == f.cells[i].value.cost;
        assert Around(g, j) == Around(f, j);
        assert i in Neighbours(g, j);
      }
    }
  }

  // ------------------------------------------------------------ targets

  function ResetValues(cells: seq<FlowCell>): (r: seq<FlowCell>)
    ensures |r| == |cells| && forall i :: 0 <= i < |cells| ==> r[i] == cells[i].(value := Unreached)
  {
    seq(|cells|, i requires 0 <= i < |cells| => cells[i].(value := Unreached))
  }

  /** SetTargetCell: record the target, put every value back to the
      sentinel, spread values out from the target and recompute the
      directions. An out-of-range target leaves every value at the sentinel
      and every direction zero; an in-range one ends at 0 with no direction
      and every other value is the cheapest route cost from it, a cell
      being reached iff some route leads there. Either way no neighbour can
      be lowered further and every cell points downhill. */
  method SetTargetCell(f: Field, x: int, y: int) returns (g: Field)
    requires Indexable(f)
    ensures g.width == f.width && g.height == f.height && g.cellSize == f.cellSize
    ensures g.origin == f.origin && g.target == Point(x, y) && |g.cells| == |f.cells|
    ensures forall i :: 0 <= i < |f.cells| ==>
      && g.cells[i].worldLocation == f.cells[i].worldLocation && g.cells[i].cost == f.cells[i].cost
      && g.cells[i].gridX == f.cells[i].gridX && g.cells[i].gridY == f.cells[i].gridY
    ensures GetCellAt(f, x, y).Null? ==>
      forall i :: 0 <= i < |g.cells| ==> g.cells[i].value == Unreached && g.cells[i].flowDirection == NoDirection
    ensures GetCellAt(f, x, y).Ref? ==>
      && g.cells[GetCellAt(f, x, y).slot].value == Reached(0)
      && g.cells[GetCellAt(f, x, y).slot].flowDirection == NoDirection
      && Entered(g, GetCellAt(f, x, y).slot)
      && Cheapest(g, GetCellAt(f, x, y).slot)
    ensures Settled(g)
    ensures forall i :: 0 <= i < |g.cells| ==> Downhill(g, i, g.cells[i].flowDirection)
  {
    var f1 := f.(target := Point(x, y), cells := ResetValues(f.cells));
    var f2 := ComputeIntegrationField(f1);
    g := ComputeDirections(f2);
    SettledTransfers(f2, g);
    var t := GetCellAt(f, x, y);
    if t.Ref? {
      DirectionsKeepIntegration(f2, t.slot);
    } else {
      UnreachedStill(f2);
    }
  }

  /** With every value at the sentinel nothing lies below anything, so no
      cell gets a direction. */
  lemma UnreachedStill(f: Field)
    requires AllUnreached(f)
    ensures AllUnreached(ComputeDirections(f))
    ensures forall i :: 0 <= i < |f.cells| ==> ComputeDirections(f).cells[i].flowDirection == NoDirection
  {
    var g := ComputeDirections(f);
    forall i | 0 <= i < |g.cells| ensures g.cells[i].flowDirection == NoDirection {
      assert Downhill(g, i, g.cells[i].flowDirection);
      assert forall l :: l in Around(g, i) ==> ValueAt(g, l.slot) == Unreached;
    }
  }

  /** Recomputing the directions keeps what the integration pass
      established about the values, and the target, at 0, gets no
      direction. */
  lemma DirectionsKeepIntegration(f: Field, t: int)
    requires 0 <= t < |f.cells| && f.cells[t].value == Reached(0)
    requires Entered(f, t) && Cheapest(f, t)
    ensures ComputeDirections(f).cells[t].value == Reached(0)
    ensures ComputeDirections(f).cells[t].flowDirection == NoDirection
    ensures Entered(ComputeDirections(f), t) && Cheapest(ComputeDirections(f), t)
  {
    var g := ComputeDirections(f);
    EnteredTransfers(f, g, t);
    CheapestTransfers(f, g, t);
    TargetStill(f, t);
  }

  /** Nothing lies strictly below 0, so the target gets no direction. */
  lemma TargetStill(f: Field, t: int)
    requires 0 <= t < |f.cells| && f.cells[t].value == Reached(0)
    ensures ComputeDirections(f).cells[t].flowDirection == NoDirection
  {
    var g := ComputeDirections(f);
    assert Downhill(g, t, g.cells[t].flowDirection);
    assert forall l :: l in Around(g, t) ==> !Less(ValueAt(g, l.slot), Reached(0));
  }

  /** The cell SetTargetCellByWorldLocation aims at, as the source computes
      it: round to the nearest cell, then clamp each axis into [0, size] --
      one past the last cell. */
  function TargetCellAsWritten(f: Field, world: Vec3): Point
    requires f.cellSize != 0.0
  {
    var local := Minus(world, f.origin);
    var x := RoundToInt((local.x + GridManager.CentringOffset(f.width, f.cellSize)) / f.cellSize);
    var y := RoundToInt((local.y + GridManager.CentringOffset(f.height, f.cellSize)) / f.cellSize);
    Point(Clamp(x, 0, f.width), Clamp(y, 0, f.height))
  }

  /** On the default 30 x 30 grid of 100-unit cells centred on the origin, a
      point on the far x edge is aimed at column 30, which GetCellAt rejects,
      so SetTargetCell leaves every cell at the sentinel with no direction. */
  lemma EdgeTargetIsDropped(f: Field)
    requires f.width == 30 && f.height == 30 && f.cellSize == 100.0 && f.origin == ZeroVector
    ensures TargetCellAsWritten(f, Vec3(1500.0, 0.0, 0.0)) == Point(30, 15)
    ensures GetCellAt(f, 30, 15).Null?
  {
    var local := Minus(Vec3(1500.0, 0.0, 0.0), f.origin);
    assert local == Vec3(1500.0, 0.0, 0.0);
    assert GridManager.CentringOffset(30, 100.0) == 1450.0;
    assert (local.x + 1450.0) / 100.0 == 29.5;
    assert (local.y + 1450.0) / 100.0 == 14.5;
    assert RoundToInt(29.5) == 30 by {
      RoundWhole(30);
    }
    assert RoundToInt(14.5) == 15 by {
      RoundWhole(15);
    }
  }

  /** The cell SetTargetCellByWorldLocation evidently means: the same
      rounding, clamped into [0, size - 1], so on a non-empty grid it always
      names a cell. */
  function TargetCell(f: Field, world: Vec3): (p: Point)
    requires f.cellSize != 0.0
    ensures f.width > 0 && f.height > 0 ==> IsInside(f.width, f.height, p.x, p.y)
  {
    var local := Minus(world, f.origin);
    var x := RoundToInt((local.x + GridManager.CentringOffset(f.width, f.cellSize)) / f.cellSize);
    var y := RoundToInt((local.y + GridManager.CentringOffset(f.height, f.cellSize)) / f.cellSize);
    Point(Clamp(x, 0, f.width - 1), Clamp(y, 0, f.height - 1))
  }

  /** The centre CreateGrid gives a cell aims at that cell. */
  lemma TargetCellOfCentre(f: Field, x: int, y: int)
    requires f.cellSize != 0.0 && IsInside(f.width, f.height, x, y)
    ensures TargetCell(f, CellCentre(f, x, y)) == Point(x, y)
  {
    var local := Minus(CellCentre(f, x, y), f.origin);
    assert local.x + GridManager.CentringOffset(f.width, f.cellSize) == x as real * f.cellSize;
    assert local.y + GridManager.CentringOffset(f.height, f.cellSize) == y as real * f.cellSize;
    assert (x as real * f.cellSize) / f.cellSize == x as real;
    assert (y as real * f.cellSize) / f.cellSize == y as real;
    RoundWhole(x);
    RoundWhole(y);
  }

  /** SetTargetCellByWorldLocation with the clamp corrected: nothing happens
      on an empty array; otherwise the target is TargetCell of the location,
      which on a non-empty grid is a cell that ends at 0 and from which
      every other value is the cheapest route cost. */
  method SetTargetCellByWorldLocation(f: Field, world: Vec3) returns (g: Field)
    requires |f.cells| > 0 ==> Indexable(f) && f.cellSize != 0.0
    ensures |f.cells| == 0 ==> g == f
    ensures |f.cells| > 0 ==> g.target == TargetCell(f, world)
    ensures |f.cells| > 0 && f.width > 0 && f.height > 0 ==>
      && IsInside(f.width, f.height, g.target.x, g.target.y)
      && 0 <= XYToIndex(f.width, g.target.x, g.target.y) < |g.cells|
      && g.cells[XYToIndex(f.width, g.target.x, g.target.y)].value == Reached(0)
      && Entered(g, XYToIndex(f.width, g.target.x, g.target.y))
      && Cheapest(g, XYToIndex(f.width, g.target.x, g.target.y))
    ensures Settled(g)
    ensures forall i :: 0 <= i < |g.cells| ==> Downhill(g, i, g.cells[i].flowDirection)
  {
    if |f.cells| == 0 {
      g := f;
      return;
    }
    var p := TargetCell(f, world);
    g := SetTargetCell(f, p.x, p.y);
  }
}
