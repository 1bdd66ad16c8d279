/** The integer Bresenham walk HasLineOfSight performs between two cells:
    Dx = |X1 - X0|, Dy = |Y1 - Y0|, steps SX, SY of +-1, Err starting at
    Dx - Dy; each round doubles Err into E2, steps in x when E2 > -Dy and in
    y when E2 < Dx (both tests use the same E2), and stops on reaching the
    end cell.

    The cursor never overshoots: after i steps in x and j in y,
    Err = Dx * (1 + j) - Dy * (1 + i), with i <= Dx and j <= Dy, and every
    round before the end makes at least one step. */
module Bresenham {
  import opened Geometry

  datatype Line = Line(from: Point, to: Point)

  /** The walk's position (X, Y) and error term Err. */
  datatype Cursor = Cursor(x: int, y: int, err: int)

  function Dx(l: Line): (d: int)
    ensures d >= 0
  {
    Abs(l.to.x - l.from.x)
  }

  function Dy(l: Line): (d: int)
    ensures d >= 0
  {
    Abs(l.to.y - l.from.y)
  }

  function SX(l: Line): int {
    if l.from.x < l.to.x then 1 else -1
  }

  function SY(l: Line): int {
    if l.from.y < l.to.y then 1 else -1
  }

  function Begin(l: Line): Cursor {
    Cursor(l.from.x, l.from.y, Dx(l) - Dy(l))
  }

  function At(c: Cursor): Point {
    Point(c.x, c.y)
  }

  predicate AtEnd(l: Line, c: Cursor) {
    c.x == l.to.x && c.y == l.to.y
  }

  /** Steps taken so far along each axis. */
  function XSteps(l: Line, c: Cursor): int {
    (c.x - l.from.x) * SX(l)
  }

  function YSteps(l: Line, c: Cursor): int {
    (c.y - l.from.y) * SY(l)
  }

  /** The cursor lies between the endpoints with the error term that its
      step counts determine. */
  predicate OnTrack(l: Line, c: Cursor) {
    && 0 <= XSteps(l, c) <= Dx(l)
    && 0 <= YSteps(l, c) <= Dy(l)
    && c.err == Dx(l) * (1 + YSteps(l, c)) - Dy(l) * (1 + XSteps(l, c))
  }

  /** The steps still to take. */
  function Remaining(l: Line, c: Cursor): int {
    (Dx(l) - XSteps(l, c)) + (Dy(l) - YSteps(l, c))
  }

  /** One round of the loop after the end test. */
  function Step(l: Line, c: Cursor): Cursor {
    var e2 := 2 * c.err;
    var c1 := if e2 > -Dy(l) then Cursor(c.x + SX(l), c.y, c.err - Dy(l)) else c;
    if e2 < Dx(l) then Cursor(c1.x, c1.y + SY(l), c1.err + Dx(l)) else c1
  }

  /** One round as the loop writes it: E2 = 2 * Err, then the x test and
      the y test on that same E2. Taken from a cursor on the track and not
      yet at the end, as the loop only advances after the end test, the
      round stays on the track, moves to one of the eight neighbouring
      cells and brings the end one step closer. */
  method Advance(l: Line, c: Cursor) returns (d: Cursor)
    ensures d == Step(l, c)
    ensures OnTrack(l, c) && !AtEnd(l, c) ==>
      && OnTrack(l, d) && Remaining(l, d) < Remaining(l, c)
      && Chebyshev(At(c), At(d)) == 1
  {
    if OnTrack(l, c) && !AtEnd(l, c) {
      StepProgress(l, c);
    }
    var x, y, err := c.x, c.y, c.err;
    var e2 := 2 * err;
    if e2 > -Dy(l) {
      err := err - Dy(l);
      x := x + SX(l);
    }
    if e2 < Dx(l) {
      err := err + Dx(l);
      y := y + SY(l);
    }
    d := Cursor(x, y, err);
  }

  lemma BeginOnTrack(l: Line)
    ensures OnTrack(l, Begin(l)) && Remaining(l, Begin(l)) == Dx(l) + Dy(l)
  {
  }

  /** Taking all Dx steps in x puts the cursor on the end column, and
      likewise for y. */
  lemma StepsLocate(l: Line, c: Cursor)
    requires OnTrack(l, c)
    ensures XSteps(l, c) == Dx(l) <==> c.x == l.to.x
    ensures YSteps(l, c) == Dy(l) <==> c.y == l.to.y
  {
  }

  /** a * b <= a * d when a >= 0 and b <= d. */
  lemma MulMono(a: int, b: int, d: int)
    requires a >= 0 && b <= d
    ensures a * b <= a * d
  {
    assert a * d - a * b == a * (d - b);
  }

  /** With all x steps taken and a y step still due, the x test fails. */
  lemma NoExtraX(dx: int, dy: int, j: int)
    requires dx >= 0 && 0 <= j < dy
    ensures !(2 * (dx * (1 + j) - dy * (1 + dx)) > -dy)
  {
    MulMono(dx, 1 + j, dy);
    assert dy * (1 + dx) == dy + dy * dx;
    assert dx * dy == dy * dx;
  }

  /** With all y steps taken and an x step still due, the y test fails. */
  lemma NoExtraY(dx: int, dy: int, i: int)
    requires dy >= 0 && 0 <= i < dx
    ensures !(2 * (dx * (1 + dy) - dy * (1 + i)) < dx)
  {
    MulMono(dy, 1 + i, dx);
    assert dx * (1 + dy) == dx + dx * dy;
    assert dx * dy == dy * dx;
  }

  /** Every round before the end keeps the cursor on track and takes at
      least one step, so the walk ends after Dx + Dy steps at most. */
  lemma StepProgress(l: Line, c: Cursor)
    requires OnTrack(l, c) && !AtEnd(l, c)
    ensures OnTrack(l, Step(l, c))
    ensures Remaining(l, Step(l, c)) < Remaining(l, c)
    ensures Chebyshev(At(c), At(Step(l, c))) == 1
  {
    var dx, dy := Dx(l), Dy(l);
    var i, j := XSteps(l, c), YSteps(l, c);
    var e2 := 2 * c.err;
    StepsLocate(l, c);
    var stepX, stepY := e2 > -dy, e2 < dx;
    assert i == dx ==> !stepX by {
      if i == dx && j < dy {
        NoExtraX(dx, dy, j);
      }
    }
    assert j == dy ==> !stepY by {
      if j == dy && i < dx {
        NoExtraY(dx, dy, i);
      }
    }
    assert stepX || stepY by {
      EitherStep(dx, dy, i, j, c.err);
    }
    var c' := Step(l, c);
    var i', j' := if stepX then i + 1 else i, if stepY then j + 1 else j;
    assert c'.x == if stepX then c.x + SX(l) else c.x;
    assert c'.y == if stepY then c.y + SY(l) else c.y;
    AdvanceCount(c.x, l.from.x, SX(l), stepX);
    AdvanceCount(c.y, l.from.y, SY(l), stepY);
    ErrUpdate(dx, dy, i, j, c.err, stepX, stepY);
    assert XSteps(l, c') == i' && YSteps(l, c') == j';
    assert c'.err == dx * (1 + j') - dy * (1 + i');
  }

  /** At least one of the two tests passes: if neither did,
      Dx <= 2 * Err <= -Dy, impossible once a step is still due. */
  lemma EitherStep(dx: int, dy: int, i: int, j: int, err: int)
    requires 0 <= i && 0 <= j && dx >= 0 && dy >= 0 && (i < dx || j < dy)
    ensures 2 * err > -dy || 2 * err < dx
  {
  }

  /** Moving one unit in the walk's direction adds one step. */
  lemma AdvanceCount(pos: int, from: int, s: int, moved: bool)
    requires s == 1 || s == -1
    ensures ((if moved then pos + s else pos) - from) * s == (pos - from) * s + (if moved then 1 else 0)
  {
  }

  /** The error term keeps its closed form after a round. */
  lemma ErrUpdate(dx: int, dy: int, i: int, j: int, err: int, stepX: bool, stepY: bool)
    requires err == dx * (1 + j) - dy * (1 + i)
    ensures var i', j' := if stepX then i + 1 else i, if stepY then j + 1 else j;
      err - (if stepX then dy else 0) + (if stepY then dx else 0) == dx * (1 + j') - dy * (1 + i')
  {
    assert dx * (1 + (j + 1)) == dx * (1 + j) + dx;
    assert dy * (1 + (i + 1)) == dy * (1 + i) + dy;
  }

  /** The cells the walk visits from cursor c on, end cell included. */
  function Raster(l: Line, c: Cursor): (cells: seq<Point>)
    requires OnTrack(l, c)
    ensures |cells| >= 1 && cells[0] == At(c)
    decreases Remaining(l, c)
  {
    if AtEnd(l, c) then [At(c)]
    else
      StepProgress(l, c);
      [At(c)] + Raster(l, Step(l, c))
  }

  /** Every cell HasLineOfSight tests between two cells, both included. */
  function Cells(l: Line): (cells: seq<Point>)
    ensures |cells| >= 1 && cells[0] == l.from
  {
    BeginOnTrack(l);
    Raster(l, Begin(l))
  }

  /** The walk from cursor c on: Raster(c) is At(c) followed by the walk
      from the next cursor, unless c is at the end. */
  lemma RasterUnfold(l: Line, c: Cursor)
    requires OnTrack(l, c) && !AtEnd(l, c)
    ensures OnTrack(l, Step(l, c))
    ensures Raster(l, c) == [At(c)] + Raster(l, Step(l, c))
  {
    StepProgress(l, c);
  }

  /** The walk ends on the end cell. */
  lemma {:induction false} RasterEnds(l: Line, c: Cursor)
    requires OnTrack(l, c)
    ensures Raster(l, c)[|Raster(l, c)| - 1] == l.to
    decreases Remaining(l, c)
  {
    if !AtEnd(l, c) {
      StepProgress(l, c);
      RasterUnfold(l, c);
      RasterEnds(l, Step(l, c));
    }
  }

  /** Consecutive cells of the walk are one king move apart. */
  lemma {:induction false} RasterSteps(l: Line, c: Cursor)
    requires OnTrack(l, c)
    ensures forall k | 0 <= k < |Raster(l, c)| - 1 :: Chebyshev(Raster(l, c)[k], Raster(l, c)[k + 1]) == 1
    decreases Remaining(l, c)
  {
    if !AtEnd(l, c) {
      StepProgress(l, c);
      RasterUnfold(l, c);
      RasterSteps(l, Step(l, c));
      var rest := Raster(l, Step(l, c));
      forall k | 0 <= k < |Raster(l, c)| - 1
        ensures Chebyshev(Raster(l, c)[k], Raster(l, c)[k + 1]) == 1
      {
        if k > 0 {
          assert Raster(l, c)[k] == rest[k - 1] && Raster(l, c)[k + 1] == rest[k];
        }
      }
    }
  }

  /** Every cell of the walk lies in the endpoints' bounding box. */
  lemma {:induction false} RasterInBox(l: Line, c: Cursor)
    requires OnTrack(l, c)
    ensures forall k | 0 <= k < |Raster(l, c)| :: InBox(l, Raster(l, c)[k])
    decreases Remaining(l, c)
  {
    StepsLocate(l, c);
    assert InBox(l, At(c));
    if !AtEnd(l, c) {
      StepProgress(l, c);
      RasterUnfold(l, c);
      RasterInBox(l, Step(l, c));
    }
  }

  /** Between the endpoints on both axes. */
  predicate InBox(l: Line, p: Point) {
    && Min(l.from.x, l.to.x) <= p.x <= Max(l.from.x, l.to.x)
    && Min(l.from.y, l.to.y) <= p.y <= Max(l.from.y, l.to.y)
  }

  /** The rasterised line runs from its first endpoint to its second in
      king moves, staying inside their bounding box. */
  lemma CellsShape(l: Line)
    ensures var cells := Cells(l);
      && cells[0] == l.from && cells[|cells| - 1] == l.to
      && (forall k | 0 <= k < |cells| - 1 :: Chebyshev(cells[k], cells[k + 1]) == 1)
      && (forall k | 0 <= k < |cells| :: InBox(l, cells[k]))
  {
    BeginOnTrack(l);
    RasterEnds(l, Begin(l));
    RasterSteps(l, Begin(l));
    RasterInBox(l, Begin(l));
  }

  /** A line from a cell to itself visits only that cell. */
  lemma CellsOfPoint(p: Point)
    ensures Cells(Line(p, p)) == [p]
  {
    BeginOnTrack(Line(p, p));
  }

  /** A line between two cells one king move apart visits just those two. */
  lemma CellsOfStep(a: Point, b: Point)
    requires Chebyshev(a, b) == 1
    ensures Cells(Line(a, b)) == [a, b]
  {
    var l := Line(a, b);
    BeginOnTrack(l);
    RasterUnfold(l, Begin(l));
    var next := Step(l, Begin(l));
    assert AtEnd(l, next);
    assert Raster(l, next) == [b];
  }
}
