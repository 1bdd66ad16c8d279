/** The octile heuristic and the step-cost rule both search controllers
    define identically (the heuristic lambda in RunAStar / RunThetaStar and
    MovementCostBetween), over cells named by row-major index. */
module Octile {
  import opened Geometry
  import opened GridIndex

  /** (max(Dx, Dy) - min(Dx, Dy)) + DiagonalCost * min(Dx, Dy). */
  function OctileDistance(diag: real, a: Point, b: Point): real {
    var dx := Abs(a.x - b.x);
    var dy := Abs(a.y - b.y);
    (Max(dx, dy) - Min(dx, dy)) as real + diag * Min(dx, dy) as real
  }

  /** The heuristic lambda: the octile distance between the cells at
      indices A and B. */
  function Heuristic(w: int, diag: real, a: int, b: int): real
    requires w > 0
  {
    OctileDistance(diag, IndexToXY(w, a), IndexToXY(w, b))
  }

  /** MovementCostBetween: 1 when the cells differ by one in exactly one
      coordinate (|Dx| + |Dy| == 1), DiagonalCost for every other pair. */
  function MovementCostBetween(w: int, diag: real, a: int, b: int): (c: real)
    requires w > 0
    ensures c == 1.0 || c == diag
  {
    var pa := IndexToXY(w, a);
    var pb := IndexToXY(w, b);
    if Abs(pa.x - pb.x) + Abs(pa.y - pb.y) == 1 then 1.0 else diag
  }

  /** For cells one king move apart the step cost is the octile distance:
      1 for a cardinal step, DiagonalCost for a diagonal one. */
  lemma StepCostIsOctile(w: int, diag: real, a: int, b: int)
    requires w > 0 && Chebyshev(IndexToXY(w, a), IndexToXY(w, b)) == 1
    ensures MovementCostBetween(w, diag, a, b) == OctileDistance(diag, IndexToXY(w, a), IndexToXY(w, b))
    ensures var pa, pb := IndexToXY(w, a), IndexToXY(w, b);
      MovementCostBetween(w, diag, a, b) == (if pa.x == pb.x || pa.y == pb.y then 1.0 else diag)
  {
  }

  /** With a non-negative DiagonalCost the heuristic is never negative. */
  lemma OctileNonNegative(diag: real, a: Point, b: Point)
    requires diag >= 0.0
    ensures OctileDistance(diag, a, b) >= 0.0
  {
    var m := Min(Abs(a.x - b.x), Abs(a.y - b.y));
    assert diag * m as real >= 0.0;
  }

  /** With a positive DiagonalCost the heuristic is zero exactly at the
      goal itself. */
  lemma OctileZeroIff(diag: real, a: Point, b: Point)
    requires diag > 0.0
    ensures OctileDistance(diag, a, b) == 0.0 <==> a == b
  {
    var m := Min(Abs(a.x - b.x), Abs(a.y - b.y));
    if m > 0 {
      assert diag * m as real > 0.0;
    }
  }

  /** The octile distance as a blend of the king-move and taxicab
      distances: (2 - c) * Chebyshev + (c - 1) * Taxicab. */
  lemma OctileBlend(diag: real, a: Point, b: Point, k1: real, k2: real, x: real, y: real, o: real)
    requires k1 == 2.0 - diag && k2 == diag - 1.0
    requires x == Chebyshev(a, b) as real && y == Taxicab(a, b) as real
    requires o == OctileDistance(diag, a, b)
    ensures o == k1 * x + k2 * y
  {
  }

  lemma ScaleLe(k: real, x: real, y: real)
    requires k >= 0.0 && x <= y
    ensures k * x <= k * y
  {
    assert k * y - k * x == k * (y - x);
  }

  lemma ChebyshevTriangle(a: Point, b: Point, c: Point)
    ensures Chebyshev(a, c) <= Chebyshev(a, b) + Chebyshev(b, c)
  {
  }

  /** For DiagonalCost in [1, 2] (the property's clamp range) the octile
      distance obeys the triangle inequality. */
  lemma OctileTriangle(diag: real, a: Point, b: Point, c: Point)
    requires 1.0 <= diag <= 2.0
    ensures OctileDistance(diag, a, c) <= OctileDistance(diag, a, b) + OctileDistance(diag, b, c)
  {
    var k1, k2 := 2.0 - diag, diag - 1.0;
    var x1, x2, x3 := Chebyshev(a, c) as real, Chebyshev(a, b) as real, Chebyshev(b, c) as real;
    var y1, y2, y3 := Taxicab(a, c) as real, Taxicab(a, b) as real, Taxicab(b, c) as real;
    var o1, o2, o3 := OctileDistance(diag, a, c), OctileDistance(diag, a, b), OctileDistance(diag, b, c);
    OctileBlend(diag, a, c, k1, k2, x1, y1, o1);
    OctileBlend(diag, a, b, k1, k2, x2, y2, o2);
    OctileBlend(diag, b, c, k1, k2, x3, y3, o3);
    ChebyshevTriangle(a, b, c);
    TaxicabTriangle(a, b, c);
    Combine(k1, k2, x1, x2, x3, y1, y2, y3, o1, o2, o3);
  }

  function Taxicab(a: Point, b: Point): nat {
    Abs(a.x - b.x) + Abs(a.y - b.y)
  }

  lemma TaxicabTriangle(a: Point, b: Point, c: Point)
    ensures Taxicab(a, c) <= Taxicab(a, b) + Taxicab(b, c)
  {
  }

  /** Two triangle inequalities with non-negative weights add up. */
  lemma Combine(k1: real, k2: real, x1: real, x2: real, x3: real, y1: real, y2: real, y3: real,
                 o1: real, o2: real, o3: real)
    requires k1 >= 0.0 && k2 >= 0.0 && x1 <= x2 + x3 && y1 <= y2 + y3
    requires o1 == k1 * x1 + k2 * y1 && o2 == k1 * x2 + k2 * y2 && o3 == k1 * x3 + k2 * y3
    ensures o1 <= o2 + o3
  {
    ScaleLe(k1, x1, x2 + x3);
    ScaleLe(k2, y1, y2 + y3);
    assert k1 * (x2 + x3) == k1 * x2 + k1 * x3;
    assert k2 * (y2 + y3) == k2 * y2 + k2 * y3;
  }

  /** The heuristic is consistent with every step a search can take: moving
      one king move from A to B at terrain cost t >= 1 costs at least the
      drop in the heuristic. */
  lemma HeuristicConsistent(w: int, diag: real, a: int, b: int, goal: int, terrain: real)
    requires w > 0 && 1.0 <= diag <= 2.0 && terrain >= 1.0
    requires Chebyshev(IndexToXY(w, a), IndexToXY(w, b)) == 1
    ensures Heuristic(w, diag, a, goal)
      <= MovementCostBetween(w, diag, a, b) * terrain + Heuristic(w, diag, b, goal)
  {
    var pa, pb, pg := IndexToXY(w, a), IndexToXY(w, b), IndexToXY(w, goal);
    StepCostIsOctile(w, diag, a, b);
    OctileTriangle(diag, pa, pb, pg);
    var m := MovementCostBetween(w, diag, a, b);
    ScaleLe(m, 1.0, terrain);
  }
}
