/** Row-major indexing shared by the grid manager, both search controllers and
    the flow-field controller: slot = Y * Width + X. The subsystem's
    column-major `Grid[x][y]` is the same map with the roles of the axes
    swapped (slot = X * Height + Y). */
module GridIndex {
  import opened Geometry

  /** XYToIndex(X, Y) = Y * GridWidth + X. */
  function XYToIndex(w: int, x: int, y: int): int {
    y * w + x
  }

  /** IndexToXY: OutY = Index / GridWidth and OutX = Index % GridWidth, with
      C++ truncating division. It undoes XYToIndex for every index, even a
      negative one. */
  function IndexToXY(w: int, index: int): (p: Point)
    requires w > 0
    ensures XYToIndex(w, p.x, p.y) == index
    ensures index >= 0 ==> 0 <= p.x < w && p.y >= 0
  {
    CDivNonNegativeIfNeeded(index, w);
    Point(CMod(index, w), CDiv(index, w))
  }

  lemma CDivNonNegativeIfNeeded(index: int, w: int)
    requires w > 0
    ensures index >= 0 ==> CDiv(index, w) == index / w && CMod(index, w) == index % w
  {
    if index >= 0 {
      CDivNonNegative(index, w);
    }
  }

  /** IsInside / IsInsideGrid: 0 <= X < Width and 0 <= Y < Height. */
  predicate IsInside(w: int, h: int, x: int, y: int) {
    0 <= x < w && 0 <= y < h
  }

  /** Every inside cell maps to a slot of a `w * h` array. */
  lemma IndexInRange(w: int, h: int, x: int, y: int)
    requires IsInside(w, h, x, y)
    ensures 0 <= XYToIndex(w, x, y) < w * h
  {
    assert y * w <= (h - 1) * w by {
      assert (h - 1 - y) * w >= 0;
    }
    assert (h - 1) * w + w == h * w;
  }

  /** Distinct inside cells never share a slot. */
  lemma IndexInjective(w: int, h: int, x1: int, y1: int, x2: int, y2: int)
    requires IsInside(w, h, x1, y1) && IsInside(w, h, x2, y2)
    requires XYToIndex(w, x1, y1) == XYToIndex(w, x2, y2)
    ensures x1 == x2 && y1 == y2
  {
    var n := XYToIndex(w, x1, y1);
    DivModUnique(n, w, y1, x1);
    DivModUnique(n, w, y2, x2);
  }

  /** IndexToXY(XYToIndex(x, y)) == (x, y) for every inside cell. */
  lemma CoordsOfIndex(w: int, h: int, x: int, y: int)
    requires IsInside(w, h, x, y)
    ensures IndexToXY(w, XYToIndex(w, x, y)) == Point(x, y)
  {
    var n := XYToIndex(w, x, y);
    IndexInRange(w, h, x, y);
    DivModUnique(n, w, y, x);
    CDivNonNegative(n, w);
  }

  /** a * w < b * w with w positive gives a < b. */
  lemma MulLessCancel(a: int, b: int, w: int)
    requires w > 0 && a * w < b * w
    ensures a < b
  {
    assert (b - a) * w > 0;
  }

  /** Every slot of a `w * h` array belongs to exactly the inside cell that
      IndexToXY names. */
  lemma IndexOfCoords(w: int, h: int, index: int)
    requires w > 0 && 0 <= index < w * h
    ensures IsInside(w, h, IndexToXY(w, index).x, IndexToXY(w, index).y)
  {
    var p := IndexToXY(w, index);
    assert p.y * w + p.x == index;
    MulLessCancel(p.y, h, w);
  }
}
