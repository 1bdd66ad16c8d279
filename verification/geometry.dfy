/** Value types shared by every component: world-space vectors, integer grid
    points, and the engine's scalar helpers (FMath::Clamp, FloorToInt,
    RoundToInt) together with C++'s truncating integer division. Floats are
    modelled as `real`, so rounding error is out of the picture. */
module Geometry {

  /** FVector. */
  datatype Vec3 = Vec3(x: real, y: real, z: real)

  /** FVector::ZeroVector. */
  const ZeroVector: Vec3 := Vec3(0.0, 0.0, 0.0)

  function Plus(a: Vec3, b: Vec3): Vec3 {
    Vec3(a.x + b.x, a.y + b.y, a.z + b.z)
  }

  function Minus(a: Vec3, b: Vec3): Vec3 {
    Vec3(a.x - b.x, a.y - b.y, a.z - b.z)
  }

  /** FIntPoint. */
  datatype Point = Point(x: int, y: int)

  /** A unit step between grid cells; stands in for a normalised flow
      direction, which always points from a cell to one of its neighbours. */
  datatype Offset = Offset(dx: int, dy: int)

  const NoDirection: Offset := Offset(0, 0)

  function Abs(n: int): nat {
    if n < 0 then -n else n
  }

  function Max(a: int, b: int): int {
    if a < b then b else a
  }

  function Min(a: int, b: int): int {
    if a < b then a else b
  }

  /** Largest of the two coordinate distances (king-move distance). */
  function Chebyshev(a: Point, b: Point): nat {
    var dx := Abs(a.x - b.x);
    var dy := Abs(a.y - b.y);
    if dx < dy then dy else dx
  }

  /** FMath::Clamp(X, Lo, Hi) evaluates `X < Lo ? Lo : (X < Hi ? X : Hi)`;
      with Lo > Hi the result can be either bound. */
  function Clamp(v: int, lo: int, hi: int): (r: int)
    ensures lo <= hi ==> lo <= r <= hi
    ensures lo <= v <= hi ==> r == v
    ensures lo > hi ==> r == lo || r == hi
  {
    if v < lo then lo else if v < hi then v else hi
  }

  /** FMath::FloorToInt: the largest integer not above r. */
  function FloorToInt(r: real): (n: int)
    ensures n as real <= r < n as real + 1.0
  {
    r.Floor
  }

  /** FMath::RoundToInt(F) is FloorToInt(F + 0.5): halves round upwards. */
  function RoundToInt(r: real): (n: int)
    ensures n as real - 0.5 <= r < n as real + 0.5
  {
    FloorToInt(r + 0.5)
  }

  /** Rounding a whole number, or a whole number plus one half taken down by
      the floor, gives that number back. */
  lemma RoundWhole(n: int)
    ensures RoundToInt(n as real) == n
    ensures FloorToInt(n as real + 0.5) == n
  {
    var r := RoundToInt(n as real);
    assert r as real - 0.5 <= n as real < r as real + 0.5;
  }

  /** C++ `/` on int32: truncates toward zero (here for a positive divisor). */
  function CDiv(a: int, b: int): int
    requires b > 0
  {
    if a >= 0 then a / b else -((-a) / b)
  }

  /** C++ `%` on int32: the remainder takes the sign of the dividend. */
  function CMod(a: int, b: int): int
    requires b > 0
  {
    a - b * CDiv(a, b)
  }

  /** On non-negative operands C++ and Dafny division agree. */
  lemma CDivNonNegative(a: int, b: int)
    requires a >= 0 && b > 0
    ensures CDiv(a, b) == a / b && CMod(a, b) == a % b
  {
  }

  /** The quotient and remainder of n by w are the unique q, r with
      n == q * w + r and 0 <= r < w. */
  lemma DivModUnique(n: int, w: int, q: int, r: int)
    requires w > 0 && 0 <= r < w && n == q * w + r
    ensures n / w == q && n % w == r
  {
    var q', r' := n / w, n % w;
    assert (q' - q) * w == r - r';
    SmallMultiple(q' - q, w);
  }

  /** The only multiple of w strictly between -w and w is zero. */
  lemma SmallMultiple(k: int, w: int)
    requires w > 0 && -w < k * w < w
    ensures k == 0
  {
    if k >= 1 {
      MulAtLeast(k, w);
      assert false;
    } else if k <= -1 {
      MulAtLeast(-k, w);
      assert false;
    }
  }

  lemma MulAtLeast(k: int, w: int)
    requires k >= 1 && w > 0
    ensures k * w >= w
  {
    assert k * w == (k - 1) * w + w;
    assert (k - 1) * w >= 0;
  }
}
