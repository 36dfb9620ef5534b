/**
 * `Point`, a three-dimensional point of reals, and its component-wise
 * operators.  Both point modules of the repository (`src/point/mod.rs` and
 * `shark/src/point/mod.rs`) define the same struct and operators.
 */
module Points {

  datatype Point = Point(x: real, y: real, z: real)

  /** `Point::new(x, y, z)`. */
  function New(x: real, y: real, z: real): (p: Point)
    ensures p.x == x && p.y == y && p.z == z
  {
    Point(x, y, z)
  }

  /** `Point::default()`: every field 0.0. */
  function Origin(): Point
  {
    Point(0.0, 0.0, 0.0)
  }

  /** `a + b`. */
  function Add(a: Point, b: Point): Point
  {
    Point(a.x + b.x, a.y + b.y, a.z + b.z)
  }

  /** `a - b`. */
  function Sub(a: Point, b: Point): Point
  {
    Point(a.x - b.x, a.y - b.y, a.z - b.z)
  }

  /** `a * b` for two points. */
  function Mul(a: Point, b: Point): Point
  {
    Point(a.x * b.x, a.y * b.y, a.z * b.z)
  }

  /** `p * k` for a scalar `k`. */
  function Scale(p: Point, k: real): Point
  {
    Point(p.x * k, p.y * k, p.z * k)
  }

  /** `k * p`: defined as `p * k`. */
  function ScaleLeft(k: real, p: Point): Point
  {
    Scale(p, k)
  }

  /** The origin is neutral for `+`, and `-` undoes `+`. */
  lemma AddSubLaws(a: Point, b: Point)
    ensures Add(a, Origin()) == a && Add(a, b) == Add(b, a)
    ensures Sub(Add(a, b), b) == a && Add(Sub(a, b), b) == a
    ensures Sub(a, a) == Origin()
  {
  }

  /** The component-wise product has `(1, 1, 1)` as unit and the origin as zero. */
  lemma MulLaws(a: Point, b: Point)
    ensures Mul(a, Point(1.0, 1.0, 1.0)) == a && Mul(a, Origin()) == Origin()
    ensures Mul(a, b) == Mul(b, a)
  {
  }

  /** Scaling by a scalar is the product with the point that repeats it, and both operand orders agree. */
  lemma ScaleLaws(p: Point, k: real, j: real)
    ensures ScaleLeft(k, p) == Scale(p, k) == Mul(p, Point(k, k, k))
    ensures Scale(p, 1.0) == p && Scale(p, 0.0) == Origin()
    ensures Scale(Scale(p, k), j) == Scale(p, k * j)
  {
    assert p.x * k * j == p.x * (k * j);
    assert p.y * k * j == p.y * (k * j);
    assert p.z * k * j == p.z * (k * j);
  }

  /** Scaling distributes over `+` of points and over `+` of scalars. */
  lemma ScaleDistributes(a: Point, b: Point, k: real, j: real)
    ensures Scale(Add(a, b), k) == Add(Scale(a, k), Scale(b, k))
    ensures Scale(a, k + j) == Add(Scale(a, k), Scale(a, j))
  {
  }
}
