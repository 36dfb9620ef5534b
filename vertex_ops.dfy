/**
 * The vertex rewrites the f64 combinators apply before delegating to their
 * child, and the summed-parity rule of the f64 checkerboards.  Both f64
 * snapshots share these definitions.
 */
module VertexOps {
  import opened Reals
  import opened Vertices

  type Frag = Vertex<real>

  /** Every position component replaced by its truncated remainder; time kept. */
  function ModPositionVertex(v: Frag, m: real): Frag
  {
    Vertex(seq(|v.pos|, i requires 0 <= i < |v.pos| => Rem(v.pos[i], m)), v.time)
  }

  /** Time replaced by `time % m`; position kept. */
  function ModTimeVertex(v: Frag, m: real): Frag
  {
    v.(time := Rem(v.time, m))
  }

  /** Time multiplied by the scale; position kept. */
  function ScaleTimeVertex(v: Frag, scale: real): Frag
  {
    v.(time := v.time * scale)
  }

  /** Every position component multiplied by the scale; time kept. */
  function ScalePositionVertex(v: Frag, scale: real): Frag
  {
    Vertex(seq(|v.pos|, i requires 0 <= i < |v.pos| => v.pos[i] * scale), v.time)
  }

  /** The same offset added to every position component; time kept. */
  function TranslateVertex(v: Frag, offset: real): Frag
  {
    Vertex(seq(|v.pos|, i requires 0 <= i < |v.pos| => v.pos[i] + offset), v.time)
  }

  /** One offset per axis added to the matching position component; time kept. */
  function TranslateAxes(v: Frag, offset: seq<real>): Frag
    requires |offset| == |v.pos|
  {
    Vertex(seq(|v.pos|, i requires 0 <= i < |v.pos| => v.pos[i] + offset[i]), v.time)
  }

  /** The position with its newest (last) axis dropped; time kept. */
  function DropLastAxis<P>(v: Vertex<P>): Vertex<P>
    requires |v.pos| > 0
  {
    Vertex(v.pos[..|v.pos| - 1], v.time)
  }

  /**
   * What each rewrite does to a vertex: the position rewrites keep the
   * dimension and the time and change every component alike (`% m`,
   * `* scale`, `+ offset`, or `+ offset[i]` per axis); the time rewrites keep
   * the position; dropping the last axis keeps the other components.
   */
  lemma RewriteComponents(v: Frag, m: real, scale: real, offset: real, axes: seq<real>, i: nat)
    requires i < |v.pos| && |axes| == |v.pos|
    ensures |ModPositionVertex(v, m).pos| == |v.pos| && ModPositionVertex(v, m).time == v.time
    ensures ModPositionVertex(v, m).pos[i] == Rem(v.pos[i], m)
    ensures |ScalePositionVertex(v, scale).pos| == |v.pos| && ScalePositionVertex(v, scale).time == v.time
    ensures ScalePositionVertex(v, scale).pos[i] == v.pos[i] * scale
    ensures |TranslateVertex(v, offset).pos| == |v.pos| && TranslateVertex(v, offset).time == v.time
    ensures TranslateVertex(v, offset).pos[i] == v.pos[i] + offset
    ensures |TranslateAxes(v, axes).pos| == |v.pos| && TranslateAxes(v, axes).time == v.time
    ensures TranslateAxes(v, axes).pos[i] == v.pos[i] + axes[i]
    ensures ModTimeVertex(v, m).pos == v.pos && ModTimeVertex(v, m).time == Rem(v.time, m)
    ensures ScaleTimeVertex(v, scale).pos == v.pos && ScaleTimeVertex(v, scale).time == v.time * scale
    ensures |DropLastAxis(v).pos| == |v.pos| - 1 && DropLastAxis(v).time == v.time
    ensures i < |v.pos| - 1 ==> DropLastAxis(v).pos[i] == v.pos[i]
  {
  }

  /** `Σ (pos_i / stride).abs() as usize` over the position slice. */
  function CellSum(ps: seq<real>, stride: real): nat
  {
    if ps == [] then 0 else CellSum(ps[..|ps| - 1], stride) + Cell(ps[|ps| - 1], stride)
  }

  /** The checkerboard picks its first shader exactly when the cell sum is even. */
  predicate FirstCell(ps: seq<real>, stride: real)
  {
    CellSum(ps, stride) % 2 == 0
  }

  lemma TranslateTwice(v: Frag, a: real, b: real)
    ensures TranslateVertex(TranslateVertex(v, a), b) == TranslateVertex(v, a + b)
  {
  }

  /** Negating one position component leaves its cell, and so the cell sum, unchanged. */
  lemma {:induction false} CellSumNegate(ps: seq<real>, stride: real, i: nat)
    requires i < |ps|
    ensures CellSum(ps[i := -ps[i]], stride) == CellSum(ps, stride)
  {
    var qs := ps[i := -ps[i]];
    var n := |ps| - 1;
    assert Cell(-ps[i], stride) == Cell(ps[i], stride) by {
      assert Quot(-ps[i], stride) == -Quot(ps[i], stride);
    }
    if i == n {
      assert qs[..n] == ps[..n];
    } else {
      assert qs[..n] == ps[..n][i := -ps[i]];
      CellSumNegate(ps[..n], stride, i);
    }
  }

  /** Moving a non-negative component one stride further moves it into the next cell. */
  lemma CellStep(x: real, stride: real)
    requires stride > 0.0 && x >= 0.0
    ensures Cell(x + stride, stride) == Cell(x, stride) + 1
  {
    var q := x / stride;
    assert stride * q == x;
    assert q >= 0.0 by { if q < 0.0 { MulPos(stride, -q); } }
    var q1 := (x + stride) / stride;
    assert q1 == q + 1.0 by {
      assert stride * q1 == x + stride;
      assert stride * (q + 1.0) == stride * q + stride;
      MulCancel(stride, q1, q + 1.0);
    }
    assert (q + 1.0).Floor == q.Floor + 1;
  }

  /** Moving one non-negative component by one stride changes the cell sum by exactly one. */
  lemma {:induction false} CellSumStep(ps: seq<real>, stride: real, i: nat)
    requires stride > 0.0 && i < |ps| && ps[i] >= 0.0
    ensures CellSum(ps[i := ps[i] + stride], stride) == CellSum(ps, stride) + 1
  {
    var qs := ps[i := ps[i] + stride];
    var n := |ps| - 1;
    if i == n {
      assert qs[..n] == ps[..n];
      CellStep(ps[i], stride);
    } else {
      assert qs[..n] == ps[..n][i := ps[i] + stride];
      CellSumStep(ps[..n], stride, i);
    }
  }
}
