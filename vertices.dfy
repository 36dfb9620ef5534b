/**
 * The sample point a shader is evaluated at: a position slice and a time.
 * `P` is the type of a position component (a real for the f64 snapshots,
 * a natural number for the usize snapshot).
 */
module Vertices {

  datatype Vertex<P> = Vertex(pos: seq<P>, time: real)

  /** A write of `t` through `time_mut`. */
  function WithTime<P>(v: Vertex<P>, t: real): Vertex<P>
  {
    v.(time := t)
  }

  /** A write of `x` to component `i` through `pos_mut`. */
  function WithPosAt<P>(v: Vertex<P>, i: nat, x: P): Vertex<P>
    requires i < |v.pos|
  {
    v.(pos := v.pos[i := x])
  }

  /** A write through `time_mut` is read back by `time()` and leaves `pos()` as it was. */
  lemma TimeWriteRead<P>(v: Vertex<P>, t: real)
    ensures WithTime(v, t).time == t
    ensures WithTime(v, t).pos == v.pos
  {
  }

  /**
   * A write through `pos_mut` is read back by `pos()` at that index, leaves the
   * other components, the dimension and the time as they were, and a second
   * write to the same index overrides the first.
   */
  lemma PosWriteRead<P>(v: Vertex<P>, i: nat, x: P, y: P)
    requires i < |v.pos|
    ensures |WithPosAt(v, i, x).pos| == |v.pos|
    ensures WithPosAt(v, i, x).pos[i] == x
    ensures forall j :: 0 <= j < |v.pos| && j != i ==> WithPosAt(v, i, x).pos[j] == v.pos[j]
    ensures WithPosAt(v, i, x).time == v.time
    ensures WithPosAt(WithPosAt(v, i, x), i, y) == WithPosAt(v, i, y)
  {
  }
}
