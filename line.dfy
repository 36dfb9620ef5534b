/**
 * `Line` (`shark/src/point/primitives.rs`): an iterator over `num_points`
 * evenly spaced points from `a` to `b`, driven by the `current_point`
 * counter.
 */
module Lines {
  import opened Wrappers
  import opened Reals
  import opened Points

  /**
   * The `k`-th point, `(1 - t) * a + t * b` with `t = k / (n - 1)`.  For
   * `n == 1` the source divides 0.0 by 0.0 and yields NaN coordinates; here
   * the stand-in `t = 0.0` gives `a`, and no property below depends on it.
   */
  function Item(a: Point, b: Point, n: nat, k: nat): Point
  {
    var t := Quot(k as real, (n - 1) as real);
    Add(ScaleLeft(1.0 - t, a), ScaleLeft(t, b))
  }

  /** One `next()` from counter `cp`: the item produced and the new counter. */
  function NextStep(a: Point, b: Point, n: nat, cp: nat): (r: (Option<Point>, nat))
    ensures r.0.Some? <==> cp < n
    ensures r.0.Some? ==> r.0.value == Item(a, b, n, cp) && r.1 == cp + 1
    ensures r.0.None? ==> r.1 == cp
  {
    if n == 0 then (None, cp)
    else if cp < n then (Some(Item(a, b, n, cp)), cp + 1)
    else (None, cp)
  }

  /** The items of `k` further calls of `next()` from counter `cp`, and the counter after them. */
  function Run(a: Point, b: Point, n: nat, cp: nat, k: nat): (seq<Option<Point>>, nat)
    decreases k
  {
    if k == 0 then ([], cp)
    else
      var (first, cp') := NextStep(a, b, n, cp);
      var (rest, last) := Run(a, b, n, cp', k - 1);
      ([first] + rest, last)
  }

  class Line {
    const a: Point
    const b: Point
    const numPoints: nat
    var currentPoint: nat

    /** The counter never runs past `num_points`. */
    ghost predicate Valid()
      reads this
    {
      currentPoint <= numPoints
    }

    /** `Line::new(a, b, num_points)` and `line(a, b, num_points)`. */
    constructor (a: Point, b: Point, numPoints: nat)
      ensures Valid()
      ensures this.a == a && this.b == b && this.numPoints == numPoints && currentPoint == 0
    {
      this.a := a;
      this.b := b;
      this.numPoints := numPoints;
      currentPoint := 0;
    }

    /** `Iterator::next`. */
    method Next() returns (r: Option<Point>)
      requires Valid()
      modifies this
      ensures Valid()
      ensures (r, currentPoint) == NextStep(a, b, numPoints, old(currentPoint))
    {
      if numPoints == 0 {
        return None;
      }
      if currentPoint < numPoints {
        var t := Quot(currentPoint as real, (numPoints - 1) as real);
        currentPoint := currentPoint + 1;
        r := Some(Add(ScaleLeft(1.0 - t, a), ScaleLeft(t, b)));
      } else {
        r := None;
      }
    }
  }

  /** With no points `next()` yields None and leaves the counter alone. */
  lemma NextOnEmpty(a: Point, b: Point, cp: nat)
    ensures NextStep(a, b, 0, cp) == (None, cp)
  {
  }

  /**
   * From a fresh line, `k` calls of `next()` yield Some exactly at the first
   * `num_points` calls, the `j`-th being item `j`, and None ever after; the
   * counter ends at `min(k, num_points)`.
   */
  lemma {:induction false} RunShape(a: Point, b: Point, n: nat, cp: nat, k: nat)
    requires cp <= n
    ensures |Run(a, b, n, cp, k).0| == k
    ensures Run(a, b, n, cp, k).1 == if cp + k <= n then cp + k else n
    ensures forall j :: 0 <= j < k ==>
      Run(a, b, n, cp, k).0[j] == if cp + j < n then Some(Item(a, b, n, cp + j)) else None
    decreases k
  {
    if k > 0 {
      var (first, cp') := NextStep(a, b, n, cp);
      RunShape(a, b, n, cp', k - 1);
      var rest := Run(a, b, n, cp', k - 1).0;
      assert Run(a, b, n, cp, k).0 == [first] + rest;
      forall j | 0 <= j < k
        ensures Run(a, b, n, cp, k).0[j] == if cp + j < n then Some(Item(a, b, n, cp + j)) else None
      {
        if j > 0 {
          assert Run(a, b, n, cp, k).0[j] == rest[j - 1];
        }
      }
    }
  }

  /** For two or more points the first item is `a` and the last is `b`. */
  lemma Endpoints(a: Point, b: Point, n: nat)
    requires n >= 2
    ensures Item(a, b, n, 0) == a
    ensures Item(a, b, n, n - 1) == b
  {
    assert Quot(0 as real, (n - 1) as real) == 0.0;
    assert Quot((n - 1) as real, (n - 1) as real) == 1.0;
  }
}
