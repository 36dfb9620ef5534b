/**
 * Properties of the usize snapshot: the panics, the exact periodicity of
 * the integer position modulo, the integer checkerboard, and the laws of the
 * other combinators.
 */
module UsizeLaws {
  import opened Wrappers
  import opened Reals
  import opened Vertices
  import opened VertexOps
  import opened UsizeShader
  import C = Colors

  // ---------------------------------------------------------------------
  // Panics

  /** Every Checkerboard in the term has a non-zero stride and every ModPosition a modulo that converts to a usize of at least 1. */
  predicate Safe(s: Shader)
  {
    match s
    case Off => true
    case Color(_) => true
    case Interpolate(a, b, _, _) => Safe(a) && Safe(b)
    case Rotate(c, _) => Safe(c)
    case Checkerboard(a, b, stride) => stride > 0 && Safe(a) && Safe(b)
    case ModPosition(c, m) => ToUsize(m).Some? && ToUsize(m).value > 0 && Safe(c)
    case ModTime(c, _) => Safe(c)
    case Extrude(c) => Safe(c)
  }

  /** A term whose strides and moduli are all valid never panics, at any fragment it accepts. */
  lemma {:induction false} SafeNeverPanics(p: C.Palette, s: Shader, v: UFrag)
    requires Accepts(s, |v.pos|) && Safe(s)
    ensures Eval(p, s, v).Ok?
    decreases s
  {
    match s
    case Off =>
    case Color(_) =>
    case Interpolate(a, b, _, _) =>
      SafeNeverPanics(p, a, v);
      SafeNeverPanics(p, b, v);
    case Rotate(c, _) =>
      SafeNeverPanics(p, c, v);
    case Checkerboard(a, b, _) =>
      SafeNeverPanics(p, a, v);
      SafeNeverPanics(p, b, v);
    case ModPosition(c, m) =>
      SafeNeverPanics(p, c, ModPositionFrag(v, ToUsize(m).value));
    case ModTime(c, m) =>
      SafeNeverPanics(p, c, ModTimeFrag(v, m));
    case Extrude(c) =>
      SafeNeverPanics(p, c, ExtrudeFrag(v));
  }

  /**
   * A stride of 0 panics on the division; a modulo that does not convert to
   * `usize` (an integer outside `0..=usize::MAX`, a float at most -1 or at
   * least `usize::MAX + 1`) panics in `expect`; and a modulo that converts
   * to 0 (the integer 0, any float strictly between -1 and 1) panics on the
   * remainder.
   */
  lemma PanicCases(p: C.Palette, a: Shader, b: Shader, c: Shader, m: Modulo, x: real, v: UFrag)
    requires Accepts(a, |v.pos|) && Accepts(b, |v.pos|) && Accepts(c, |v.pos|)
    ensures Eval(p, Checkerboard(a, b, 0), v) == Err(DivideByZero)
    ensures (m.Integral? && (m.n < 0 || m.n >= UsizeLimit)) ==> Eval(p, ModPosition(c, m), v) == Err(ModuloNotUsize)
    ensures (m.Floating? && (m.x <= -1.0 || m.x >= UsizeLimit as real)) ==> Eval(p, ModPosition(c, m), v) == Err(ModuloNotUsize)
    ensures Eval(p, ModPosition(c, Integral(0)), v) == Err(RemainderByZero)
    ensures -1.0 < x < 1.0 ==> Eval(p, ModPosition(c, Floating(x)), v) == Err(RemainderByZero)
  {
  }

  /** A float modulo of at least 1 acts as its truncation toward zero: 2.7 reduces like the integer 2. */
  lemma FloatModuloTruncates(p: C.Palette, c: Shader, x: real, v: UFrag)
    requires 1.0 <= x < UsizeLimit as real && Accepts(c, |v.pos|)
    ensures Trunc(x) >= 1
    ensures Eval(p, ModPosition(c, Floating(x)), v) == Eval(p, ModPosition(c, Integral(Trunc(x))), v)
    ensures Eval(p, ModPosition(c, Floating(2.7)), v) == Eval(p, ModPosition(c, Integral(2)), v)
  {
    assert Trunc(2.7) == 2;
  }

  /** A panic in Interpolate's start shader (shaded first) ends the evaluation with that panic. */
  lemma InterpolatePanics(p: C.Palette, a: Shader, b: Shader, f: UFrag -> real, only: Option<nat>, v: UFrag)
    requires Fits(only, |v.pos|) && Accepts(a, |v.pos|) && Accepts(b, |v.pos|) && Eval(p, a, v).Err?
    ensures Eval(p, Interpolate(a, b, f, only), v) == Err(Eval(p, a, v).error)
  {
  }

  // ---------------------------------------------------------------------
  // Constants and interpolation

  /** Off is Oklab black and Color its stored colour, whatever the fragment. */
  lemma ConstantsIgnoreFragment(p: C.Palette, c: C.Color, v: UFrag, w: UFrag)
    requires 1 <= |v.pos| <= 3 && 1 <= |w.pos| <= 3
    ensures Eval(p, Off, v) == Eval(p, Off, w) == Ok(C.Color(C.Oklab, 0.0, 0.0, 0.0))
    ensures Eval(p, Color(c), v) == Eval(p, Color(c), w) == Ok(c)
  {
  }

  /** `mix` has a constant factor; the gradients hand the interpolator FragOne's position, or the time. */
  lemma InterpolatorSources(s: Shader, e: Shader, factor: real, f: nat -> real, g: real -> real, x: nat, t: real, v: UFrag)
    ensures Mix(s, e, factor).interpolator(v) == factor
    ensures PositionGradient(s, e, f).interpolator(FragOne(x, t)) == f(x)
    ensures TimeGradient(s, e, g).interpolator(v) == g(v.time)
  {
  }

  /** `position_gradient` shades FragOne only; `mix` and `time_gradient` shade every fragment type their children shade. */
  lemma GradientDimensions(s: Shader, e: Shader, factor: real, f: nat -> real, g: real -> real, d: nat)
    ensures Accepts(PositionGradient(s, e, f), d) <==> d == 1 && Accepts(s, 1) && Accepts(e, 1)
    ensures Accepts(Mix(s, e, factor), d) <==> Accepts(s, d) && Accepts(e, d)
    ensures Accepts(TimeGradient(s, e, g), d) <==> Accepts(s, d) && Accepts(e, d)
  {
  }

  /** `rotate` stores its angle in radians, using `PI_f32`. */
  lemma RotateRadians(s: Shader, a: real, b: real)
    ensures MakeRotate(s, 180.0).angle == PiF32
    ensures MakeRotate(s, a + b).angle == MakeRotate(s, a).angle + MakeRotate(s, b).angle
  {
  }

  // ---------------------------------------------------------------------
  // Integer division and remainder

  lemma MulAtLeast(d: int, s: int)
    requires d >= 1 && s > 0
    ensures d * s >= s
  {
    assert d * s == (d - 1) * s + s;
    assert (d - 1) * s >= 0;
  }

  /** A quotient and remainder in range are the quotient and remainder. */
  lemma DivModUnique(x: int, s: int, q: int, r: int)
    requires s > 0 && x == q * s + r && 0 <= r < s
    ensures x / s == q && x % s == r
  {
    var q', r' := x / s, x % s;
    assert x == q' * s + r';
    var d := q - q';
    assert d * s == r' - r;
    if d >= 1 {
      MulAtLeast(d, s);
    } else if d <= -1 {
      MulAtLeast(-d, s);
    }
  }

  /** Reducing a remainder again leaves it as it is. */
  lemma ModOfMod(x: nat, m: nat)
    requires m > 0
    ensures (x % m) % m == x % m
  {
    DivModUnique(x % m, m, 0, x % m);
  }

  // ---------------------------------------------------------------------
  // Checkerboard

  /** With a positive stride the first child is shaded exactly when the sum of the integer quotients is even. */
  lemma CheckerboardChoice(p: C.Palette, a: Shader, b: Shader, stride: nat, v: UFrag)
    requires stride > 0 && Accepts(a, |v.pos|) && Accepts(b, |v.pos|)
    ensures QuotientSum(v.pos, stride) % 2 == 0 ==> Eval(p, Checkerboard(a, b, stride), v) == InOklab(p, Eval(p, a, v))
    ensures QuotientSum(v.pos, stride) % 2 != 0 ==> Eval(p, Checkerboard(a, b, stride), v) == InOklab(p, Eval(p, b, v))
  {
  }

  /** In one dimension the first child is chosen exactly when `pos / stride` is even. */
  lemma CheckerboardOneDim(x: nat, t: real, stride: nat)
    requires stride > 0
    ensures QuotientSum(FragOne(x, t).pos, stride) % 2 == 0 <==> (x / stride) % 2 == 0
  {
    assert FragOne(x, t).pos[..0] == [];
  }

  /** Moving one component a whole stride further raises the quotient sum by exactly one. */
  lemma {:induction false} QuotientSumStep(ps: seq<nat>, stride: nat, i: nat)
    requires stride > 0 && i < |ps|
    ensures QuotientSum(ps[i := ps[i] + stride], stride) == QuotientSum(ps, stride) + 1
  {
    var qs := ps[i := ps[i] + stride];
    var n := |ps| - 1;
    if i == n {
      assert qs[..n] == ps[..n];
      DivModUnique(ps[i] + stride, stride, ps[i] / stride + 1, ps[i] % stride);
    } else {
      assert qs[..n] == ps[..n][i := ps[i] + stride];
      QuotientSumStep(ps[..n], stride, i);
    }
  }

  /** Moving one component a whole stride further always switches to the other child. */
  lemma CheckerboardAlternates(stride: nat, v: UFrag, i: nat)
    requires stride > 0 && i < |v.pos|
    ensures var w := WithPosAt(v, i, v.pos[i] + stride);
      (QuotientSum(w.pos, stride) % 2 == 0) == (QuotientSum(v.pos, stride) % 2 != 0)
  {
    QuotientSumStep(v.pos, stride, i);
    var n := QuotientSum(v.pos, stride);
    assert WithPosAt(v, i, v.pos[i] + stride).pos == v.pos[i := v.pos[i] + stride];
    assert (n + 1) % 2 == 0 <==> n % 2 != 0;
  }

  // ---------------------------------------------------------------------
  // ModPosition

  /** The reduced fragment keeps dimension and time, and each component becomes its remainder, below the modulo. */
  lemma ModPositionLaws(v: UFrag, m: nat)
    requires 1 <= |v.pos| <= 3 && m > 0
    ensures |ModPositionFrag(v, m).pos| == |v.pos| && ModPositionFrag(v, m).time == v.time
    ensures forall i :: 0 <= i < |v.pos| ==>
      ModPositionFrag(v, m).pos[i] == v.pos[i] % m && ModPositionFrag(v, m).pos[i] < m
  {
  }

  /** Adding any multiple of the modulo leaves the remainder unchanged. */
  lemma ModAddMultiple(x: nat, m: nat, k: nat)
    requires m > 0
    ensures (x + k * m) % m == x % m
  {
    assert x + k * m == (x / m + k) * m + x % m;
    DivModUnique(x + k * m, m, x / m + k, x % m);
  }

  /**
   * ModPosition repeats every `n` along each axis, `n` being the modulo as
   * a usize: shifting a component by `k * n` does not change the colour.
   */
  lemma ModPositionPeriodic(p: C.Palette, c: Shader, m: Modulo, v: UFrag, i: nat, k: nat)
    requires ToUsize(m).Some? && ToUsize(m).value > 0 && i < |v.pos| && Accepts(c, |v.pos|)
    ensures var w := WithPosAt(v, i, v.pos[i] + k * ToUsize(m).value);
      Eval(p, ModPosition(c, m), w) == Eval(p, ModPosition(c, m), v)
  {
    var n := ToUsize(m).value;
    var w := WithPosAt(v, i, v.pos[i] + k * n);
    ModAddMultiple(v.pos[i], n, k);
    assert ModPositionFrag(w, n) == ModPositionFrag(v, n);
  }

  /** Reducing an already reduced fragment changes nothing. */
  lemma ModPositionIdempotent(v: UFrag, m: nat)
    requires 1 <= |v.pos| <= 3 && m > 0
    ensures ModPositionFrag(ModPositionFrag(v, m), m) == ModPositionFrag(v, m)
  {
    forall i | 0 <= i < |v.pos| ensures (v.pos[i] % m) % m == v.pos[i] % m {
      ModOfMod(v.pos[i], m);
    }
  }

  // ---------------------------------------------------------------------
  // ModTime and Extrude

  /** ModTime keeps the position and, for a positive modulus and non-negative time, puts time in [0, m). */
  lemma ModTimeLaws(v: UFrag, m: real)
    requires m > 0.0 && v.time >= 0.0
    ensures ModTimeFrag(v, m).pos == v.pos
    ensures 0.0 <= ModTimeFrag(v, m).time < m
  {
    RemRange(v.time, m);
  }

  /** Both Extrude impls drop the newest axis and keep time. */
  lemma ExtrudeAgrees(v: UFrag)
    requires |v.pos| == 2 || |v.pos| == 3
    ensures ExtrudeFrag(v) == DropLastAxis(v)
  {
  }

  /** An extruded shader ignores the dropped (last) coordinate. */
  lemma ExtrudeIgnoresLastAxis(p: C.Palette, c: Shader, v: UFrag, z: nat)
    requires Accepts(Extrude(c), |v.pos|)
    ensures var w := WithPosAt(v, |v.pos| - 1, z);
      Eval(p, Extrude(c), w) == Eval(p, Extrude(c), v)
  {
    var w := WithPosAt(v, |v.pos| - 1, z);
    assert ExtrudeFrag(w) == ExtrudeFrag(v);
  }
}
