/**
 * Properties of the f64 snapshot (`shark/src/shader`): the in-place
 * fragment rewrites as methods proved equal to the vertex functions `Eval`
 * delegates through, and the laws of its combinators.
 */
module SharkLaws {
  import opened Reals
  import opened Vertices
  import opened VertexOps
  import opened SharkShader
  import C = Colors

  // ---------------------------------------------------------------------
  // Fragments

  /** Writing `pos_mut()[0]` of a FragOne updates its scalar `pos` field and nothing else. */
  lemma FragOneWrite(x: real, y: real, t: real)
    ensures WithPosAt(FragOne(x, t), 0, y) == FragOne(y, t)
    ensures Scalar(FragOne(x, t)) == x
  {
  }

  /** `FnShader::shade` applies the wrapped closure, and `into_shader` wraps it unchanged. */
  lemma FnShaderApplies(p: C.Palette, f: Frag -> C.Color, v: Frag)
    requires 1 <= |v.pos| <= 3
    ensures IntoShader(f) == FnShader(f)
    ensures Eval(p, IntoShader(f), v) == f(v)
  {
  }

  /** Only FragTwo and FragThree shaders can be built with Extrude; it always needs a shader one dimension lower. */
  lemma ExtrudeDimensions(c: Shader, d: nat)
    ensures Accepts(Extrude(c), d) <==> (d == 2 || d == 3) && Accepts(c, d - 1)
  {
  }

  // ---------------------------------------------------------------------
  // In-place rewrites of the fragment copy

  /** `ScalePosition::shade`: an index loop over the copy's position that multiplies each component by the scale. */
  method ScalePositionShade(v: Frag, scale: real) returns (w: Frag)
    ensures w == ScalePositionVertex(v, scale)
  {
    var position := new real[|v.pos|](i requires 0 <= i < |v.pos| => v.pos[i]);
    for part := 0 to position.Length
      invariant forall j :: 0 <= j < part ==> position[j] == ScalePositionVertex(v, scale).pos[j]
      invariant forall j :: part <= j < position.Length ==> position[j] == v.pos[j]
    {
      position[part] := position[part] * scale;
    }
    assert position[..] == ScalePositionVertex(v, scale).pos;
    w := Vertex(position[..], v.time);
  }

  /** The three `TranslatePosition::shade` impls: `pos[i] += offset[i]` for each axis of the fragment. */
  method TranslatePositionShade(v: Frag, offset: seq<real>) returns (w: Frag)
    requires 1 <= |v.pos| <= 3 && |offset| == |v.pos|
    ensures w == TranslateAxes(v, offset)
  {
    var pos := v.pos;
    pos := pos[0 := pos[0] + offset[0]];
    if |pos| >= 2 {
      pos := pos[1 := pos[1] + offset[1]];
    }
    if |pos| == 3 {
      pos := pos[2 := pos[2] + offset[2]];
    }
    w := Vertex(pos, v.time);
  }

  // ---------------------------------------------------------------------
  // Constants and interpolation

  /** Off is black and Color its stored colour, whatever the fragment. */
  lemma ConstantsIgnoreFragment(p: C.Palette, c: C.Color, v: Frag, w: Frag)
    requires 1 <= |v.pos| <= 3 && 1 <= |w.pos| <= 3
    ensures Eval(p, Off, v) == Eval(p, Off, w) == C.Color(C.LinSrgb, 0.0, 0.0, 0.0)
    ensures Eval(p, Color(c), v) == Eval(p, Color(c), w) == c
  {
  }

  /** `mix` has a constant factor; `position_gradient` hands the interpolator FragOne's scalar position. */
  lemma InterpolatorSources(s: Shader, e: Shader, factor: real, f: real -> real, x: real, t: real, v: Frag)
    ensures Mix(s, e, factor).interpolator(v) == factor
    ensures PositionGradient(s, e, f).interpolator(FragOne(x, t)) == f(x)
    ensures TimeGradient(s, e, f).interpolator(FragOne(x, t)) == f(t)
  {
    assert Scalar(FragOne(x, t)) == x;
  }

  /**
   * `position_gradient` and `one_dimensional_position_rainbow` shade FragOne
   * only, while `mix`, `time_gradient` and `time_rainbow` shade every
   * fragment type their children shade.
   */
  lemma GradientDimensions(s: Shader, e: Shader, factor: real, f: real -> real, d: nat)
    ensures Accepts(PositionGradient(s, e, f), d) <==> d == 1 && Accepts(s, 1) && Accepts(e, 1)
    ensures Accepts(OneDimensionalPositionRainbow(), d) <==> d == 1
    ensures Accepts(Mix(s, e, factor), d) <==> Accepts(s, d) && Accepts(e, d)
    ensures Accepts(TimeGradient(s, e, f), d) <==> Accepts(s, d) && Accepts(e, d)
    ensures Accepts(TimeRainbow(), d) <==> 1 <= d <= 3
  {
  }

  /** `rotate_hue` stores its angle in radians: half a turn is `PI_f64`, and the conversion is linear. */
  lemma RotateHueRadians(s: Shader, a: real, b: real)
    ensures MakeRotateHue(s, 180.0).angle == Pi
    ensures MakeRotateHue(s, a + b).angle == MakeRotateHue(s, a).angle + MakeRotateHue(s, b).angle
    ensures MakeRotateHue(s, a).shader == s
  {
  }

  // ---------------------------------------------------------------------
  // Checkerboard

  /** The first child is shaded exactly when the cell sum is even, the second otherwise. */
  lemma CheckerboardChoice(p: C.Palette, a: Shader, b: Shader, stride: real, v: Frag)
    requires Accepts(Checkerboard(a, b, stride), |v.pos|)
    ensures FirstCell(v.pos, stride) ==> Eval(p, Checkerboard(a, b, stride), v) == C.Lin(p, Eval(p, a, v))
    ensures !FirstCell(v.pos, stride) ==> Eval(p, Checkerboard(a, b, stride), v) == C.Lin(p, Eval(p, b, v))
  {
  }

  /** On a non-negative FragOne with a positive stride, the first child is chosen exactly when `floor(pos / stride)` is even. */
  lemma CheckerboardOneDim(s: real, x: real, t: real)
    requires s > 0.0 && x >= 0.0
    ensures FirstCell(FragOne(x, t).pos, s) <==> (x / s).Floor % 2 == 0
  {
    var ps := FragOne(x, t).pos;
    QuotientSign(x, s);
    assert ps[..0] == [];
    assert CellSum(ps, s) == Cell(x, s);
  }

  // ---------------------------------------------------------------------
  // ModPosition, ModTime, Extrude

  /** The per-dimension ModPosition impls agree with the dimension-generic remainder of every component. */
  lemma ModPositionAgrees(v: Frag, m: real)
    requires 1 <= |v.pos| <= 3
    ensures ModPositionFrag(v, m) == ModPositionVertex(v, m)
  {
  }

  /** ModPosition keeps the dimension and time; non-negative components land in [0, m) for m > 0. */
  lemma ModPositionRange(v: Frag, m: real)
    requires 1 <= |v.pos| <= 3 && m > 0.0
    ensures |ModPositionFrag(v, m).pos| == |v.pos| && ModPositionFrag(v, m).time == v.time
    ensures forall i :: 0 <= i < |v.pos| && v.pos[i] >= 0.0 ==>
      0.0 <= ModPositionFrag(v, m).pos[i] < m
  {
    ModPositionAgrees(v, m);
    forall i | 0 <= i < |v.pos| && v.pos[i] >= 0.0
      ensures 0.0 <= ModPositionFrag(v, m).pos[i] < m
    {
      RemRange(v.pos[i], m);
    }
  }

  /** ModTime leaves the position alone and, for a positive modulus and non-negative time, puts time in [0, m). */
  lemma ModTimeRange(v: Frag, m: real)
    requires m > 0.0 && v.time >= 0.0
    ensures ModTimeVertex(v, m).pos == v.pos
    ensures 0.0 <= ModTimeVertex(v, m).time < m
  {
    RemRange(v.time, m);
  }

  /** Both Extrude impls drop the newest axis and keep time. */
  lemma ExtrudeAgrees(v: Frag)
    requires |v.pos| == 2 || |v.pos| == 3
    ensures ExtrudeFrag(v) == DropLastAxis(v)
  {
  }

  /** An extruded shader ignores the dropped (last) coordinate. */
  lemma ExtrudeIgnoresLastAxis(p: C.Palette, c: Shader, v: Frag, z: real)
    requires Accepts(Extrude(c), |v.pos|)
    ensures var w := WithPosAt(v, |v.pos| - 1, z);
      Eval(p, Extrude(c), w) == Eval(p, Extrude(c), v)
  {
    var w := WithPosAt(v, |v.pos| - 1, z);
    assert ExtrudeFrag(w) == ExtrudeFrag(v);
  }

  // ---------------------------------------------------------------------
  // ScaleTime, ScalePosition, TranslatePosition

  /** ScaleTime touches only the time and ScalePosition only the position; scaling twice multiplies the factors. */
  lemma ScaleLaws(v: Frag, a: real, b: real)
    ensures ScaleTimeVertex(v, a).pos == v.pos && ScalePositionVertex(v, a).time == v.time
    ensures ScaleTimeVertex(ScaleTimeVertex(v, a), b) == ScaleTimeVertex(v, a * b)
    ensures ScalePositionVertex(ScalePositionVertex(v, a), b) == ScalePositionVertex(v, a * b)
  {
    assert v.time * a * b == v.time * (a * b);
    forall i | 0 <= i < |v.pos|
      ensures ScalePositionVertex(ScalePositionVertex(v, a), b).pos[i] == ScalePositionVertex(v, a * b).pos[i]
    {
      assert v.pos[i] * a * b == v.pos[i] * (a * b);
    }
  }

  /** Translating by per-axis offsets keeps time; two translations add their offsets axis by axis. */
  lemma TranslateLaws(v: Frag, a: seq<real>, b: seq<real>)
    requires |a| == |b| == |v.pos|
    ensures TranslateAxes(v, a).time == v.time
    ensures TranslateAxes(TranslateAxes(v, a), b) ==
      TranslateAxes(v, seq(|a|, i requires 0 <= i < |a| => a[i] + b[i]))
    ensures TranslateAxes(v, seq(|a|, _ => 0.0)) == v
  {
  }

  // ---------------------------------------------------------------------
  // Add and Multiply

  /** Add and Multiply shade both children at the same fragment, so they commute. */
  lemma AddMultiplyCommute(p: C.Palette, l: Shader, r: Shader, v: Frag)
    requires Accepts(l, |v.pos|) && Accepts(r, |v.pos|)
    ensures Eval(p, Add(l, r), v) == Eval(p, Add(r, l), v)
    ensures Eval(p, Multiply(l, r), v) == Eval(p, Multiply(r, l), v)
  {
    var a, b := C.Lin(p, Eval(p, l, v)), C.Lin(p, Eval(p, r, v));
    assert Eval(p, Add(l, r), v) == C.Plus(a, b);
    assert Eval(p, Add(r, l), v) == C.Plus(b, a);
    assert Eval(p, Multiply(l, r), v) == C.Times(a, b);
    assert Eval(p, Multiply(r, l), v) == C.Times(b, a);
  }
}
