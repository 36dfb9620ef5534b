/**
 * `operation.rs`: the vertex-rewriting combinators, interpolation, the
 * channel-wise arithmetic combinators and VolumeBlur.  The rewrites that the
 * source performs by mutating its local vertex copy through
 * `pos_mut().iter_mut()` are methods with loops, each proved equal to the
 * vertex function that `Eval` delegates through.
 */
module CurrentOperation {
  import opened Reals
  import opened Vertices
  import opened VertexOps
  import opened CurrentShader
  import C = Colors

  // ---------------------------------------------------------------------
  // In-place rewrites of the vertex copy

  /** ModPosition's in-place pass: each position component of the copy replaced by its remainder. */
  method ModPositionRewrite(v: Frag, m: real) returns (w: Frag)
    ensures w == ModPositionVertex(v, m)
  {
    var pos := v.pos;
    var i := 0;
    while i < |pos|
      invariant 0 <= i <= |pos| == |v.pos|
      invariant forall j :: 0 <= j < i ==> pos[j] == Rem(v.pos[j], m)
      invariant forall j :: i <= j < |pos| ==> pos[j] == v.pos[j]
    {
      pos := pos[i := Rem(pos[i], m)];
      i := i + 1;
    }
    w := Vertex(pos, v.time);
  }

  /** ScalePosition's in-place pass: each position component of the copy multiplied by the scale. */
  method ScalePositionRewrite(v: Frag, scale: real) returns (w: Frag)
    ensures w == ScalePositionVertex(v, scale)
  {
    var pos := v.pos;
    var i := 0;
    while i < |pos|
      invariant 0 <= i <= |pos| == |v.pos|
      invariant forall j :: 0 <= j < i ==> pos[j] == ScalePositionVertex(v, scale).pos[j]
      invariant forall j :: i <= j < |pos| ==> pos[j] == v.pos[j]
    {
      pos := pos[i := pos[i] * scale];
      i := i + 1;
    }
    w := Vertex(pos, v.time);
  }

  /** TranslatePosition's in-place pass: the offset added to each position component of the copy. */
  method TranslateRewrite(v: Frag, offset: real) returns (w: Frag)
    ensures w == TranslateVertex(v, offset)
  {
    var pos := v.pos;
    var i := 0;
    while i < |pos|
      invariant 0 <= i <= |pos| == |v.pos|
      invariant forall j :: 0 <= j < i ==> pos[j] == v.pos[j] + offset
      invariant forall j :: i <= j < |pos| ==> pos[j] == v.pos[j]
    {
      pos := pos[i := pos[i] + offset];
      i := i + 1;
    }
    w := Vertex(pos, v.time);
  }

  // ---------------------------------------------------------------------
  // ModPosition and ModTime

  /**
   * ModPosition delegates at a vertex of the same dimension and time whose
   * components, for non-negative positions and a positive modulus, lie in [0, m).
   */
  lemma ModPositionRange(p: C.Palette, s: Shader, m: real, v: Frag)
    requires m > 0.0
    requires forall i :: 0 <= i < |v.pos| ==> v.pos[i] >= 0.0
    ensures Eval(p, ModPosition(s, m), v) == Eval(p, s, ModPositionVertex(v, m))
    ensures |ModPositionVertex(v, m).pos| == |v.pos| && ModPositionVertex(v, m).time == v.time
    ensures forall i :: 0 <= i < |v.pos| ==> 0.0 <= ModPositionVertex(v, m).pos[i] < m
  {
    forall i | 0 <= i < |v.pos|
      ensures 0.0 <= ModPositionVertex(v, m).pos[i] < m
    {
      RemRange(v.pos[i], m);
    }
  }

  /** Adding the modulus to a non-negative component does not change what ModPosition shades. */
  lemma ModPositionPeriodic(p: C.Palette, s: Shader, m: real, v: Frag, i: nat)
    requires m > 0.0 && i < |v.pos| && v.pos[i] >= 0.0
    ensures Eval(p, ModPosition(s, m), WithPosAt(v, i, v.pos[i] + m)) == Eval(p, ModPosition(s, m), v)
  {
    RemPeriodic(v.pos[i], m);
    assert ModPositionVertex(WithPosAt(v, i, v.pos[i] + m), m) == ModPositionVertex(v, m);
  }

  /** Wrapping twice is wrapping once. */
  lemma ModPositionIdempotent(p: C.Palette, s: Shader, m: real, v: Frag)
    ensures Eval(p, ModPosition(ModPosition(s, m), m), v) == Eval(p, ModPosition(s, m), v)
  {
    forall i | 0 <= i < |v.pos|
      ensures Rem(Rem(v.pos[i], m), m) == Rem(v.pos[i], m)
    {
      RemIdempotent(v.pos[i], m);
    }
    assert ModPositionVertex(ModPositionVertex(v, m), m) == ModPositionVertex(v, m);
  }

  /**
   * For any non-zero modulus every reduced component keeps the sign of the
   * original one and is smaller than the modulus in size: non-negative
   * components land in [0, |m|) and non-positive ones in (-|m|, 0].
   */
  lemma ModPositionSigned(v: Frag, m: real)
    requires m != 0.0
    ensures |ModPositionVertex(v, m).pos| == |v.pos|
    ensures forall i :: 0 <= i < |v.pos| && v.pos[i] >= 0.0 ==>
      0.0 <= ModPositionVertex(v, m).pos[i] < Abs(m)
    ensures forall i :: 0 <= i < |v.pos| && v.pos[i] <= 0.0 ==>
      -Abs(m) < ModPositionVertex(v, m).pos[i] <= 0.0
  {
    forall i | 0 <= i < |v.pos|
      ensures v.pos[i] >= 0.0 ==> 0.0 <= ModPositionVertex(v, m).pos[i] < Abs(m)
      ensures v.pos[i] <= 0.0 ==> -Abs(m) < ModPositionVertex(v, m).pos[i] <= 0.0
    {
      RemSign(v.pos[i], m);
    }
  }

  /**
   * The truncated remainder keeps the sign of a negative position: at -1 with
   * modulus 5 the child is shaded at -1, outside [0, 5), and at 4 (one modulus
   * further) it is shaded at 4, so ModPosition is not periodic across 0.
   */
  lemma ModPositionNegative(p: C.Palette, s: Shader)
    ensures ModPositionVertex(FragOne(-1.0, 0.0), 5.0) == FragOne(-1.0, 0.0)
    ensures ModPositionVertex(FragOne(4.0, 0.0), 5.0) == FragOne(4.0, 0.0)
  {
    assert Trunc(-1.0 / 5.0) == 0;
    assert Trunc(4.0 / 5.0) == 0;
    assert ModPositionVertex(FragOne(-1.0, 0.0), 5.0).pos == [-1.0];
    assert ModPositionVertex(FragOne(4.0, 0.0), 5.0).pos == [4.0];
  }

  /** ModTime keeps the position and, for non-negative time and a positive modulus, wraps time into [0, m). */
  lemma ModTimeRange(p: C.Palette, s: Shader, m: real, v: Frag)
    requires m > 0.0 && v.time >= 0.0
    ensures Eval(p, ModTime(s, m), v) == Eval(p, s, ModTimeVertex(v, m))
    ensures ModTimeVertex(v, m).pos == v.pos
    ensures 0.0 <= ModTimeVertex(v, m).time < m
  {
    RemRange(v.time, m);
  }

  /** ModTime loops the animation: a non-negative time and that time plus the modulus shade alike. */
  lemma ModTimePeriodic(p: C.Palette, s: Shader, m: real, v: Frag)
    requires m > 0.0 && v.time >= 0.0
    ensures Eval(p, ModTime(s, m), WithTime(v, v.time + m)) == Eval(p, ModTime(s, m), v)
  {
    RemPeriodic(v.time, m);
  }

  // ---------------------------------------------------------------------
  // ScaleTime, ScalePosition and TranslatePosition

  /** ScaleTime keeps the position; two scalings compose into their product; scale 1 changes nothing. */
  lemma ScaleTimeLaws(p: C.Palette, s: Shader, a: real, b: real, v: Frag)
    ensures ScaleTimeVertex(v, a).pos == v.pos && ScaleTimeVertex(v, a).time == v.time * a
    ensures Eval(p, ScaleTime(ScaleTime(s, a), b), v) == Eval(p, ScaleTime(s, a * b), v)
    ensures Eval(p, ScaleTime(s, 1.0), v) == Eval(p, s, v)
  {
    assert ScaleTimeVertex(ScaleTimeVertex(v, b), a) == ScaleTimeVertex(v, a * b);
    assert ScaleTimeVertex(v, 1.0) == v;
  }

  /** ScalePosition keeps the time; two scalings compose into their product; scale 1 changes nothing. */
  lemma ScalePositionLaws(p: C.Palette, s: Shader, a: real, b: real, v: Frag)
    ensures ScalePositionVertex(v, a).time == v.time && |ScalePositionVertex(v, a).pos| == |v.pos|
    ensures Eval(p, ScalePosition(ScalePosition(s, a), b), v) == Eval(p, ScalePosition(s, a * b), v)
    ensures Eval(p, ScalePosition(s, 1.0), v) == Eval(p, s, v)
  {
    var twice, once := ScalePositionVertex(ScalePositionVertex(v, b), a), ScalePositionVertex(v, a * b);
    forall i | 0 <= i < |v.pos|
      ensures twice.pos[i] == once.pos[i]
    {
      assert v.pos[i] * b * a == v.pos[i] * (a * b);
    }
    assert twice == once;
    assert ScalePositionVertex(v, 1.0) == v;
  }

  /** TranslatePosition keeps the time; translations add up; translating back by `-o` undoes `o`. */
  lemma TranslatePositionLaws(p: C.Palette, s: Shader, a: real, b: real, v: Frag)
    ensures TranslateVertex(v, a).time == v.time && |TranslateVertex(v, a).pos| == |v.pos|
    ensures Eval(p, TranslatePosition(TranslatePosition(s, a), b), v) == Eval(p, TranslatePosition(s, a + b), v)
    ensures Eval(p, TranslatePosition(TranslatePosition(s, -a), a), v) == Eval(p, s, v)
  {
    TranslateCompose(p, s, a, b, v);
    TranslateUndo(p, s, a, v);
  }

  lemma TranslateCompose(p: C.Palette, s: Shader, a: real, b: real, v: Frag)
    ensures Eval(p, TranslatePosition(TranslatePosition(s, a), b), v) == Eval(p, TranslatePosition(s, a + b), v)
  {
    TranslateTwice(v, b, a);
    var w := TranslateVertex(v, b);
    assert Eval(p, TranslatePosition(TranslatePosition(s, a), b), v) == Eval(p, TranslatePosition(s, a), w);
    assert Eval(p, TranslatePosition(s, a), w) == Eval(p, s, TranslateVertex(w, a));
  }

  lemma TranslateUndo(p: C.Palette, s: Shader, a: real, v: Frag)
    ensures Eval(p, TranslatePosition(TranslatePosition(s, -a), a), v) == Eval(p, s, v)
  {
    TranslateBack(v, a);
    var u := TranslateVertex(v, a);
    assert Eval(p, TranslatePosition(TranslatePosition(s, -a), a), v) == Eval(p, TranslatePosition(s, -a), u);
    assert Eval(p, TranslatePosition(s, -a), u) == Eval(p, s, TranslateVertex(u, -a));
  }

  /** Translating by `a` and then by `-a` gives the vertex back. */
  lemma TranslateBack(v: Frag, a: real)
    ensures TranslateVertex(TranslateVertex(v, a), -a) == v
  {
    TranslateTwice(v, a, -a);
    assert TranslateVertex(v, 0.0) == v;
  }

  // ---------------------------------------------------------------------
  // Interpolate

  lemma LerpEndpoints(a: real, b: real)
    ensures Lerp(a, b, 0.0) == a && Lerp(a, b, 1.0) == b
  {
  }

  /** `mix`'s factor ignores the vertex; the gradients' factors see only the summed position, or only the time. */
  lemma InterpolatorSources(s: Shader, e: Shader, factor: real, f: real -> real, v: Frag, w: Frag)
    ensures Mix(s, e, factor).interpolator(v) == factor
    ensures Sum(v.pos) == Sum(w.pos) ==>
      PositionGradient(s, e, f).interpolator(v) == PositionGradient(s, e, f).interpolator(w) == f(Sum(v.pos))
    ensures v.time == w.time ==>
      TimeGradient(s, e, f).interpolator(v) == TimeGradient(s, e, f).interpolator(w) == f(v.time)
  {
  }

  /** With a linear `mix`, factor 0 gives the start colour and factor 1 the end colour. */
  lemma InterpolateEndpoints(p: C.Palette, s: Shader, e: Shader, v: Frag)
    requires C.LinearMix(p)
    ensures Eval(p, Mix(s, e, 0.0), v) == C.Lin(p, Eval(p, s, v))
    ensures Eval(p, Mix(s, e, 1.0), v) == C.Lin(p, Eval(p, e, v))
  {
    var a, b := C.Lin(p, Eval(p, s, v)), C.Lin(p, Eval(p, e, v));
    assert p.mix(a, b, 0.0) == a;
    assert p.mix(a, b, 1.0) == b.(space := a.space);
  }

  /** With a linear `mix`, half-way between black and white is grey 0.5. */
  lemma InterpolateHalfway(p: C.Palette, v: Frag)
    requires C.LinearMix(p)
    ensures Eval(p, Mix(Color(C.Black(C.LinSrgb)), Color(C.Color(C.LinSrgb, 1.0, 1.0, 1.0)), 0.5), v)
         == C.Color(C.LinSrgb, 0.5, 0.5, 0.5)
  {
    var a, b := C.Black(C.LinSrgb), C.Color(C.LinSrgb, 1.0, 1.0, 1.0);
    assert p.mix(a, b, 0.5) == C.Color(C.LinSrgb, 0.5, 0.5, 0.5);
  }

  /** RotateHue by 0 gives the child's colour back when shifting by 0 is the identity and Hsl round-trips. */
  lemma RotateHueByZero(p: C.Palette, s: Shader, v: Frag)
    requires forall c :: p.shiftHue(c, 0.0) == c
    requires forall c: C.Color :: c.space == C.LinSrgb ==> C.Lin(p, C.Into(p, C.Hsl, c)) == c
    ensures Eval(p, RotateHue(s, 0.0), v) == C.Lin(p, Eval(p, s, v))
  {
    var a := C.Lin(p, Eval(p, s, v));
    assert Eval(p, RotateHue(s, 0.0), v) == C.Lin(p, C.ShiftHue(p, C.Into(p, C.Hsl, a), 0.0));
    ShiftByZero(p, a);
  }

  /** The colour computation of `RotateHueByZero`, apart from any shader. */
  lemma ShiftByZero(p: C.Palette, a: C.Color)
    requires forall c :: p.shiftHue(c, 0.0) == c
    requires forall c: C.Color :: c.space == C.LinSrgb ==> C.Lin(p, C.Into(p, C.Hsl, c)) == c
    requires a.space == C.LinSrgb
    ensures C.Lin(p, C.ShiftHue(p, C.Into(p, C.Hsl, a), 0.0)) == a
  {
    var c := C.Into(p, C.Hsl, a);
    assert p.shiftHue(c, 0.0) == c;
  }

  // ---------------------------------------------------------------------
  // Add, Subtract, Multiply, Divide

  /** Add and Multiply commute. */
  lemma AddMultiplyCommute(p: C.Palette, l: Shader, r: Shader, v: Frag)
    ensures Eval(p, Add(l, r), v) == Eval(p, Add(r, l), v)
    ensures Eval(p, Multiply(l, r), v) == Eval(p, Multiply(r, l), v)
  {
    var a, b := C.Lin(p, Eval(p, l, v)), C.Lin(p, Eval(p, r, v));
    assert Eval(p, Add(l, r), v) == C.Plus(a, b);
    assert Eval(p, Add(r, l), v) == C.Plus(b, a);
    assert Eval(p, Multiply(l, r), v) == C.Times(a, b);
    assert Eval(p, Multiply(r, l), v) == C.Times(b, a);
  }

  /** Adding Off is the identity on the linear colour. */
  lemma AddOff(p: C.Palette, l: Shader, v: Frag)
    ensures Eval(p, Add(l, Off), v) == C.Lin(p, Eval(p, l, v))
  {
    PlusBlackLin(p, Eval(p, l, v));
  }

  /** Linear black is the unit of the channel-wise sum. */
  lemma PlusBlackLin(p: C.Palette, e: C.Color)
    ensures C.Plus(C.Lin(p, e), C.Lin(p, C.Black(C.LinSrgb))) == C.Lin(p, e)
  {
  }

  /** A shader minus itself is black. */
  lemma SubtractSelf(p: C.Palette, l: Shader, v: Frag)
    ensures Eval(p, Subtract(l, l), v) == C.Black(C.LinSrgb)
  {
    var a := C.Lin(p, Eval(p, l, v));
    assert Eval(p, Subtract(l, l), v) == C.Minus(a, a);
  }

  /** Dividing by a shader and multiplying by it again restores the numerator where its channels are non-zero. */
  lemma DivideThenMultiply(p: C.Palette, l: Shader, r: Shader, v: Frag)
    requires var d := C.Lin(p, Eval(p, r, v)); d.c0 != 0.0 && d.c1 != 0.0 && d.c2 != 0.0
    ensures Eval(p, Multiply(Divide(l, r), r), v) == C.Lin(p, Eval(p, l, v))
  {
    var a, b := C.Lin(p, Eval(p, l, v)), C.Lin(p, Eval(p, r, v));
    assert Eval(p, Divide(l, r), v) == C.Over(a, b);
    C.OverThenTimes(a, b);
  }

  // ---------------------------------------------------------------------
  // VolumeBlur

  /**
   * `VolumeBlur::shade`, with the child's shading (converted to linear sRGB)
   * as `shade`: `samples` child evaluations, the vertex moved by the
   * accumulated offsets before each, then the channel-wise mean.  The ghost
   * `visited` records the vertex of every child evaluation, in order.
   */
  method VolumeBlurShade(shade: Frag -> C.Color, radius: real, n: nat, v: Frag)
    returns (c: C.Color, ghost visited: seq<Frag>)
    ensures c == BlurMean(shade, radius, n, v)
    ensures |visited| == n
    ensures forall k :: 0 <= k < n ==> visited[k] == BlurSample(v, radius, n, k)
    ensures forall k :: 0 <= k < n ==> visited[k].time == v.time
  {
    var colors;
    colors, visited := SampleColors(shade, radius, n, v);
    c := MeanColor(colors);
  }

  /** The sampling loop of `VolumeBlur::shade`: one colour per sample, into a fresh array. */
  method SampleColors(shade: Frag -> C.Color, radius: real, n: nat, v: Frag)
    returns (colors: array<C.Color>, ghost visited: seq<Frag>)
    ensures fresh(colors) && colors.Length == n
    ensures colors[..] == seq(n, k requires 0 <= k < n => shade(BlurSample(v, radius, n, k)))
    ensures |visited| == n
    ensures forall k :: 0 <= k < n ==> visited[k] == BlurSample(v, radius, n, k)
  {
    colors := new C.Color[n](_ => C.Black(C.LinSrgb));
    var frag := v;
    visited := [];
    for i := 0 to n
      invariant visited == Samples(v, radius, n, i)
      invariant frag == if i == 0 then v else BlurSample(v, radius, n, i - 1)
      invariant forall k :: 0 <= k < i ==> colors[k] == shade(BlurSample(v, radius, n, k))
    {
      var offset := Lerp(-radius, radius, i as real / n as real);
      NextBlurSample(v, radius, n, i, frag, offset);
      frag := TranslateRewrite(frag, offset);
      visited := visited + [frag];
      colors[i] := shade(frag);
    }
    SamplesAt(v, radius, n, n);
  }

  /** The first `i` sample vertices, in order. */
  ghost function Samples(v: Frag, radius: real, n: nat, i: nat): seq<Frag>
  {
    if i == 0 then [] else Samples(v, radius, n, i - 1) + [BlurSample(v, radius, n, i - 1)]
  }

  /** `Samples` lists sample `k` at position `k`. */
  lemma {:induction false} SamplesAt(v: Frag, radius: real, n: nat, i: nat)
    ensures |Samples(v, radius, n, i)| == i
    ensures forall k :: 0 <= k < i ==> Samples(v, radius, n, i)[k] == BlurSample(v, radius, n, k)
  {
    if i > 0 {
      SamplesAt(v, radius, n, i - 1);
    }
  }

  /** Moving sample `i - 1` (or the vertex itself, for `i = 0`) by offset `i` gives sample `i`. */
  lemma NextBlurSample(v: Frag, radius: real, n: nat, i: nat, frag: Frag, offset: real)
    requires i < n
    requires frag == if i == 0 then v else BlurSample(v, radius, n, i - 1)
    requires offset == Lerp(-radius, radius, i as real / n as real)
    ensures TranslateVertex(frag, offset) == BlurSample(v, radius, n, i)
  {
    assert offset == BlurOffset(radius, n, i);
    TranslateTwice(v, if i == 0 then 0.0 else BlurShift(radius, n, i - 1), offset);
    if i == 0 {
      assert TranslateVertex(v, 0.0) == v;
    }
  }

  /** The mean of the sampled colours: their channel-wise sum from black, divided by their count. */
  method MeanColor(colors: array<C.Color>) returns (c: C.Color)
    ensures c == C.DivScalar(C.Total(colors[..]), colors.Length as real)
  {
    var acc := C.Black(C.LinSrgb);
    for i := 0 to colors.Length
      invariant acc == C.Total(colors[..i])
    {
      assert colors[..i + 1][..i] == colors[..i];
      acc := C.Plus(acc, colors[i]);
    }
    assert colors[..colors.Length] == colors[..];
    c := C.DivScalar(acc, colors.Length as real);
  }

  /** VolumeBlur is the blur mean of its child's linear shading. */
  lemma VolumeBlurEval(p: C.Palette, child: Shader, radius: real, n: nat, v: Frag)
    ensures Eval(p, VolumeBlur(child, radius, n), v) == BlurMean((w: Frag) => C.Lin(p, Eval(p, child, w)), radius, n, v)
  {
  }

  /** Blurring a shading that is the same linear colour everywhere gives that colour back. */
  lemma BlurMeanOfConstant(shade: Frag -> C.Color, radius: real, n: nat, v: Frag, c: C.Color)
    requires n > 0 && c.space == C.LinSrgb
    requires forall w :: shade(w) == c
    ensures BlurMean(shade, radius, n, v) == c
  {
    var colors := seq(n, k requires 0 <= k < n => shade(BlurSample(v, radius, n, k)));
    forall k | 0 <= k < n
      ensures colors[k] == c
    {
      assert colors[k] == shade(BlurSample(v, radius, n, k));
    }
    C.TotalOfCopies(colors, c);
    C.ScaledThenDivided(c, n as real);
  }

  /** Blurring a shader that shades every vertex alike gives that colour back, in linear sRGB. */
  lemma VolumeBlurOfConstant(p: C.Palette, child: Shader, radius: real, n: nat, v: Frag, c: C.Color)
    requires n > 0
    requires forall w :: Eval(p, child, w) == c
    ensures Eval(p, VolumeBlur(child, radius, n), v) == C.Lin(p, c)
  {
    var shade := (w: Frag) => C.Lin(p, Eval(p, child, w));
    VolumeBlurEval(p, child, radius, n, v);
    BlurMeanOfConstant(shade, radius, n, v, C.Lin(p, c));
  }
}
