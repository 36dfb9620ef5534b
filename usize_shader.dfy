/**
 * The oldest snapshot (`shark/src/shader.rs` and `shark/src/primitives.rs`):
 * fragments with natural-number (`usize`) positions and an f32 time, colours
 * in Oklab, and a checkerboard and position modulo in exact integer
 * arithmetic.  The operations that panic in the source (integer division or
 * remainder by zero, a modulo that does not fit `usize`) make `Eval` return
 * an error instead.
 */
module UsizeShader {
  import opened Wrappers
  import opened Reals
  import opened Vertices
  import C = Colors

  /** A fragment of the usize snapshot. */
  type UFrag = Vertex<nat>

  /** One more than `usize::MAX` on a 64-bit target. */
  const UsizeLimit: int := 0x1_0000_0000_0000_0000

  /** `FragOne { pos, time }`: the scalar `pos` field seen through `pos()` as a slice of length 1. */
  function FragOne(pos: nat, time: real): (v: UFrag)
    ensures |v.pos| == 1 && v.pos[0] == pos && v.time == time
  {
    Vertex([pos], time)
  }

  function FragTwo(x: nat, y: nat, time: real): (v: UFrag)
    ensures |v.pos| == 2 && v.pos[0] == x && v.pos[1] == y && v.time == time
  {
    Vertex([x, y], time)
  }

  function FragThree(x: nat, y: nat, z: nat, time: real): (v: UFrag)
    ensures |v.pos| == 3 && v.pos[0] == x && v.pos[1] == y && v.pos[2] == z && v.time == time
  {
    Vertex([x, y, z], time)
  }

  /**
   * A `ModPosition` modulo, of any `ToPrimitive` type: an integer, or a float
   * (of either width; its value is what matters).
   */
  datatype Modulo = Integral(n: int) | Floating(x: real)

  /**
   * `ToPrimitive::to_usize`: an integer converts when it lies in
   * `0..=usize::MAX`; a float is truncated toward zero and converts when its
   * value lies strictly between -1 and `usize::MAX + 1` (so -0.5 gives 0).
   */
  function ToUsize(m: Modulo): (r: Option<nat>)
    ensures r.Some? ==> r.value < UsizeLimit
    ensures m.Integral? ==> (r.Some? <==> 0 <= m.n < UsizeLimit) && (r.Some? ==> r.value == m.n)
    ensures m.Floating? ==> (r.Some? <==> -1.0 < m.x < UsizeLimit as real)
    ensures m.Floating? && r.Some? ==> r.value as real <= Abs(m.x) < r.value as real + 1.0
  {
    match m
    case Integral(n) => if 0 <= n < UsizeLimit then Some(n) else None
    case Floating(x) =>
      if -1.0 < x < UsizeLimit as real then
        var t := Trunc(x);
        assert t >= 0;
        Some(t)
      else None
  }

  /** The panics an evaluation can end in. */
  datatype Panic =
    | DivideByZero        // `pos / stride` with stride 0
    | ModuloNotUsize      // `modulo.to_usize()` is `None`
    | RemainderByZero     // `pos % 0`

  /** `PI_f32`, the single-precision float nearest to pi, written out exactly. */
  const PiF32: real := 3.1415927410125732421875

  /** `f32::to_radians`. */
  function ToRadians(degrees: real): real
  {
    degrees * (PiF32 / 180.0)
  }

  datatype Shader =
    | Off
    | Color(color: C.Color)
    | Interpolate(start: Shader, end: Shader, interpolator: UFrag -> real, only: Option<nat>)
    | Rotate(shader: Shader, angle: real)
    | Checkerboard(first: Shader, second: Shader, stride: nat)
    | ModPosition(shader: Shader, modulo: Modulo)
    | ModTime(shader: Shader, timeModulo: real)
    | Extrude(shader: Shader)

  /**
   * The fragment type an `Interpolate` is built for: `None` when its
   * constructor is generic in the fragment, `Some(d)` when the constructor
   * fixes it (`position_gradient` exists for FragOne only).
   */
  predicate Fits(only: Option<nat>, d: nat)
  {
    only.None? || only.value == d
  }

  /** Whether the term implements `Shader` with the fragment of dimension `d`. */
  predicate Accepts(s: Shader, d: nat)
  {
    1 <= d <= 3 &&
    match s
    case Off => true
    case Color(_) => true
    case Interpolate(a, b, _, only) => Fits(only, d) && Accepts(a, d) && Accepts(b, d)
    case Rotate(c, _) => Accepts(c, d)
    case Checkerboard(a, b, _) => Accepts(a, d) && Accepts(b, d)
    case ModPosition(c, _) => Accepts(c, d)
    case ModTime(c, _) => Accepts(c, d)
    case Extrude(c) => d >= 2 && Accepts(c, d - 1)
  }

  /** `Σ (pos_i / stride)`, integer division, over the position slice. */
  function QuotientSum(ps: seq<nat>, stride: nat): nat
    requires stride > 0
  {
    if ps == [] then 0 else QuotientSum(ps[..|ps| - 1], stride) + ps[|ps| - 1] / stride
  }

  /** The three `ModPosition` impls: each component `% modulo`, time kept. */
  function ModPositionFrag(v: UFrag, m: nat): (w: UFrag)
    requires 1 <= |v.pos| <= 3 && m > 0
  {
    if |v.pos| == 1 then Vertex([v.pos[0] % m], v.time)
    else if |v.pos| == 2 then Vertex([v.pos[0] % m, v.pos[1] % m], v.time)
    else Vertex([v.pos[0] % m, v.pos[1] % m, v.pos[2] % m], v.time)
  }

  /** `ModTime::shade`: a copy of the fragment whose time is `time % modulo`. */
  function ModTimeFrag(v: UFrag, m: real): UFrag
  {
    WithTime(v, Rem(v.time, m))
  }

  /** The two `Extrude` impls: FragTwo to FragOne and FragThree to FragTwo, time kept. */
  function ExtrudeFrag(v: UFrag): UFrag
    requires |v.pos| == 2 || |v.pos| == 3
  {
    if |v.pos| == 2 then FragOne(v.pos[0], v.time) else FragTwo(v.pos[0], v.pos[1], v.time)
  }

  /** `.into_color()` into Oklab of a child's result. */
  function InOklab(p: C.Palette, r: Result<C.Color, Panic>): Result<C.Color, Panic>
  {
    match r
    case Ok(c) => Ok(C.Into(p, C.Oklab, c))
    case Err(e) => Err(e)
  }

  /** `Shader::shade` on a term that accepts the fragment's dimension. */
  function Eval(p: C.Palette, s: Shader, v: UFrag): Result<C.Color, Panic>
    requires Accepts(s, |v.pos|)
    decreases s
  {
    match s
    case Off => Ok(C.Black(C.Oklab))
    case Color(c) => Ok(c)
    case Interpolate(start, end, interpolator, _) =>
      var a :- Eval(p, start, v);
      var b :- Eval(p, end, v);
      Ok(C.Mix(p, C.Into(p, C.Oklab, a), C.Into(p, C.Oklab, b), interpolator(v)))
    case Rotate(child, angle) =>
      var c :- Eval(p, child, v);
      Ok(C.Into(p, C.Oklab, C.ShiftHue(p, C.Into(p, C.Okhsl, C.Into(p, C.Oklab, c)), angle)))
    case Checkerboard(first, second, stride) =>
      if stride == 0 then Err(DivideByZero)
      else if QuotientSum(v.pos, stride) % 2 == 0 then InOklab(p, Eval(p, first, v))
      else InOklab(p, Eval(p, second, v))
    case ModPosition(child, m) =>
      var k := ToUsize(m);
      if k.None? then Err(ModuloNotUsize)
      else if k.value == 0 then Err(RemainderByZero)
      else Eval(p, child, ModPositionFrag(v, k.value))
    case ModTime(child, m) => Eval(p, child, ModTimeFrag(v, m))
    case Extrude(child) => Eval(p, child, ExtrudeFrag(v))
  }

  // The free constructors that do more than pack their arguments.

  /** `color(c)`: converted to Oklab when the shader is built. */
  function MakeColor(p: C.Palette, c: C.Color): (s: Shader)
    ensures s.Color? && s.color.space == C.Oklab
  {
    Color(C.Into(p, C.Oklab, c))
  }

  /** `mix(start, end, factor)`: a constant interpolator. */
  function Mix(start: Shader, end: Shader, factor: real): Shader
  {
    Interpolate(start, end, _ => factor, None)
  }

  /** `rotate(shader, angle)`: the angle is stored in radians. */
  function MakeRotate(shader: Shader, angle: real): Shader
  {
    Rotate(shader, ToRadians(angle))
  }

  /** `position_gradient(start, end, f)`, for FragOne: `f` of the position. */
  function PositionGradient(start: Shader, end: Shader, f: nat -> real): Shader
  {
    Interpolate(start, end, (v: UFrag) => f(if v.pos == [] then 0 else v.pos[0]), Some(1))
  }

  /** `time_gradient(start, end, f)`: `f` of the time. */
  function TimeGradient(start: Shader, end: Shader, f: real -> real): Shader
  {
    Interpolate(start, end, (v: UFrag) => f(v.time), None)
  }
}
