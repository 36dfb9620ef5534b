/**
 * The older f64 snapshot of the shader library (`shark/src/shader`): the
 * `Fragment` types, the shader terms of its `primitives.rs` and their
 * evaluation.  Unlike the current library it has per-dimension `ModPosition`
 * and `TranslatePosition` impls (the offset is one value per axis), an
 * `Extrude` that drops the last axis, and `rotate_hue` converts its angle to
 * radians when the shader is built.
 */
module SharkShader {
  import opened Wrappers
  import opened Reals
  import opened Vertices
  import opened VertexOps
  import C = Colors

  /** `FragOne { pos, time }`: the scalar `pos` field, seen through `pos()` as a slice of length 1. */
  function FragOne(pos: real, time: real): (v: Frag)
    ensures |v.pos| == 1 && v.pos[0] == pos && v.time == time
  {
    Vertex([pos], time)
  }

  function FragTwo(x: real, y: real, time: real): (v: Frag)
    ensures |v.pos| == 2 && v.pos[0] == x && v.pos[1] == y && v.time == time
  {
    Vertex([x, y], time)
  }

  function FragThree(x: real, y: real, z: real, time: real): (v: Frag)
    ensures |v.pos| == 3 && v.pos[0] == x && v.pos[1] == y && v.pos[2] == z && v.time == time
  {
    Vertex([x, y, z], time)
  }

  /** `FragOne`'s `pos` field read as a scalar (0.0 for a fragment with no position, which no type allows). */
  function Scalar(v: Frag): real
  {
    if v.pos == [] then 0.0 else v.pos[0]
  }

  /** `PI_f64`, the double nearest to pi, written out exactly. */
  const Pi: real := 3.141592653589793115997963468544185161590576171875

  /** `f64::to_radians`: `self * (PI / 180.0)`. */
  function ToRadians(degrees: real): real
  {
    degrees * (Pi / 180.0)
  }

  datatype Shader =
    | Off
    | Color(color: C.Color)
    | FnShader(f: Frag -> C.Color)
    | Interpolate(start: Shader, end: Shader, interpolator: Frag -> real, only: Option<nat>)
    | RotateHue(shader: Shader, angle: real)
    | Checkerboard(first: Shader, second: Shader, stride: real)
    | ModPosition(shader: Shader, modulo: real)
    | ModTime(shader: Shader, modulo: real)
    | Extrude(shader: Shader)
    | Rainbow(selector: Frag -> real, only: Option<nat>)
    | ScaleTime(shader: Shader, scale: real)
    | ScalePosition(shader: Shader, scale: real)
    | TranslatePosition(shader: Shader, offset: seq<real>)
    | Add(left: Shader, right: Shader)
    | Multiply(left: Shader, right: Shader)

  /**
   * The fragment type an `Interpolate` or `Rainbow` term is built for: `None`
   * when its constructor is generic in the fragment, `Some(d)` when the
   * constructor fixes it (`position_gradient` and
   * `one_dimensional_position_rainbow` exist for FragOne only).
   */
  predicate Fits(only: Option<nat>, d: nat)
  {
    only.None? || only.value == d
  }

  /**
   * Whether the term implements `Shader<F>` for the fragment of dimension `d`:
   * every combinator exists for FragOne, FragTwo and FragThree, except that
   * `Extrude` turns a `d - 1` shader into a `d` shader for `d` = 2, 3, the
   * offset of `TranslatePosition` has one value per axis, and a term built for
   * one fragment type accepts only that one.
   */
  predicate Accepts(s: Shader, d: nat)
  {
    1 <= d <= 3 &&
    match s
    case Off => true
    case Color(_) => true
    case FnShader(_) => true
    case Interpolate(a, b, _, only) => Fits(only, d) && Accepts(a, d) && Accepts(b, d)
    case RotateHue(c, _) => Accepts(c, d)
    case Checkerboard(a, b, _) => Accepts(a, d) && Accepts(b, d)
    case ModPosition(c, _) => Accepts(c, d)
    case ModTime(c, _) => Accepts(c, d)
    case Extrude(c) => d >= 2 && Accepts(c, d - 1)
    case Rainbow(_, only) => Fits(only, d)
    case ScaleTime(c, _) => Accepts(c, d)
    case ScalePosition(c, _) => Accepts(c, d)
    case TranslatePosition(c, offset) => |offset| == d && Accepts(c, d)
    case Add(a, b) => Accepts(a, d) && Accepts(b, d)
    case Multiply(a, b) => Accepts(a, d) && Accepts(b, d)
  }

  /** The three `ModPosition` impls: each component of the fragment reduced `% modulo`, time kept. */
  function ModPositionFrag(v: Frag, m: real): (w: Frag)
    requires 1 <= |v.pos| <= 3
  {
    if |v.pos| == 1 then Vertex([Rem(v.pos[0], m)], v.time)
    else if |v.pos| == 2 then Vertex([Rem(v.pos[0], m), Rem(v.pos[1], m)], v.time)
    else Vertex([Rem(v.pos[0], m), Rem(v.pos[1], m), Rem(v.pos[2], m)], v.time)
  }

  /** The two `Extrude` impls: FragTwo to FragOne and FragThree to FragTwo, time kept. */
  function ExtrudeFrag(v: Frag): (w: Frag)
    requires |v.pos| == 2 || |v.pos| == 3
  {
    if |v.pos| == 2 then FragOne(v.pos[0], v.time) else FragTwo(v.pos[0], v.pos[1], v.time)
  }

  /** `Shader::shade` on a term that accepts the fragment's dimension. */
  function Eval(p: C.Palette, s: Shader, v: Frag): C.Color
    requires Accepts(s, |v.pos|)
    decreases s
  {
    match s
    case Off => C.Black(C.LinSrgb)
    case Color(c) => c
    case FnShader(f) => f(v)
    case Interpolate(start, end, interpolator, _) =>
      C.Mix(p, C.Lin(p, Eval(p, start, v)), C.Lin(p, Eval(p, end, v)), interpolator(v))
    case RotateHue(child, angle) =>
      C.Lin(p, C.ShiftHue(p, C.Into(p, C.Hsl, C.Lin(p, Eval(p, child, v))), angle))
    case Checkerboard(first, second, stride) =>
      if FirstCell(v.pos, stride) then C.Lin(p, Eval(p, first, v)) else C.Lin(p, Eval(p, second, v))
    case ModPosition(child, m) => Eval(p, child, ModPositionFrag(v, m))
    case ModTime(child, m) => Eval(p, child, ModTimeVertex(v, m))
    case Extrude(child) => Eval(p, child, ExtrudeFrag(v))
    case Rainbow(selector, _) => C.Color(C.Okhsl, Rem(selector(v), 360.0), 1.0, 0.5)
    case ScaleTime(child, scale) => Eval(p, child, ScaleTimeVertex(v, scale))
    case ScalePosition(child, scale) => Eval(p, child, ScalePositionVertex(v, scale))
    case TranslatePosition(child, offset) => Eval(p, child, TranslateAxes(v, offset))
    case Add(l, r) => C.Plus(C.Lin(p, Eval(p, l, v)), C.Lin(p, Eval(p, r, v)))
    case Multiply(l, r) => C.Times(C.Lin(p, Eval(p, l, v)), C.Lin(p, Eval(p, r, v)))
  }

  // The free constructors that do more than pack their arguments.

  /** `color(c)`: converted to linear sRGB when the shader is built. */
  function MakeColor(p: C.Palette, c: C.Color): (s: Shader)
    ensures s.Color? && s.color.space == C.LinSrgb
  {
    Color(C.Lin(p, c))
  }

  /** `mix(start, end, factor)`: a constant interpolator. */
  function Mix(start: Shader, end: Shader, factor: real): Shader
  {
    Interpolate(start, end, _ => factor, None)
  }

  /** `rotate_hue(shader, angle)`: the angle, given in degrees, is stored in radians. */
  function MakeRotateHue(shader: Shader, angle: real): Shader
  {
    RotateHue(shader, ToRadians(angle))
  }

  /** `position_gradient(start, end, f)`, for FragOne only: `f` of the scalar position. */
  function PositionGradient(start: Shader, end: Shader, f: real -> real): Shader
  {
    Interpolate(start, end, (v: Frag) => f(Scalar(v)), Some(1))
  }

  /** `time_gradient(start, end, f)`: `f` of the time. */
  function TimeGradient(start: Shader, end: Shader, f: real -> real): Shader
  {
    Interpolate(start, end, (v: Frag) => f(v.time), None)
  }

  /** `time_rainbow()` and `one_dimensional_position_rainbow()`. */
  function TimeRainbow(): Shader
  {
    Rainbow((v: Frag) => v.time, None)
  }

  function OneDimensionalPositionRainbow(): Shader
  {
    Rainbow((v: Frag) => Scalar(v), Some(1))
  }

  /** `IntoShader::into_shader` on a closure. */
  function IntoShader(f: Frag -> C.Color): Shader
  {
    FnShader(f)
  }
}
