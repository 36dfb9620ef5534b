/**
 * The current f64 shader library: the `Vertex` fragments, the shader terms
 * built by the combinators of `constant.rs`, `operation.rs` and `pattern.rs`,
 * and their evaluation `Eval`, which is `Shader::shade`.
 */
module CurrentShader {
  import opened Reals
  import opened Vertices
  import opened VertexOps
  import C = Colors

  /** `FragOne`, `FragTwo` and `FragThree`: fixed-size position arrays plus a time. */
  function FragOne(x: real, time: real): (v: Frag)
    ensures |v.pos| == 1 && v.pos[0] == x && v.time == time
  {
    Vertex([x], time)
  }

  function FragTwo(x: real, y: real, time: real): (v: Frag)
    ensures |v.pos| == 2 && v.pos[0] == x && v.pos[1] == y && v.time == time
  {
    Vertex([x, y], time)
  }

  function FragThree(x: real, y: real, z: real, time: real): (v: Frag)
    ensures |v.pos| == 3 && v.pos[0] == x && v.pos[1] == y && v.pos[2] == z && v.time == time
  {
    Vertex([x, y, z], time)
  }

  /** `VertexDim::pos_sized`: only `FragOne` (D = 1) and `FragTwo` (D = 2) implement it. */
  function PosSized(v: Frag, d: nat): (r: seq<real>)
    requires (d == 1 || d == 2) && |v.pos| == d
    ensures |r| == d && forall i :: 0 <= i < d ==> r[i] == v.pos[i]
  {
    v.pos
  }

  /** One constructor per shader struct; the fields are the struct's fields. */
  datatype Shader =
    | Off
    | Color(color: C.Color)
    | FnShader(f: Frag -> C.Color)
    | Interpolate(start: Shader, end: Shader, interpolator: Frag -> real)
    | RotateHue(shader: Shader, angle: real)
    | ModPosition(shader: Shader, modulo: real)
    | ModTime(shader: Shader, modulo: real)
    | ScaleTime(shader: Shader, scale: real)
    | ScalePosition(shader: Shader, scale: real)
    | TranslatePosition(shader: Shader, offset: real)
    | Add(left: Shader, right: Shader)
    | Subtract(left: Shader, right: Shader)
    | Multiply(left: Shader, right: Shader)
    | Divide(left: Shader, right: Shader)
    | VolumeBlur(shader: Shader, radius: real, samples: nat)
    | Checkerboard(first: Shader, second: Shader, stride: real)
    | Rainbow(selector: Frag -> real)

  /** `lerp(start, end, t)`. */
  function Lerp(start: real, end: real, t: real): real
  {
    start + (end - start) * t
  }

  /** The offset VolumeBlur adds before its sample `i`: `lerp(-r, r, i / P)`. */
  function BlurOffset(radius: real, samples: nat, i: nat): real
  {
    Lerp(-radius, radius, Quot(i as real, samples as real))
  }

  /** The offsets accumulate: sample `k` sits `offset_0 + ... + offset_k` from the vertex. */
  function BlurShift(radius: real, samples: nat, k: nat): real
  {
    (if k == 0 then 0.0 else BlurShift(radius, samples, k - 1)) + BlurOffset(radius, samples, k)
  }

  /** The vertex VolumeBlur passes to its child for sample `k`. */
  function BlurSample(v: Frag, radius: real, samples: nat, k: nat): Frag
  {
    TranslateVertex(v, BlurShift(radius, samples, k))
  }

  /**
   * VolumeBlur's colour once its child's (linear) shading is known: the
   * channel-wise mean of the child at the `samples` shifted vertices.
   */
  function BlurMean(shade: Frag -> C.Color, radius: real, samples: nat, v: Frag): C.Color
  {
    var colors := seq(samples, k requires 0 <= k < samples => shade(BlurSample(v, radius, samples, k)));
    C.DivScalar(C.Total(colors), samples as real)
  }

  /** `Shader::shade` on a shader term. */
  function Eval(p: C.Palette, s: Shader, v: Frag): C.Color
    decreases s
  {
    match s
    case Off => C.Black(C.LinSrgb)
    case Color(c) => c
    case FnShader(f) => f(v)
    case Interpolate(start, end, interpolator) =>
      C.Mix(p, C.Lin(p, Eval(p, start, v)), C.Lin(p, Eval(p, end, v)), interpolator(v))
    case RotateHue(child, angle) =>
      C.Lin(p, C.ShiftHue(p, C.Into(p, C.Hsl, C.Lin(p, Eval(p, child, v))), angle))
    case ModPosition(child, m) => Eval(p, child, ModPositionVertex(v, m))
    case ModTime(child, m) => Eval(p, child, ModTimeVertex(v, m))
    case ScaleTime(child, scale) => Eval(p, child, ScaleTimeVertex(v, scale))
    case ScalePosition(child, scale) => Eval(p, child, ScalePositionVertex(v, scale))
    case TranslatePosition(child, offset) => Eval(p, child, TranslateVertex(v, offset))
    case Add(l, r) => C.Plus(C.Lin(p, Eval(p, l, v)), C.Lin(p, Eval(p, r, v)))
    case Subtract(l, r) => C.Minus(C.Lin(p, Eval(p, l, v)), C.Lin(p, Eval(p, r, v)))
    case Multiply(l, r) => C.Times(C.Lin(p, Eval(p, l, v)), C.Lin(p, Eval(p, r, v)))
    case Divide(l, r) => C.Over(C.Lin(p, Eval(p, l, v)), C.Lin(p, Eval(p, r, v)))
    case VolumeBlur(child, radius, n) => BlurMean((w: Frag) => C.Lin(p, Eval(p, child, w)), radius, n, v)
    case Checkerboard(first, second, stride) =>
      if FirstCell(v.pos, stride) then C.Lin(p, Eval(p, first, v)) else C.Lin(p, Eval(p, second, v))
    case Rainbow(selector) => C.Color(C.Okhsl, Rem(selector(v), 360.0), 1.0, 0.5)
  }

  // The free constructors that do more than pack their arguments.

  /** `off()`. */
  function MakeOff(): Shader
  {
    Off
  }

  /** `color(c)`: the colour is converted to linear sRGB once, when the shader is built. */
  function MakeColor(p: C.Palette, c: C.Color): (s: Shader)
    ensures s.Color? && s.color.space == C.LinSrgb
  {
    Color(C.Lin(p, c))
  }

  /** `mix(start, end, factor)`: an interpolator that ignores the vertex. */
  function Mix(start: Shader, end: Shader, factor: real): Shader
  {
    Interpolate(start, end, _ => factor)
  }

  /** `position_gradient(start, end, f)`: the factor is `f` of the summed position. */
  function PositionGradient(start: Shader, end: Shader, f: real -> real): Shader
  {
    Interpolate(start, end, (v: Frag) => f(Sum(v.pos)))
  }

  /** `time_gradient(start, end, f)`: the factor is `f` of the time. */
  function TimeGradient(start: Shader, end: Shader, f: real -> real): Shader
  {
    Interpolate(start, end, (v: Frag) => f(v.time))
  }

  /** `time_rainbow()` and `position_rainbow()`. */
  function TimeRainbow(): Shader
  {
    Rainbow((v: Frag) => v.time)
  }

  function PositionRainbow(): Shader
  {
    Rainbow((v: Frag) => Sum(v.pos))
  }

  /** `IntoShader::into_shader` on a closure. */
  function IntoShader(f: Frag -> C.Color): Shader
  {
    FnShader(f)
  }
}
