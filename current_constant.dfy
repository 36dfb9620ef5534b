/**
 * `constant.rs`: Off and Color ignore the vertex they are given.
 */
module CurrentConstant {
  import opened VertexOps
  import opened CurrentShader
  import C = Colors

  /** `off()` is the unit shader, and it shades every vertex full black in linear sRGB. */
  lemma OffIsBlack(p: C.Palette, v: Frag)
    ensures MakeOff() == Off
    ensures Eval(p, MakeOff(), v) == C.Color(C.LinSrgb, 0.0, 0.0, 0.0)
  {
  }

  /**
   * `color(c)` converts `c` to linear sRGB once, when the shader is built; the
   * shader returns that stored colour for every vertex, and a colour already in
   * linear sRGB is stored unchanged.
   */
  lemma ColorIsStored(p: C.Palette, c: C.Color, v: Frag)
    ensures Eval(p, MakeColor(p, c), v) == C.Lin(p, c)
    ensures Eval(p, MakeColor(p, c), v).space == C.LinSrgb
    ensures c.space == C.LinSrgb ==> Eval(p, MakeColor(p, c), v) == c
  {
  }

  /** Neither constant reads position or time: any two vertices shade alike. */
  lemma ConstantsIgnoreVertex(p: C.Palette, c: C.Color, v: Frag, w: Frag)
    ensures Eval(p, Off, v) == Eval(p, Off, w)
    ensures Eval(p, Color(c), v) == Eval(p, Color(c), w) == c
  {
  }
}
