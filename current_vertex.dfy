/**
 * `src/shader/mod.rs`: closures as shaders, and the fragments' accessors.
 */
module CurrentVertex {
  import opened Vertices
  import opened VertexOps
  import opened CurrentShader
  import C = Colors

  /** `FnShader::shade` applies the wrapped closure, and `into_shader` wraps it unchanged. */
  lemma FnShaderApplies(p: C.Palette, f: Frag -> C.Color, v: Frag)
    ensures IntoShader(f) == FnShader(f)
    ensures Eval(p, IntoShader(f), v) == f(v)
  {
  }

  /** Writing through `pos_mut` or `time_mut` of a FragTwo is read back by `pos()`/`time()`, the other parts unchanged. */
  lemma FragTwoWrites(x: real, y: real, t: real, x': real, t': real)
    ensures WithPosAt(FragTwo(x, y, t), 0, x') == FragTwo(x', y, t)
    ensures WithTime(FragTwo(x, y, t), t') == FragTwo(x, y, t')
    ensures PosSized(FragTwo(x, y, t), 2) == [x, y]
  {
  }
}
