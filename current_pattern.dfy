/**
 * `pattern.rs`: Checkerboard and Rainbow (pure, evaluated by `Eval`), and
 * the stateful Random shader, whose seed cell is updated by every shading.
 */
module CurrentPattern {
  import opened Reals
  import opened Vertices
  import opened VertexOps
  import opened CurrentShader
  import C = Colors

  // ---------------------------------------------------------------------
  // Checkerboard

  /** Checkerboard shades with its first child exactly when the summed cell index is even. */
  lemma CheckerboardChoice(p: C.Palette, a: Shader, b: Shader, stride: real, v: Frag)
    ensures CellSum(v.pos, stride) % 2 == 0 ==> Eval(p, Checkerboard(a, b, stride), v) == C.Lin(p, Eval(p, a, v))
    ensures CellSum(v.pos, stride) % 2 == 1 ==> Eval(p, Checkerboard(a, b, stride), v) == C.Lin(p, Eval(p, b, v))
  {
  }

  /** Because of the `abs` before the cast, mirroring any axis never changes the choice. */
  lemma CheckerboardMirror(p: C.Palette, a: Shader, b: Shader, stride: real, v: Frag, i: nat)
    requires i < |v.pos|
    ensures FirstCell(WithPosAt(v, i, -v.pos[i]).pos, stride) == FirstCell(v.pos, stride)
    ensures var w := WithPosAt(v, i, -v.pos[i]);
      Eval(p, Checkerboard(a, b, stride), w)
        == if FirstCell(v.pos, stride) then C.Lin(p, Eval(p, a, w)) else C.Lin(p, Eval(p, b, w))
  {
    CellSumNegate(v.pos, stride, i);
  }

  /** In one dimension, with a positive stride and a non-negative position, the first child is chosen exactly when `Floor(x / s)` is even. */
  lemma CheckerboardOneDim(p: C.Palette, a: Shader, b: Shader, s: real, x: real, t: real)
    requires s > 0.0 && x >= 0.0
    ensures FirstCell(FragOne(x, t).pos, s) <==> (x / s).Floor % 2 == 0
    ensures var v := FragOne(x, t);
      Eval(p, Checkerboard(a, b, s), v)
        == if (x / s).Floor % 2 == 0 then C.Lin(p, Eval(p, a, v)) else C.Lin(p, Eval(p, b, v))
  {
    var v := FragOne(x, t);
    OneDimCell(s, x, t);
    assert Eval(p, Checkerboard(a, b, s), v)
        == if FirstCell(v.pos, s) then C.Lin(p, Eval(p, a, v)) else C.Lin(p, Eval(p, b, v));
  }

  /** The cell-parity half of `CheckerboardOneDim`, apart from any shading. */
  lemma OneDimCell(s: real, x: real, t: real)
    requires s > 0.0 && x >= 0.0
    ensures FirstCell(FragOne(x, t).pos, s) <==> (x / s).Floor % 2 == 0
  {
    var ps := FragOne(x, t).pos;
    assert ps[..0] == [];
    QuotientSign(x, s);
    assert CellSum(ps, s) == Cell(x, s);
  }

  /** Moving one non-negative component by one stride always switches to the other child. */
  lemma CheckerboardAlternates(p: C.Palette, a: Shader, b: Shader, s: real, v: Frag, i: nat)
    requires s > 0.0 && i < |v.pos| && v.pos[i] >= 0.0
    ensures FirstCell(WithPosAt(v, i, v.pos[i] + s).pos, s) <==> !FirstCell(v.pos, s)
    ensures var w := WithPosAt(v, i, v.pos[i] + s);
      Eval(p, Checkerboard(a, b, s), w)
        == if FirstCell(v.pos, s) then C.Lin(p, Eval(p, b, w)) else C.Lin(p, Eval(p, a, w))
  {
    var w := WithPosAt(v, i, v.pos[i] + s);
    StepSwapsCell(s, v, i);
    assert Eval(p, Checkerboard(a, b, s), w)
        == if FirstCell(w.pos, s) then C.Lin(p, Eval(p, a, w)) else C.Lin(p, Eval(p, b, w));
  }

  /** The cell-parity half of `CheckerboardAlternates`, apart from any shading. */
  lemma StepSwapsCell(s: real, v: Frag, i: nat)
    requires s > 0.0 && i < |v.pos| && v.pos[i] >= 0.0
    ensures FirstCell(WithPosAt(v, i, v.pos[i] + s).pos, s) <==> !FirstCell(v.pos, s)
  {
    CellSumStep(v.pos, s, i);
  }

  // ---------------------------------------------------------------------
  // Rainbow

  /** Rainbow yields Okhsl with saturation 1 and lightness 0.5; a non-negative selector value gives a hue in [0, 360). */
  lemma RainbowColor(p: C.Palette, selector: Frag -> real, v: Frag)
    ensures Eval(p, Rainbow(selector), v).space == C.Okhsl
    ensures Eval(p, Rainbow(selector), v).c1 == 1.0 && Eval(p, Rainbow(selector), v).c2 == 0.5
    ensures selector(v) >= 0.0 ==> 0.0 <= Eval(p, Rainbow(selector), v).c0 < 360.0
    ensures selector(v) <= 0.0 ==> -360.0 < Eval(p, Rainbow(selector), v).c0 <= 0.0
  {
    RemSign(selector(v), 360.0);
  }

  /** `time_rainbow` repeats every 360 time units (for non-negative time) and ignores position. */
  lemma TimeRainbowLaws(p: C.Palette, v: Frag, w: Frag)
    requires v.time >= 0.0
    ensures Eval(p, TimeRainbow(), WithTime(v, v.time + 360.0)) == Eval(p, TimeRainbow(), v)
    ensures w.time == v.time ==> Eval(p, TimeRainbow(), w) == Eval(p, TimeRainbow(), v)
  {
    RemPeriodic(v.time, 360.0);
  }

  /** `position_rainbow` sees only the sum of the position components. */
  lemma PositionRainbowLaws(p: C.Palette, v: Frag, w: Frag)
    ensures Sum(v.pos) == Sum(w.pos) ==> Eval(p, PositionRainbow(), v) == Eval(p, PositionRainbow(), w)
    ensures Eval(p, PositionRainbow(), v).c0 == Rem(Sum(v.pos), 360.0)
  {
  }

  // ---------------------------------------------------------------------
  // Random

  /** A `u64` seed. */
  newtype Word = x: int | 0 <= x < 0x1_0000_0000_0000_0000

  /**
   * The seeded generator `fastrand::Rng`: `draw(s)` is the next `f64` a
   * generator in state `s` yields and `advance(s)` its state after that draw.
   */
  datatype Generator = Generator(draw: Word -> real, advance: Word -> Word)

  /** A generator whose draws lie in [0, 1), as `Rng::f64` promises. */
  ghost predicate UnitDraws(g: Generator)
  {
    forall s :: 0.0 <= g.draw(s) < 1.0
  }

  /** The three draws of one shading, as an sRGB colour, and the state after them. */
  function ThreeDraws(g: Generator, s: Word): (r: (C.Color, Word))
    ensures r.0.space == C.Srgb
    ensures UnitDraws(g) ==> 0.0 <= r.0.c0 < 1.0 && 0.0 <= r.0.c1 < 1.0 && 0.0 <= r.0.c2 < 1.0
    ensures r.1 == g.advance(g.advance(g.advance(s)))
  {
    var s1 := g.advance(s);
    var s2 := g.advance(s1);
    (C.Color(C.Srgb, g.draw(s), g.draw(s1), g.draw(s2)), g.advance(s2))
  }

  /** One `Random::shade` as a function of the old seed: the colour in linear sRGB and the new seed. */
  function RandomStep(g: Generator, p: C.Palette, seed: Word): (r: (C.Color, Word))
    ensures r.0.space == C.LinSrgb
    ensures r.0 == C.Lin(p, ThreeDraws(g, seed).0) && r.1 == ThreeDraws(g, seed).1
  {
    var (c, next) := ThreeDraws(g, seed);
    (C.Lin(p, c), next)
  }

  /** `Random`: a seed cell, read and replaced by every shading. */
  class Random {
    var seed: Word

    /** `random()`: the fixed start seed. */
    constructor ()
      ensures seed == 0xdeadbeef
    {
      seed := 0xdeadbeef;
    }

    /** `Clone::clone`: a new cell holding the current seed. */
    constructor Clone(other: Random)
      ensures seed == other.seed
    {
      seed := other.seed;
    }

    /** `Shader::shade`: the vertex is not read; colour and new seed depend only on the old seed. */
    method Shade(g: Generator, p: C.Palette, v: Frag) returns (c: C.Color)
      modifies this
      ensures (c, seed) == RandomStep(g, p, old(seed))
    {
      var s := seed;
      var x := g.draw(s);
      s := g.advance(s);
      var y := g.draw(s);
      s := g.advance(s);
      var z := g.draw(s);
      s := g.advance(s);
      c := C.Lin(p, C.Color(C.Srgb, x, y, z));
      seed := s;
    }
  }

  /** A clone's next colour is the original's next colour, whatever vertices the two are shaded at. */
  method CloneShadesAlike(g: Generator, p: C.Palette, r: Random, v: Frag, w: Frag)
    returns (original: C.Color, copy: C.Color)
    modifies r
    ensures original == copy == RandomStep(g, p, old(r.seed)).0
    ensures r.seed == RandomStep(g, p, old(r.seed)).1
  {
    var k := new Random.Clone(r);
    original := r.Shade(g, p, v);
    copy := k.Shade(g, p, w);
  }
}
