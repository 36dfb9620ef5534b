/**
 * Colours as triples of reals tagged with the colour space they are in.
 * The colour-space conversions and the palette operations the shaders call
 * (`into_color`, `from_color`, `Mix::mix`, `shift_hue`) are foreign numeric
 * code: a `Palette` carries them as uninterpreted functions.
 */
module Colors {
  import opened Reals

  datatype Space = LinSrgb | Srgb | Hsl | Okhsl | Oklab

  /** A colour: its space and its three channels, in the order the space names them. */
  datatype Color = Color(space: Space, c0: real, c1: real, c2: real)

  datatype Palette = Palette(
    /** `FromColor`/`IntoColor` into the given space */
    convert: (Space, Color) -> Color,
    /** `Mix::mix(self, other, factor)` */
    mix: (Color, Color, real) -> Color,
    /** `ShiftHue::shift_hue(self, amount)` */
    shiftHue: (Color, real) -> Color)

  /** `into_color()` into space `s`; converting a colour into its own space is the identity. */
  function Into(p: Palette, s: Space, c: Color): (r: Color)
    ensures r.space == s
    ensures c.space == s ==> r == c
  {
    if c.space == s then c else p.convert(s, c).(space := s)
  }

  /** `into_color::<LinSrgb<f64>>()`, the canonical form at combinator boundaries. */
  function Lin(p: Palette, c: Color): (r: Color)
    ensures r.space == LinSrgb
  {
    Into(p, LinSrgb, c)
  }

  /** `a.mix(b, t)`: the result stays in the space of `a`. */
  function Mix(p: Palette, a: Color, b: Color, t: real): (r: Color)
    ensures r.space == a.space
  {
    p.mix(a, b, t).(space := a.space)
  }

  /** `c.shift_hue(amount)`: the result stays in the space of `c`. */
  function ShiftHue(p: Palette, c: Color, amount: real): (r: Color)
    ensures r.space == c.space
  {
    p.shiftHue(c, amount).(space := c.space)
  }

  /** A palette whose `mix` is the channel-wise linear blend `a + (b - a) * t`. */
  ghost predicate LinearMix(p: Palette)
  {
    forall a, b, t :: p.mix(a, b, t) ==
      Color(a.space, a.c0 + (b.c0 - a.c0) * t, a.c1 + (b.c1 - a.c1) * t, a.c2 + (b.c2 - a.c2) * t)
  }

  function Black(s: Space): Color
  {
    Color(s, 0.0, 0.0, 0.0)
  }

  /** Channel-wise `+`, `-`, `*` and `/` of two colours of one space. */
  function Plus(a: Color, b: Color): Color
  {
    Color(a.space, a.c0 + b.c0, a.c1 + b.c1, a.c2 + b.c2)
  }

  function Minus(a: Color, b: Color): Color
  {
    Color(a.space, a.c0 - b.c0, a.c1 - b.c1, a.c2 - b.c2)
  }

  function Times(a: Color, b: Color): Color
  {
    Color(a.space, a.c0 * b.c0, a.c1 * b.c1, a.c2 * b.c2)
  }

  function Over(a: Color, b: Color): Color
  {
    Color(a.space, Quot(a.c0, b.c0), Quot(a.c1, b.c1), Quot(a.c2, b.c2))
  }

  /** A colour divided by a scalar, channel by channel. */
  function DivScalar(a: Color, d: real): Color
  {
    Color(a.space, Quot(a.c0, d), Quot(a.c1, d), Quot(a.c2, d))
  }

  /** A colour scaled by a scalar, channel by channel. */
  function Scaled(a: Color, k: real): Color
  {
    Color(a.space, a.c0 * k, a.c1 * k, a.c2 * k)
  }

  /** The channel-wise sum of the colours, a left fold that starts from linear-sRGB black. */
  function Total(cs: seq<Color>): Color
  {
    if cs == [] then Black(LinSrgb) else Plus(Total(cs[..|cs| - 1]), cs[|cs| - 1])
  }

  /** Summing `n` copies of one linear colour gives that colour scaled by `n`. */
  lemma {:induction false} TotalOfCopies(cs: seq<Color>, c: Color)
    requires c.space == LinSrgb
    requires forall k :: 0 <= k < |cs| ==> cs[k] == c
    ensures Total(cs) == Scaled(c, |cs| as real)
  {
    if cs != [] {
      var n := |cs| - 1;
      TotalOfCopies(cs[..n], c);
      assert c.c0 * (n as real) + c.c0 == c.c0 * (n as real + 1.0);
      assert c.c1 * (n as real) + c.c1 == c.c1 * (n as real + 1.0);
      assert c.c2 * (n as real) + c.c2 == c.c2 * (n as real + 1.0);
    }
  }

  /** Dividing channel-wise by a colour with no zero channel and multiplying back gives the colour. */
  lemma OverThenTimes(a: Color, b: Color)
    requires b.c0 != 0.0 && b.c1 != 0.0 && b.c2 != 0.0
    ensures Times(Over(a, b), b) == a
  {
    assert a.c0 / b.c0 * b.c0 == a.c0;
    assert a.c1 / b.c1 * b.c1 == a.c1;
    assert a.c2 / b.c2 * b.c2 == a.c2;
  }

  /** Scaling by a positive count and dividing by it again gives the colour back. */
  lemma ScaledThenDivided(c: Color, n: real)
    requires n != 0.0
    ensures DivScalar(Scaled(c, n), n) == c
  {
  }
}
