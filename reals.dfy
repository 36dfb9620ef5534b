/**
 * Real-number counterparts of the floating-point operations the shaders use.
 * Where floating point would produce an infinity or a NaN (division or
 * remainder by zero) these functions yield the stand-in 0.0.
 */
module Reals {

  function Abs(x: real): (r: real)
    ensures r >= 0.0 && (r == x || r == -x)
  {
    if x < 0.0 then -x else x
  }

  /** Truncation toward zero, as Rust's float-to-integer `as` cast does (saturation left out). */
  function Trunc(x: real): (n: int)
    ensures x >= 0.0 ==> n as real <= x < n as real + 1.0
    ensures x <= 0.0 ==> n as real - 1.0 < x <= n as real
  {
    if x >= 0.0 then x.Floor else -((-x).Floor)
  }

  /** Division, with the stand-in 0.0 for a zero divisor. */
  function Quot(x: real, y: real): real
  {
    if y == 0.0 then 0.0 else x / y
  }

  /** Rust's `%` on floats: the truncated remainder, which keeps the sign of `x`. */
  function Rem(x: real, m: real): real
  {
    if m == 0.0 then 0.0 else x - m * Trunc(x / m) as real
  }

  /** `(x / stride).abs() as usize`: the index of the stride-long cell that holds `x`. */
  function Cell(x: real, stride: real): nat
  {
    var a := Abs(Quot(x, stride));
    assert a.Floor >= 0;
    a.Floor
  }

  /** `iter().sum()` over a slice of reals (a left fold from 0.0). */
  function Sum(xs: seq<real>): real
  {
    if xs == [] then 0.0 else Sum(xs[..|xs| - 1]) + xs[|xs| - 1]
  }

  /** `iter().sum::<usize>()` over a slice of naturals. */
  function SumNat(xs: seq<nat>): nat
  {
    if xs == [] then 0 else SumNat(xs[..|xs| - 1]) + xs[|xs| - 1]
  }

  lemma MulNonneg(a: real, b: real)
    requires a >= 0.0 && b >= 0.0
    ensures a * b >= 0.0
  {
  }

  lemma MulPos(a: real, b: real)
    requires a > 0.0 && b > 0.0
    ensures a * b > 0.0
  {
  }

  lemma MulCancel(m: real, y: real, z: real)
    requires m != 0.0 && m * y == m * z
    ensures y == z
  {
    assert m * (y - z) == 0.0;
  }

  /** A fraction of a positive modulus stays within one modulus of 0, on the fraction's side. */
  lemma ProductWithin(m: real, d: real)
    requires m > 0.0 && -1.0 < d < 1.0
    ensures d >= 0.0 ==> 0.0 <= m * d < m
    ensures d <= 0.0 ==> -m < m * d <= 0.0
  {
    if d >= 0.0 {
      MulNonneg(m, d);
      MulPos(m, 1.0 - d);
      assert m * (1.0 - d) == m - m * d;
    } else {
      MulNonneg(m, -d);
      MulPos(m, 1.0 + d);
      assert m * (1.0 + d) == m + m * d;
      assert m * (-d) == -(m * d);
    }
  }

  /** `m * d` for a fraction `d` strictly between -1 and 1, by the signs of `m` and `d`. */
  lemma SignedProduct(m: real, d: real)
    requires m != 0.0 && -1.0 < d < 1.0
    ensures m > 0.0 && d >= 0.0 ==> 0.0 <= m * d < m
    ensures m > 0.0 && d <= 0.0 ==> -m < m * d <= 0.0
    ensures m < 0.0 && d <= 0.0 ==> 0.0 <= m * d < -m
    ensures m < 0.0 && d >= 0.0 ==> m < m * d <= 0.0
  {
    if m > 0.0 {
      ProductWithin(m, d);
    } else {
      ProductWithin(-m, -d);
      assert (-m) * (-d) == m * d;
    }
  }

  /** The sign of a quotient. */
  lemma QuotientSign(x: real, m: real)
    requires m != 0.0
    ensures (x >= 0.0) == (m > 0.0) ==> x / m >= 0.0
    ensures (x >= 0.0) != (m > 0.0) ==> x / m <= 0.0
  {
    var q := x / m;
    assert m * q == x;
    if m > 0.0 && q < 0.0 { MulPos(m, -q); }
    if m > 0.0 && q > 0.0 { MulPos(m, q); }
    if m < 0.0 && q > 0.0 { MulPos(-m, q); }
    if m < 0.0 && q < 0.0 { MulPos(-m, -q); }
  }

  /**
   * The arithmetic behind `Rem`, with the truncated quotient `n` as a real:
   * `x - m * n` is smaller than `m` in size and has the sign of `x`.
   */
  lemma FractionSign(x: real, m: real, n: real, r: real)
    requires m != 0.0 && r == x - m * n
    requires x / m >= 0.0 ==> n <= x / m < n + 1.0
    requires x / m <= 0.0 ==> n - 1.0 < x / m <= n
    ensures x >= 0.0 ==> 0.0 <= r < Abs(m)
    ensures x <= 0.0 ==> -Abs(m) < r <= 0.0
  {
    var q := x / m;
    assert m * q == x;
    if x == 0.0 {
      assert q == 0.0 && n == 0.0;
      return;
    }
    var d := q - n;
    QuotientSign(x, m);
    SignedMultiple(m, d, r);
    if m > 0.0 {
      assert Abs(m) == m;
    } else {
      assert Abs(m) == -m;
    }
  }

  /** `SignedProduct` for a value `r` known to equal `m * d`. */
  lemma SignedMultiple(m: real, d: real, r: real)
    requires m != 0.0 && -1.0 < d < 1.0 && r == m * d
    ensures m > 0.0 && d >= 0.0 ==> 0.0 <= r < m
    ensures m > 0.0 && d <= 0.0 ==> -m < r <= 0.0
    ensures m < 0.0 && d <= 0.0 ==> 0.0 <= r < -m
    ensures m < 0.0 && d >= 0.0 ==> m < r <= 0.0
  {
    SignedProduct(m, d);
    if m > 0.0 {
      if d >= 0.0 { assert 0.0 <= m * d < m; } else { assert -m < m * d <= 0.0; }
    } else {
      if d >= 0.0 { assert m < m * d <= 0.0; } else { assert 0.0 <= m * d < -m; }
    }
  }

  /** The remainder is smaller than the modulus in size and keeps the sign of the dividend. */
  lemma RemSign(x: real, m: real)
    requires m != 0.0
    ensures x >= 0.0 ==> 0.0 <= Rem(x, m) < Abs(m)
    ensures x <= 0.0 ==> -Abs(m) < Rem(x, m) <= 0.0
  {
    FractionSign(x, m, Trunc(x / m) as real, Rem(x, m));
  }

  /** For a non-negative dividend and a positive modulus the remainder lies in [0, m). */
  lemma RemRange(x: real, m: real)
    requires x >= 0.0 && m > 0.0
    ensures 0.0 <= Rem(x, m) < m
  {
    RemSign(x, m);
  }

  /** A value that already lies in [0, m) is its own remainder. */
  lemma RemOfSmall(x: real, m: real)
    requires m > 0.0 && 0.0 <= x < m
    ensures Rem(x, m) == x
  {
    var q := x / m;
    assert m * q == x;
    if q < 0.0 { MulPos(m, -q); }
    if q >= 1.0 { MulNonneg(m, q - 1.0); }
    assert Trunc(q) == 0;
  }

  /** Adding one modulus to a non-negative dividend does not change its remainder. */
  lemma RemPeriodic(x: real, m: real)
    requires x >= 0.0 && m > 0.0
    ensures Rem(x + m, m) == Rem(x, m)
  {
    var q := x / m;
    var y := (x + m) / m;
    assert y == q + 1.0 by {
      assert m * q == x;
      assert m * y == x + m;
      var z := q + 1.0;
      assert m * z == m * q + m;
      MulCancel(m, y, z);
    }
    if q < 0.0 { MulPos(m, -q); }
    assert Trunc(q + 1.0) == Trunc(q) + 1 by {
      assert (q + 1.0).Floor == q.Floor + 1;
    }
  }

  /** A dividend smaller in size than the divisor has a quotient strictly between -1 and 1. */
  lemma QuotientBelowOne(r: real, m: real)
    requires m != 0.0 && Abs(r) < Abs(m)
    ensures -1.0 < r / m < 1.0
  {
    var q := r / m;
    assert m * q == r;
    var a := if m > 0.0 then m else -m;
    assert a * (if m > 0.0 then q else -q) == r;
    var e := if m > 0.0 then q else -q;
    // |r| = a * |e| < a, so |e| < 1
    if e >= 1.0 {
      MulNonneg(a, e - 1.0);
    }
    if e <= -1.0 {
      MulNonneg(a, -1.0 - e);
    }
  }

  /** Taking the remainder twice is the same as taking it once. */
  lemma RemIdempotent(x: real, m: real)
    ensures Rem(Rem(x, m), m) == Rem(x, m)
  {
    if m != 0.0 {
      var r := Rem(x, m);
      RemSign(x, m);
      QuotientBelowOne(r, m);
      assert Trunc(r / m) == 0;
    }
  }
}
