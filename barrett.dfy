/** BarrettReduction.constantsFor: the shift and factor a Barrett reduction modulo m needs. */
module BarrettReduction {
  import opened BigIntegers

  /** The two fields of the Java class BarrettReduction, kept as integers rather than their rendered strings. */
  datatype BarrettConstants = BarrettConstants(shift: nat, factor: nat)

  /**
   * shift = 2 * bitLength(m) and factor = floor(2^shift / m), stated by the
   * bounds that define floor division.
   */
  function ConstantsFor(m: int): (c: BarrettConstants)
    requires m > 0
    ensures c.shift == 2 * BitLength(m)
    ensures c.factor * m <= Pow2(c.shift) < (c.factor + 1) * m
  {
    var shift := BitLength(m) * 2;
    var factor := Pow2(shift) / m;
    FloorDivBounds(Pow2(shift), m, factor);
    BarrettConstants(shift, factor)
  }

  /** The factor lies between 2^b and 2^(b+1), where b is the bit length of m. */
  lemma FactorRange(m: int)
    requires m > 0
    ensures var b := BitLength(m);
      Pow2(b) <= ConstantsFor(m).factor <= Pow2(b + 1)
  {
    var b := BitLength(m);
    var c := ConstantsFor(m);
    Pow2Add(b, b);
    assert Pow2(b) == 2 * Pow2(b - 1);
    QuotientRange(Pow2(c.shift), m, c.factor, Pow2(b - 1));
  }

  /** With 2^(b-1) = h <= m < 2h and s = (2h)^2, floor(s / m) lies in [2h, 4h]. */
  lemma QuotientRange(s: int, m: int, f: int, h: int)
    requires 0 < h <= m < 2 * h && s == (2 * h) * (2 * h)
    requires f * m <= s < (f + 1) * m
    ensures 2 * h <= f <= 4 * h
  {
    var p := 2 * h;
    // m * p < p * p = s < (f + 1) * m, hence p < f + 1
    MulLeftMonotone(p, m, p - 1);
    MulCancelStrict(m, p, f + 1);
    // f * m <= s = 2p * h <= 2p * m, hence f <= 2p
    MulLeftMonotone(2 * p, h, m);
    MulCancel(m, f, 2 * p);
  }

  /** Cancelling a positive factor from a strict inequality. */
  lemma MulCancelStrict(m: int, a: int, b: int)
    requires m > 0 && m * a < m * b
    ensures a < b
  {
    if a >= b {
      MulLeftMonotone(m, b, a);
    }
  }

  /** Cancelling a positive factor from an inequality. */
  lemma MulCancel(m: int, a: int, b: int)
    requires m > 0 && m * a <= m * b
    ensures a <= b
  {
    if a > b {
      MulLeftMonotone(m, b + 1, a);
    }
  }

  /**
   * What the constants are for: for 0 <= x < m*m the estimate
   * (x * factor) >> shift of x / m is low by at most one, so x minus the
   * estimate times m lies in [0, 2m) and one conditional subtraction of m
   * finishes the reduction.
   */
  lemma Estimate(m: int, x: nat)
    requires m > 0 && x < m * m
    ensures var c := ConstantsFor(m);
      var est := (x * c.factor) / Pow2(c.shift);
      x / m - 1 <= est <= x / m && 0 <= x - est * m < 2 * m
  {
    var c := ConstantsFor(m);
    var b := BitLength(m);
    var p := Pow2(b);
    Pow2Add(b, b);
    MulLeftMonotone(m, m, p);
    MulLeftMonotone(p, m, p);
    assert x < Pow2(c.shift);
    EstimateArith(x, m, c.factor, Pow2(c.shift));
  }

  /** The arithmetic of Estimate, for f = floor(s / m) and 0 <= x < s. */
  lemma EstimateArith(x: int, m: int, f: int, s: int)
    requires m > 0 && 0 <= x < s && f * m <= s < (f + 1) * m
    ensures x / m - 1 <= (x * f) / s <= x / m
    ensures 0 <= x - ((x * f) / s) * m < 2 * m
  {
    var q := x / m;
    assert q * m <= x < (q + 1) * m;
    EstimateUpper(x, m, f, s, q);
    EstimateLower(x, m, f, s, q);
    var est := (x * f) / s;
    DivBetween(x * f, s, q);
    MulLeftMonotone(m, est, q);
    MulLeftMonotone(m, q - 1, est);
  }

  /** x * f < (q + 1) * s: the estimate never exceeds x / m. */
  lemma EstimateUpper(x: int, m: int, f: int, s: int, q: int)
    requires m > 0 && 0 <= x < s && f * m <= s && x < (q + 1) * m
    ensures x * f < (q + 1) * s
  {
    // m * (x * f) <= x * s < (x + 1) * s <= (q + 1) * m * s
    MulLeftMonotone(x, f * m, s);
    assert m * (x * f) <= x * s;
    MulLeftMonotone(s, x + 1, (q + 1) * m);
    assert x * s < m * ((q + 1) * s);
    MulCancelStrict(m, x * f, (q + 1) * s);
  }

  /** (q - 1) * s < x * f: the estimate is at least x / m - 1. */
  lemma EstimateLower(x: int, m: int, f: int, s: int, q: int)
    requires m > 0 && 0 <= x < s && s < (f + 1) * m && q * m <= x
    ensures (q - 1) * s < x * f
  {
    // m * (x * f) >= x * s + x - x * m >= q * m * s - m * s + m + x
    MulLeftMonotone(x, s + 1, (f + 1) * m);
    assert x * ((f + 1) * m) == m * (x * f) + x * m;
    assert x * (s + 1) == x * s + x;
    MulLeftMonotone(m, x, s - 1);
    assert m * (s - 1) == m * s - m;
    MulLeftMonotone(s, q * m, x);
    assert m * ((q - 1) * s) == s * (q * m) - m * s;
    MulCancelStrict(m, (q - 1) * s, x * f);
  }

  /** (q - 1) * s < y < (q + 1) * s puts y / s at q - 1 or q. */
  lemma DivBetween(y: int, s: int, q: int)
    requires s > 0 && (q - 1) * s < y < (q + 1) * s
    ensures q - 1 <= y / s <= q
  {
    var e := y / s;
    assert y == s * e + y % s;
    if e < q - 1 {
      MulLeftMonotone(s, e + 1, q - 1);
      assert false;
    }
    if e > q {
      MulLeftMonotone(s, q + 1, e);
      assert false;
    }
  }
}
