/**
 * IEEE 754 binary32 ("single precision") bit patterns, the 4 bytes that
 * struct.pack('>f', x) writes. A device setpoint travels on the wire as such a
 * pattern; this module gives the value a pattern denotes and, for integers that
 * binary32 represents exactly, the pattern Python produces from float(n).
 */
module Float32 {
  import opened Wrappers

  type Float32Bits = b: int | 0 <= b < 0x1_0000_0000

  const FractionBits: nat := 23
  const ExponentBias: nat := 127
  /** 2^24: every integer of smaller magnitude is exactly representable. */
  const ExactIntBound: int := 0x100_0000

  function Pow2(n: nat): (r: nat)
    ensures r > 0
  {
    if n == 0 then 1 else 2 * Pow2(n - 1)
  }

  /** r * 2^k, as k doublings or -k halvings. */
  function Times2Pow(r: real, k: int): real
    decreases if k < 0 then -k else k
  {
    if k == 0 then r else if k > 0 then 2.0 * Times2Pow(r, k - 1) else Times2Pow(r, k + 1) / 2.0
  }

  function SignField(b: Float32Bits): nat { b / 0x8000_0000 }
  function ExponentField(b: Float32Bits): nat { (b / 0x80_0000) % 256 }
  function FractionField(b: Float32Bits): nat { b % 0x80_0000 }

  /**
   * The real number a binary32 pattern denotes: normal numbers, subnormal numbers
   * and the two zeros; None for the infinities and NaNs (exponent field 255).
   * With E the exponent field and F the fraction field, a normal number is
   * 1.F * 2^(E - 127) = (2^23 + F) * 2^(E - 150) and a subnormal one (E = 0)
   * is 0.F * 2^(-126) = F * 2^(1 - 150).
   */
  function Value(b: Float32Bits): Option<real>
  {
    var e := ExponentField(b);
    var f := FractionField(b);
    var significand := if e == 0 then f else 0x80_0000 + f;
    var exponent := if e == 0 then 1 else e;
    var magnitude := Times2Pow(significand as real, exponent - (ExponentBias + FractionBits) as int);
    if e == 255 then None
    else if SignField(b) == 1 then Some(-magnitude)
    else Some(magnitude)
  }

  /** floor(log2 n): the position of the leading one bit of n. */
  function Log2(n: nat): (e: nat)
    requires n > 0
    ensures Pow2(e) <= n < 2 * Pow2(e)
  {
    if n == 1 then 0 else 1 + Log2(n / 2)
  }

  /** The pattern with the given sign bit, exponent field and fraction field. */
  function Assemble(sign: nat, exponent: nat, fraction: nat): Float32Bits
    requires sign < 2 && exponent < 256 && fraction < 0x80_0000
  {
    sign * 0x8000_0000 + exponent * 0x80_0000 + fraction
  }

  /** x * 2^k, written as k doublings. */
  function Scale(x: nat, k: nat): nat
  {
    if k == 0 then x else 2 * Scale(x, k - 1)
  }

  /**
   * The binary32 pattern of the integer n (what struct.pack('>f', float(n))
   * writes), for |n| < 2^24 where no rounding happens: the sign bit, the biased
   * exponent of the leading one bit, and the remaining bits shifted up to fill
   * the 23-bit fraction.
   */
  function FromInt(n: int): Float32Bits
    requires -ExactIntBound < n < ExactIntBound
  {
    if n == 0 then 0
    else
      var m := Abs(n);
      var e := Log2(m);
      LeadingBitBelow(m, e);
      FractionFits(m, e);
      Assemble(if n < 0 then 1 else 0, ExponentBias + e, Scale(m - Pow2(e), FractionBits - e))
  }

  lemma {:induction false} Pow2Monotone(a: nat, b: nat)
    requires a <= b
    ensures Pow2(a) <= Pow2(b)
  {
    if a < b {
      Pow2Monotone(a, b - 1);
    }
  }

  lemma Pow2Constants()
    ensures Pow2(FractionBits) == 0x80_0000 && Pow2(24) == ExactIntBound
  {
    var low, shift := 12, 11;
    assert Pow2(low) == 4096;
    ScalePow2(low, shift);
    assert Scale(4096, shift) == 0x80_0000;
  }

  lemma {:induction false} ScaleBound(x: nat, k: nat, e: nat)
    requires x < Pow2(e)
    ensures Scale(x, k) < Pow2(e + k)
  {
    if k > 0 {
      ScaleBound(x, k - 1, e);
    }
  }

  lemma LeadingBitBelow(m: nat, e: nat)
    requires 0 < m < ExactIntBound
    requires Pow2(e) <= m < 2 * Pow2(e)
    ensures e <= FractionBits
  {
    if e > FractionBits {
      Pow2Monotone(24, e);
      Pow2Constants();
    }
  }

  lemma FractionFits(m: nat, e: nat)
    requires e <= FractionBits
    requires Pow2(e) <= m < 2 * Pow2(e)
    ensures Scale(m - Pow2(e), FractionBits - e) < 0x80_0000
  {
    ScaleBound(m - Pow2(e), FractionBits - e, e);
    Pow2Constants();
  }

  /** Reading the three fields back out of an assembled pattern. */
  lemma AssembleFields(sign: nat, exponent: nat, fraction: nat)
    requires sign < 2 && exponent < 256 && fraction < 0x80_0000
    ensures SignField(Assemble(sign, exponent, fraction)) == sign
    ensures ExponentField(Assemble(sign, exponent, fraction)) == exponent
    ensures FractionField(Assemble(sign, exponent, fraction)) == fraction
  {
    var b := Assemble(sign, exponent, fraction);
    assert b == (sign * 256 + exponent) * 0x80_0000 + fraction;
    assert b / 0x80_0000 == sign * 256 + exponent;
    assert b / 0x8000_0000 == sign;
  }

  function Abs(n: int): nat { if n < 0 then -n else n }

  /** The three fields of FromInt(n): sign, biased exponent of the leading bit, fraction. */
  lemma FromIntFields(n: int)
    requires -ExactIntBound < n < ExactIntBound && n != 0
    ensures Log2(Abs(n)) <= FractionBits
    ensures SignField(FromInt(n)) == (if n < 0 then 1 else 0)
    ensures ExponentField(FromInt(n)) == ExponentBias + Log2(Abs(n))
    ensures FractionField(FromInt(n)) == Scale(Abs(n) - Pow2(Log2(Abs(n))), FractionBits - Log2(Abs(n)))
  {
    var m := Abs(n);
    var e := Log2(m);
    LeadingBitBelow(m, e);
    FractionFits(m, e);
    AssembleFields(if n < 0 then 1 else 0, ExponentBias + e, Scale(m - Pow2(e), FractionBits - e));
  }

  lemma {:induction false} ScaleAdd(a: nat, b: nat, k: nat)
    ensures Scale(a, k) + Scale(b, k) == Scale(a + b, k)
  {
    if k > 0 {
      ScaleAdd(a, b, k - 1);
    }
  }

  lemma {:induction false} ScalePow2(e: nat, k: nat)
    ensures Scale(Pow2(e), k) == Pow2(e + k)
  {
    if k > 0 {
      ScalePow2(e, k - 1);
    }
  }

  lemma {:induction false} Times2PowDouble(r: real, j: int)
    ensures Times2Pow(2.0 * r, j) == 2.0 * Times2Pow(r, j)
    decreases if j < 0 then -j else j
  {
    if j > 0 {
      Times2PowDouble(r, j - 1);
    } else if j < 0 {
      Times2PowDouble(r, j + 1);
    }
  }

  lemma {:induction false} Times2PowZero(j: int)
    ensures Times2Pow(0.0, j) == 0.0
    decreases if j < 0 then -j else j
  {
    if j > 0 {
      Times2PowZero(j - 1);
    } else if j < 0 {
      Times2PowZero(j + 1);
    }
  }

  /** Scaling by a negative power of two divides: r * 2^(-k) == r / 2^k. */
  lemma {:induction false} Times2PowNegative(r: real, k: nat)
    ensures Times2Pow(r, -(k as int)) == r / Pow2(k) as real
  {
    if k > 0 {
      Times2PowNegative(r, k - 1);
      assert Times2Pow(r, -(k as int)) == Times2Pow(r, -(k as int) + 1) / 2.0;
      HalveQuotient(r, Pow2(k - 1) as real);
    }
  }

  /** Halving a quotient doubles its divisor. */
  lemma HalveQuotient(r: real, p: real)
    requires p > 0.0
    ensures (r / p) / 2.0 == r / (2.0 * p)
  {
  }

  /**
   * 0x40200000 (exponent field 128, fraction 0x200000) denotes 2.5 and
   * 0xBFA00000 (sign 1, exponent field 127, same fraction) denotes -1.25.
   */
  lemma HalfStepPatterns(up: Float32Bits, down: Float32Bits)
    requires up == 0x4020_0000 && down == 0xBFA0_0000
    ensures Value(up) == Some(2.5) && Value(down) == Some(-1.25)
  {
    Pow2Constants();
    var k: nat := 22;
    assert Pow2(k + 1) == 2 * Pow2(k);
    var significand := 0xA0_0000 as real;
    Times2PowNegative(significand, k);
    Times2PowNegative(significand, k + 1);
  }

  /** Shifting m up by k bits and the real value back down by 2^k gives m. */
  lemma {:induction false} Unscale(m: nat, k: nat)
    ensures Times2Pow(Scale(m, k) as real, -(k as int)) == m as real
  {
    if k > 0 {
      var r := Scale(m, k - 1) as real;
      Times2PowDouble(r, -(k as int));
      Unscale(m, k - 1);
    }
  }

  /** A pattern whose three fields are zero denotes 0. */
  lemma ZeroPattern(b: Float32Bits)
    requires SignField(b) == 0 && ExponentField(b) == 0 && FractionField(b) == 0
    ensures Value(b) == Some(0.0)
  {
    var subnormal := 1 - (ExponentBias + FractionBits) as int;
    Times2PowZero(subnormal);
  }

  /** A normal pattern whose significand is m shifted up by k bits, with exponent 150 - k, denotes +-m. */
  lemma NormalPattern(b: Float32Bits, m: nat, k: nat)
    requires 0 < ExponentField(b) < 255
    requires ExponentField(b) as int == (ExponentBias + FractionBits) as int - k
    requires 0x80_0000 + FractionField(b) == Scale(m, k)
    ensures Value(b) == Some(if SignField(b) == 1 then -(m as real) else m as real)
  {
    Unscale(m, k);
  }

  /** Scaling m by 2^(23 - e), where 2^e is m's leading bit, puts that bit at position 23. */
  lemma SignificandScale(m: nat, e: nat)
    requires Pow2(e) <= m && e <= FractionBits
    ensures 0x80_0000 + Scale(m - Pow2(e), FractionBits - e) == Scale(m, FractionBits - e)
  {
    var k := FractionBits - e;
    assert Scale(Pow2(e), k) == 0x80_0000 by {
      ScalePow2(e, k);
      Pow2Constants();
    }
    ScaleAdd(Pow2(e), m - Pow2(e), k);
  }

  /** With its hidden leading 1, the fraction field of FromInt(n) is |n| shifted to 24 bits. */
  lemma FromIntSignificand(n: int)
    requires -ExactIntBound < n < ExactIntBound && n != 0
    ensures Log2(Abs(n)) <= FractionBits
    ensures 0x80_0000 + FractionField(FromInt(n)) == Scale(Abs(n), FractionBits - Log2(Abs(n)))
  {
    FromIntFields(n);
    SignificandScale(Abs(n), Log2(Abs(n)));
  }

  lemma FromIntNonZero(n: int)
    requires -ExactIntBound < n < ExactIntBound && n != 0
    ensures Value(FromInt(n)) == Some(n as real)
    ensures n == 0 ==> FromInt(n) == 0
  {
    var b := FromInt(n);
    var m := Abs(n);
    FromIntFields(n);
    FromIntSignificand(n);
    NormalPattern(b, m, FractionBits - Log2(m));
    assert (if SignField(b) == 1 then -(m as real) else m as real) == n as real;
  }

  /** The pattern FromInt produces denotes exactly n. */
  lemma FromIntDenotes(n: int)
    requires -ExactIntBound < n < ExactIntBound
    ensures Value(FromInt(n)) == Some(n as real)
    ensures n == 0 ==> FromInt(n) == 0
  {
    if n == 0 {
      var b := FromInt(n);
      assert b == Assemble(0, 0, 0);
      AssembleFields(0, 0, 0);
      ZeroPattern(b);
    } else {
      FromIntNonZero(n);
    }
  }
}
