/** Conversion of doubles to binary16 and to four FP8 formats, by integer operations on their bits. */
module NarrowFloat {
  import opened FloatGrid

  // ----- doubles -----

  const TWO52: nat := 0x10_0000_0000_0000
  const TWO53: nat := 0x20_0000_0000_0000
  const TWO63: nat := 0x8000_0000_0000_0000

  predicate IsDouble(bits: nat) {
    bits < 0x1_0000_0000_0000_0000
  }

  function SignBit(bits: nat): (r: nat)
    requires IsDouble(bits)
    ensures r <= 1
  {
    bits / TWO63
  }

  function RawExponent(bits: nat): (r: nat)
    ensures r < 2048
  {
    bits / TWO52 % 2048
  }

  function Fraction(bits: nat): (r: nat)
    ensures r < TWO52
  {
    bits % TWO52
  }

  predicate IsFinite(bits: nat) {
    RawExponent(bits) != 0x7ff
  }

  predicate IsNan(bits: nat) {
    RawExponent(bits) == 0x7ff && Fraction(bits) != 0
  }

  /** The absolute value of a finite double, in units of the smallest positive double. */
  function Magnitude(bits: nat): nat
    requires IsFinite(bits)
  {
    if RawExponent(bits) == 0 then Fraction(bits)
    else
      MulNat(TWO52 + Fraction(bits), Pow2(RawExponent(bits) - 1));
      Mul(TWO52 + Fraction(bits), Pow2(RawExponent(bits) - 1))
  }

  // ----- binary16 -----

  const HALF: Format := Format(11, 15, 0x7c00)

  function RoundShift(value: nat, shift: nat): nat
    requires shift >= 1
  {
    if shift >= 64 then 0 else
    QuotientNat(value, Pow2(shift));
    value / Pow2(shift) + if RoundsUp(value / Pow2(shift), value % Pow2(shift), shift) then 1 else 0
  }

  function FloatToF16Bits(bits: nat): nat
    requires IsDouble(bits)
  {
    var sign := SignBit(bits) * 0x8000;
    var raw, fraction := RawExponent(bits), Fraction(bits);
    if raw == 0x7ff then sign + (if fraction == 0 then 0x7c00 else 0x7e00)
    else if raw == 0 && fraction == 0 then sign
    else
      var exponent := raw - 1023;
      var significand := if raw == 0 then fraction else fraction + TWO52;
      if exponent > 15 || (exponent == 15 && significand >= TWO52 + 0x3ff * 0x400_0000_0000 + 0x200_0000_0000)
        then sign + 0x7c00
      else if exponent >= -14 then
        var rounded := RoundShift(significand, 42);
        if rounded == 0x800 then sign + (exponent + 16) * 1024 else sign + (exponent + 15) * 1024 + rounded % 1024
      else if exponent < -25 then sign
      else sign + RoundShift(significand, 28 - exponent)
  }

  // ----- FP8 -----

  datatype Fp8 = E4M3 | E5M2 | E4M3FNUZ | E5M2FNUZ {
    predicate Fnuz() { E4M3FNUZ? || E5M2FNUZ? }

    function Layout(): Format {
      match this
      case E4M3 => Format(4, 7, 0x7e)
      case E5M2 => Format(3, 15, 0x7b)
      case E4M3FNUZ => Format(4, 8, 0x7f)
      case E5M2FNUZ => Format(3, 16, 0x7f)
    }

    /** Doubles up to the first go to zero, those above the second saturate, those from the third are normal. */
    function Limits(): (nat, nat, nat) {
      match this
      case E4M3 => (0x3f50_0000_0000_0000, 0x407d_0000_0000_0000, 0x3f90_0000_0000_0000)
      case E5M2 => (0x3ee0_0000_0000_0000, 0x40ee_0000_0000_0000 - 1, 0x3f10_0000_0000_0000)
      case E4M3FNUZ => (0x3f40_0000_0000_0000, 0x406f_0000_0000_0000 - 1, 0x3f80_0000_0000_0000)
      case E5M2FNUZ => (0x3ed0_0000_0000_0000, 0x40ee_0000_0000_0000 - 1, 0x3f00_0000_0000_0000)
    }
  }

  function WithBit52(bits: nat): nat {
    if bits / TWO52 % 2 == 1 then bits else bits + TWO52
  }

  /** The significand bits below the implicit one that the format keeps. */
  function Mantissa(bits: nat, fmt: Format): nat
    requires IsFormat(fmt)
  {
    QuotientNat(bits, Pow2(53 - fmt.sigBits));
    LowBits(bits / Pow2(53 - fmt.sigBits), fmt.sigBits - 1)
  }

  function NormalCode(bits: nat, fmt: Format, exp: int): nat
    requires IsFormat(fmt)
  {
    var mantissa := Mantissa(bits, fmt);
    RoundUpIf(Shifted(exp, fmt.sigBits - 1) + mantissa, LowBits(bits, 53 - fmt.sigBits), Pow2(52 - fmt.sigBits),
      mantissa)
  }

  function SubnormalCode(bits: nat, fmt: Format, shift: nat): nat
    requires IsFormat(fmt)
  {
    var mantissa := Mantissa(bits, fmt) + Pow2(fmt.sigBits - 1);
    QuotientNat(mantissa, Pow2(shift));
    var result := mantissa / Pow2(shift);
    RoundUpIf(result, LowBits(WithBit52(bits), 53 - fmt.sigBits + shift), Pow2(52 - fmt.sigBits + shift), result)
  }

  /** The code of a finite double, without its sign. */
  function Fp8Code(bits: nat, dtype: Fp8): nat {
    var fmt, limits := dtype.Layout(), dtype.Limits();
    var exp := RawExponent(bits) - 1023 + fmt.bias;
    var abs := bits % TWO63;
    if abs <= limits.0 then 0
    else if abs > limits.1 then fmt.maxCode
    else if abs >= limits.2 then NormalCode(bits, fmt, exp)
    else SubnormalCode(bits, fmt, if exp <= 0 then 1 - exp else 0)
  }

  function LowBits(x: nat, n: nat): (r: nat)
    ensures r < Pow2(n)
  {
    x % Pow2(n)
  }

  /** A left shift of a number that is not negative here. */
  function Shifted(x: int, n: nat): nat {
    if x <= 0 then 0 else
    MulNat(x, Pow2(n));
    Mul(x, Pow2(n))
  }

  function RoundUpIf(result: nat, roundBits: nat, half: nat, odd: nat): nat {
    result + if roundBits > half || (roundBits == half && odd % 2 == 1) then 1 else 0
  }

  function FloatToFp8(bits: nat, dtype: Fp8): nat
    requires IsDouble(bits)
  {
    var negative := SignBit(bits) == 1 && !IsNan(bits);
    if dtype.Fnuz() && !IsFinite(bits) then 0x80
    else if dtype.Fnuz() && Magnitude(bits) == 0 then 0x00
    else if dtype == E4M3 && !IsFinite(bits) then (if negative then 0xff else 0x7f)
    else if dtype == E5M2 && !IsFinite(bits) then (if negative then 0x80 else 0) + (if IsNan(bits) then 0x7f else 0x7c)
    else
      var result := Fp8Code(bits, dtype);
      if dtype.Fnuz() && result == 0 then 0 else result % 256 + (if negative then 0x80 else 0)
  }
}
