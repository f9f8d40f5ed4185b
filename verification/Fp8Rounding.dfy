/** The FP8 conversions round to nearest, ties to even, and saturate. */
module Fp8Rounding {
  import opened FloatGrid
  import opened NarrowFloat
  import opened NarrowRounding

  predicate IsFp8(fmt: Format) {
    IsFormat(fmt) && 3 <= fmt.sigBits <= 4 && 7 <= fmt.bias
  }

  // ----- bit fields -----

  lemma AbsBits(bits: nat)
    requires IsDouble(bits)
    ensures bits % TWO63 == RawExponent(bits) * TWO52 + Fraction(bits)
  {
  }

  /** The top significand bits, and the bits below them. */
  lemma TopFields(bits: nat, sigBits: nat)
    requires 3 <= sigBits <= 4
    ensures bits / Pow2(53 - sigBits) >= 0
    ensures LowBits(bits / Pow2(53 - sigBits), sigBits - 1) + Pow2(sigBits - 1)
      == (TWO52 + Fraction(bits)) / Pow2(53 - sigBits)
    ensures LowBits(bits, 53 - sigBits) == (TWO52 + Fraction(bits)) % Pow2(53 - sigBits)
  {
    BigPowers();
    Powers();
    if sigBits == 3 { TopFields3(bits); } else { TopFields4(bits); }
  }

  lemma TopFields3(bits: nat)
    ensures bits / 0x4_0000_0000_0000 % 4 + 4 == (TWO52 + bits % TWO52) / 0x4_0000_0000_0000
    ensures bits % 0x4_0000_0000_0000 == (TWO52 + bits % TWO52) % 0x4_0000_0000_0000
  {
  }

  lemma TopFields4(bits: nat)
    ensures bits / 0x2_0000_0000_0000 % 8 + 8 == (TWO52 + bits % TWO52) / 0x2_0000_0000_0000
    ensures bits % 0x2_0000_0000_0000 == (TWO52 + bits % TWO52) % 0x2_0000_0000_0000
  {
  }

  /** With the implicit bit put in, up to 53 low bits are those of the significand. */
  lemma LowSignificand(bits: nat, n: nat)
    requires n <= 53
    ensures LowBits(WithBit52(bits), n) == (TWO52 + Fraction(bits)) % Pow2(n)
  {
    BigPowers();
    var x := WithBit52(bits);
    SetBit52(bits);
    QuotientNat(x, TWO53);
    SplitPower(x / TWO53, 53 - n, n, 53);
    LowOfMultiple(Mul(x / TWO53, Pow2(53 - n)), x % TWO53, Pow2(n));
  }

  lemma SetBit52(bits: nat)
    ensures WithBit52(bits) % TWO53 == TWO52 + Fraction(bits)
  {
    var q, r := bits / TWO52, bits % TWO52;
    var h, odd := q / 2, q % 2;
    assert WithBit52(bits) == TWO53 * h + (TWO52 + r);
  }

  lemma LowOfMultiple(q: int, r: nat, d: nat)
    requires d > 0 && q >= 0
    ensures Mul(q, d) + r >= 0 && (Mul(q, d) + r) % d == r % d
  {
    QuotientNat(r, d);
    MulAdd(q, r / d, d);
    DivMod(q + r / d, r % d, d);
  }

  /** Shifting twice is shifting once. */
  lemma ShiftTwice(sig: nat, sigBits: nat, shift: nat)
    requires 3 <= sigBits <= 4 && 1 <= shift <= sigBits && sig < TWO53
    ensures sig / Pow2(53 - sigBits) >= 0 && sig / Pow2(53 - sigBits + shift) >= 0
    ensures sig / Pow2(53 - sigBits) / Pow2(shift) == sig / Pow2(53 - sigBits + shift) < Pow2(sigBits - 1)
  {
    var n := 53 - sigBits + shift;
    ShiftAgain(sig, 53 - sigBits, shift);
    QuotientNat(sig, Pow2(n));
    if sig / Pow2(n) >= Pow2(sigBits - 1) {
      MulAtLeast(Pow2(sigBits - 1), sig / Pow2(n), Pow2(n));
      Pow2Sum(sigBits - 1, n);
      Pow2Order(53, sigBits - 1 + n);
      BigPowers();
    }
  }

  lemma ShiftAgain(x: nat, a: nat, b: nat)
    ensures x / Pow2(a) >= 0 && x / Pow2(a + b) >= 0 && x / Pow2(a) / Pow2(b) == x / Pow2(a + b)
  {
    QuotientNat(x, Pow2(a));
    var q := x / Pow2(a);
    QuotientNat(q, Pow2(b));
    var p, t := q / Pow2(b), q % Pow2(b);
    MulAdd(Mul(p, Pow2(b)), t, Pow2(a));
    SplitPower(p, b, a, a + b);
    MulAtLeast(t, Pow2(b) - 1, Pow2(a));
    MulAdd(Pow2(b), -1, Pow2(a));
    MulNegative(Pow2(a));
    Pow2Sum(b, a);
    MulNat(t, Pow2(a));
    DivMod(p, Mul(t, Pow2(a)) + x % Pow2(a), Pow2(a + b));
  }

  lemma MulNegative(x: nat)
    ensures Mul(-1, x) == 0 - x
  {
  }

  // ----- the branches -----

  /** The largest code is not exceeded below the overflow limit. */
  lemma BelowSaturation(dtype: Fp8, raw: nat, fraction: nat, e: nat, q: nat, rem: nat)
    requires fraction < TWO52 && raw * TWO52 + fraction <= dtype.Limits().1 && e == raw - 1023 + dtype.Layout().bias
    requires 3 <= dtype.Layout().sigBits <= 4
    requires q == (TWO52 + fraction) / Pow2(53 - dtype.Layout().sigBits)
      && rem == (TWO52 + fraction) % Pow2(53 - dtype.Layout().sigBits)
    ensures IsFormat(dtype.Layout())
    ensures Mul(e, Hidden(dtype.Layout())) + q - Hidden(dtype.Layout())
      + (if RoundsUp(q, rem, 53 - dtype.Layout().sigBits) then 1 else 0) <= dtype.Layout().maxCode
  {
    BigPowers();
    Powers();
    match dtype
    case E4M3 => BelowE4M3(raw, fraction, q, rem);
    case E5M2 => BelowE5M2(raw, fraction, q, rem);
    case E4M3FNUZ => BelowE4M3Fnuz(raw, fraction, q, rem);
    case E5M2FNUZ => BelowE5M2Fnuz(raw, fraction, q, rem);
  }

  lemma BelowE4M3(raw: nat, fraction: nat, q: nat, rem: nat)
    requires fraction < TWO52 && raw * TWO52 + fraction <= 0x407d_0000_0000_0000
    requires q == (TWO52 + fraction) / 0x2_0000_0000_0000 && rem == (TWO52 + fraction) % 0x2_0000_0000_0000
    ensures (raw - 1016) * 8 + q - 8
      + (if rem > 0x1_0000_0000_0000 || (rem == 0x1_0000_0000_0000 && q % 2 == 1) then 1 else 0) <= 0x7e
  {
    assert raw <= 1031;
  }

  lemma BelowE4M3Fnuz(raw: nat, fraction: nat, q: nat, rem: nat)
    requires fraction < TWO52 && raw * TWO52 + fraction <= 0x406f_0000_0000_0000 - 1
    requires q == (TWO52 + fraction) / 0x2_0000_0000_0000 && rem == (TWO52 + fraction) % 0x2_0000_0000_0000
    ensures (raw - 1015) * 8 + q - 8
      + (if rem > 0x1_0000_0000_0000 || (rem == 0x1_0000_0000_0000 && q % 2 == 1) then 1 else 0) <= 0x7f
  {
    assert raw <= 1030;
  }

  lemma BelowE5M2(raw: nat, fraction: nat, q: nat, rem: nat)
    requires fraction < TWO52 && raw * TWO52 + fraction <= 0x40ee_0000_0000_0000 - 1
    requires q == (TWO52 + fraction) / 0x4_0000_0000_0000 && rem == (TWO52 + fraction) % 0x4_0000_0000_0000
    ensures (raw - 1008) * 4 + q - 4
      + (if rem > 0x2_0000_0000_0000 || (rem == 0x2_0000_0000_0000 && q % 2 == 1) then 1 else 0) <= 0x7b
  {
    assert raw <= 1038;
  }

  lemma BelowE5M2Fnuz(raw: nat, fraction: nat, q: nat, rem: nat)
    requires fraction < TWO52 && raw * TWO52 + fraction <= 0x40ee_0000_0000_0000 - 1
    requires q == (TWO52 + fraction) / 0x4_0000_0000_0000 && rem == (TWO52 + fraction) % 0x4_0000_0000_0000
    ensures (raw - 1007) * 4 + q - 4
      + (if rem > 0x2_0000_0000_0000 || (rem == 0x2_0000_0000_0000 && q % 2 == 1) then 1 else 0) <= 0x7f
  {
    assert raw <= 1038;
  }

  /** The limits in terms of the layout: half the smallest number, and the smallest normal number. */
  lemma LimitsFit(dtype: Fp8)
    ensures var fmt := dtype.Layout();
      && IsFp8(fmt)
      && Hidden(fmt) == Pow2(fmt.sigBits - 1) && 4 <= Hidden(fmt) <= 8 && Hidden(fmt) <= fmt.maxCode <= 0x7f
      && dtype.Limits().0 == (1024 - fmt.bias - fmt.sigBits) * TWO52
      && dtype.Limits().2 == (1024 - fmt.bias) * TWO52
  {
    Powers();
  }

  lemma TinyIsZero(fmt: Format, raw: nat, fraction: nat, m: nat)
    requires IsFp8(fmt) && fraction < TWO52
    requires raw < 1024 - fmt.bias - fmt.sigBits || (raw == 1024 - fmt.bias - fmt.sigBits && fraction == 0)
    requires m == if raw == 0 then fraction else Mul(TWO52 + fraction, Pow2(raw - 1))
    ensures Chosen(fmt, m, 0, 0)
  {
    HalfUnit(fmt, raw, fraction, m);
    assert Pow2(UnitExponent(fmt)) == 2 * Pow2(UnitExponent(fmt) - 1);
    assert Hidden(fmt) == 2 * Pow2(fmt.sigBits - 2);
    ZeroChoice(fmt, m);
  }

  lemma HalfUnit(fmt: Format, raw: nat, fraction: nat, m: nat)
    requires IsFp8(fmt) && fraction < TWO52
    requires raw < 1024 - fmt.bias - fmt.sigBits || (raw == 1024 - fmt.bias - fmt.sigBits && fraction == 0)
    requires m == if raw == 0 then fraction else Mul(TWO52 + fraction, Pow2(raw - 1))
    ensures m <= Pow2(UnitExponent(fmt) - 1)
  {
    BigPowers();
    var u := UnitExponent(fmt);
    if raw == 0 {
      Pow2Order(52, u - 1);
    } else if fraction == 0 {
      ScaledBound(TWO52, 52, raw - 1, u - 1);
    } else {
      ScaledBound(TWO52 + fraction, 53, raw - 1, u - 1);
    }
  }

  lemma Fp8Zero(bits: nat, dtype: Fp8)
    requires IsDouble(bits) && IsFinite(bits) && bits % TWO63 <= dtype.Limits().0
    ensures IsFormat(dtype.Layout()) && Chosen(dtype.Layout(), Magnitude(bits), 0, 0)
  {
    LimitsFit(dtype);
    AbsBits(bits);
    TinyIsZero(dtype.Layout(), RawExponent(bits), Fraction(bits), Magnitude(bits));
  }

  lemma NormalParts(bits: nat, fmt: Format, e: nat, shift: nat, q: nat, rem: nat)
    requires IsFp8(fmt) && e >= 1 && shift == 53 - fmt.sigBits
    requires q == (TWO52 + Fraction(bits)) / Pow2(shift) && rem == (TWO52 + Fraction(bits)) % Pow2(shift)
    ensures Hidden(fmt) <= q < 2 * Hidden(fmt)
    ensures NormalCode(bits, fmt, e) == Mul(e, Hidden(fmt)) + q - Hidden(fmt) + if RoundsUp(q, rem, shift) then 1 else 0
  {
    TopFields(bits, fmt.sigBits);
    EvenHidden(fmt, e);
    SameParity(0, Hidden(fmt), q, Mantissa(bits, fmt));
  }

  lemma Fp8Normal(bits: nat, dtype: Fp8)
    requires IsDouble(bits) && IsFinite(bits) && dtype.Limits().2 <= bits % TWO63 <= dtype.Limits().1
      && bits % TWO63 > dtype.Limits().0
    ensures IsFormat(dtype.Layout()) && IsNearest(dtype.Layout(), Magnitude(bits), Fp8Code(bits, dtype))
  {
    AbsBits(bits);
    NormalValue(dtype, RawExponent(bits), Fraction(bits), bits);
  }

  lemma NormalValue(dtype: Fp8, raw: nat, fraction: nat, bits: nat)
    requires fraction == Fraction(bits) && dtype.Limits().2 <= raw * TWO52 + fraction <= dtype.Limits().1
    ensures IsFp8(dtype.Layout()) && raw >= 1024 - dtype.Layout().bias && Mul(TWO52 + fraction, Pow2(raw - 1)) >= 0
    ensures IsNearest(dtype.Layout(), Mul(TWO52 + fraction, Pow2(raw - 1)),
      NormalCode(bits, dtype.Layout(), raw - 1023 + dtype.Layout().bias))
  {
    LimitsFit(dtype);
    var fmt, sig := dtype.Layout(), TWO52 + fraction;
    NormalRange(raw, fraction, fmt.bias);
    var shift, e := 53 - fmt.sigBits, raw - 1023 + fmt.bias;
    QuotientNat(sig, Pow2(shift));
    var q, rem := sig / Pow2(shift), sig % Pow2(shift);
    NormalParts(bits, fmt, e, shift, q, rem);
    BelowSaturation(dtype, raw, fraction, e, q, rem);
    NormalNearest(fmt, sig, raw - 1, shift, e, q, rem, NormalCode(bits, fmt, e));
  }

  lemma NormalRange(raw: nat, fraction: nat, bias: nat)
    requires fraction < TWO52 && bias <= 16 && (1024 - bias) * TWO52 <= raw * TWO52 + fraction
    ensures raw >= 1024 - bias
  {
  }

  lemma SubnormalParts(bits: nat, fmt: Format, shift: nat, n: nat, q: nat, rem: nat)
    requires IsFp8(fmt) && 1 <= shift <= fmt.sigBits && n == 53 - fmt.sigBits + shift
    requires q == (TWO52 + Fraction(bits)) / Pow2(n) && rem == (TWO52 + Fraction(bits)) % Pow2(n)
    ensures q < Hidden(fmt) && SubnormalCode(bits, fmt, shift) == q + if RoundsUp(q, rem, n) then 1 else 0
  {
    SubnormalQuotient(bits, fmt, shift, n, q);
    LowSignificand(bits, n);
  }

  lemma SubnormalQuotient(bits: nat, fmt: Format, shift: nat, n: nat, q: nat)
    requires IsFp8(fmt) && 1 <= shift <= fmt.sigBits && n == 53 - fmt.sigBits + shift
    requires q == (TWO52 + Fraction(bits)) / Pow2(n)
    ensures q < Hidden(fmt) && (Mantissa(bits, fmt) + Pow2(fmt.sigBits - 1)) / Pow2(shift) == q
  {
    TopFields(bits, fmt.sigBits);
    ShiftTwice(TWO52 + Fraction(bits), fmt.sigBits, shift);
  }

  lemma Fp8Subnormal(bits: nat, dtype: Fp8)
    requires IsDouble(bits) && IsFinite(bits) && dtype.Limits().0 < bits % TWO63 < dtype.Limits().2
    requires bits % TWO63 <= dtype.Limits().1
    ensures IsFormat(dtype.Layout()) && IsNearest(dtype.Layout(), Magnitude(bits), Fp8Code(bits, dtype))
  {
    LimitsFit(dtype);
    AbsBits(bits);
    var fmt, raw := dtype.Layout(), RawExponent(bits);
    SubnormalRange(raw, Fraction(bits), fmt.bias, fmt.sigBits);
    SubnormalValue(bits, fmt, 1024 - raw - fmt.bias);
  }

  lemma SubnormalValue(bits: nat, fmt: Format, shift: nat)
    requires IsFp8(fmt) && 1 <= shift <= fmt.sigBits && RawExponent(bits) == 1024 - fmt.bias - shift && IsFinite(bits)
    requires fmt.maxCode >= Hidden(fmt)
    ensures IsNearest(fmt, Magnitude(bits), SubnormalCode(bits, fmt, shift))
  {
    var sig, n := TWO52 + Fraction(bits), 53 - fmt.sigBits + shift;
    QuotientNat(sig, Pow2(n));
    SubnormalParts(bits, fmt, shift, n, sig / Pow2(n), sig % Pow2(n));
    SubnormalNearest(fmt, sig, RawExponent(bits) - 1, n, sig / Pow2(n), sig % Pow2(n), SubnormalCode(bits, fmt, shift));
  }

  lemma SubnormalRange(raw: nat, fraction: nat, bias: nat, sigBits: nat)
    requires fraction < TWO52 && 3 <= sigBits <= 4 && 7 <= bias <= 16
    requires (1024 - bias - sigBits) * TWO52 < raw * TWO52 + fraction < (1024 - bias) * TWO52
    ensures 1024 - bias - sigBits <= raw < 1024 - bias
  {
  }
}
