/** What conversion means in values: decoding, nearest representable number, order, and round trips. */
module NarrowConversion {
  import opened FloatGrid
  import opened NarrowFloat
  import opened NarrowRounding
  import opened Fp8Rounding

  /** A floating-point value; magnitudes count 2 to the power -1074. */
  datatype Number = Finite(negative: bool, magnitude: nat) | Infinite(negative: bool) | NotANumber {
    function Signed(): int
      requires Finite?
    {
      WithSign(negative, magnitude)
    }
  }

  function WithSign(negative: bool, magnitude: nat): int {
    if negative then 0 - magnitude else magnitude
  }

  function ValueOf(bits: nat): Number
    requires IsDouble(bits)
  {
    if IsNan(bits) then NotANumber
    else if !IsFinite(bits) then Infinite(SignBit(bits) == 1)
    else Finite(SignBit(bits) == 1, Magnitude(bits))
  }

  function F16BitsToFloat(half: nat): Number
    requires half < 0x1_0000
  {
    var negative, exponent, mantissa := half >= 0x8000, half / 1024 % 32, half % 1024;
    if exponent == 0x1f then (if mantissa == 0 then Infinite(negative) else NotANumber)
    else if exponent == 0 then
      MulNat(mantissa, Pow2(1050));
      Finite(negative, Mul(mantissa, Pow2(1050)))
    else
      MulNat(1024 + mantissa, Pow2(1049 + exponent));
      Finite(negative, Mul(1024 + mantissa, Pow2(1049 + exponent)))
  }

  /** The number in the fields of a byte. */
  function NumberOfFields(fmt: Format, value: nat): Number
    requires IsFp8(fmt) && value < 0x100
  {
    var hidden := if fmt.sigBits == 4 then 8 else 4;
    var exponent, mantissa := value % 0x80 / hidden, value % hidden;
    if value % 0x80 == 0 then Finite(value >= 0x80, 0)
    else if exponent == 0 then
      MulNat(mantissa, Pow2(1076 - fmt.bias - fmt.sigBits));
      Finite(value >= 0x80, Mul(mantissa, Pow2(1076 - fmt.bias - fmt.sigBits)))
    else
      MulNat(hidden + mantissa, Pow2(1075 - fmt.bias - fmt.sigBits + exponent));
      Finite(value >= 0x80, Mul(hidden + mantissa, Pow2(1075 - fmt.bias - fmt.sigBits + exponent)))
  }

  function Fp8ToFloat(value: nat, dtype: Fp8): Number
    requires value < 0x100
  {
    LimitsFit(dtype);
    if dtype.Fnuz() && value == 0x80 then NotANumber
    else if dtype == E5M2 && value % 0x80 / 4 == 31
      then (if value % 4 == 0 then Infinite(value >= 0x80) else NotANumber)
    else if dtype == E4M3 && value % 0x80 / 8 == 15 && value % 8 == 7 then NotANumber
    else NumberOfFields(dtype.Layout(), value)
  }

  // ----- decoding is the grid -----

  lemma NormalNumber(fmt: Format, e: nat, f: nat, code: nat)
    requires IsFormat(fmt) && e >= 1 && f < Hidden(fmt) && code == Mul(e, Hidden(fmt)) + f
    ensures Grid(fmt, code) == Mul(Hidden(fmt) + f, Pow2(e - 1 + UnitExponent(fmt)))
  {
    CodeOf(fmt, e, f, code);
    SplitPower(Hidden(fmt) + f, e - 1, UnitExponent(fmt), e - 1 + UnitExponent(fmt));
  }

  lemma SubnormalNumber(fmt: Format, f: nat)
    requires IsFormat(fmt) && f < Hidden(fmt)
    ensures Grid(fmt, f) == Mul(f, Pow2(UnitExponent(fmt)))
  {
    assert Mul(0, Hidden(fmt)) == 0;
    CodeOf(fmt, 0, f, f);
  }

  /** Every finite binary16 code decodes to its grid number. */
  lemma HalfDecodes(half: nat)
    requires half < 0x1_0000 && half % 0x8000 < 0x7c00
    ensures IsFormat(HALF) && F16BitsToFloat(half) == Finite(half >= 0x8000, Grid(HALF, half % 0x8000))
  {
    HalfHidden();
    var code := half % 0x8000;
    var e, f := code / 1024, code % 1024;
    HalfFields(half);
    if e == 0 {
      SubnormalNumber(HALF, f);
    } else {
      assert code == Mul(e, 1024) + f;
      NormalNumber(HALF, e, f, code);
    }
  }

  lemma HalfFields(half: nat)
    requires half < 0x1_0000
    ensures half / 1024 % 32 == half % 0x8000 / 1024 && half % 1024 == half % 0x8000 % 1024
  {
    var e, f := half / 1024, half % 1024;
    assert half % 0x8000 == if half < 0x8000 then half else half - 0x8000;
    assert e == (if half < 0x8000 then 0 else 32) + half % 0x8000 / 1024;
  }

  /** So does every FP8 code up to the largest. */
  lemma Fp8Decodes(value: nat, dtype: Fp8)
    requires value < 0x100 && value % 0x80 <= dtype.Layout().maxCode && (dtype.Fnuz() ==> value != 0x80)
    ensures IsFormat(dtype.Layout()) && Fp8ToFloat(value, dtype)
      == Finite(value >= 0x80, Grid(dtype.Layout(), value % 0x80))
  {
    LimitsFit(dtype);
    ByteFields(value);
    FieldsAreGrid(dtype.Layout(), value);
  }

  lemma FieldsAreGrid(fmt: Format, value: nat)
    requires IsFp8(fmt) && value < 0x100
    ensures NumberOfFields(fmt, value) == Finite(value >= 0x80, Grid(fmt, value % 0x80))
  {
    Powers();
    ByteFields(value);
    GridOfFields(fmt, if fmt.sigBits == 4 then 8 else 4, value % 0x80);
  }

  lemma ByteFields(value: nat)
    requires value < 0x100
    ensures value % 8 == value % 0x80 % 8 && value % 4 == value % 0x80 % 4
  {
    assert value % 0x80 == if value < 0x80 then value else value - 0x80;
  }

  lemma GridOfFields(fmt: Format, h: nat, code: nat)
    requires IsFp8(fmt) && h == Hidden(fmt) && (h == 8 || h == 4) && code < 0x80
    ensures Grid(fmt, code) == if code / h == 0 then Mul(code % h, Pow2(UnitExponent(fmt)))
      else Mul(h + code % h, Pow2(1075 - fmt.bias - fmt.sigBits + code / h))
    ensures code == 0 ==> Grid(fmt, code) == 0
  {
    var e, f := code / h, code % h;
    if e == 0 {
      SubnormalNumber(fmt, f);
      assert Mul(0, Pow2(UnitExponent(fmt))) == 0;
    } else {
      assert code == Mul(e, h) + f;
      NormalNumber(fmt, e, f, code);
    }
  }

  // ----- FP8: the theorem -----

  /** Conversion of any finite double to FP8 rounds the magnitude to nearest, ties to even, and never past the
      largest number; it keeps the sign, but the formats without a negative zero drop it from zero. */
  lemma Fp8RoundsToNearest(bits: nat, dtype: Fp8)
    requires IsDouble(bits) && IsFinite(bits)
    ensures FloatToFp8(bits, dtype) < 0x100
    ensures IsFormat(dtype.Layout()) && IsNearest(dtype.Layout(), Magnitude(bits), FloatToFp8(bits, dtype) % 0x80)
    ensures FloatToFp8(bits, dtype) / 0x80 == if dtype.Fnuz() && FloatToFp8(bits, dtype) % 0x80 == 0 then 0
      else SignBit(bits)
  {
    Fp8CodeIsNearest(bits, dtype);
    Fp8Byte(bits, dtype);
  }

  lemma Fp8Byte(bits: nat, dtype: Fp8)
    requires IsDouble(bits) && IsFinite(bits) && Fp8Code(bits, dtype) <= 0x7f
    ensures FloatToFp8(bits, dtype) < 0x100 && FloatToFp8(bits, dtype) % 0x80 == Fp8Code(bits, dtype)
    ensures FloatToFp8(bits, dtype) / 0x80 == if dtype.Fnuz() && FloatToFp8(bits, dtype) % 0x80 == 0 then 0
      else SignBit(bits)
  {
    Fp8Shape(bits, dtype);
    SignedByte(Fp8Code(bits, dtype), SignBit(bits));
  }

  lemma Fp8Shape(bits: nat, dtype: Fp8)
    requires IsDouble(bits) && IsFinite(bits)
    ensures FloatToFp8(bits, dtype)
      == if dtype.Fnuz() && Fp8Code(bits, dtype) == 0 then 0
        else Fp8Code(bits, dtype) % 256 + if SignBit(bits) == 1 then 0x80 else 0
  {
    if Magnitude(bits) == 0 { ZeroMagnitude(bits, dtype); }
  }

  lemma SignedByte(code: nat, sign: nat)
    requires code <= 0x7f && sign <= 1
    ensures var r := code % 256 + (if sign == 1 then 0x80 else 0); r % 0x80 == code && r / 0x80 == sign && r < 0x100
  {
  }

  lemma ZeroMagnitude(bits: nat, dtype: Fp8)
    requires IsDouble(bits) && IsFinite(bits) && Magnitude(bits) == 0
    ensures Fp8Code(bits, dtype) == 0
  {
    LimitsFit(dtype);
    AbsBits(bits);
    if RawExponent(bits) > 0 { MulLess(0, TWO52 + Fraction(bits), Pow2(RawExponent(bits) - 1)); }
  }

  lemma Fp8CodeIsNearest(bits: nat, dtype: Fp8)
    requires IsDouble(bits) && IsFinite(bits)
    ensures IsFormat(dtype.Layout()) && IsNearest(dtype.Layout(), Magnitude(bits), Fp8Code(bits, dtype))
    ensures Fp8Code(bits, dtype) <= 0x7f
  {
    LimitsFit(dtype);
    var abs, limits := bits % TWO63, dtype.Limits();
    if abs <= limits.0 {
      Fp8Zero(bits, dtype);
      ChosenIsNearest(dtype.Layout(), Magnitude(bits), 0, 0);
    } else if abs > limits.1 {
      Fp8Huge(bits, dtype);
      AboveIsNearest(dtype.Layout(), Magnitude(bits));
    } else if abs >= limits.2 {
      Fp8Normal(bits, dtype);
    } else {
      Fp8Subnormal(bits, dtype);
    }
  }

  /** The overflow limit lies above the largest number. */
  lemma Fp8Huge(bits: nat, dtype: Fp8)
    requires IsDouble(bits) && IsFinite(bits) && bits % TWO63 > dtype.Limits().1
    ensures IsFormat(dtype.Layout()) && Magnitude(bits) >= Grid(dtype.Layout(), dtype.Layout().maxCode)
  {
    AbsBits(bits);
    LargestOf(dtype, RawExponent(bits), Fraction(bits));
  }

  lemma LargestOf(dtype: Fp8, raw: nat, fraction: nat)
    requires raw * TWO52 + fraction > dtype.Limits().1 && fraction < TWO52
    ensures raw >= 1 && IsFormat(dtype.Layout())
      && Mul(TWO52 + fraction, Pow2(raw - 1)) >= Grid(dtype.Layout(), dtype.Layout().maxCode)
  {
    match dtype
    case E4M3 => LargestBelow(dtype.Layout(), raw, fraction, 1031, 15, 6);
    case E5M2 => LargestBelow(dtype.Layout(), raw, fraction, 1038, 30, 3);
    case E4M3FNUZ => LargestBelow(dtype.Layout(), raw, fraction, 1030, 15, 7);
    case E5M2FNUZ => LargestBelow(dtype.Layout(), raw, fraction, 1038, 31, 3);
  }

  lemma LargestBelow(fmt: Format, raw: nat, fraction: nat, top: nat, e: nat, f: nat)
    requires IsFp8(fmt) && e >= 1 && top == e + 1023 - fmt.bias && raw >= top && fraction < TWO52
    requires if fmt.sigBits == 3 then f < 4 && fmt.maxCode == e * 4 + f else f < 8 && fmt.maxCode == e * 8 + f
    requires raw == top && fmt.sigBits == 3 ==> (4 + f) * 0x4_0000_0000_0000 <= TWO52 + fraction
    requires raw == top && fmt.sigBits == 4 ==> (8 + f) * 0x2_0000_0000_0000 <= TWO52 + fraction
    ensures Mul(TWO52 + fraction, Pow2(raw - 1)) >= Grid(fmt, fmt.maxCode)
  {
    Powers();
    BigPowers();
    NormalNumber(fmt, e, f, fmt.maxCode);
    HiddenShift(fmt, f, raw, top, e, fraction);
  }

  lemma HiddenShift(fmt: Format, f: nat, raw: nat, top: nat, e: nat, fraction: nat)
    requires IsFp8(fmt) && e >= 1 && top == e + 1023 - fmt.bias && raw >= top && fraction < TWO52 && f < Hidden(fmt)
    requires raw == top ==> Mul(Hidden(fmt) + f, Pow2(53 - fmt.sigBits)) <= TWO52 + fraction
    ensures Mul(TWO52 + fraction, Pow2(raw - 1)) >= Mul(Hidden(fmt) + f, Pow2(e - 1 + UnitExponent(fmt)))
  {
    var n, s := 53 - fmt.sigBits, Hidden(fmt) + f;
    SplitPower(s, n, top - 1, e - 1 + UnitExponent(fmt));
    if raw == top {
      MulAtLeast(Mul(s, Pow2(n)), TWO52 + fraction, Pow2(top - 1));
    } else {
      BelowTwo53(fmt, s);
      MulAtLeast(Mul(s, Pow2(n)), TWO53, Pow2(top - 1));
      HigherExponent(raw, top, fraction);
    }
  }

  lemma BelowTwo53(fmt: Format, s: nat)
    requires IsFp8(fmt) && s < 2 * Hidden(fmt)
    ensures Mul(s, Pow2(53 - fmt.sigBits)) <= TWO53
  {
    BigPowers();
    Pow2Sum(fmt.sigBits, 53 - fmt.sigBits);
    MulAtLeast(s, Pow2(fmt.sigBits), Pow2(53 - fmt.sigBits));
  }

  lemma HigherExponent(raw: nat, top: nat, fraction: nat)
    requires 1 <= top < raw && fraction < TWO52
    ensures Mul(TWO52 + fraction, Pow2(raw - 1)) >= Mul(TWO53, Pow2(top - 1))
  {
    Doubled(TWO52, Pow2(top - 1));
    Pow2Order(top, raw - 1);
    Commute(TWO52, Pow2(top));
    Commute(TWO52, Pow2(raw - 1));
    MulAtLeast(Pow2(top), Pow2(raw - 1), TWO52);
    MulAtLeast(TWO52, TWO52 + fraction, Pow2(raw - 1));
  }

  // ----- order and round trips -----

  /** The signed position of a code; the two zeros share one. */
  function SignedCode(code: nat, signBit: nat): int
    requires signBit > 0
  {
    if code >= signBit then signBit - code else code
  }

  /** The order of values; NaN is not ordered. */
  predicate AtMost(x: Number, y: Number) {
    && x != NotANumber && y != NotANumber
    && (x == Infinite(true) || y == Infinite(false) || x == y || (x.Finite? && y.Finite? && x.Signed() <= y.Signed()))
  }

  /** Conversion to binary16 never reverses the order of two values, infinities included. */
  lemma HalfMonotone(x: nat, y: nat)
    requires IsDouble(x) && IsDouble(y) && AtMost(ValueOf(x), ValueOf(y))
    ensures SignedCode(FloatToF16Bits(x), 0x8000) <= SignedCode(FloatToF16Bits(y), 0x8000)
  {
    if IsFinite(x) && IsFinite(y) {
      HalfMonotoneFinite(x, y);
    } else {
      HalfBounds(x);
      HalfBounds(y);
    }
  }

  lemma HalfBounds(x: nat)
    requires IsDouble(x) && !IsNan(x)
    ensures FloatToF16Bits(x) < 0x1_0000 && FloatToF16Bits(x) % 0x8000 <= 0x7c00
    ensures -0x7c00 <= SignedCode(FloatToF16Bits(x), 0x8000) <= 0x7c00
    ensures !IsFinite(x) ==> SignedCode(FloatToF16Bits(x), 0x8000) == WithSign(SignBit(x) == 1, 0x7c00)
  {
    if IsFinite(x) { HalfRoundsToNearest(x); }
    SignedSplit(FloatToF16Bits(x), 0x8000);
  }

  lemma HalfMonotoneFinite(x: nat, y: nat)
    requires IsDouble(x) && IsDouble(y) && IsFinite(x) && IsFinite(y) && ValueOf(x).Signed() <= ValueOf(y).Signed()
    ensures SignedCode(FloatToF16Bits(x), 0x8000) <= SignedCode(FloatToF16Bits(y), 0x8000)
  {
    HalfRoundsToNearest(x);
    HalfRoundsToNearest(y);
    SignedMonotone(HALF, Magnitude(x), SignBit(x) == 1, FloatToF16Bits(x) % 0x8000,
      Magnitude(y), SignBit(y) == 1, FloatToF16Bits(y) % 0x8000);
    SignedSplit(FloatToF16Bits(x), 0x8000);
    SignedSplit(FloatToF16Bits(y), 0x8000);
  }

  /** Nor does conversion to FP8, as far as the format has the infinities. */
  lemma Fp8Monotone(x: nat, y: nat, dtype: Fp8)
    requires IsDouble(x) && IsDouble(y) && AtMost(ValueOf(x), ValueOf(y))
    ensures FloatToFp8(x, dtype) < 0x100 && FloatToFp8(y, dtype) < 0x100
    ensures (Fp8ToFloat(FloatToFp8(x, dtype), dtype) != NotANumber
      && Fp8ToFloat(FloatToFp8(y, dtype), dtype) != NotANumber) ==>
      SignedCode(FloatToFp8(x, dtype), 0x80) <= SignedCode(FloatToFp8(y, dtype), 0x80)
  {
    Fp8Bounds(x, dtype);
    Fp8Bounds(y, dtype);
    if IsFinite(x) && IsFinite(y) { Fp8MonotoneFinite(x, y, dtype); } else { Fp8MonotoneInfinite(x, y, dtype); }
  }

  lemma Fp8MonotoneInfinite(x: nat, y: nat, dtype: Fp8)
    requires IsDouble(x) && IsDouble(y) && AtMost(ValueOf(x), ValueOf(y)) && !(IsFinite(x) && IsFinite(y))
    ensures FloatToFp8(x, dtype) < 0x100 && FloatToFp8(y, dtype) < 0x100
    ensures dtype != E5M2 ==>
      Fp8ToFloat(FloatToFp8(x, dtype), dtype) == NotANumber
      || Fp8ToFloat(FloatToFp8(y, dtype), dtype) == NotANumber
    ensures dtype == E5M2 ==> SignedCode(FloatToFp8(x, dtype), 0x80) <= SignedCode(FloatToFp8(y, dtype), 0x80)
  {
    Fp8Bounds(x, dtype);
    Fp8Bounds(y, dtype);
  }

  lemma Fp8Bounds(x: nat, dtype: Fp8)
    requires IsDouble(x) && !IsNan(x)
    ensures FloatToFp8(x, dtype) < 0x100
    ensures dtype == E5M2 ==> -0x7c <= SignedCode(FloatToFp8(x, dtype), 0x80) <= 0x7c
    ensures dtype == E5M2 && !IsFinite(x) ==> SignedCode(FloatToFp8(x, dtype), 0x80) == WithSign(SignBit(x) == 1, 0x7c)
    ensures !IsFinite(x) && dtype != E5M2 ==> Fp8ToFloat(FloatToFp8(x, dtype), dtype) == NotANumber
  {
    if IsFinite(x) {
      Fp8RoundsToNearest(x, dtype);
      SignedSplit(FloatToFp8(x, dtype), 0x80);
    } else {
      Fp8Specials(x, dtype);
    }
  }

  lemma Fp8MonotoneFinite(x: nat, y: nat, dtype: Fp8)
    requires IsDouble(x) && IsDouble(y) && IsFinite(x) && IsFinite(y) && ValueOf(x).Signed() <= ValueOf(y).Signed()
    ensures SignedCode(FloatToFp8(x, dtype), 0x80) <= SignedCode(FloatToFp8(y, dtype), 0x80)
  {
    Fp8RoundsToNearest(x, dtype);
    Fp8RoundsToNearest(y, dtype);
    SignedMonotone(dtype.Layout(), Magnitude(x), SignBit(x) == 1, FloatToFp8(x, dtype) % 0x80,
      Magnitude(y), SignBit(y) == 1, FloatToFp8(y, dtype) % 0x80);
    SignedSplit(FloatToFp8(x, dtype), 0x80);
    SignedSplit(FloatToFp8(y, dtype), 0x80);
  }

  lemma SignedSplit(code: nat, signBit: nat)
    requires (signBit == 0x80 || signBit == 0x8000) && code / signBit <= 1
    ensures SignedCode(code, signBit) == WithSign(code / signBit == 1, code % signBit)
  {
  }

  lemma SignedMonotone(fmt: Format, m: nat, mNegative: bool, r: nat, n: nat, nNegative: bool, s: nat)
    requires IsFormat(fmt) && IsNearest(fmt, m, r) && IsNearest(fmt, n, s)
    requires WithSign(mNegative, m) <= WithSign(nNegative, n)
    ensures WithSign(mNegative, r) <= WithSign(nNegative, s)
  {
    if !mNegative && !nNegative { NearestMonotone(fmt, m, n, r, s); }
    if mNegative && nNegative { NearestMonotone(fmt, n, m, s, r); }
    if !mNegative && nNegative {
      NearestMonotone(fmt, m, n, r, s);
      NearestMonotone(fmt, n, m, s, r);
      ZeroRoundsToZero(fmt, r);
    }
  }

  lemma ZeroRoundsToZero(fmt: Format, r: nat)
    requires IsFormat(fmt) && IsNearest(fmt, 0, r)
    ensures r == 0
  {
    assert Mul(0, Hidden(fmt)) == 0 && Mul(0, Pow2(UnitExponent(fmt))) == 0;
    CodeOf(fmt, 0, 0, 0);
    NearestOfGrid(fmt, 0, r);
  }

  lemma SameParts(a: nat, b: nat)
    requires b < 0x1_0000 && a / 0x8000 == (if b >= 0x8000 then 1 else 0) && a % 0x8000 == b % 0x8000
    ensures a == b
  {
  }

  lemma HalfInfinity(half: nat)
    requires 0x7c00 <= half % 0x8000 && half < 0x1_0000 && F16BitsToFloat(half) != NotANumber
    ensures half % 0x8000 == 0x7c00 && F16BitsToFloat(half) == Infinite(half >= 0x8000)
  {
    HalfFields(half);
  }

  /** Any double that holds a decoded binary16 value converts back to the same bits. */
  lemma HalfReencodes(half: nat, bits: nat)
    requires half < 0x1_0000 && IsDouble(bits) && F16BitsToFloat(half) != NotANumber
      && ValueOf(bits) == F16BitsToFloat(half)
    ensures FloatToF16Bits(bits) == half
  {
    if half % 0x8000 < 0x7c00 {
      HalfDecodes(half);
      HalfRoundsToNearest(bits);
      NearestOfGrid(HALF, half % 0x8000, FloatToF16Bits(bits) % 0x8000);
      SameParts(FloatToF16Bits(bits), half);
    } else {
      HalfInfinity(half);
    }
  }

  lemma SameByteParts(a: nat, b: nat)
    requires b < 0x100 && a / 0x80 == (if b >= 0x80 then 1 else 0) && a % 0x80 == b % 0x80
    ensures a == b
  {
  }

  lemma Fp8Infinity(value: nat, dtype: Fp8)
    requires value < 0x100 && value % 0x80 > dtype.Layout().maxCode && Fp8ToFloat(value, dtype) != NotANumber
    ensures dtype == E5M2 && value % 0x80 == 0x7c && Fp8ToFloat(value, dtype) == Infinite(value >= 0x80)
  {
    ByteFields(value);
  }

  /** Any double that holds a decoded FP8 number converts back to the same byte. */
  lemma Fp8Reencodes(value: nat, bits: nat, dtype: Fp8)
    requires value < 0x100 && IsDouble(bits) && Fp8ToFloat(value, dtype) != NotANumber
      && ValueOf(bits) == Fp8ToFloat(value, dtype)
    ensures FloatToFp8(bits, dtype) == value
  {
    if value % 0x80 <= dtype.Layout().maxCode {
      Fp8ReencodesFinite(value, bits, dtype);
    } else {
      Fp8Infinity(value, dtype);
    }
  }

  lemma Fp8ReencodesFinite(value: nat, bits: nat, dtype: Fp8)
    requires value < 0x100 && value % 0x80 <= dtype.Layout().maxCode && IsDouble(bits)
    requires Fp8ToFloat(value, dtype) != NotANumber && ValueOf(bits) == Fp8ToFloat(value, dtype)
    ensures FloatToFp8(bits, dtype) == value
  {
    Fp8Decodes(value, dtype);
    Fp8RoundsToNearest(bits, dtype);
    NearestOfGrid(dtype.Layout(), value % 0x80, FloatToFp8(bits, dtype) % 0x80);
    SameByteParts(FloatToFp8(bits, dtype), value);
  }

  // ----- infinities and NaN -----

  /** binary16 keeps infinities and NaN. */
  lemma HalfKeepsSpecials(bits: nat)
    requires IsDouble(bits) && !IsFinite(bits)
    ensures FloatToF16Bits(bits) < 0x1_0000 && F16BitsToFloat(FloatToF16Bits(bits)) == ValueOf(bits)
    ensures FloatToF16Bits(bits) % 0x8000 == if IsNan(bits) then 0x7e00 else 0x7c00
    ensures FloatToF16Bits(bits) >= 0x8000 <==> bits >= 0x8000_0000_0000_0000
  {
  }

  /** Only E5M2 has infinities; the other formats turn them, and all formats turn NaN, into NaN. */
  lemma Fp8Specials(bits: nat, dtype: Fp8)
    requires IsDouble(bits) && !IsFinite(bits)
    ensures FloatToFp8(bits, dtype) < 0x100
    ensures Fp8ToFloat(FloatToFp8(bits, dtype), dtype) == if dtype == E5M2 then ValueOf(bits) else NotANumber
    ensures var minusInfinity := !IsNan(bits) && bits >= 0x8000_0000_0000_0000;
      FloatToFp8(bits, dtype) == match dtype
      case E4M3 => if minusInfinity then 0xff else 0x7f
      case E5M2 => if IsNan(bits) then 0x7f else if minusInfinity then 0xfc else 0x7c
      case _ => 0x80
  {
  }
}
