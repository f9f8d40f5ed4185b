/** Committing a double to a narrow format: the double that holds the decoded code. */
module NarrowCommit {
  import opened FloatGrid
  import opened NarrowFloat
  import opened NarrowRounding
  import opened NarrowConversion

  const INFINITY: nat := 0x7ff0_0000_0000_0000
  const NAN: nat := 0x7ff8_0000_0000_0000

  /** The bits of the double with the given magnitude: one step of the exponent for each halving. */
  function MagnitudeBits(m: nat): nat {
    if m < TWO53 then m else MagnitudeBits(m / 2) + TWO52
  }

  /** The double that holds a number. */
  function DoubleOf(x: Number): nat {
    match x
    case Finite(negative, magnitude) => MagnitudeBits(magnitude) + if negative then TWO63 else 0
    case Infinite(negative) => INFINITY + if negative then TWO63 else 0
    case NotANumber => NAN
  }

  /** At most 53 significant bits, and below the largest double. */
  ghost predicate FitsDouble(m: nat) {
    exists s: nat, u: nat :: Scaled(m, s, u)
  }

  predicate Scaled(m: nat, s: nat, u: nat) {
    s < TWO53 && u <= 2044 && m == Mul(s, Pow2(u))
  }

  lemma HalveScaled(m: nat, s: nat, u: nat)
    requires Scaled(m, s, u) && m >= TWO53
    ensures u > 0 && m % 2 == 0 && Scaled(m / 2, s, u - 1)
  {
    assert Mul(s, Pow2(0)) == s;
    Doubled(s, Pow2(u - 1));
    MulAdd(s, s, Pow2(u - 1));
  }

  lemma {:induction false} BitsOfScaled(m: nat, s: nat, u: nat)
    requires Scaled(m, s, u)
    ensures MagnitudeBits(m) < (u + 2) * TWO52 && IsFinite(MagnitudeBits(m)) && Magnitude(MagnitudeBits(m)) == m
    ensures m >= TWO52 ==> MagnitudeBits(m) >= TWO52
    decreases u
  {
    if m < TWO53 {
      SmallMagnitude(m);
      SmallBits(m, u);
    } else {
      HalveScaled(m, s, u);
      BitsOfScaled(m / 2, s, u - 1);
      NextExponent(MagnitudeBits(m / 2), m / 2);
    }
  }

  lemma SmallBits(m: nat, u: nat)
    requires m < TWO53
    ensures m < (u + 2) * TWO52
  {
  }

  lemma SmallMagnitude(m: nat)
    requires m < TWO53
    ensures IsFinite(m) && Magnitude(m) == m
  {
    if m >= TWO52 {
      assert m / TWO52 == 1 && RawExponent(m) == 1 && Fraction(m) == m - TWO52;
      assert Mul(m, Pow2(0)) == m;
    } else {
      assert m / TWO52 == 0;
    }
  }

  lemma NextExponent(bits: nat, m: nat)
    requires TWO52 <= bits < 2046 * TWO52 && IsFinite(bits) && Magnitude(bits) == m
    ensures IsFinite(bits + TWO52) && Magnitude(bits + TWO52) == 2 * m
  {
    var raw, sig := RawExponent(bits), TWO52 + Fraction(bits);
    assert (bits + TWO52) / TWO52 == bits / TWO52 + 1 && (bits + TWO52) % TWO52 == bits % TWO52;
    Doubled(sig, Pow2(raw - 1));
    MulAdd(sig, sig, Pow2(raw - 1));
  }

  lemma SignApart(bits: nat, negative: bool)
    requires bits < TWO63
    ensures var r := bits + if negative then TWO63 else 0;
      IsDouble(r) && SignBit(r) == (if negative then 1 else 0) && RawExponent(r) == RawExponent(bits)
        && Fraction(r) == Fraction(bits)
  {
  }

  /** Every number with at most 53 significant bits is held by a double. */
  lemma DoubleHolds(negative: bool, m: nat)
    requires FitsDouble(m)
    ensures IsDouble(DoubleOf(Finite(negative, m))) && ValueOf(DoubleOf(Finite(negative, m))) == Finite(negative, m)
  {
    var s: nat, u: nat :| Scaled(m, s, u);
    BitsOfScaled(m, s, u);
    assert (u + 2) * TWO52 <= 2046 * TWO52;
    SignApart(MagnitudeBits(m), negative);
    SameMagnitude(MagnitudeBits(m), DoubleOf(Finite(negative, m)));
  }

  lemma SameMagnitude(a: nat, b: nat)
    requires IsFinite(a) && RawExponent(a) == RawExponent(b) && Fraction(a) == Fraction(b)
    ensures IsFinite(b) && Magnitude(a) == Magnitude(b)
  {
  }

  lemma DoubleHoldsSpecial(x: Number)
    requires !x.Finite?
    ensures IsDouble(DoubleOf(x)) && ValueOf(DoubleOf(x)) == x
  {
  }

  /** The double of a decoded binary16 code holds exactly its value. */
  lemma HalfIsDouble(half: nat)
    requires half < 0x1_0000
    ensures IsDouble(DoubleOf(F16BitsToFloat(half))) && ValueOf(DoubleOf(F16BitsToFloat(half))) == F16BitsToFloat(half)
  {
    var x, exponent, mantissa := F16BitsToFloat(half), half / 1024 % 32, half % 1024;
    if x.Finite? {
      var s, u: nat := if exponent == 0 then mantissa else 1024 + mantissa,
        if exponent == 0 then 1050 else 1049 + exponent;
      assert Scaled(x.magnitude, s, u);
      DoubleHolds(x.negative, x.magnitude);
    } else {
      DoubleHoldsSpecial(x);
    }
  }

  /** So does the double of a decoded FP8 code. */
  lemma Fp8IsDouble(value: nat, dtype: Fp8)
    requires value < 0x100
    ensures var x := Fp8ToFloat(value, dtype); IsDouble(DoubleOf(x)) && ValueOf(DoubleOf(x)) == x
  {
    var x := Fp8ToFloat(value, dtype);
    if x.Finite? {
      Fp8Scaled(dtype.Layout(), value);
      DoubleHolds(x.negative, x.magnitude);
    } else {
      DoubleHoldsSpecial(x);
    }
  }

  lemma Fp8Scaled(fmt: Format, value: nat)
    requires Fp8Rounding.IsFp8(fmt) && value < 0x100
    ensures NumberOfFields(fmt, value).Finite? && FitsDouble(NumberOfFields(fmt, value).magnitude)
  {
    var hidden := if fmt.sigBits == 4 then 8 else 4;
    var exponent, mantissa := value % 0x80 / hidden, value % hidden;
    var m := NumberOfFields(fmt, value).magnitude;
    if value % 0x80 == 0 {
      assert Mul(0, Pow2(0)) == 0;
      assert Scaled(m, 0, 0);
    } else if exponent == 0 {
      assert Scaled(m, mantissa, 1076 - fmt.bias - fmt.sigBits);
    } else {
      assert Scaled(m, hidden + mantissa, 1075 - fmt.bias - fmt.sigBits + exponent);
    }
  }

  // ----- commit -----

  function Canonical(x: nat): nat {
    if IsNan(x) then NAN else x
  }

  /** `commit_float` to binary16: the double that carries the rounded value. */
  function CommitHalf(x: nat): nat
    requires IsDouble(x)
  {
    HalfCodeFits(Canonical(x));
    DoubleOf(F16BitsToFloat(FloatToF16Bits(Canonical(x))))
  }

  /** `commit_float` to an FP8 format. */
  function CommitFp8(x: nat, dtype: Fp8): nat
    requires IsDouble(x)
  {
    Fp8CodeFits(Canonical(x), dtype);
    DoubleOf(Fp8ToFloat(FloatToFp8(Canonical(x), dtype), dtype))
  }

  lemma HalfCodeFits(x: nat)
    requires IsDouble(x)
    ensures FloatToF16Bits(x) < 0x1_0000
  {
    if IsFinite(x) { HalfRoundsToNearest(x); }
  }

  lemma Fp8CodeFits(x: nat, dtype: Fp8)
    requires IsDouble(x)
    ensures FloatToFp8(x, dtype) < 0x100
  {
    if IsFinite(x) { Fp8RoundsToNearest(x, dtype); }
  }

  /** Every binary16 code that is a number survives the way to a double and back. */
  lemma HalfRoundTrip(half: nat)
    requires half < 0x1_0000 && F16BitsToFloat(half) != NotANumber
    ensures IsDouble(DoubleOf(F16BitsToFloat(half))) && FloatToF16Bits(DoubleOf(F16BitsToFloat(half))) == half
  {
    HalfIsDouble(half);
    HalfReencodes(half, DoubleOf(F16BitsToFloat(half)));
  }

  /** And every FP8 code. */
  lemma Fp8RoundTrip(value: nat, dtype: Fp8)
    requires value < 0x100 && Fp8ToFloat(value, dtype) != NotANumber
    ensures IsDouble(DoubleOf(Fp8ToFloat(value, dtype)))
      && FloatToFp8(DoubleOf(Fp8ToFloat(value, dtype)), dtype) == value
  {
    Fp8IsDouble(value, dtype);
    Fp8Reencodes(value, DoubleOf(Fp8ToFloat(value, dtype)), dtype);
  }

  /** Committing any double to binary16, NaN and infinities included, twice is committing it once. */
  lemma HalfCommitIdempotent(x: nat)
    requires IsDouble(x)
    ensures IsDouble(CommitHalf(x)) && CommitHalf(CommitHalf(x)) == CommitHalf(x)
  {
    HalfCodeFits(Canonical(x));
    CommitDecodedHalf(FloatToF16Bits(Canonical(x)));
  }

  lemma CommitDecodedHalf(half: nat)
    requires half < 0x1_0000
    ensures IsDouble(DoubleOf(F16BitsToFloat(half)))
    ensures CommitHalf(DoubleOf(F16BitsToFloat(half))) == DoubleOf(F16BitsToFloat(half))
  {
    HalfIsDouble(half);
    if F16BitsToFloat(half) == NotANumber { CommitNan(); } else { HalfRoundTrip(half); }
  }

  lemma CommitNan()
    ensures CommitHalf(NAN) == NAN
  {
    assert IsNan(NAN) && SignBit(NAN) == 0;
    assert FloatToF16Bits(NAN) == 0x7e00;
    assert F16BitsToFloat(0x7e00) == NotANumber;
  }

  /** Committing any double to an FP8 format twice is committing it once. */
  lemma Fp8CommitIdempotent(x: nat, dtype: Fp8)
    requires IsDouble(x)
    ensures IsDouble(CommitFp8(x, dtype)) && CommitFp8(CommitFp8(x, dtype), dtype) == CommitFp8(x, dtype)
  {
    Fp8CodeFits(Canonical(x), dtype);
    var value := FloatToFp8(Canonical(x), dtype);
    Fp8IsDouble(value, dtype);
    if Fp8ToFloat(value, dtype) == NotANumber {
      Fp8Specials(NAN, dtype);
    } else {
      Fp8RoundTrip(value, dtype);
    }
  }

  // ----- order of committed values -----

  lemma SignedGrid(fmt: Format, aNegative: bool, a: nat, bNegative: bool, b: nat)
    requires IsFormat(fmt) && WithSign(aNegative, a) <= WithSign(bNegative, b)
    ensures WithSign(aNegative, Grid(fmt, a)) <= WithSign(bNegative, Grid(fmt, b))
  {
    if a < b { GridOrder(fmt, a, b); }
    if b < a { GridOrder(fmt, b, a); }
    if !aNegative && bNegative { GridZero(fmt); }
  }

  lemma GridZero(fmt: Format)
    requires IsFormat(fmt)
    ensures Grid(fmt, 0) == 0
  {
    assert Mul(0, Hidden(fmt)) == 0 && Mul(0, Pow2(UnitExponent(fmt))) == 0;
    CodeOf(fmt, 0, 0, 0);
  }

  lemma HalfCodeOrder(a: nat, b: nat)
    requires a < 0x1_0000 && b < 0x1_0000 && a % 0x8000 <= 0x7c00 && b % 0x8000 <= 0x7c00
    requires SignedCode(a, 0x8000) <= SignedCode(b, 0x8000)
    ensures AtMost(F16BitsToFloat(a), F16BitsToFloat(b))
  {
    SignedSplit(a, 0x8000);
    SignedSplit(b, 0x8000);
    HalfFields(a);
    HalfFields(b);
    if a % 0x8000 < 0x7c00 && b % 0x8000 < 0x7c00 {
      HalfDecodes(a);
      HalfDecodes(b);
      SignedGrid(HALF, a >= 0x8000, a % 0x8000, b >= 0x8000, b % 0x8000);
    }
  }

  lemma Fp8CodeOrder(a: nat, b: nat, dtype: Fp8)
    requires a < 0x100 && b < 0x100 && SignedCode(a, 0x80) <= SignedCode(b, 0x80)
    requires Fp8ToFloat(a, dtype) != NotANumber && Fp8ToFloat(b, dtype) != NotANumber
    ensures AtMost(Fp8ToFloat(a, dtype), Fp8ToFloat(b, dtype))
  {
    var top := dtype.Layout().maxCode;
    SignedSplit(a, 0x80);
    SignedSplit(b, 0x80);
    if a % 0x80 > top { Fp8Infinity(a, dtype); }
    if b % 0x80 > top { Fp8Infinity(b, dtype); }
    if a % 0x80 <= top && b % 0x80 <= top {
      Fp8Decodes(a, dtype);
      Fp8Decodes(b, dtype);
      SignedGrid(dtype.Layout(), a >= 0x80, a % 0x80, b >= 0x80, b % 0x80);
    }
  }

  /** Committing to an FP8 format never reverses an order, as far as both results are numbers. */
  lemma Fp8CommitMonotone(x: nat, y: nat, dtype: Fp8)
    requires IsDouble(x) && IsDouble(y) && AtMost(ValueOf(x), ValueOf(y))
    ensures IsDouble(CommitFp8(x, dtype)) && IsDouble(CommitFp8(y, dtype))
    ensures ValueOf(CommitFp8(x, dtype)) != NotANumber && ValueOf(CommitFp8(y, dtype)) != NotANumber ==>
      AtMost(ValueOf(CommitFp8(x, dtype)), ValueOf(CommitFp8(y, dtype)))
  {
    Fp8Monotone(x, y, dtype);
    var a, b := FloatToFp8(x, dtype), FloatToFp8(y, dtype);
    Fp8IsDouble(a, dtype);
    Fp8IsDouble(b, dtype);
    if Fp8ToFloat(a, dtype) != NotANumber && Fp8ToFloat(b, dtype) != NotANumber { Fp8CodeOrder(a, b, dtype); }
  }

  /** Which results are not numbers: NaN always, and infinities except in E5M2. */
  lemma Fp8CommitNan(x: nat, dtype: Fp8)
    requires IsDouble(x)
    ensures CommitFp8(x, dtype) == NAN <==> IsNan(x) || (!IsFinite(x) && dtype != E5M2)
  {
    Fp8CodeFits(Canonical(x), dtype);
    var y := Fp8ToFloat(FloatToFp8(Canonical(x), dtype), dtype);
    NanDouble(y, FloatToFp8(Canonical(x), dtype), dtype);
    if IsFinite(x) { FiniteCommits(x, dtype); } else { NonFiniteCommits(x, dtype); }
  }

  lemma NanDouble(y: Number, value: nat, dtype: Fp8)
    requires value < 0x100 && y == Fp8ToFloat(value, dtype)
    ensures DoubleOf(y) == NAN <==> y == NotANumber
  {
    Fp8IsDouble(value, dtype);
    NanIsNan();
  }

  lemma NanIsNan()
    ensures IsDouble(NAN) && IsNan(NAN)
  {
  }

  lemma NonFiniteCommits(x: nat, dtype: Fp8)
    requires IsDouble(x) && !IsFinite(x)
    ensures FloatToFp8(Canonical(x), dtype) < 0x100
    ensures Fp8ToFloat(FloatToFp8(Canonical(x), dtype), dtype) == NotANumber <==> IsNan(x) || dtype != E5M2
  {
    NanIsNan();
    Fp8Specials(Canonical(x), dtype);
  }

  lemma FiniteCommits(x: nat, dtype: Fp8)
    requires IsDouble(x) && IsFinite(x)
    ensures FloatToFp8(x, dtype) < 0x100 && Fp8ToFloat(FloatToFp8(x, dtype), dtype).Finite?
  {
    Fp8RoundsToNearest(x, dtype);
    Fp8Decodes(FloatToFp8(x, dtype), dtype);
  }

  /** Committing to binary16 never reverses an order. */
  lemma HalfCommitMonotone(x: nat, y: nat)
    requires IsDouble(x) && IsDouble(y) && AtMost(ValueOf(x), ValueOf(y))
    ensures IsDouble(CommitHalf(x)) && IsDouble(CommitHalf(y)) && AtMost(ValueOf(CommitHalf(x)), ValueOf(CommitHalf(y)))
  {
    HalfMonotone(x, y);
    HalfBounds(x);
    HalfBounds(y);
    HalfCodeOrder(FloatToF16Bits(x), FloatToF16Bits(y));
    HalfIsDouble(FloatToF16Bits(x));
    HalfIsDouble(FloatToF16Bits(y));
  }
}
