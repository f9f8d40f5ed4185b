/** The conversions round to nearest, ties to even: binary16 over to infinity, FP8 saturating. */
module NarrowRounding {
  import opened FloatGrid
  import opened NarrowFloat

  // ----- powers -----

  lemma Powers()
    ensures Pow2(0) == 1 && Pow2(1) == 2 && Pow2(2) == 4 && Pow2(3) == 8 && Pow2(4) == 16 && Pow2(10) == 1024
  {
    assert Pow2(5) == 32 && Pow2(6) == 64 && Pow2(7) == 128;
    assert Pow2(8) == 256 && Pow2(9) == 512;
  }

  lemma BigPowers()
    ensures Pow2(41) == 0x200_0000_0000 && Pow2(42) == 0x400_0000_0000
    ensures Pow2(48) == 0x1_0000_0000_0000 && Pow2(49) == 0x2_0000_0000_0000 && Pow2(50) == 0x4_0000_0000_0000
    ensures Pow2(51) == 0x8_0000_0000_0000 && Pow2(52) == TWO52 && Pow2(53) == TWO53
  {
    Powers();
    Pow2Sum(10, 10);
    Pow2Sum(20, 20);
    assert Pow2(20) == 0x10_0000;
    assert Pow2(40) == 0x100_0000_0000;
    assert Pow2(43) == 2 * Pow2(42) && Pow2(44) == 2 * Pow2(43) && Pow2(45) == 2 * Pow2(44);
    assert Pow2(46) == 2 * Pow2(45) && Pow2(47) == 2 * Pow2(46);
  }

  lemma {:induction false} Pow2Order(a: nat, b: nat)
    requires a <= b
    ensures Pow2(a) <= Pow2(b)
    decreases b
  {
    if a < b { Pow2Order(a, b - 1); }
  }

  lemma MulAssoc(a: int, b: int, c: int)
    ensures Mul(Mul(a, b), c) == Mul(a, Mul(b, c))
  {
  }

  // ----- one magnitude on a grid -----

  lemma SplitPower(q: int, a: nat, b: nat, n: nat)
    requires n == a + b
    ensures Mul(Mul(q, Pow2(a)), Pow2(b)) == Mul(q, Pow2(n))
  {
    Pow2Sum(a, b);
    MulAssoc(q, Pow2(a), Pow2(b));
  }

  lemma NormalGrid(fmt: Format, shift: nat, scale: nat, e: nat, q: nat, lo: nat)
    requires IsFormat(fmt) && e >= 1 && scale + shift == e - 1 + UnitExponent(fmt)
    requires Hidden(fmt) <= q < 2 * Hidden(fmt) && lo == Mul(e, Hidden(fmt)) + q - Hidden(fmt)
    ensures Grid(fmt, lo) == Mul(Mul(q, Pow2(shift)), Pow2(scale))
    ensures Mul(Gap(fmt, lo), Pow2(UnitExponent(fmt))) == Mul(Pow2(shift), Pow2(scale))
  {
    CodeOf(fmt, e, q - Hidden(fmt), lo);
    var n := shift + scale;
    SplitPower(q, e - 1, UnitExponent(fmt), n);
    SplitPower(q, shift, scale, n);
    Pow2Sum(e - 1, UnitExponent(fmt));
    Pow2Sum(shift, scale);
  }

  /** In the normal range: exponent field e, quotient q of the significand. */
  lemma NormalChoice(fmt: Format, sig: nat, scale: nat, shift: nat, e: nat, q: nat, rem: nat, lo: nat)
    requires IsFormat(fmt) && fmt.sigBits >= 2 && shift >= 1 && e >= 1 && scale + shift == e - 1 + UnitExponent(fmt)
    requires rem < Pow2(shift) && sig == Mul(q, Pow2(shift)) + rem && Hidden(fmt) <= q < 2 * Hidden(fmt)
    requires lo == Mul(e, Hidden(fmt)) + q - Hidden(fmt)
    ensures Mul(sig, Pow2(scale)) >= 0
      && Chosen(fmt, Mul(sig, Pow2(scale)), lo, lo + if RoundsUp(q, rem, shift) then 1 else 0)
  {
    NormalGrid(fmt, shift, scale, e, q, lo);
    EvenHidden(fmt, e);
    SameParity(Mul(e, Hidden(fmt)), Hidden(fmt), q, lo);
    QuotientChooses(fmt, sig, scale, shift, lo, q, rem);
  }

  lemma SameParity(x: int, h: int, q: int, lo: int)
    requires x % 2 == 0 && h % 2 == 0 && lo == x + q - h
    ensures lo % 2 == q % 2
  {
  }

  lemma EvenHidden(fmt: Format, e: nat)
    requires IsFormat(fmt) && fmt.sigBits >= 2
    ensures Hidden(fmt) % 2 == 0 && Mul(e, Hidden(fmt)) % 2 == 0
  {
    assert Hidden(fmt) == 2 * Pow2(fmt.sigBits - 2);
    Doubled(e, Pow2(fmt.sigBits - 2));
    MulAdd(e, e, Pow2(fmt.sigBits - 2));
  }

  /** In the subnormal range: the quotient is the code. */
  lemma SubnormalChoice(fmt: Format, sig: nat, scale: nat, shift: nat, q: nat, rem: nat)
    requires IsFormat(fmt) && shift >= 1 && scale + shift == UnitExponent(fmt)
    requires rem < Pow2(shift) && sig == Mul(q, Pow2(shift)) + rem && q < Hidden(fmt)
    ensures Mul(sig, Pow2(scale)) >= 0
      && Chosen(fmt, Mul(sig, Pow2(scale)), q, q + if RoundsUp(q, rem, shift) then 1 else 0)
  {
    assert Mul(0, Hidden(fmt)) == 0;
    CodeOf(fmt, 0, q, q);
    Pow2Sum(shift, scale);
    MulAssoc(q, Pow2(shift), Pow2(scale));
    MulOne(Pow2(UnitExponent(fmt)));
    QuotientChooses(fmt, sig, scale, shift, q, q, rem);
  }

  lemma NormalNearest(fmt: Format, sig: nat, scale: nat, shift: nat, e: nat, q: nat, rem: nat, r: nat)
    requires IsFormat(fmt) && fmt.sigBits >= 2 && shift >= 1 && e >= 1 && scale + shift == e - 1 + UnitExponent(fmt)
    requires rem < Pow2(shift) && sig == Mul(q, Pow2(shift)) + rem && Hidden(fmt) <= q < 2 * Hidden(fmt)
    requires r == Mul(e, Hidden(fmt)) + q - Hidden(fmt) + (if RoundsUp(q, rem, shift) then 1 else 0) && r <= fmt.maxCode
    ensures Mul(sig, Pow2(scale)) >= 0 && IsNearest(fmt, Mul(sig, Pow2(scale)), r)
  {
    var lo := r - if RoundsUp(q, rem, shift) then 1 else 0;
    MulNat(e, Hidden(fmt));
    NormalChoice(fmt, sig, scale, shift, e, q, rem, lo);
    ChosenIsNearest(fmt, Mul(sig, Pow2(scale)), lo, r);
  }

  lemma SubnormalNearest(fmt: Format, sig: nat, scale: nat, shift: nat, q: nat, rem: nat, r: nat)
    requires IsFormat(fmt) && shift >= 1 && scale + shift == UnitExponent(fmt)
    requires rem < Pow2(shift) && sig == Mul(q, Pow2(shift)) + rem && q < Hidden(fmt)
    requires r == q + (if RoundsUp(q, rem, shift) then 1 else 0) && r <= fmt.maxCode
    ensures Mul(sig, Pow2(scale)) >= 0 && IsNearest(fmt, Mul(sig, Pow2(scale)), r)
  {
    SubnormalChoice(fmt, sig, scale, shift, q, rem);
    ChosenIsNearest(fmt, Mul(sig, Pow2(scale)), q, r);
  }

  /** Up to half the smallest number, zero is nearest. */
  lemma ZeroChoice(fmt: Format, m: nat)
    requires IsFormat(fmt) && 2 * m <= Pow2(UnitExponent(fmt)) && Hidden(fmt) >= 2
    ensures Chosen(fmt, m, 0, 0)
  {
    assert Mul(0, Hidden(fmt)) == 0 && Mul(0, Pow2(UnitExponent(fmt))) == 0;
    CodeOf(fmt, 0, 0, 0);
    CodeOf(fmt, 0, 1, 1);
    MulOne(Pow2(UnitExponent(fmt)));
  }

  /** A magnitude below 2^53 at scale 2^k is below 2^(53 + k). */
  lemma ScaledBound(sig: nat, bound: nat, k: nat, n: nat)
    requires sig <= Pow2(bound) && bound + k <= n
    ensures Mul(sig, Pow2(k)) <= Pow2(n)
  {
    if sig < Pow2(bound) { MulLess(sig, Pow2(bound), Pow2(k)); }
    Pow2Sum(bound, k);
    Pow2Order(bound + k, n);
  }

  // ----- binary16 -----

  /** The code of a positive finite double. */
  function HalfCode(raw: nat, sig: nat): nat {
    if raw > 1038 || (raw == 1038 && sig >= TWO52 + 0x3ff * 0x400_0000_0000 + 0x200_0000_0000) then 0x7c00
    else if raw >= 1009 then
      var rounded := RoundShift(sig, 42);
      if rounded == 0x800 then (raw - 1007) * 1024 else (raw - 1008) * 1024 + rounded % 1024
    else if raw < 998 then 0
    else RoundShift(sig, 1051 - raw)
  }

  lemma HalfHidden()
    ensures IsFormat(HALF) && Hidden(HALF) == 1024 && UnitExponent(HALF) == 1050
  {
    Powers();
  }

  /** A significand that rounds up to the next power of two carries into the exponent field. */
  lemma HalfCarry(raw: nat, q: nat, up: nat)
    requires 1009 <= raw <= 1038 && 1024 <= q < 2048 && up <= 1
    ensures (raw - 1008) * 1024 + q - 1024 + up
      == if q + up == 0x800 then (raw - 1007) * 1024 else (raw - 1008) * 1024 + (q + up) % 1024
  {
  }

  lemma HalfNormal(raw: nat, sig: nat)
    requires 1009 <= raw <= 1038 && TWO52 <= sig < TWO53
    requires raw == 1038 ==> sig < TWO52 + 0x3ff * 0x400_0000_0000 + 0x200_0000_0000
    ensures Mul(sig, Pow2(raw - 1)) >= 0 && IsNearest(HALF, Mul(sig, Pow2(raw - 1)), HalfCode(raw, sig))
      && HalfCode(raw, sig) < 0x7c00
  {
    HalfHidden();
    BigPowers();
    var q, rem := sig / Pow2(42), sig % Pow2(42);
    QuotientNat(sig, Pow2(42));
    HalfCarry(raw, q, if RoundsUp(q, rem, 42) then 1 else 0);
    assert Mul(raw - 1008, 1024) == (raw - 1008) * 1024;
    NormalNearest(HALF, sig, raw - 1, 42, raw - 1008, q, rem, HalfCode(raw, sig));
  }

  lemma HalfSubnormal(raw: nat, sig: nat)
    requires 998 <= raw <= 1008 && TWO52 <= sig < TWO53
    ensures Mul(sig, Pow2(raw - 1)) >= 0 && IsNearest(HALF, Mul(sig, Pow2(raw - 1)), HalfCode(raw, sig))
      && HalfCode(raw, sig) < 0x7c00
  {
    HalfHidden();
    BigPowers();
    var shift := 1051 - raw;
    Pow2Order(43, shift);
    QuotientNat(sig, Pow2(shift));
    var q, rem := sig / Pow2(shift), sig % Pow2(shift);
    QuotientBelow(sig, q, rem, shift);
    SubnormalNearest(HALF, sig, raw - 1, shift, q, rem, HalfCode(raw, sig));
  }

  lemma QuotientBelow(sig: nat, q: nat, rem: nat, shift: nat)
    requires sig < TWO53 && 43 <= shift && sig == Mul(q, Pow2(shift)) + rem
    ensures q < 1024
  {
    if q >= 1024 { BigQuotient(q, shift); }
  }

  lemma BigQuotient(q: nat, shift: nat)
    requires q >= 1024 && shift >= 43
    ensures Mul(q, Pow2(shift)) >= TWO53
  {
    BigPowers();
    Powers();
    Pow2Sum(10, 43);
    Pow2Order(43, shift);
    MulAtLeast(1024, q, Pow2(shift));
    Commute(1024, Pow2(shift));
    Commute(1024, Pow2(43));
    MulAtLeast(Pow2(43), Pow2(shift), 1024);
  }

  lemma Commute(a: int, b: int)
    ensures Mul(a, b) == Mul(b, a)
  {
  }

  lemma MulAtLeast(a: nat, b: nat, x: nat)
    requires a <= b && x > 0
    ensures Mul(a, x) <= Mul(b, x)
  {
    if a < b { MulLess(a, b, x); }
  }

  lemma HalfTiny(raw: nat, sig: nat)
    requires raw < 998 && sig < TWO53
    ensures Mul(sig, Pow2(if raw == 0 then 0 else raw - 1)) >= 0
    ensures IsNearest(HALF, Mul(sig, Pow2(if raw == 0 then 0 else raw - 1)), 0)
  {
    HalfHidden();
    BigPowers();
    var k := if raw == 0 then 0 else raw - 1;
    MulNat(sig, Pow2(k));
    ScaledBound(sig, 53, k, 1049);
    assert Pow2(1050) == 2 * Pow2(1049);
    ZeroChoice(HALF, Mul(sig, Pow2(k)));
    ChosenIsNearest(HALF, Mul(sig, Pow2(k)), 0, 0);
  }

  /** 65520 in units of 2^-1074: half way between the largest binary16 number and 65536. */
  function HalfLimit(): nat {
    MulNat(4095, Pow2(1078));
    Mul(4095, Pow2(1078))
  }

  lemma HalfTop()
    ensures IsFormat(HALF) && Grid(HALF, 0x7c00) == Pow2(1090)
  {
    HalfHidden();
    Powers();
    assert 0x7c00 == Mul(31, 1024) + 0;
    CodeOf(HALF, 31, 0, 0x7c00);
    Pow2Sum(10, 30);
    Pow2Sum(40, 1050);
  }

  lemma HalfLimitBelowTop()
    ensures Pow2(1090) - HalfLimit() == Pow2(1078)
  {
    Powers();
    assert Pow2(11) == 2048 && Pow2(12) == 4096;
    Pow2Sum(12, 1078);
    MulAdd(4095, 1, Pow2(1078));
    MulOne(Pow2(1078));
  }

  lemma HalfHuge(raw: nat, sig: nat)
    requires raw > 1038 || (raw == 1038 && sig >= TWO52 + 0x3ff * 0x400_0000_0000 + 0x200_0000_0000)
    requires TWO52 <= sig < TWO53
    ensures Mul(sig, Pow2(raw - 1)) >= HalfLimit() && IsNearest(HALF, Mul(sig, Pow2(raw - 1)), 0x7c00)
  {
    HalfTop();
    HalfLimitBelowTop();
    BigPowers();
    if raw > 1038 {
      Pow2Order(1038, raw - 1);
      Commute(sig, Pow2(raw - 1));
      MulAtLeast(Pow2(1038), Pow2(raw - 1), sig);
      MulAtLeast(TWO52, sig, Pow2(1038));
      Commute(sig, Pow2(1038));
      Pow2Sum(52, 1038);
      AboveIsNearest(HALF, Mul(sig, Pow2(raw - 1)));
    } else {
      HalfEdge(sig);
    }
  }

  lemma HalfEdge(sig: nat)
    requires TWO52 + 0x3ff * 0x400_0000_0000 + 0x200_0000_0000 <= sig < TWO53
    ensures Mul(sig, Pow2(1037)) >= HalfLimit() && IsNearest(HALF, Mul(sig, Pow2(1037)), 0x7c00)
  {
    HalfHidden();
    BigPowers();
    var rem := sig - 2047 * Pow2(42);
    assert Mul(2047, Pow2(42)) == 2047 * Pow2(42);
    assert Mul(30, 1024) == 30720;
    NormalNearest(HALF, sig, 1037, 42, 30, 2047, rem, 0x7c00);
    MulAtLeast(4095 * Pow2(41), sig, Pow2(1037));
    assert 4095 * Pow2(41) == Mul(4095, Pow2(41));
    MulAssoc(4095, Pow2(41), Pow2(1037));
    Pow2Sum(41, 1037);
  }

  // ----- the theorem for binary16 -----

  function Sig(bits: nat): nat {
    if RawExponent(bits) == 0 then Fraction(bits) else TWO52 + Fraction(bits)
  }

  lemma HalfShape(bits: nat)
    requires IsDouble(bits) && IsFinite(bits)
    ensures FloatToF16Bits(bits) == SignBit(bits) * 0x8000 + HalfCode(RawExponent(bits), Sig(bits))
  {
  }

  lemma HalfNonzeroExponent(raw: nat, sig: nat)
    requires TWO52 <= sig < TWO53
    ensures Mul(sig, Pow2(raw - 1)) >= 0 && IsNearest(HALF, Mul(sig, Pow2(raw - 1)), HalfCode(raw, sig))
    requires raw >= 1
  {
    if raw > 1038 || (raw == 1038 && sig >= TWO52 + 0x3ff * 0x400_0000_0000 + 0x200_0000_0000) {
      HalfHuge(raw, sig);
    } else if raw >= 1009 {
      HalfNormal(raw, sig);
    } else if raw >= 998 {
      HalfSubnormal(raw, sig);
    } else {
      HalfTiny(raw, sig);
    }
  }

  /** Conversion of any finite double to binary16 keeps the sign and rounds the magnitude to nearest, ties to even;
      the code after the largest number stands for 65536 and is infinity's. */
  lemma HalfRoundsToNearest(bits: nat)
    requires IsDouble(bits) && IsFinite(bits)
    ensures FloatToF16Bits(bits) / 0x8000 == SignBit(bits)
    ensures IsFormat(HALF) && IsNearest(HALF, Magnitude(bits), FloatToF16Bits(bits) % 0x8000)
  {
    HalfShape(bits);
    var raw, sig := RawExponent(bits), Sig(bits);
    if raw == 0 {
      HalfTiny(0, sig);
      Powers();
      assert Mul(sig, 1) == sig;
    } else {
      HalfNonzeroExponent(raw, sig);
    }
    assert HalfCode(raw, sig) <= 0x7c00;
  }

  /** It overflows to infinity exactly from 65520 upwards. */
  lemma HalfOverflow(bits: nat)
    requires IsDouble(bits) && IsFinite(bits)
    ensures FloatToF16Bits(bits) % 0x8000 == 0x7c00 <==> Magnitude(bits) >= HalfLimit()
  {
    HalfShape(bits);
    HalfRoundsToNearest(bits);
    var raw, sig, code := RawExponent(bits), Sig(bits), FloatToF16Bits(bits) % 0x8000;
    if raw > 1038 || (raw == 1038 && sig >= TWO52 + 0x3ff * 0x400_0000_0000 + 0x200_0000_0000) {
      HalfHuge(raw, sig);
    } else {
      HalfBelowLimit(Magnitude(bits), raw, sig);
    }
  }

  lemma EdgeBelowLimit(sig: nat)
    requires sig < TWO52 + 0x3ff * 0x400_0000_0000 + 0x200_0000_0000
    ensures Mul(sig, Pow2(1037)) < HalfLimit()
  {
    BigPowers();
    var edge := TWO52 + 0x3ff * 0x400_0000_0000 + 0x200_0000_0000;
    assert edge == Mul(4095, Pow2(41));
    MulLess(sig, edge, Pow2(1037));
    SplitPower(4095, 41, 1037, 1078);
  }

  lemma HalfBelowLimit(m: nat, raw: nat, sig: nat)
    requires sig < TWO53 && (raw > 0 ==> sig >= TWO52) && m == Mul(sig, Pow2(if raw == 0 then 0 else raw - 1))
    requires !(raw > 1038 || (raw == 1038 && sig >= TWO52 + 0x3ff * 0x400_0000_0000 + 0x200_0000_0000))
    ensures m < HalfLimit() && HalfCode(raw, sig) < 0x7c00
  {
    HalfLimitBelowTop();
    if raw == 1038 {
      HalfNormal(raw, sig);
      EdgeBelowLimit(sig);
    } else {
      BigPowers();
      if raw >= 1009 { HalfNormal(raw, sig); } else if raw >= 998 { HalfSubnormal(raw, sig); }
      ScaledBound(sig, 53, if raw == 0 then 0 else raw - 1, 1089);
      Pow2Order(1079, 1089);
      assert Pow2(1079) == 2 * Pow2(1078) && Pow2(1090) == 2 * Pow2(1089);
    }
  }
}
