/** The numbers a narrow floating-point format can hold, and rounding to the nearest of them. */
module FloatGrid {

  function Pow2(n: nat): (r: nat)
    ensures r > 0
  {
    if n == 0 then 1 else 2 * Pow2(n - 1)
  }

  function Mul(a: int, b: int): int {
    a * b
  }

  lemma MulAdd(a: int, b: int, x: int)
    ensures Mul(a + b, x) == Mul(a, x) + Mul(b, x)
  {
  }

  lemma MulNat(a: nat, b: nat)
    ensures Mul(a, b) >= 0
  {
  }

  lemma MulOne(x: int)
    ensures Mul(1, x) == x
  {
  }

  lemma MulOrder(a: int, b: int, x: nat)
    requires x > 0
    ensures Mul(a, x) < Mul(b, x) <==> a < b
  {
    if a < b { MulLess(a, b, x); }
    if a > b { MulLess(b, a, x); }
  }

  lemma MulLess(a: int, b: int, x: nat)
    requires x > 0 && a < b
    ensures Mul(a, x) < Mul(b, x)
  {
    MulAdd(a, b - a, x);
    MulPositive(b - a, x);
  }

  lemma MulPositive(a: nat, b: nat)
    requires a > 0 && b > 0
    ensures Mul(a, b) > 0
  {
  }

  lemma {:induction false} Pow2Sum(a: nat, b: nat)
    ensures Pow2(a + b) == Mul(Pow2(a), Pow2(b))
  {
    if a > 0 {
      Pow2Sum(a - 1, b);
      MulAdd(Pow2(a - 1), Pow2(a - 1), Pow2(b));
    } else {
      MulOne(Pow2(b));
    }
  }

  /** A binary format: significand bits with the implicit one, exponent bias, and the largest code to round to. */
  datatype Format = Format(sigBits: nat, bias: nat, maxCode: nat)

  /** Formats whose numbers are all doubles. */
  predicate IsFormat(fmt: Format) {
    1 <= fmt.sigBits <= 12 && 1 <= fmt.bias <= 16
  }

  function Hidden(fmt: Format): (r: nat)
    requires IsFormat(fmt)
    ensures r > 0
  {
    Pow2(fmt.sigBits - 1)
  }

  lemma NegativeQuotient(q: int, rem: nat, d: nat)
    requires q < 0 && rem < d
    ensures Mul(q, d) + rem < 0
  {
    MulAdd(q, -q, d);
    MulAdd(1, -q - 1, d);
    MulOne(d);
    MulNat(-q - 1, d);
  }

  lemma QuotientNat(x: nat, d: nat)
    requires d > 0
    ensures x / d >= 0 && x == Mul(x / d, d) + x % d
  {
    var q: int, rem := x / d, x % d;
    assert x == Mul(q, d) + rem;
    if q < 0 { NegativeQuotient(q, rem, d); }
  }

  /** The exponent and fraction fields of a code. */
  function ExponentOf(fmt: Format, code: nat): nat
    requires IsFormat(fmt)
  {
    QuotientNat(code, Hidden(fmt));
    code / Hidden(fmt)
  }

  function FractionOf(fmt: Format, code: nat): (r: nat)
    requires IsFormat(fmt)
    ensures r < Hidden(fmt)
  {
    code % Hidden(fmt)
  }

  /** A code counts the numbers of the format upwards from zero; this is its number in units of the smallest one. */
  function GridUnits(fmt: Format, code: nat): nat
    requires IsFormat(fmt)
  {
    var e, f := ExponentOf(fmt, code), FractionOf(fmt, code);
    MulNat(Hidden(fmt) + f, if e == 0 then 1 else Pow2(e - 1));
    if e == 0 then f else Mul(Hidden(fmt) + f, Pow2(e - 1))
  }

  /** Magnitudes are counted in units of 2 to the power -1074, the smallest positive double. */
  function UnitExponent(fmt: Format): nat
    requires IsFormat(fmt)
  {
    1076 - fmt.bias - fmt.sigBits
  }

  function Grid(fmt: Format, code: nat): nat
    requires IsFormat(fmt)
  {
    MulNat(GridUnits(fmt, code), Pow2(UnitExponent(fmt)));
    Mul(GridUnits(fmt, code), Pow2(UnitExponent(fmt)))
  }

  /** The gap above a code. */
  function Gap(fmt: Format, code: nat): (r: nat)
    requires IsFormat(fmt)
    ensures r > 0
  {
    var e := ExponentOf(fmt, code);
    if e == 0 then 1 else Pow2(e - 1)
  }

  lemma SmallerQuotient(q: nat, f: nat, r: nat, g: nat, d: nat)
    requires f < d && q < r
    ensures Mul(q, d) + f < Mul(r, d) + g
  {
    MulAdd(q, r - q, d);
    MulAdd(1, r - q - 1, d);
    MulOne(d);
    MulNat(r - q - 1, d);
  }

  lemma DivMod(q: nat, f: nat, d: nat)
    requires f < d
    ensures Mul(q, d) + f >= 0 && (Mul(q, d) + f) / d == q && (Mul(q, d) + f) % d == f
  {
    MulNat(q, d);
    var x := Mul(q, d) + f;
    var r, g := x / d, x % d;
    assert x == Mul(r, d) + g;
    if q < r { SmallerQuotient(q, f, r, g, d); }
    if r < q { SmallerQuotient(r, g, q, f, d); }
  }

  /** The number and the gap of the code with exponent field e and fraction f. */
  lemma CodeOf(fmt: Format, e: nat, f: nat, code: nat)
    requires IsFormat(fmt) && f < Hidden(fmt) && code == Mul(e, Hidden(fmt)) + f
    ensures GridUnits(fmt, code) == if e == 0 then f else Mul(Hidden(fmt) + f, Pow2(e - 1))
    ensures Gap(fmt, code) == if e == 0 then 1 else Pow2(e - 1)
  {
    DivMod(e, f, Hidden(fmt));
  }

  lemma NextUnits(fmt: Format, e: nat, f: nat, code: nat)
    requires IsFormat(fmt) && f < Hidden(fmt) && code == Mul(e, Hidden(fmt)) + f
    ensures GridUnits(fmt, code + 1) == GridUnits(fmt, code) + Gap(fmt, code)
  {
    var h := Hidden(fmt);
    CodeOf(fmt, e, f, code);
    if f + 1 < h {
      CodeOf(fmt, e, f + 1, code + 1);
      if e > 0 { MulAdd(h + f, 1, Pow2(e - 1)); MulOne(Pow2(e - 1)); }
    } else {
      MulAdd(e, 1, h);
      MulOne(h);
      CodeOf(fmt, e + 1, 0, code + 1);
      if e > 0 { MulAdd(h + f, 1, Pow2(e - 1)); MulOne(Pow2(e - 1)); Doubled(h, Pow2(e - 1)); } else { Halves(h); }
    }
  }

  lemma Halves(h: nat)
    ensures Mul(h, Pow2(0)) == h
  {
  }

  lemma Doubled(a: nat, x: nat)
    ensures Mul(a, 2 * x) == Mul(a + a, x)
  {
  }

  lemma GridNext(fmt: Format, code: nat)
    requires IsFormat(fmt)
    ensures Grid(fmt, code + 1) == Grid(fmt, code) + Mul(Gap(fmt, code), Pow2(UnitExponent(fmt)))
    ensures Grid(fmt, code) < Grid(fmt, code + 1)
  {
    var u := Pow2(UnitExponent(fmt));
    assert code == Mul(ExponentOf(fmt, code), Hidden(fmt)) + FractionOf(fmt, code);
    NextUnits(fmt, ExponentOf(fmt, code), FractionOf(fmt, code), code);
    MulAdd(GridUnits(fmt, code), Gap(fmt, code), u);
    MulLess(0, Gap(fmt, code), u);
  }

  /** Codes and their numbers are in the same order. */
  lemma {:induction false} GridOrder(fmt: Format, a: nat, b: nat)
    requires IsFormat(fmt) && a < b
    ensures Grid(fmt, a) < Grid(fmt, b)
    decreases b
  {
    GridNext(fmt, b - 1);
    if a < b - 1 { GridOrder(fmt, a, b - 1); }
  }

  // ----- nearest, ties to even -----

  function Distance(a: nat, b: nat): nat {
    if a < b then b - a else a - b
  }

  /** No code up to the largest is nearer; of two equally near, the even one. */
  ghost predicate IsNearest(fmt: Format, m: nat, r: nat)
    requires IsFormat(fmt)
  {
    r <= fmt.maxCode && forall c: nat :: c <= fmt.maxCode ==> NoBetter(fmt, m, r, c)
  }

  predicate NoBetter(fmt: Format, m: nat, r: nat, c: nat)
    requires IsFormat(fmt)
  {
    && Distance(m, Grid(fmt, r)) <= Distance(m, Grid(fmt, c))
    && (Distance(m, Grid(fmt, r)) == Distance(m, Grid(fmt, c)) && c != r ==> r % 2 == 0)
  }

  /** The choice between the two codes around a magnitude. */
  predicate Chosen(fmt: Format, m: nat, lo: nat, r: nat)
    requires IsFormat(fmt)
  {
    var below, above := m - Grid(fmt, lo), Grid(fmt, lo + 1) - m;
    && below >= 0 && above >= 0
    && r == if below > above || (below == above && lo % 2 == 1) then lo + 1 else lo
  }

  lemma ChosenIsNearest(fmt: Format, m: nat, lo: nat, r: nat)
    requires IsFormat(fmt) && Chosen(fmt, m, lo, r) && r <= fmt.maxCode
    ensures IsNearest(fmt, m, r)
  {
    forall c: nat | c <= fmt.maxCode ensures NoBetter(fmt, m, r, c) {
      GridOrder(fmt, lo, lo + 1);
      if c < lo { GridOrder(fmt, c, lo); }
      if c > lo + 1 { GridOrder(fmt, lo + 1, c); }
      ChosenBeats(m, lo, Grid(fmt, lo), Grid(fmt, lo + 1), r, c, Grid(fmt, c));
      assert Grid(fmt, r) == if r == lo then Grid(fmt, lo) else Grid(fmt, lo + 1);
    }
  }

  /** The choice on plain numbers: lo at g and lo + 1 at h around m, against any other code on either side. */
  lemma ChosenBeats(m: nat, lo: nat, g: nat, h: nat, r: nat, c: nat, other: nat)
    requires g <= m <= h && g < h
    requires r == if m - g > h - m || (m - g == h - m && lo % 2 == 1) then lo + 1 else lo
    requires (c < lo ==> other < g) && (c == lo ==> other == g) && (c == lo + 1 ==> other == h)
      && (c > lo + 1 ==> other > h)
    ensures var own := if r == lo then g else h;
      Distance(m, own) <= Distance(m, other) && (Distance(m, own) == Distance(m, other) && c != r ==> r % 2 == 0)
  {
  }

  /** Beyond the largest number the largest code is nearest. */
  lemma AboveIsNearest(fmt: Format, m: nat)
    requires IsFormat(fmt) && m >= Grid(fmt, fmt.maxCode)
    ensures IsNearest(fmt, m, fmt.maxCode)
  {
    forall c: nat | c <= fmt.maxCode ensures NoBetter(fmt, m, fmt.maxCode, c) {
      if c < fmt.maxCode { GridOrder(fmt, c, fmt.maxCode); }
    }
  }

  /** Rounding never reverses an order, so it is also unique. */
  lemma NearestMonotone(fmt: Format, m: nat, n: nat, r: nat, s: nat)
    requires IsFormat(fmt) && m <= n && IsNearest(fmt, m, r) && IsNearest(fmt, n, s)
    ensures r <= s
  {
    assert NoBetter(fmt, m, r, s) && NoBetter(fmt, n, s, r);
    assert s + 1 <= fmt.maxCode ==> NoBetter(fmt, m, r, s + 1);
    if r > s {
      GridOrder(fmt, s, r);
      GridOrder(fmt, s, s + 1);
      if r > s + 1 { GridOrder(fmt, s + 1, r); }
    }
  }

  /** A number of the format rounds to itself. */
  lemma NearestOfGrid(fmt: Format, code: nat, r: nat)
    requires IsFormat(fmt) && code <= fmt.maxCode && IsNearest(fmt, Grid(fmt, code), r)
    ensures r == code
  {
    assert NoBetter(fmt, Grid(fmt, code), r, code);
    if r < code { GridOrder(fmt, r, code); }
    if code < r { GridOrder(fmt, code, r); }
  }

  // ----- rounding a significand -----

  /** Whether a remainder of a division by 2^shift rounds the quotient up. */
  predicate RoundsUp(q: nat, rem: nat, shift: nat)
    requires shift >= 1
  {
    rem > Pow2(shift - 1) || (rem == Pow2(shift - 1) && q % 2 == 1)
  }

  /** Rounding a scaled significand picks between the two codes around its magnitude. */
  lemma QuotientChooses(fmt: Format, sig: nat, scale: nat, shift: nat, lo: nat, q: nat, rem: nat)
    requires IsFormat(fmt) && shift >= 1 && rem < Pow2(shift) && sig == Mul(q, Pow2(shift)) + rem
    requires Grid(fmt, lo) == Mul(Mul(q, Pow2(shift)), Pow2(scale))
    requires Mul(Gap(fmt, lo), Pow2(UnitExponent(fmt))) == Mul(Pow2(shift), Pow2(scale))
    requires lo % 2 == q % 2
    ensures Mul(sig, Pow2(scale)) >= 0
    ensures Chosen(fmt, Mul(sig, Pow2(scale)), lo, lo + if RoundsUp(q, rem, shift) then 1 else 0)
  {
    GridNext(fmt, lo);
    var d, s := Pow2(shift), Pow2(scale);
    MulNat(sig, s);
    MulNat(rem, s);
    MulNat(d - rem, s);
    MulAdd(Mul(q, d), rem, s);
    MulAdd(rem, d - rem, s);
    MulOrder(rem, d - rem, s);
    MulOrder(d - rem, rem, s);
  }
}
