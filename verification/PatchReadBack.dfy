/** What patched bytes say when they are read back as little-endian numbers. */
module PatchReadBack {
  import opened FloatGrid
  import opened ByteCodec
  import opened CommandPatch

  /** The 64-bit sum. */
  function Sum64(a: nat, b: nat): nat {
    (a + b) % 0x1_0000_0000_0000_0000
  }

  /** The 64-bit number a site is about. */
  function Value(site: PatchSite, resolve: Resolver): nat
    requires resolve(site.source).Some?
  {
    Sum64(resolve(site.source).value, site.addend)
  }

  /** A site applies exactly if its source has a value that fits, and its bytes lie inside the buffer. */
  lemma AppliesExactly(site: PatchSite, size: nat, resolve: Resolver)
    ensures Applies(site, size, resolve) <==>
      && resolve(site.source).Some?
      && (site.encoding.U16? ==> Value(site, resolve) < 0x1_0000)
      && (site.encoding.U32? ==> Value(site, resolve) < 0x1_0000_0000)
      && site.byteOffset + (if site.encoding.U16? then 2 else if site.encoding.U64? then 8 else 4) <= size
  {
  }

  /** No later site writes a byte of site k. */
  ghost predicate LastThere(sites: seq<PatchSite>, k: nat)
    requires k < |sites|
  {
    forall j, i :: k < j < |sites| && Writes(sites[k], i) ==> !Writes(sites[j], i)
  }

  /** The number in the bytes. */
  function ReadAt(bytes: seq<Byte>, at: nat, width: nat): nat
    requires at + width <= |bytes|
  {
    FromLe(bytes[at..at + width])
  }

  /** The bytes from `at` are the number v. */
  predicate Says(bytes: seq<Byte>, at: nat, width: nat, v: nat) {
    at + width <= |bytes| && ReadAt(bytes, at, width) == v
  }

  /** Bit i of a number. */
  predicate Bit(x: nat, i: nat) {
    if i == 0 then x % 2 == 1 else Bit(x / 2, i - 1)
  }

  lemma {:induction false} OrBitsAt(a: nat, b: nat, n: nat, i: nat)
    requires i < n
    ensures Bit(OrBits(a, b, n), i) <==> Bit(a, i) || Bit(b, i)
  {
    if i > 0 {
      OrBitsAt(a / 2, b / 2, n - 1, i - 1);
      assert OrBits(a, b, n) / 2 == OrBits(a / 2, b / 2, n - 1);
    }
  }

  /** A high half combined with given bits holds its own bits and those, and no others. */
  lemma OrHoldsBits(bytes: seq<Byte>, sites: seq<PatchSite>, resolve: Resolver, k: nat, i: nat)
    requires AllApply(sites, |bytes|, resolve) && k < |sites| && LastThere(sites, k)
    requires sites[k].encoding.High32Or? && i < 32
    ensures resolve(sites[k].source).Some?
    ensures var r, o := AfterSites(bytes, sites, resolve), sites[k].byteOffset;
      && o + 4 <= |r|
      && (Bit(ReadAt(r, o, 4), i) <==>
            Bit(Value(sites[k], resolve) / 0x1_0000_0000, i) || Bit(sites[k].encoding.bits, i))
  {
    assert Applies(sites[k], |bytes|, resolve);
    ReadsEncoded(bytes, sites, resolve, k);
    HighWord(Value(sites[k], resolve));
    OrBitsAt(Value(sites[k], resolve) / 0x1_0000_0000, sites[k].encoding.bits, 32, i);
  }

  lemma ReadsEncoded(bytes: seq<Byte>, sites: seq<PatchSite>, resolve: Resolver, k: nat)
    requires AllApply(sites, |bytes|, resolve) && k < |sites| && LastThere(sites, k)
    ensures Encoded(sites[k], resolve).Some? && Says(AfterSites(bytes, sites, resolve), sites[k].byteOffset,
      Width(sites[k].encoding), Encoded(sites[k], resolve).value)
  {
    assert Applies(sites[k], |bytes|, resolve);
    SiteReadsBack(bytes, sites, resolve, k);
    FitsWidth(sites[k], resolve);
    BytesSay(Encoded(sites[k], resolve).value, Width(sites[k].encoding));
  }

  lemma BytesSay(v: nat, width: nat)
    requires v < Range(width)
    ensures FromLe(LeBytes(v, width)) == v
  {
    LeRoundTrip(v, width);
    DivMod(0, v, Range(width));
    assert Mul(0, Range(width)) == 0;
  }

  lemma Widths()
    ensures Range(2) == 0x1_0000 && Range(4) == 0x1_0000_0000 && Range(8) == 0x1_0000_0000_0000_0000
  {
    assert Range(3) == 0x100_0000;
    assert Range(6) == 0x1_0000_0000_0000;
  }

  lemma FitsWidth(site: PatchSite, resolve: Resolver)
    requires Encoded(site, resolve).Some?
    ensures Encoded(site, resolve).value < Range(Width(site.encoding))
  {
    Widths();
  }

  /** What each encoding makes of the value. */
  lemma EncodedIs(site: PatchSite, resolve: Resolver)
    requires Encoded(site, resolve).Some?
    ensures resolve(site.source).Some?
    ensures var v, e := Value(site, resolve), Encoded(site, resolve).value;
      && v < 0x1_0000_0000_0000_0000
      && (site.encoding.U16? || site.encoding.U32? || site.encoding.U64? ==> e == v)
      && (site.encoding.Low32? ==> e == v % 0x1_0000_0000)
      && (site.encoding.High32? ==> e == v / 0x1_0000_0000)
  {
    HighWord(Value(site, resolve));
  }

  lemma ShiftedIs(site: PatchSite, resolve: Resolver)
    requires Encoded(site, resolve).Some?
    requires site.encoding.Low32ShiftRight? || site.encoding.High32ShiftRight?
    ensures resolve(site.source).Some?
    ensures var q := Value(site, resolve) / Pow2(site.encoding.shift % 64);
      && 0 <= q < 0x1_0000_0000_0000_0000
      && Encoded(site, resolve).value == if site.encoding.Low32ShiftRight? then q % 0x1_0000_0000 else q / 0x1_0000_0000
  {
    QuotientSmaller(Value(site, resolve), Pow2(site.encoding.shift % 64));
    HighWord(Value(site, resolve) / Pow2(site.encoding.shift % 64));
  }

  /** Whole sites read back as the value, the halves as its halves. */
  lemma SiteHolds(bytes: seq<Byte>, sites: seq<PatchSite>, resolve: Resolver, k: nat)
    requires AllApply(sites, |bytes|, resolve) && k < |sites| && LastThere(sites, k)
    ensures resolve(sites[k].source).Some?
    ensures var site, r, o := sites[k], AfterSites(bytes, sites, resolve), sites[k].byteOffset;
      var v := Value(site, resolve);
      && (site.encoding.U16? ==> Says(r, o, 2, v))
      && (site.encoding.U32? ==> Says(r, o, 4, v))
      && (site.encoding.U64? ==> Says(r, o, 8, v))
      && (site.encoding.Low32? ==> Says(r, o, 4, v % 0x1_0000_0000))
      && (site.encoding.High32? ==> Says(r, o, 4, v / 0x1_0000_0000))
  {
    ReadsEncoded(bytes, sites, resolve, k);
    EncodedIs(sites[k], resolve);
  }

  lemma HighWord(v: nat)
    requires v < 0x1_0000_0000_0000_0000
    ensures v / 0x1_0000_0000 < 0x1_0000_0000 && v / 0x1_0000_0000 % 0x1_0000_0000 == v / 0x1_0000_0000
  {
  }

  lemma {:induction false} FromLeConcat(a: seq<Byte>, b: seq<Byte>)
    ensures FromLe(a + b) == FromLe(a) + Mul(Range(|a|), FromLe(b))
  {
    if a == [] {
      assert a + b == b;
      MulOne(FromLe(b));
    } else {
      FromLeConcat(a[1..], b);
      assert (a + b)[1..] == a[1..] + b;
      Times256(Range(|a| - 1), FromLe(b));
    }
  }

  lemma Times256(m: nat, x: nat)
    ensures Mul(256 * m, x) == 256 * Mul(m, x)
  {
  }

  lemma TwoWords(r: seq<Byte>, o: nat)
    requires o + 8 <= |r|
    ensures ReadAt(r, o, 8) == ReadAt(r, o, 4) + 0x1_0000_0000 * ReadAt(r, o + 4, 4)
  {
    assert r[o..o + 8] == r[o..o + 4] + r[o + 4..o + 8];
    FromLeConcat(r[o..o + 4], r[o + 4..o + 8]);
    Widths();
  }

  lemma Together(r: seq<Byte>, o: nat, v: nat)
    requires Says(r, o, 4, v % 0x1_0000_0000) && Says(r, o + 4, 4, v / 0x1_0000_0000)
    ensures Says(r, o, 8, v)
  {
    TwoWords(r, o);
  }

  /** A low and a high half next to each other read back together as the value. */
  lemma HalvesHoldValue(bytes: seq<Byte>, sites: seq<PatchSite>, resolve: Resolver, k: nat, m: nat)
    requires AllApply(sites, |bytes|, resolve) && k < |sites| && m < |sites| && LastThere(sites, k)
      && LastThere(sites, m)
    requires sites[k].encoding.Low32? && sites[m].encoding.High32? && sites[m].byteOffset == sites[k].byteOffset + 4
    requires sites[k].source == sites[m].source && sites[k].addend == sites[m].addend
    ensures resolve(sites[k].source).Some?
    ensures Says(AfterSites(bytes, sites, resolve), sites[k].byteOffset, 8, Value(sites[k], resolve))
  {
    SiteHolds(bytes, sites, resolve, k);
    SiteHolds(bytes, sites, resolve, m);
    Together(AfterSites(bytes, sites, resolve), sites[k].byteOffset, Value(sites[k], resolve));
  }

  /** Two shifted halves, by the same amount, read back together as the value divided by the power of two. */
  lemma ShiftedHalvesHoldQuotient(bytes: seq<Byte>, sites: seq<PatchSite>, resolve: Resolver, k: nat, m: nat)
    requires AllApply(sites, |bytes|, resolve) && k < |sites| && m < |sites| && LastThere(sites, k)
      && LastThere(sites, m)
    requires sites[k].encoding.Low32ShiftRight? && sites[m].encoding.High32ShiftRight?
    requires sites[k].encoding.shift == sites[m].encoding.shift && sites[m].byteOffset == sites[k].byteOffset + 4
    requires sites[k].source == sites[m].source && sites[k].addend == sites[m].addend
    ensures resolve(sites[k].source).Some?
    ensures Value(sites[k], resolve) / Pow2(sites[k].encoding.shift % 64) >= 0
    ensures Says(AfterSites(bytes, sites, resolve), sites[k].byteOffset, 8,
      Value(sites[k], resolve) / Pow2(sites[k].encoding.shift % 64))
  {
    ReadsEncoded(bytes, sites, resolve, k);
    ReadsEncoded(bytes, sites, resolve, m);
    ShiftedIs(sites[k], resolve);
    ShiftedIs(sites[m], resolve);
    Together(AfterSites(bytes, sites, resolve), sites[k].byteOffset,
      Value(sites[k], resolve) / Pow2(sites[k].encoding.shift % 64));
  }

  lemma QuotientSmaller(v: nat, d: nat)
    requires d > 0
    ensures 0 <= v / d <= v
  {
    QuotientNat(v, d);
    if v / d > v { MulLess(v, v / d, d); MulAtLeastOne(v, d); }
  }

  lemma MulAtLeastOne(v: nat, d: nat)
    requires d > 0
    ensures Mul(v, d) >= v
  {
    if v > 0 {
      MulAdd(1, d - 1, v);
      MulOne(v);
    }
  }

  // ----- where the values come from -----

  /** After linking, a 64-bit site holds the address linked to its slot plus its addend. */
  lemma LinkedAddress(bytes: seq<Byte>, sites: seq<PatchSite>, addresses: seq<nat>, k: nat, slot: nat)
    requires AllApply(sites, |bytes|, LinkValues(addresses)) && k < |sites| && LastThere(sites, k)
    requires sites[k].encoding.U64? && sites[k].source == LinkAddress(slot)
    ensures slot < |addresses|
    ensures Says(AfterSites(bytes, sites, LinkValues(addresses)), sites[k].byteOffset, 8,
      Sum64(addresses[slot], sites[k].addend))
  {
    SiteHolds(bytes, sites, LinkValues(addresses), k);
  }

  lemma RuntimeValue(site: PatchSite, values: Values)
    requires RuntimeValues(values)(site.source).Some?
    ensures site.source.RuntimeBuffer? ==>
      && site.source.slot < |values.buffers|
      && Value(site, RuntimeValues(values)) == Sum64(values.buffers[site.source.slot], site.addend)
    ensures site.source.RuntimeVar? && site.addend == 0 ==>
      && site.source.slot < |values.vars|
      && Value(site, RuntimeValues(values)) == values.vars[site.source.slot] % 0x1_0000_0000
  {
  }

  /** After a patch, a 64-bit buffer site holds the buffer's address plus its addend. */
  lemma PatchedBuffer(bytes: seq<Byte>, sites: seq<PatchSite>, values: Values, k: nat, slot: nat)
    requires AllApply(sites, |bytes|, RuntimeValues(values)) && k < |sites| && LastThere(sites, k)
    requires sites[k].encoding.U64? && sites[k].source == RuntimeBuffer(slot)
    ensures slot < |values.buffers|
    ensures Says(AfterSites(bytes, sites, RuntimeValues(values)), sites[k].byteOffset, 8,
      Sum64(values.buffers[slot], sites[k].addend))
  {
    SiteHolds(bytes, sites, RuntimeValues(values), k);
    RuntimeValue(sites[k], values);
  }

  /** A 32-bit variable site without addend holds the variable in two's complement. */
  lemma PatchedVariable(bytes: seq<Byte>, sites: seq<PatchSite>, values: Values, k: nat, slot: nat)
    requires AllApply(sites, |bytes|, RuntimeValues(values)) && k < |sites| && LastThere(sites, k)
    requires sites[k].encoding.U32? && sites[k].source == RuntimeVar(slot) && sites[k].addend == 0
    ensures slot < |values.vars|
    ensures Says(AfterSites(bytes, sites, RuntimeValues(values)), sites[k].byteOffset, 4,
      values.vars[slot] % 0x1_0000_0000)
  {
    SiteHolds(bytes, sites, RuntimeValues(values), k);
    RuntimeValue(sites[k], values);
  }

  /** And a 64-bit system site holds the field's value plus its addend. */
  lemma PatchedSystem(bytes: seq<Byte>, sites: seq<PatchSite>, values: Values, k: nat, field: nat)
    requires AllApply(sites, |bytes|, SystemValues(values)) && k < |sites| && LastThere(sites, k)
    requires sites[k].encoding.U64? && sites[k].source == System(field)
    ensures field in values.system
    ensures Says(AfterSites(bytes, sites, SystemValues(values)), sites[k].byteOffset, 8,
      Sum64(values.system[field], sites[k].addend))
  {
    SiteHolds(bytes, sites, SystemValues(values), k);
  }

  /** Each of the three resolvers answers only its own sources, so a site of any other makes the call fail. */
  lemma ResolversApart(addresses: seq<nat>, values: Values, source: PatchSource)
    ensures LinkValues(addresses)(source).Some? <==> source.LinkAddress? && source.slot < |addresses|
    ensures RuntimeValues(values)(source).Some? <==>
      || (source.RuntimeBuffer? && source.slot < |values.buffers|)
      || (source.RuntimeVar? && source.slot < |values.vars|)
    ensures SystemValues(values)(source).Some? <==> source.System? && source.field in values.system
  {
  }
}
