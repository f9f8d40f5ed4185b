/** Linking and replaying a lowered command buffer: patch sites write encoded values into its bytes. */
module CommandPatch {
  import opened Topology
  import opened FloatGrid
  import opened ByteCodec

  datatype PatchSource = LinkAddress(slot: nat) | RuntimeBuffer(slot: nat) | RuntimeVar(slot: nat) | System(field: nat)

  /** A byte; shifts count modulo the word width. */
  type Shift = s: nat | s < 256 witness 0

  type Word = w: nat | w < 0x1_0000_0000 witness 0

  datatype PatchEncoding =
    | U16 | U32 | U64 | Low32 | High32 | High32Or(bits: Word) | Low32ShiftRight(shift: Shift)
      | High32ShiftRight(shift: Shift)

  datatype PatchSite = PatchSite(byteOffset: nat, encoding: PatchEncoding, source: PatchSource, addend: nat)

  /** What each source resolves to. */
  type Resolver = PatchSource -> Option<nat>

  const RANGE64: nat := 0x1_0000_0000_0000_0000
  const RANGE32: nat := 0x1_0000_0000

  function Width(encoding: PatchEncoding): nat {
    match encoding
    case U16 => 2
    case U64 => 8
    case _ => 4
  }

  function ShiftedRight(v: nat, shift: Shift): nat {
    QuotientNat(v, Pow2(shift % 64));
    v / Pow2(shift % 64)
  }

  /** The bitwise disjunction of the n lowest bits. */
  function OrBits(a: nat, b: nat, n: nat): (r: nat)
    ensures r < Pow2(n)
  {
    if n == 0 then 0 else (if a % 2 == 1 || b % 2 == 1 then 1 else 0) + 2 * OrBits(a / 2, b / 2, n - 1)
  }

  function OrWord(a: Word, b: Word): Word {
    WordPower();
    OrBits(a, b, 32)
  }

  lemma WordPower()
    ensures Pow2(32) == RANGE32
  {
    assert Pow2(8) == 0x100 && Pow2(16) == 0x1_0000 && Pow2(24) == 0x100_0000;
  }

  /** The number a site writes, unless its value is missing or does not fit. */
  function Encoded(site: PatchSite, resolve: Resolver): Option<nat> {
    var raw := resolve(site.source);
    if raw.None? then None else
    var value := (raw.value + site.addend) % RANGE64;
    match site.encoding
    case U16 => if value < 0x1_0000 then Some(value) else None
    case U32 => if value < RANGE32 then Some(value) else None
    case U64 => Some(value)
    case Low32 => Some(value % RANGE32)
    case High32 => Some(value / RANGE32 % RANGE32)
    case High32Or(bits) => Some(OrWord(value / RANGE32 % RANGE32, bits))
    case Low32ShiftRight(shift) => Some(ShiftedRight(value, shift) % RANGE32)
    case High32ShiftRight(shift) => Some(ShiftedRight(value, shift) / RANGE32 % RANGE32)
  }

  function SiteBytes(site: PatchSite, resolve: Resolver): Option<seq<Byte>> {
    var v := Encoded(site, resolve);
    if v.None? then None else Some(LeBytes(v.value, Width(site.encoding)))
  }

  predicate Writes(site: PatchSite, i: int) {
    site.byteOffset <= i < site.byteOffset + Width(site.encoding)
  }

  predicate Applies(site: PatchSite, size: nat, resolve: Resolver) {
    Encoded(site, resolve).Some? && site.byteOffset + Width(site.encoding) <= size
  }

  function AfterSite(bytes: seq<Byte>, site: PatchSite, resolve: Resolver): (r: seq<Byte>)
    requires Applies(site, |bytes|, resolve)
    ensures |r| == |bytes|
  {
    Written(bytes, site.byteOffset, SiteBytes(site, resolve).value)
  }

  /** The bytes after the sites in order, stopping at the first that does not apply. */
  function AfterSites(bytes: seq<Byte>, sites: seq<PatchSite>, resolve: Resolver): (r: seq<Byte>)
    ensures |r| == |bytes|
    decreases |sites|
  {
    if sites == [] || !Applies(sites[0], |bytes|, resolve) then bytes
    else AfterSites(AfterSite(bytes, sites[0], resolve), sites[1..], resolve)
  }

  predicate AllApply(sites: seq<PatchSite>, size: nat, resolve: Resolver) {
    forall k :: 0 <= k < |sites| ==> Applies(sites[k], size, resolve)
  }

  predicate Covered(sites: seq<PatchSite>, i: int) {
    exists k :: 0 <= k < |sites| && Writes(sites[k], i)
  }

  method ApplySites(bytes: array<Byte>, sites: seq<PatchSite>, resolve: Resolver) returns (ok: bool)
    modifies bytes
    ensures ok == AllApply(sites, bytes.Length, resolve)
    ensures bytes[..] == AfterSites(old(bytes[..]), sites, resolve)
  {
    ghost var before := bytes[..];
    assert sites[0..] == sites;
    for k := 0 to |sites|
      invariant forall j :: 0 <= j < k ==> Applies(sites[j], bytes.Length, resolve)
      invariant AfterSites(before, sites, resolve) == AfterSites(bytes[..], sites[k..], resolve)
    {
      NextSite(bytes[..], sites, k, resolve);
      ok := ApplySite(bytes, sites[k], resolve);
      if !ok { return; }
    }
    ok := true;
  }

  lemma NextSite(bytes: seq<Byte>, sites: seq<PatchSite>, k: nat, resolve: Resolver)
    requires k < |sites|
    ensures AfterSites(bytes, sites[k..], resolve)
      == if Applies(sites[k], |bytes|, resolve)
        then AfterSites(AfterSite(bytes, sites[k], resolve), sites[k + 1..], resolve) else bytes
  {
    assert sites[k..][1..] == sites[k + 1..];
  }

  method ApplySite(bytes: array<Byte>, site: PatchSite, resolve: Resolver) returns (ok: bool)
    modifies bytes
    ensures ok == Applies(site, bytes.Length, resolve)
    ensures bytes[..] == if ok then AfterSite(old(bytes[..]), site, resolve) else old(bytes[..])
  {
    var written := SiteBytes(site, resolve);
    if written.None? || site.byteOffset + |written.value| > bytes.Length { return false; }
    CopyInto(bytes, site.byteOffset, written.value);
    ok := true;
  }

  // ----- what sites leave and what they forget -----

  lemma CoveredTail(sites: seq<PatchSite>, i: int)
    requires sites != []
    ensures Covered(sites[1..], i) ==> Covered(sites, i)
  {
    if Covered(sites[1..], i) {
      var k :| 0 <= k < |sites[1..]| && Writes(sites[1..][k], i);
      assert Writes(sites[k + 1], i);
    }
  }

  /** Sites, applied or not, leave the bytes outside all of them. */
  lemma {:induction false} OutsideStays(bytes: seq<Byte>, sites: seq<PatchSite>, resolve: Resolver, i: nat)
    requires i < |bytes| && !Covered(sites, i)
    ensures AfterSites(bytes, sites, resolve)[i] == bytes[i]
    decreases |sites|
  {
    if sites != [] && Applies(sites[0], |bytes|, resolve) {
      assert !Writes(sites[0], i);
      CoveredTail(sites, i);
      OutsideStays(AfterSite(bytes, sites[0], resolve), sites[1..], resolve, i);
    }
  }

  /** Where every site applies, the result does not depend on what the sites overwrite. */
  lemma {:induction false} OverwrittenForgotten(s: seq<Byte>, t: seq<Byte>, sites: seq<PatchSite>, resolve: Resolver,
      i: nat)
    requires |s| == |t| && i < |s| && AllApply(sites, |s|, resolve)
    requires s[i] == t[i] || Covered(sites, i)
    ensures AfterSites(s, sites, resolve)[i] == AfterSites(t, sites, resolve)[i]
    decreases |sites|
  {
    if sites != [] {
      assert Applies(sites[0], |s|, resolve);
      var u, v := AfterSite(s, sites[0], resolve), AfterSite(t, sites[0], resolve);
      assert AllApply(sites[1..], |s|, resolve);
      if !Writes(sites[0], i) && Covered(sites, i) {
        var k :| 0 <= k < |sites| && Writes(sites[k], i);
        assert Writes(sites[1..][k - 1], i);
      }
      OverwrittenForgotten(u, v, sites[1..], resolve, i);
    }
  }

  /** A site that no later one overlaps reads back as what it encoded. */
  lemma {:induction false} SiteReadsBack(bytes: seq<Byte>, sites: seq<PatchSite>, resolve: Resolver, k: nat)
    requires AllApply(sites, |bytes|, resolve) && k < |sites|
    requires forall j, i :: k < j < |sites| && Writes(sites[k], i) ==> !Writes(sites[j], i)
    ensures var site := sites[k]; var r := AfterSites(bytes, sites, resolve);
      && site.byteOffset + Width(site.encoding) <= |r|
      && r[site.byteOffset..site.byteOffset + Width(site.encoding)] == SiteBytes(site, resolve).value
    decreases k
  {
    assert Applies(sites[0], |bytes|, resolve) && Applies(sites[k], |bytes|, resolve);
    var site, next := sites[k], AfterSite(bytes, sites[0], resolve);
    assert AllApply(sites[1..], |bytes|, resolve);
    if k > 0 {
      assert sites[1..][k - 1] == site;
      forall j, i | k - 1 < j < |sites[1..]| && Writes(site, i)
        ensures !Writes(sites[1..][j], i)
      {
        assert !Writes(sites[j + 1], i);
      }
      SiteReadsBack(next, sites[1..], resolve, k - 1);
    } else {
      forall i: nat | Writes(site, i) ensures i < |bytes| && AfterSites(bytes, sites, resolve)[i] == next[i] {
        assert forall j :: 0 <= j < |sites[1..]| ==> sites[1..][j] == sites[j + 1];
        OutsideStays(next, sites[1..], resolve, i);
      }
    }
  }

  // ----- linked buffers and replays -----

  datatype Values = Values(buffers: seq<nat>, vars: seq<int>, system: map<nat, nat>)

  function RuntimeValues(values: Values): Resolver {
    (source: PatchSource) =>
      match source
      case RuntimeBuffer(slot) => if slot < |values.buffers| then Some(values.buffers[slot]) else None
      case RuntimeVar(slot) => if slot < |values.vars| then Some(values.vars[slot] % RANGE32) else None
      case _ => None
  }

  function SystemValues(values: Values): Resolver {
    (source: PatchSource) =>
      if source.System? && source.field in values.system then Some(values.system[source.field]) else None
  }

  function LinkValues(addresses: seq<nat>): Resolver {
    (source: PatchSource) => if source.LinkAddress? && source.slot < |addresses| then Some(addresses[source.slot])
      else None
  }

  datatype Linked = Linked(staticBytes: seq<Byte>, runtimePatches: seq<PatchSite>, systemPatches: seq<PatchSite>)

  predicate PatchSucceeds(linked: Linked, values: Values) {
    && AllApply(linked.runtimePatches, |linked.staticBytes|, RuntimeValues(values))
    && AllApply(linked.systemPatches, |linked.staticBytes|, SystemValues(values))
  }

  /** What a patch call leaves in a replay buffer, whether it succeeds or fails part way. */
  function Patched(linked: Linked, bytes: seq<Byte>, values: Values): (r: seq<Byte>)
    ensures |r| == |bytes|
  {
    if |bytes| != |linked.staticBytes| then bytes else
    var after := AfterSites(bytes, linked.runtimePatches, RuntimeValues(values));
    if AllApply(linked.runtimePatches, |bytes|, RuntimeValues(values))
      then AfterSites(after, linked.systemPatches, SystemValues(values)) else after
  }

  method Link(bytes: seq<Byte>, sites: seq<PatchSite>, runtime: seq<PatchSite>, system: seq<PatchSite>,
      addresses: seq<nat>)
    returns (r: Option<Linked>)
    ensures r.Some? <==> AllApply(sites, |bytes|, LinkValues(addresses))
    ensures r.Some? ==> r.value == Linked(AfterSites(bytes, sites, LinkValues(addresses)), runtime, system)
  {
    var copy := new Byte[|bytes|](i requires 0 <= i < |bytes| => bytes[i]);
    assert copy[..] == bytes;
    var ok := ApplySites(copy, sites, LinkValues(addresses));
    r := if ok then Some(Linked(copy[..], runtime, system)) else None;
  }

  method Patch(linked: Linked, replay: array<Byte>, values: Values) returns (ok: bool)
    modifies replay
    ensures ok <==> replay.Length == |linked.staticBytes| && PatchSucceeds(linked, values)
    ensures replay[..] == Patched(linked, old(replay[..]), values)
  {
    if replay.Length != |linked.staticBytes| { return false; }
    ok := ApplySites(replay, linked.runtimePatches, RuntimeValues(values));
    if ok { ok := ApplySites(replay, linked.systemPatches, SystemValues(values)); }
  }

  /** A replay buffer after any calls, successful or not. */
  function Replayed(linked: Linked, calls: seq<Values>): (r: seq<Byte>)
    ensures |r| == |linked.staticBytes|
  {
    if calls == [] then linked.staticBytes
    else Patched(linked, Replayed(linked, calls[..|calls| - 1]), calls[|calls| - 1])
  }

  lemma PatchedOutside(linked: Linked, bytes: seq<Byte>, values: Values, i: nat)
    requires i < |bytes| && !Covered(linked.runtimePatches, i) && !Covered(linked.systemPatches, i)
    ensures Patched(linked, bytes, values)[i] == bytes[i]
  {
    OutsideStays(bytes, linked.runtimePatches, RuntimeValues(values), i);
    OutsideStays(AfterSites(bytes, linked.runtimePatches, RuntimeValues(values)), linked.systemPatches,
      SystemValues(values), i);
  }

  /** Bytes outside all sites keep their linked value through any history. */
  lemma {:induction false} StaticBytesStay(linked: Linked, calls: seq<Values>, i: nat)
    requires i < |linked.staticBytes| && !Covered(linked.runtimePatches, i) && !Covered(linked.systemPatches, i)
    ensures Replayed(linked, calls)[i] == linked.staticBytes[i]
    decreases |calls|
  {
    if calls != [] {
      StaticBytesStay(linked, calls[..|calls| - 1], i);
      PatchedOutside(linked, Replayed(linked, calls[..|calls| - 1]), calls[|calls| - 1], i);
    }
  }

  /** After any history of calls, a successful patch leaves what it leaves in a fresh replay buffer. */
  lemma HistoryForgotten(linked: Linked, calls: seq<Values>, values: Values)
    requires PatchSucceeds(linked, values)
    ensures Patched(linked, Replayed(linked, calls), values) == Patched(linked, linked.staticBytes, values)
  {
    var s, t := Replayed(linked, calls), linked.staticBytes;
    var runtime, system := RuntimeValues(values), SystemValues(values);
    forall i: nat | i < |s| ensures Patched(linked, s, values)[i] == Patched(linked, t, values)[i] {
      if Covered(linked.runtimePatches, i) || !Covered(linked.systemPatches, i) {
        if !Covered(linked.runtimePatches, i) { StaticBytesStay(linked, calls, i); }
        OverwrittenForgotten(s, t, linked.runtimePatches, runtime, i);
      }
      OverwrittenForgotten(AfterSites(s, linked.runtimePatches, runtime), AfterSites(t, linked.runtimePatches, runtime),
        linked.systemPatches, system, i);
    }
  }
}
