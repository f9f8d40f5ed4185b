/** Buffers that share storage: views, host writes through any of them, sealing and forking. */
module BufferViews {
  import opened Topology
  import opened ByteCodec
  import opened Words

  /** One allocation, made on first use. */
  class Storage {
    const allocator: nat
    const totalSize: Usize
    const zeroInit: bool
    const canAllocate: bool
    var present: bool
    var bytes: seq<Byte>
    var immutable: bool

    ghost predicate Valid()
      reads this
    {
      present ==> |bytes| == totalSize
    }

    constructor (allocator: nat, totalSize: Usize, zeroInit: bool, canAllocate: bool)
      ensures Valid() && !present && !immutable
      ensures this.allocator == allocator && this.totalSize == totalSize && this.zeroInit == zeroInit
        && this.canAllocate == canAllocate
    {
      this.allocator, this.totalSize, this.zeroInit, this.canAllocate := allocator, totalSize, zeroInit, canAllocate;
      present, bytes, immutable := false, [], false;
    }

    /** What the storage holds once it is allocated; memory that nobody initialised reads as a filler. */
    function Ready(): seq<Byte>
      reads this
    {
      if present then bytes else seq(totalSize, i => if zeroInit then 0 else 0xcd)
    }

    function CanBePresent(): bool
      reads this
    {
      present || canAllocate
    }

    /** Allocates once; later calls find the storage in place. */
    method EnsureAllocated() returns (ok: bool)
      requires Valid()
      modifies this`present, this`bytes
      ensures Valid() && ok == present == old(CanBePresent())
      ensures old(present) ==> bytes == old(bytes)
      ensures !old(present) && ok ==>
        |bytes| == totalSize && (zeroInit ==> forall i :: 0 <= i < |bytes| ==> bytes[i] == 0)
      ensures bytes == if present then old(Ready()) else old(bytes)
    {
      if !present && canAllocate {
        bytes := Ready();
        present := true;
      }
      ok := present;
    }
  }

  /** A window into a storage. */
  datatype Buffer = Buffer(id: nat, data: Storage, offset: Usize, size: Usize)

  predicate Inside(b: Buffer) {
    b.offset + b.size <= b.data.totalSize
  }

  predicate Overlapping(a: Buffer, b: Buffer) {
    a.data == b.data && a.offset < b.offset + b.size && b.offset < a.offset + a.size
  }

  /** Byte i of the storage belongs to the buffer's window. */
  predicate Owns(b: Buffer, i: int) {
    b.offset <= i < b.offset + b.size
  }

  function Contents(b: Buffer): seq<Byte>
    requires b.data.Valid() && b.data.present && Inside(b)
    reads b.data
  {
    b.data.bytes[b.offset..b.offset + b.size]
  }

  // ----- views -----

  /** The request is tested, and the offset added, in machine words: both sums wrap around. */
  function View(b: Buffer, id: nat, offset: Usize, size: Usize): Option<Buffer> {
    if (offset + size) % RANGE_USIZE > b.size then None
    else Some(Buffer(id, b.data, (b.offset + offset) % RANGE_USIZE, size))
  }

  /** A request that does not wrap is granted exactly when it fits, up to and including the parent's end; one that
      wraps, when its wrapped end does. */
  lemma ViewGranted(b: Buffer, id: nat, offset: Usize, size: Usize)
    ensures offset + size < 0x1_0000_0000_0000_0000 ==> (View(b, id, offset, size).Some? <==> offset + size <= b.size)
    ensures offset + size >= 0x1_0000_0000_0000_0000 ==>
      (View(b, id, offset, size).Some? <==> offset + size - 0x1_0000_0000_0000_0000 <= b.size)
    ensures View(b, id, offset, size).Some? ==>
      var v := View(b, id, offset, size).value;
      && v.id == id && v.data == b.data && v.size == size
      && (v.offset == b.offset + offset || v.offset == b.offset + offset - 0x1_0000_0000_0000_0000)
  {
  }

  /** Every byte of v is one of b. */
  ghost predicate Within(v: Buffer, b: Buffer) {
    v.data == b.data && forall i :: Owns(v, i) ==> Owns(b, i)
  }

  /** An accepted view stays inside its parent exactly when its request does not wrap around. */
  lemma ViewInside(b: Buffer, id: nat, offset: Usize, size: Usize)
    requires Inside(b) && View(b, id, offset, size).Some?
    ensures var v := View(b, id, offset, size).value;
      && (Within(v, b) <==> offset + size < RANGE_USIZE)
      && (offset + size < RANGE_USIZE ==> Inside(v) && v == Buffer(id, b.data, b.offset + offset, size))
  {
    var v := View(b, id, offset, size).value;
    if offset + size >= RANGE_USIZE {
      assert offset + size - RANGE_USIZE <= b.size;
      WrappedOutside(b, v, offset, size);
    }
  }

  /** A wrapped request owns a byte outside its parent: its first one, or else its last. */
  lemma WrappedOutside(b: Buffer, v: Buffer, offset: Usize, size: Usize)
    requires Inside(b) && offset + size >= RANGE_USIZE
    requires v.offset == (b.offset + offset) % RANGE_USIZE && v.size == size
    ensures exists i :: Owns(v, i) && !Owns(b, i)
  {
    if b.offset + offset >= RANGE_USIZE {
      assert v.offset == b.offset + offset - RANGE_USIZE < b.offset;
      assert Owns(v, v.offset) && !Owns(b, v.offset);
    } else {
      var last := v.offset + size - 1;
      assert last >= b.offset + RANGE_USIZE - 1;
      assert Owns(v, last) && !Owns(b, last);
    }
  }

  /** An input that shows it: on eight bytes, four bytes at 2^64 - 4 are granted, and lie outside the allocation. */
  lemma WrappedViewIsGranted(b: Buffer, id: nat)
    requires b.data.totalSize == 8 && b.offset == 0 && b.size == 8
    ensures var v := View(b, id, 0xFFFF_FFFF_FFFF_FFFC, 4);
      v.Some? && !Inside(v.value) && forall i :: Owns(v.value, i) ==> !Owns(b, i)
  {
  }

  /** A view request relative to its parent. */
  datatype ViewRequest = ViewRequest(id: nat, offset: Usize, size: Usize)
  {
    predicate Wraps() { offset + size >= RANGE_USIZE }
  }

  predicate NoneWraps(windows: seq<ViewRequest>) {
    forall k :: 0 <= k < |windows| ==> !windows[k].Wraps()
  }

  function ViewChain(b: Buffer, windows: seq<ViewRequest>): Option<Buffer> {
    if windows == [] then Some(b) else
    var parent := ViewChain(b, windows[..|windows| - 1]);
    var w := windows[|windows| - 1];
    if parent.None? then None else View(parent.value, w.id, w.offset, w.size)
  }

  function OffsetSum(windows: seq<ViewRequest>): nat {
    if windows == [] then 0 else OffsetSum(windows[..|windows| - 1]) + windows[|windows| - 1].offset
  }

  /** A chain of views that do not wrap is one view at the summed offset, which does not wrap either. */
  lemma {:induction false} ChainIsOneView(b: Buffer, windows: seq<ViewRequest>)
    requires Inside(b) && NoneWraps(windows)
    ensures var v := ViewChain(b, windows);
      v.Some? && windows != [] ==>
        var last := windows[|windows| - 1];
        OffsetSum(windows) + last.size <= b.size && v == View(b, last.id, OffsetSum(windows), last.size)
    decreases |windows|
  {
    if windows != [] {
      var init, last := windows[..|windows| - 1], windows[|windows| - 1];
      assert !last.Wraps();
      ChainIsOneView(b, init);
      if ViewChain(b, init).Some? && View(ViewChain(b, init).value, last.id, last.offset, last.size).Some? {
        if init == [] {
          ViewInside(b, last.id, last.offset, last.size);
        } else {
          ViewOfView(b, init[|init| - 1].id, OffsetSum(init), init[|init| - 1].size, last);
        }
      }
    }
  }

  /** A view of a view is one view at the sum of the offsets. */
  lemma ViewOfView(b: Buffer, id: nat, offset: nat, size: Usize, w: ViewRequest)
    requires Inside(b) && offset + size <= b.size && !w.Wraps() && View(b, id, offset, size).Some?
    requires View(View(b, id, offset, size).value, w.id, w.offset, w.size).Some?
    ensures offset + w.offset + w.size <= b.size
    ensures View(View(b, id, offset, size).value, w.id, w.offset, w.size) == View(b, w.id, offset + w.offset, w.size)
  {
    ViewInside(b, id, offset, size);
    ViewInside(View(b, id, offset, size).value, w.id, w.offset, w.size);
  }

  lemma ChainInside(b: Buffer, windows: seq<ViewRequest>)
    requires Inside(b) && NoneWraps(windows) && ViewChain(b, windows).Some?
    ensures var v := ViewChain(b, windows).value; Inside(v) && Within(v, b)
  {
    ChainIsOneView(b, windows);
    if windows != [] {
      var last := windows[|windows| - 1];
      ViewInside(b, last.id, OffsetSum(windows), last.size);
    }
  }

  /** The view after k requests owns only bytes of the one before. */
  ghost predicate StepInside(b: Buffer, windows: seq<ViewRequest>, k: nat)
    requires k < |windows|
  {
    var parent, v := ViewChain(b, windows[..k]), ViewChain(b, windows[..k + 1]);
    parent.Some? && v.Some? && Within(v.value, parent.value)
  }

  /** Every view of a granted chain stays inside its parent if and only if no request wraps. */
  lemma ChainInsideExactly(b: Buffer, windows: seq<ViewRequest>)
    requires Inside(b) && ViewChain(b, windows).Some?
    ensures (forall k :: 0 <= k < |windows| ==> StepInside(b, windows, k)) <==> NoneWraps(windows)
  {
    if NoneWraps(windows) {
      forall k | 0 <= k < |windows| ensures StepInside(b, windows, k) { StepExactly(b, windows, k); }
    } else {
      var k := FirstWrap(windows);
      StepExactly(b, windows, k);
    }
  }

  lemma {:induction false} GrantedPrefix(b: Buffer, windows: seq<ViewRequest>, k: nat)
    requires k <= |windows| && ViewChain(b, windows).Some?
    ensures ViewChain(b, windows[..k]).Some?
    decreases |windows|
  {
    if k < |windows| {
      var init := windows[..|windows| - 1];
      GrantedPrefix(b, init, k);
      assert init[..k] == windows[..k];
    } else {
      assert windows[..k] == windows;
    }
  }

  lemma FirstWrap(windows: seq<ViewRequest>) returns (k: nat)
    requires !NoneWraps(windows)
    ensures k < |windows| && windows[k].Wraps() && NoneWraps(windows[..k])
  {
    k := 0;
    while !windows[k].Wraps()
      invariant k < |windows| && NoneWraps(windows[..k])
      decreases |windows| - k
    {
      k := k + 1;
    }
  }

  /** Up to the first request that wraps, a step stays inside exactly if it does not wrap. */
  lemma StepExactly(b: Buffer, windows: seq<ViewRequest>, k: nat)
    requires Inside(b) && ViewChain(b, windows).Some? && k < |windows| && NoneWraps(windows[..k])
    ensures StepInside(b, windows, k) <==> !windows[k].Wraps()
  {
    GrantedPrefix(b, windows, k);
    GrantedPrefix(b, windows, k + 1);
    ChainInside(b, windows[..k]);
    assert windows[..k + 1][..k] == windows[..k];
    ViewInside(ViewChain(b, windows[..k]).value, windows[k].id, windows[k].offset, windows[k].size);
  }

  // ----- host writes -----

  datatype Outcome = Done | ImmutableBuffer | NotAllocated | SizeMismatch | OtherAllocator | OverlappingRegions

  /** The storage was allocated if that is possible, and if so holds these bytes; its seal is as before. */
  twostate predicate Becomes(d: Storage, bytes: seq<Byte>)
    reads d
  {
    && d.Valid() && d.immutable == old(d.immutable) && d.present == old(d.CanBePresent())
    && d.bytes == if d.present then bytes else old(d.bytes)
  }

  twostate predicate Same(d: Storage)
    reads d
  {
    d.Valid() && d.immutable == old(d.immutable) && d.present == old(d.present) && d.bytes == old(d.bytes)
  }

  method MarkImmutable(b: Buffer)
    requires b.data.Valid()
    modifies b.data`immutable
    ensures b.data.Valid() && b.data.immutable && b.data.present == old(b.data.present)
      && b.data.bytes == old(b.data.bytes)
  {
    b.data.immutable := true;
  }

  /** A sealed storage is never touched; otherwise the bytes go exactly to their place in the window. */
  method CopyInAt(b: Buffer, at: nat, src: seq<Byte>) returns (r: Outcome)
    requires b.data.Valid() && Inside(b)
    modifies b.data`present, b.data`bytes
    ensures r == if old(b.data.immutable) then ImmutableBuffer
                 else if !old(b.data.CanBePresent()) then NotAllocated
                 else if at + |src| > b.size then SizeMismatch else Done
    ensures r == ImmutableBuffer ==> Same(b.data)
    ensures r == Done ==> Becomes(b.data, Written(old(b.data.Ready()), b.offset + at, src))
    ensures r != Done && r != ImmutableBuffer ==> Becomes(b.data, old(b.data.Ready()))
  {
    if b.data.immutable { return ImmutableBuffer; }
    var ok := b.data.EnsureAllocated();
    if !ok { return NotAllocated; }
    if at + |src| > b.size { return SizeMismatch; }
    b.data.bytes := Written(b.data.bytes, b.offset + at, src);
    r := Done;
  }

  method CopyIn(b: Buffer, src: seq<Byte>) returns (r: Outcome)
    requires b.data.Valid() && Inside(b)
    modifies b.data`present, b.data`bytes
    ensures r == if old(b.data.immutable) then ImmutableBuffer
                 else if !old(b.data.CanBePresent()) then NotAllocated
                 else if |src| != b.size then SizeMismatch else Done
    ensures r == ImmutableBuffer ==> Same(b.data)
    ensures r == Done ==> Becomes(b.data, Written(old(b.data.Ready()), b.offset, src)) && Contents(b) == src
    ensures r != Done && r != ImmutableBuffer ==> Becomes(b.data, old(b.data.Ready()))
  {
    if b.data.immutable { return ImmutableBuffer; }
    var ok := b.data.EnsureAllocated();
    if !ok { return NotAllocated; }
    if |src| != b.size { return SizeMismatch; }
    b.data.bytes := Written(b.data.bytes, b.offset, src);
    r := Done;
  }

  method CopyOut(b: Buffer, size: nat) returns (r: Outcome, dst: seq<Byte>)
    requires b.data.Valid() && Inside(b)
    modifies b.data`present, b.data`bytes
    ensures Becomes(b.data, old(b.data.Ready()))
    ensures r == if !old(b.data.CanBePresent()) then NotAllocated else if size != b.size then SizeMismatch else Done
    ensures dst == if r == Done then Window(b, old(b.data.Ready())) else []
  {
    var ok := b.data.EnsureAllocated();
    if !ok { return NotAllocated, []; }
    if size != b.size { return SizeMismatch, []; }
    r, dst := Done, b.data.bytes[b.offset..b.offset + b.size];
  }

  /** The window's part of some contents of its storage. */
  function Window(b: Buffer, bytes: seq<Byte>): seq<Byte> {
    if b.offset + b.size <= |bytes| then bytes[b.offset..b.offset + b.size] else []
  }

  function RegionOutcome(b: Buffer, at: nat, src: Buffer, from: nat, len: nat): Outcome
    reads b.data, src.data
  {
    if b.data.immutable then ImmutableBuffer
    else if !b.data.CanBePresent() || !src.data.CanBePresent() then NotAllocated
    else if at + len > b.size || from + len > src.size then SizeMismatch
    else if b.data.allocator != src.data.allocator then OtherAllocator
    else Done
  }

  /** A region copy, on one device; source and destination may be views of one storage. */
  method CopyRegionFrom(b: Buffer, at: nat, src: Buffer, from: nat, len: nat) returns (r: Outcome)
    requires b.data.Valid() && Inside(b) && src.data.Valid() && Inside(src)
    modifies b.data`present, b.data`bytes, src.data`present, src.data`bytes
    ensures r == old(RegionOutcome(b, at, src, from, len))
    ensures r == ImmutableBuffer ==> Same(b.data) && Same(src.data)
    ensures r == Done ==> Becomes(b.data, Written(old(b.data.Ready()), b.offset + at,
                                                  old(src.data.Ready())[src.offset + from..src.offset + from + len]))
    ensures r != Done && r != ImmutableBuffer ==> Becomes(b.data, old(b.data.Ready()))
    ensures src.data != b.data && r != ImmutableBuffer ==>
      if old(b.data.CanBePresent()) then Becomes(src.data, old(src.data.Ready())) else Same(src.data)
  {
    if b.data.immutable { return ImmutableBuffer; }
    var ok := b.data.EnsureAllocated();
    if !ok { return NotAllocated; }
    ok := src.data.EnsureAllocated();
    if !ok { return NotAllocated; }
    if at + len > b.size || from + len > src.size { return SizeMismatch; }
    if b.data.allocator != src.data.allocator { return OtherAllocator; }
    var moved := src.data.bytes[src.offset + from..src.offset + from + len];
    b.data.bytes := Written(b.data.bytes, b.offset + at, moved);
    r := Done;
  }

  method CopyWithin(b: Buffer, at: nat, from: nat, len: nat) returns (r: Outcome)
    requires b.data.Valid() && Inside(b)
    modifies b.data`present, b.data`bytes
    ensures r == if old(b.data.immutable) then ImmutableBuffer
                 else if !old(b.data.CanBePresent()) then NotAllocated
                 else if at + len > b.size || from + len > b.size then SizeMismatch
                 else if !(len == 0 || at + len <= from || from + len <= at) then OverlappingRegions else Done
    ensures r == ImmutableBuffer ==> Same(b.data)
    ensures r == Done ==> Becomes(b.data, Written(old(b.data.Ready()), b.offset + at,
                                                  old(b.data.Ready())[b.offset + from..b.offset + from + len]))
    ensures r != Done && r != ImmutableBuffer ==> Becomes(b.data, old(b.data.Ready()))
  {
    if b.data.immutable { return ImmutableBuffer; }
    var ok := b.data.EnsureAllocated();
    if !ok { return NotAllocated; }
    if at + len > b.size || from + len > b.size { return SizeMismatch; }
    if !(len == 0 || at + len <= from || from + len <= at) { return OverlappingRegions; }
    b.data.bytes := Written(b.data.bytes, b.offset + at, b.data.bytes[b.offset + from..b.offset + from + len]);
    r := Done;
  }

  // ----- histories of host calls -----

  /** A host call on any buffers, aliases included. */
  datatype HostCall =
    | In(b: Buffer, src: seq<Byte>)
    | InAt(b: Buffer, at: nat, src: seq<Byte>)
    | Out(b: Buffer, size: nat)
    | Region(b: Buffer, at: nat, source: Buffer, from: nat, len: nat)
    | Move(b: Buffer, at: nat, from: nat, len: nat)
    | Seal(b: Buffer)
  {
    predicate Writes() { !Out? && !Seal? }

    function Storages(): set<Storage> {
      if Region? then {b.data, source.data} else {b.data}
    }

    ghost predicate Placed() {
      Inside(b) && (Region? ==> Inside(source))
    }
  }

  /** The storage had been sealed before call k. */
  ghost predicate SealedBefore(calls: seq<HostCall>, k: nat, d: Storage, initially: bool)
    requires k <= |calls|
  {
    initially || exists j :: 0 <= j < k && calls[j].Seal? && calls[j].b.data == d
  }

  ghost predicate AllValid(storages: set<Storage>)
    reads storages
  {
    forall d :: d in storages ==> d.Valid()
  }

  /** A sealed storage stays sealed, and its bytes stay what they were, or were to be once allocated. */
  twostate predicate Kept(d: Storage)
    reads d
  {
    old(d.immutable) ==>
      d.immutable && (old(d.present) ==> d.present) && (d.present ==> d.bytes == old(d.Ready()))
  }

  method Perform(call: HostCall) returns (r: Outcome)
    requires AllValid(call.Storages()) && call.Placed()
    modifies call.Storages()
    ensures AllValid(call.Storages())
    ensures r == ImmutableBuffer <==> call.Writes() && old(call.b.data.immutable)
    ensures forall d :: d in call.Storages() ==>
      d.immutable == (old(d.immutable) || (call.Seal? && d == call.b.data)) && Kept(d)
  {
    match call
    case In(b, src) => r := CopyIn(b, src);
    case InAt(b, at, src) => r := CopyInAt(b, at, src);
    case Out(b, size) =>
      var dst;
      r, dst := CopyOut(b, size);
    case Region(b, at, source, from, len) => r := PerformRegion(b, at, source, from, len);
    case Move(b, at, from, len) => r := CopyWithin(b, at, from, len);
    case Seal(b) =>
      MarkImmutable(b);
      r := Done;
  }

  method PerformRegion(b: Buffer, at: nat, source: Buffer, from: nat, len: nat) returns (r: Outcome)
    requires b.data.Valid() && source.data.Valid() && Inside(b) && Inside(source)
    modifies b.data`present, b.data`bytes, source.data`present, source.data`bytes
    ensures b.data.Valid() && source.data.Valid() && Kept(b.data) && Kept(source.data)
    ensures r == ImmutableBuffer <==> old(b.data.immutable)
  {
    r := CopyRegionFrom(b, at, source, from, len);
  }

  /** In every history of calls, a host write is refused for the seal exactly if its storage had been sealed, through
      whatever alias; and what a storage held when it was sealed it holds at the end. */
  method PerformAll(calls: seq<HostCall>, storages: set<Storage>) returns (outcomes: seq<Outcome>)
    requires AllValid(storages)
    requires forall k :: 0 <= k < |calls| ==> calls[k].Storages() <= storages && calls[k].Placed()
    modifies storages
    ensures AllValid(storages) && |outcomes| == |calls|
    ensures forall k :: 0 <= k < |calls| ==>
      (outcomes[k] == ImmutableBuffer <==>
        calls[k].Writes() && SealedBefore(calls, k, calls[k].b.data, old(calls[k].b.data.immutable)))
    ensures forall d :: d in storages ==> Kept(d)
  {
    outcomes := [];
    for k := 0 to |calls|
      invariant AllValid(storages) && |outcomes| == k
      invariant forall d :: d in storages ==> d.immutable == SealedBefore(calls, k, d, old(d.immutable)) && Kept(d)
      invariant forall j :: 0 <= j < k ==>
        (outcomes[j] == ImmutableBuffer <==>
          calls[j].Writes() && SealedBefore(calls, j, calls[j].b.data, old(calls[j].b.data.immutable)))
    {
      var r := Perform(calls[k]);
      outcomes := outcomes + [r];
    }
  }

  // ----- what writes mean to other views -----

  /** A write at a place in one view is that write in the view's own contents. */
  lemma WriteSeenThroughView(bytes: seq<Byte>, b: Buffer, at: nat, src: seq<Byte>)
    requires b.offset + b.size <= |bytes| && at + |src| <= b.size
    ensures Window(b, Written(bytes, b.offset + at, src)) == Written(Window(b, bytes), at, src)
  {
    WindowWritten(bytes, b.offset, b.size, at, src);
  }

  /** A write through one view leaves every disjoint view of the storage as it was. */
  lemma DisjointUnaffected(bytes: seq<Byte>, b: Buffer, other: Buffer, at: nat, src: seq<Byte>)
    requires other.data == b.data && !Overlapping(b, other)
    requires b.offset + b.size <= |bytes| && other.offset + other.size <= |bytes| && at + |src| <= b.size
    ensures Window(other, Written(bytes, b.offset + at, src)) == Window(other, bytes)
  {
    var now, was := Window(other, Written(bytes, b.offset + at, src)), Window(other, bytes);
    forall k | 0 <= k < other.size ensures now[k] == was[k] {
      assert now[k] == Written(bytes, b.offset + at, src)[other.offset + k];
    }
  }

  /** Whatever is written through one view, any other view of the storage reads it at every byte they share. */
  lemma OverlapSeesWrite(bytes: seq<Byte>, b: Buffer, other: Buffer, at: nat, src: seq<Byte>, i: nat)
    requires other.data == b.data && Owns(b, i) && Owns(other, i)
    requires b.offset + b.size <= |bytes| && other.offset + other.size <= |bytes| && at + |src| <= b.size
    ensures i - other.offset < |Window(other, Written(bytes, b.offset + at, src))| == |Window(other, bytes)|
    ensures Window(other, Written(bytes, b.offset + at, src))[i - other.offset]
      == if b.offset + at <= i < b.offset + at + |src| then src[i - b.offset - at]
         else Window(other, bytes)[i - other.offset]
  {
    assert Window(other, Written(bytes, b.offset + at, src))[i - other.offset]
        == Written(bytes, b.offset + at, src)[i];
  }

  // ----- forking -----

  datatype ForkResult = Forked(views: seq<Buffer>) | AcrossStorages | ForkFailed

  function Moved(views: seq<Buffer>, data: Storage, id: nat): (r: seq<Buffer>)
    ensures |r| == |views|
    ensures forall i :: 0 <= i < |r| ==> r[i] == Buffer(id + i, data, views[i].offset, views[i].size)
  {
    seq(|views|, i requires 0 <= i < |views| => Buffer(id + i, data, views[i].offset, views[i].size))
  }

  method ForkViews(views: seq<Buffer>, copyContents: bool, nextId: nat) returns (r: ForkResult)
    requires forall i :: 0 <= i < |views| ==> views[i].data.Valid() && Inside(views[i])
    ensures r == AcrossStorages <==> exists i :: 0 <= i < |views| && views[i].data != views[0].data
    ensures r == ForkFailed <==>
      r != AcrossStorages && views != [] && copyContents && views[0].data.present && !views[0].data.canAllocate
    ensures r.Forked? ==> |r.views| == |views| && forall i :: 0 <= i < |views| ==> r.views[i].id == nextId + i
    ensures r.Forked? ==> forall i :: 0 <= i < |views| ==> r.views[i].data == r.views[0].data
    ensures r.Forked? && views != [] ==>
      var d, o := r.views[0].data, views[0].data;
      && d.allocator == o.allocator && d.totalSize == o.totalSize && d.zeroInit == o.zeroInit
        && d.canAllocate == o.canAllocate
      && d.present == (copyContents && o.present) && (d.present ==> d.bytes == o.bytes)
    ensures r.Forked? ==> forall i :: 0 <= i < |views| ==>
      var v := r.views[i];
        fresh(v.data) && v.data.Valid() && !v.data.immutable && Inside(v)
        && v.offset == views[i].offset && v.size == views[i].size
    ensures r.Forked? ==> forall i, j :: 0 <= i < |views| && 0 <= j < |views| ==>
      (Overlapping(r.views[i], r.views[j]) <==> Overlapping(views[i], views[j]))
    ensures r.Forked? && copyContents ==> forall i :: 0 <= i < |views| && views[i].data.present ==>
      r.views[i].data.present && Contents(r.views[i]) == Contents(views[i])
  {
    if views == [] { return Forked([]); }
    var data := views[0].data;
    if exists i :: 0 <= i < |views| && views[i].data != data { return AcrossStorages; }
    var copy, ok := CopyStorage(data, copyContents && data.present);
    if !ok { return ForkFailed; }
    r := Forked(Moved(views, copy, nextId));
  }

  /** A storage like `data`, allocated and filled if asked. */
  method CopyStorage(data: Storage, fill: bool) returns (copy: Storage, ok: bool)
    requires data.Valid() && (fill ==> data.present)
    ensures fresh(copy) && copy.Valid() && !copy.immutable
    ensures copy.allocator == data.allocator && copy.totalSize == data.totalSize
    ensures copy.zeroInit == data.zeroInit && copy.canAllocate == data.canAllocate
    ensures ok <==> !fill || data.canAllocate
    ensures ok ==> copy.present == fill && (fill ==> copy.bytes == data.bytes)
  {
    ok := true;
    copy := new Storage(data.allocator, data.totalSize, data.zeroInit, data.canAllocate);
    if fill {
      ok := copy.EnsureAllocated();
      if ok { copy.bytes := data.bytes; }
    }
  }
}
