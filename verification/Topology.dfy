/** Device queues, resources and operations of the HCQ topology, and the memory
    effect of one scheduled command. */
module Topology {

  datatype Option<+T> = None | Some(value: T)

  datatype DeviceSpec =
    | Cpu
    | Cuda(deviceId: nat)
    | Amd(deviceId: nat)
    | Metal(deviceId: nat)
    | WebGpu
    | Disk(path: string)

  datatype QueueKind = ComputeQueue(number: nat) | CopyQueue(number: nat)

  datatype DeviceQueue = DeviceQueue(device: DeviceSpec, queue: QueueKind)

  datatype Resource = Resource(id: nat, owner: DeviceSpec, start: nat, end: nat)
  {
    predicate Overlaps(other: Resource) {
      id == other.id && owner == other.owner && start < other.end && other.start < end
    }

    predicate Covers(l: Location) {
      id == l.id && owner == l.owner && start <= l.byte < end
    }
  }

  datatype OperationKind = Execute | Copy(src: Resource, dst: Resource, bytes: nat)

  datatype Operation = Operation(
    operation: nat, lane: DeviceQueue, readSet: seq<Resource>, writeSet: seq<Resource>, kind: OperationKind)

  datatype CopyLeg = Direct | ToHost | FromHost

  datatype Command = Command(operation: nat, copyLeg: Option<CopyLeg>)

  /** One operation, or one leg of a staged copy, before queues are merged.
      `bytes` is the length an executor looks up under the operation's id. */
  datatype Expanded = Expanded(
    operation: nat, lane: DeviceQueue, readSet: seq<Resource>, writeSet: seq<Resource>, leg: Option<CopyLeg>,
      bytes: nat)
  {
    function ToCommand(): Command { Command(operation, leg) }
  }

  predicate AnyOverlap(xs: seq<Resource>, ys: seq<Resource>) {
    exists x, y :: x in xs && y in ys && x.Overlaps(y)
  }

  predicate Hazard(a: Expanded, b: Expanded) {
    AnyOverlap(a.writeSet, b.readSet) || AnyOverlap(a.readSet, b.writeSet) || AnyOverlap(a.writeSet, b.writeSet)
  }

  // ----- memory -----

  datatype Location = Location(owner: DeviceSpec, id: nat, byte: nat)

  /** Every byte of every resource, on all devices. */
  type Memory = m: imap<Location, int> | forall l: Location :: l in m
    ghost witness (imap l: Location :: 0)

  /** What kernel `operation` computes from the bytes it declares. */
  type Kernels = (nat, Memory) -> Memory

  ghost predicate Touches(rs: seq<Resource>, l: Location) {
    exists r :: r in rs && r.Covers(l)
  }

  /** The only memory a command sees: its declared resources. */
  ghost function Declared(readSet: seq<Resource>, writeSet: seq<Resource>, m: Memory): Memory {
    imap l: Location :: if Touches(readSet, l) || Touches(writeSet, l) then m[l] else 0
  }

  ghost function RunKernel(k: Kernels, operation: nat, readSet: seq<Resource>, writeSet: seq<Resource>, m: Memory):
      Memory {
    imap l: Location :: if Touches(writeSet, l) then k(operation, Declared(readSet, writeSet, m))[l] else m[l]
  }

  /** Byte i of a resource; a copy sees nothing beyond the declared end. */
  ghost function ByteOf(r: Resource, i: nat, m: Memory): int {
    if r.start + i < r.end then m[Location(r.owner, r.id, r.start + i)] else 0
  }

  /** Byte i of `dst` becomes byte i of `src`, for i < bytes. */
  ghost function RunCopy(src: Resource, dst: Resource, bytes: nat, m: Memory): Memory {
    imap l: Location ::
      if dst.Covers(l) && l.byte - dst.start < bytes then ByteOf(src, l.byte - dst.start, m) else m[l]
  }

  ghost predicate IsLeg(e: Expanded) {
    e.leg.Some? && |e.readSet| == 1 && |e.writeSet| == 1
  }

  ghost function Run(k: Kernels, e: Expanded, m: Memory): Memory {
    if IsLeg(e) then RunCopy(e.readSet[0], e.writeSet[0], e.bytes, m)
    else RunKernel(k, e.operation, e.readSet, e.writeSet, m)
  }

  lemma OverlapFromLocation(xs: seq<Resource>, ys: seq<Resource>, l: Location)
    requires Touches(xs, l) && Touches(ys, l)
    ensures AnyOverlap(xs, ys)
  {
    var x :| x in xs && x.Covers(l);
    var y :| y in ys && y.Covers(l);
    assert x.Overlaps(y);
  }

  /** A command changes declared writeSet only, and its result depends on its declared resources only. */
  lemma RunFootprint(k: Kernels, e: Expanded, m: Memory, m': Memory, l: Location)
    ensures !Touches(e.writeSet, l) ==> Run(k, e, m)[l] == m[l]
    ensures Declared(e.readSet, e.writeSet, m) == Declared(e.readSet, e.writeSet, m') && Touches(e.writeSet, l)
      ==> Run(k, e, m)[l] == Run(k, e, m')[l]
  {
    if IsLeg(e) {
      var src, dst := e.readSet[0], e.writeSet[0];
      assert dst in e.writeSet && e.writeSet == [dst];
      if Declared(e.readSet, e.writeSet, m) == Declared(e.readSet, e.writeSet, m') && Touches(e.writeSet, l) {
        var from := Location(src.owner, src.id, src.start + (l.byte - dst.start));
        DeclaredAlike(e.readSet, e.writeSet, m, m', l);
        DeclaredAlike(e.readSet, e.writeSet, m, m', from);
        assert src in e.readSet && (src.Covers(from) ==> Touches(e.readSet, from));
      }
    }
  }

  lemma DeclaredAlike(readSet: seq<Resource>, writeSet: seq<Resource>, m: Memory, m': Memory, l: Location)
    requires Declared(readSet, writeSet, m) == Declared(readSet, writeSet, m')
    ensures Touches(readSet, l) || Touches(writeSet, l) ==> m[l] == m'[l]
  {
    assert Declared(readSet, writeSet, m)[l] == Declared(readSet, writeSet, m')[l];
  }

  lemma DeclaredUnchanged(k: Kernels, a: Expanded, b: Expanded, m: Memory)
    requires !Hazard(a, b)
    ensures Declared(b.readSet, b.writeSet, Run(k, a, m)) == Declared(b.readSet, b.writeSet, m)
  {
    forall l: Location | Touches(b.readSet, l) || Touches(b.writeSet, l)
      ensures Run(k, a, m)[l] == m[l]
    {
      if Touches(a.writeSet, l) {
        if Touches(b.readSet, l) { OverlapFromLocation(a.writeSet, b.readSet, l); }
        if Touches(b.writeSet, l) { OverlapFromLocation(a.writeSet, b.writeSet, l); }
      }
      RunFootprint(k, a, m, m, l);
    }
  }

  lemma HazardSymmetric(a: Expanded, b: Expanded)
    ensures Hazard(a, b) == Hazard(b, a)
  {
    assert forall x: Resource, y: Resource :: x.Overlaps(y) == y.Overlaps(x);
  }

  /** A location that one of the commands writes and the other reads or writes. */
  ghost predicate Conflict(a: Expanded, b: Expanded, l: Location) {
    || (Touches(a.writeSet, l) && (Touches(b.readSet, l) || Touches(b.writeSet, l)))
    || (Touches(b.writeSet, l) && Touches(a.readSet, l))
  }

  ghost predicate NoneEmpty(rs: seq<Resource>) {
    forall r :: r in rs ==> r.start < r.end
  }

  /** Between commands that name no empty resource, a hazard is a conflict at some byte, and nothing else is one. */
  lemma HazardIsConflict(a: Expanded, b: Expanded)
    requires NoneEmpty(a.readSet) && NoneEmpty(a.writeSet) && NoneEmpty(b.readSet) && NoneEmpty(b.writeSet)
    ensures Hazard(a, b) <==> exists l :: Conflict(a, b, l)
  {
    if l :| Conflict(a, b, l) {
      if Touches(a.writeSet, l) && Touches(b.readSet, l) { OverlapFromLocation(a.writeSet, b.readSet, l); }
      if Touches(a.writeSet, l) && Touches(b.writeSet, l) { OverlapFromLocation(a.writeSet, b.writeSet, l); }
      if Touches(b.writeSet, l) && Touches(a.readSet, l) { OverlapFromLocation(a.readSet, b.writeSet, l); }
    }
    if Hazard(a, b) {
      var l: Location;
      if AnyOverlap(a.writeSet, b.readSet) {
        l := SharedLocation(a.writeSet, b.readSet);
      } else if AnyOverlap(a.readSet, b.writeSet) {
        l := SharedLocation(a.readSet, b.writeSet);
      } else {
        l := SharedLocation(a.writeSet, b.writeSet);
      }
      assert Conflict(a, b, l);
    }
  }

  lemma SharedLocation(xs: seq<Resource>, ys: seq<Resource>) returns (l: Location)
    requires AnyOverlap(xs, ys) && NoneEmpty(xs) && NoneEmpty(ys)
    ensures Touches(xs, l) && Touches(ys, l)
  {
    var x, y :| x in xs && y in ys && x.Overlaps(y);
    l := Location(x.owner, x.id, if x.start < y.start then y.start else x.start);
    assert x.Covers(l) && y.Covers(l);
  }

  /** Two commands without a read/write hazard may run in either order. */
  lemma Commute(k: Kernels, a: Expanded, b: Expanded, m: Memory)
    requires !Hazard(a, b)
    ensures Run(k, b, Run(k, a, m)) == Run(k, a, Run(k, b, m))
  {
    var ab, ba := Run(k, b, Run(k, a, m)), Run(k, a, Run(k, b, m));
    forall l: Location ensures ab[l] == ba[l] { CommuteAt(k, a, b, m, l); }
  }

  lemma CommuteAt(k: Kernels, a: Expanded, b: Expanded, m: Memory, l: Location)
    requires !Hazard(a, b)
    ensures Run(k, b, Run(k, a, m))[l] == Run(k, a, Run(k, b, m))[l]
  {
    HazardSymmetric(a, b);
    DeclaredUnchanged(k, a, b, m);
    DeclaredUnchanged(k, b, a, m);
    RunFootprint(k, a, m, Run(k, b, m), l);
    RunFootprint(k, b, m, Run(k, a, m), l);
    RunFootprint(k, a, Run(k, b, m), m, l);
    RunFootprint(k, b, Run(k, a, m), m, l);
    if Touches(a.writeSet, l) && Touches(b.writeSet, l) { OverlapFromLocation(a.writeSet, b.writeSet, l); }
  }
}
