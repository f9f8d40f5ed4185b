/** The lane scheduler: expand copies into legs, derive cross-lane waits,
    merge adjacent submissions, and move every wait to a published boundary. */
module Scheduler {
  import opened Topology

  /** Waits are keyed by lane: the order in which a submission tests them is immaterial. */
  datatype LaneSubmission = LaneSubmission(
    lane: DeviceQueue, waits: map<DeviceQueue, nat>, commands: seq<Command>, signalValue: nat)

  /** Zero means unlimited. */
  datatype MergeLimits = MergeLimits(maxSubmissions: nat, maxCommands: nat)

  type Access = (DeviceSpec, DeviceSpec) -> bool

  const U64_MAX: nat := 0xFFFF_FFFF_FFFF_FFFF

  // ----- expansion -----

  function StageId(operation: nat): nat {
    if operation <= U64_MAX then U64_MAX - operation else 0
  }

  function Stage(operation: nat, bytes: nat): Resource {
    Resource(StageId(operation), Cpu, 0, if bytes >= 1 then bytes else 1)
  }

  predicate IsStaged(op: Operation, canAccess: Access) {
    op.kind.Copy? && !(canAccess(op.lane.device, op.kind.src.owner) && canAccess(op.lane.device, op.kind.dst.owner))
  }

  function Legs(op: Operation, canAccess: Access): seq<Expanded> {
    match op.kind
    case Execute => [Expanded(op.operation, op.lane, op.readSet, op.writeSet, None, 0)]
    case Copy(src, dst, bytes) =>
      if IsStaged(op, canAccess) then
        var stage := Stage(op.operation, bytes);
        [ Expanded(op.operation, DeviceQueue(src.owner, CopyQueue(0)), [src], [stage], Some(ToHost), bytes),
          Expanded(op.operation, DeviceQueue(dst.owner, CopyQueue(0)), [stage], [dst], Some(FromHost), bytes)]
      else [Expanded(op.operation, op.lane, [src], [dst], Some(Direct), bytes)]
  }

  function Expand(ops: seq<Operation>, canAccess: Access): seq<Expanded> {
    if ops == [] then [] else Expand(ops[..|ops| - 1], canAccess) + Legs(ops[|ops| - 1], canAccess)
  }

  // ----- where the expanded commands run -----

  /** Every device accesses its own memory. */
  ghost predicate AccessesItself(canAccess: Access) {
    forall device :: canAccess(device, device)
  }

  /** The resources a command names, apart from the host stage of its operation. */
  predicate Names(e: Expanded, r: Resource) {
    (r in e.readSet || r in e.writeSet) && !(r.owner == Cpu && r.id == StageId(e.operation))
  }

  /** A copy's command runs where its operation does when that device reaches both ends, and otherwise on the copy
      queue of the device whose memory it moves; either way it may access what it names. */
  ghost predicate CopyPlaced(e: Expanded, op: Operation, canAccess: Access)
    requires op.kind.Copy?
  {
    && (forall r :: Names(e, r) ==> canAccess(e.lane.device, r.owner))
    && (canAccess(op.lane.device, op.kind.src.owner) && canAccess(op.lane.device, op.kind.dst.owner) ==>
          e.leg == Some(Direct) && e.lane == op.lane && e.readSet == [op.kind.src] && e.writeSet == [op.kind.dst])
    && (!(canAccess(op.lane.device, op.kind.src.owner) && canAccess(op.lane.device, op.kind.dst.owner)) ==>
          && e.lane.queue == CopyQueue(0)
          && ((e.leg == Some(ToHost) && e.readSet == [op.kind.src] && e.lane.device == op.kind.src.owner)
              || (e.leg == Some(FromHost) && e.writeSet == [op.kind.dst] && e.lane.device == op.kind.dst.owner)))
  }

  ghost predicate Placed(e: Expanded, op: Operation, canAccess: Access) {
    && e.operation == op.operation
    && if op.kind.Copy? then CopyPlaced(e, op, canAccess)
       else e.leg == None && e.lane == op.lane && e.readSet == op.readSet && e.writeSet == op.writeSet
  }

  /** Every expanded command belongs to one of the operations, and runs where that operation allows. */
  lemma {:induction false} EveryCommandPlaced(ops: seq<Operation>, canAccess: Access, i: nat) returns (k: nat)
    requires AccessesItself(canAccess) && i < |Expand(ops, canAccess)|
    ensures k < |ops| && Placed(Expand(ops, canAccess)[i], ops[k], canAccess)
  {
    var init := ops[..|ops| - 1];
    if i < |Expand(init, canAccess)| { k := EveryCommandPlaced(init, canAccess, i); } else { k := |ops| - 1; }
  }

  /** Different operations stage in different memory of the host, under ids that count down from the largest, with
      room for exactly the bytes copied, or for one where there are none. */
  lemma StagesApart(a: nat, b: nat, bytes: nat, more: nat)
    requires a <= U64_MAX && b <= U64_MAX
    ensures Stage(a, bytes).Overlaps(Stage(b, more)) <==> a == b
    ensures var s := Stage(a, bytes);
      && s.owner == Cpu && a + s.id == 0xFFFF_FFFF_FFFF_FFFF && s.start == 0
      && s.end >= 1 && s.end >= bytes && (s.end == 1 || s.end == bytes)
  {
  }

  // ----- what a schedule is -----

  /** Commands of `lane` among the first n: the lane's logical clock. */
  function LaneCount(es: seq<Expanded>, n: nat, lane: DeviceQueue): nat
    requires n <= |es|
  {
    if n == 0 then 0 else LaneCount(es, n - 1, lane) + if es[n - 1].lane == lane then 1 else 0
  }

  function LaneValue(es: seq<Expanded>, k: nat): nat
    requires k < |es|
  {
    LaneCount(es, k + 1, es[k].lane)
  }

  /** b must not overtake a, and no single queue keeps them in order. */
  predicate CrossHazard(es: seq<Expanded>, a: int, b: int) {
    0 <= a < b < |es| && es[a].lane != es[b].lane && Hazard(es[a], es[b])
  }

  /** `waits` holds exactly the lanes that commands [lo, hi) depend on, each at the
      logical value of its latest producer. */
  ghost predicate LogicalWaits(es: seq<Expanded>, lo: nat, hi: nat, waits: map<DeviceQueue, nat>)
    requires hi <= |es|
  {
    && (forall lane :: lane in waits ==>
          exists a, b :: lo <= b < hi && CrossHazard(es, a, b) && es[a].lane == lane && waits[lane] == LaneValue(es, a))
    && (forall a, b :: lo <= b < hi && CrossHazard(es, a, b) ==>
          es[a].lane in waits && LaneValue(es, a) <= waits[es[a].lane])
  }

  ghost predicate Partition(bounds: seq<nat>, n: nat, blocks: nat) {
    && |bounds| == blocks + 1 && bounds[0] == 0 && bounds[blocks] == n
    && forall i, j :: 0 <= i < j <= blocks ==> bounds[i] < bounds[j]
  }

  predicate InBlock(bounds: seq<nat>, j: int, c: int) {
    0 <= j < |bounds| - 1 && bounds[j] <= c < bounds[j + 1]
  }

  /** `sub` runs commands lo..hi, all of its own lane, and publishes the logical value of the last one. */
  ghost predicate IsBlock(es: seq<Expanded>, sub: LaneSubmission, lo: nat, hi: nat) {
    && lo < hi <= |es|
    && (forall c :: lo <= c < hi ==> es[c].lane == sub.lane)
    && |sub.commands| == hi - lo
    && (forall i :: 0 <= i < hi - lo ==> sub.commands[i] == es[lo + i].ToCommand())
    && sub.signalValue == LaneValue(es, hi - 1)
  }

  /** Submission j is the run bounds[j]..bounds[j+1] of the first n expanded commands. */
  ghost predicate Blocks(es: seq<Expanded>, n: nat, subs: seq<LaneSubmission>, bounds: seq<nat>) {
    && n <= |es| && Partition(bounds, n, |subs|)
    && forall j :: 0 <= j < |subs| ==> IsBlock(es, subs[j], bounds[j], bounds[j + 1])
  }

  predicate WithinLimits(sub: LaneSubmission, limits: MergeLimits) {
    && (limits.maxSubmissions == 0 || |sub.commands| <= limits.maxSubmissions)
    && (limits.maxCommands == 0 || |sub.commands| <= limits.maxCommands)
  }

  /** Two neighbours stay apart only on different lanes or at a limit. */
  predicate MustSplit(left: LaneSubmission, right: LaneSubmission, limits: MergeLimits) {
    left.lane != right.lane || limits.maxSubmissions == |left.commands| || limits.maxCommands == |left.commands|
  }

  predicate GreedilyMerged(subs: seq<LaneSubmission>, limits: MergeLimits) {
    && (forall j :: 0 <= j < |subs| ==> WithinLimits(subs[j], limits))
    && forall j :: 0 < j < |subs| ==> MustSplit(subs[j - 1], subs[j], limits)
  }

  /** a, in submission i, must happen before b, in submission j. */
  predicate Dependency(es: seq<Expanded>, bounds: seq<nat>, i: int, a: int, j: int, b: int) {
    InBlock(bounds, i, a) && InBlock(bounds, j, b) && CrossHazard(es, a, b)
  }

  /** `waits` names exactly the lanes submission j depends on, each at the value
      published by the last submission it depends on there. */
  ghost predicate PublishedWaits(
    es: seq<Expanded>, subs: seq<LaneSubmission>, bounds: seq<nat>, j: nat, waits: map<DeviceQueue, nat>)
    requires j < |subs| && |bounds| == |subs| + 1
  {
    && (forall lane :: lane in waits ==>
          exists i, a, b :: Dependency(es, bounds, i, a, j, b) && subs[i].lane == lane
            && waits[lane] == subs[i].signalValue)
    && (forall i, a, b :: Dependency(es, bounds, i, a, j, b) ==>
          subs[i].lane in waits && subs[i].signalValue <= waits[subs[i].lane])
  }

  ghost predicate IsSchedule(es: seq<Expanded>, limits: MergeLimits, subs: seq<LaneSubmission>, bounds: seq<nat>) {
    && Blocks(es, |es|, subs, bounds)
    && GreedilyMerged(subs, limits)
    && forall j :: 0 <= j < |subs| ==> PublishedWaits(es, subs, bounds, j, subs[j].waits)
  }

  ghost predicate HasSchedule(es: seq<Expanded>, limits: MergeLimits, subs: seq<LaneSubmission>) {
    exists bounds :: IsSchedule(es, limits, subs, bounds)
  }

  // ----- the logical clock -----

  lemma {:induction false} LaneCountMonotone(es: seq<Expanded>, m: nat, n: nat, lane: DeviceQueue)
    requires m <= n <= |es|
    ensures LaneCount(es, m, lane) <= LaneCount(es, n, lane)
  {
    if m < n { LaneCountMonotone(es, m, n - 1, lane); }
  }

  /** On one lane, logical values grow exactly with program order. */
  lemma LaneValueOrder(es: seq<Expanded>, a: nat, b: nat)
    requires a < |es| && b < |es| && es[a].lane == es[b].lane
    ensures LaneValue(es, a) <= LaneValue(es, b) <==> a <= b
  {
    if a < b {
      LaneCountMonotone(es, a + 1, b, es[a].lane);
    } else if b < a {
      LaneCountMonotone(es, b + 1, a, es[a].lane);
    }
  }

  lemma {:induction false} BlockOf(bounds: seq<nat>, n: nat, blocks: nat, c: nat) returns (j: nat)
    requires Partition(bounds, n, blocks) && c < n
    ensures InBlock(bounds, j, c) && j < blocks
  {
    j := blocks - 1;
    while bounds[j] > c
      invariant j < blocks && c < bounds[j + 1]
    {
      j := j - 1;
    }
  }

  // ----- the four passes -----

  method ExpandOperations(ops: seq<Operation>, canAccess: Access) returns (expanded: seq<Expanded>)
    ensures expanded == Expand(ops, canAccess)
  {
    expanded := [];
    for i := 0 to |ops|
      invariant expanded == Expand(ops[..i], canAccess)
    {
      assert ops[..i + 1][..i] == ops[..i];
      expanded := expanded + Legs(ops[i], canAccess);
    }
    assert ops[..|ops|] == ops;
  }

  /** The waits of command k: per other lane, the largest value among hazardous producers. */
  method LatestProducers(es: seq<Expanded>, raw: seq<LaneSubmission>, k: nat) returns (latest: map<DeviceQueue, nat>)
    requires k == |raw| < |es|
    requires forall i :: 0 <= i < k ==> raw[i].signalValue == LaneValue(es, i)
    ensures LogicalWaits(es, k, k + 1, latest)
  {
    latest := map[];
    for p := 0 to k
      invariant forall lane :: lane in latest ==>
        exists a :: a < p && CrossHazard(es, a, k) && es[a].lane == lane && latest[lane] == LaneValue(es, a)
      invariant forall a :: a < p && CrossHazard(es, a, k) ==>
        es[a].lane in latest && LaneValue(es, a) <= latest[es[a].lane]
    {
      if es[p].lane != es[k].lane && Hazard(es[p], es[k]) {
        assert CrossHazard(es, p, k);
        var producer := raw[p].signalValue;
        if es[p].lane !in latest || latest[es[p].lane] < producer {
          latest := latest[es[p].lane := producer];
        }
      }
    }
    forall lane | lane in latest
      ensures exists a, b ::
        k <= b < k + 1 && CrossHazard(es, a, b) && es[a].lane == lane
        && latest[lane] == LaneValue(es, a)
    {
      var a :| a < k && CrossHazard(es, a, k) && es[a].lane == lane && latest[lane] == LaneValue(es, a);
    }
  }

  ghost predicate IsRaw(es: seq<Expanded>, raw: seq<LaneSubmission>, k: nat)
    requires k < |es| && k < |raw|
  {
    && raw[k].lane == es[k].lane && raw[k].commands == [es[k].ToCommand()]
    && raw[k].signalValue == LaneValue(es, k) && LogicalWaits(es, k, k + 1, raw[k].waits)
  }

  method DeriveRaw(es: seq<Expanded>) returns (raw: seq<LaneSubmission>)
    ensures |raw| == |es| && forall k :: 0 <= k < |es| ==> IsRaw(es, raw, k)
  {
    var sequence: map<DeviceQueue, nat> := map[];
    raw := [];
    for k := 0 to |es|
      invariant |raw| == k && forall i :: 0 <= i < k ==> IsRaw(es, raw, i)
      invariant forall lane :: LaneCount(es, k, lane) == if lane in sequence then sequence[lane] else 0
    {
      forall i | 0 <= i < k ensures raw[i].signalValue == LaneValue(es, i) { assert IsRaw(es, raw, i); }
      var value := (if es[k].lane in sequence then sequence[es[k].lane] else 0) + 1;
      sequence := sequence[es[k].lane := value];
      var waits := LatestProducers(es, raw, k);
      OneMoreRaw(es, raw, k, LaneSubmission(es[k].lane, waits, [es[k].ToCommand()], value));
      raw := raw + [LaneSubmission(es[k].lane, waits, [es[k].ToCommand()], value)];
    }
  }

  lemma OneMoreRaw(es: seq<Expanded>, raw: seq<LaneSubmission>, k: nat, sub: LaneSubmission)
    requires |raw| == k < |es| && forall i :: 0 <= i < k ==> IsRaw(es, raw, i)
    requires sub.lane == es[k].lane && sub.commands == [es[k].ToCommand()] && sub.signalValue == LaneValue(es, k)
    requires LogicalWaits(es, k, k + 1, sub.waits)
    ensures forall i :: 0 <= i <= k ==> IsRaw(es, raw + [sub], i)
  {
    forall i | 0 <= i < k ensures IsRaw(es, raw + [sub], i) { assert IsRaw(es, raw, i) && (raw + [sub])[i] == raw[i]; }
  }

  function MergeWaits(a: map<DeviceQueue, nat>, b: map<DeviceQueue, nat>): map<DeviceQueue, nat> {
    map lane | lane in a.Keys + b.Keys ::
      if lane in b && (lane !in a || a[lane] < b[lane]) then b[lane] else a[lane]
  }

  lemma MergeLogicalWaits(es: seq<Expanded>, lo: nat, mid: nat, hi: nat, a: map<DeviceQueue, nat>,
      b: map<DeviceQueue, nat>)
    requires lo <= mid <= hi <= |es| && LogicalWaits(es, lo, mid, a) && LogicalWaits(es, mid, hi, b)
    ensures LogicalWaits(es, lo, hi, MergeWaits(a, b))
  {
    var w := MergeWaits(a, b);
    forall lane | lane in w
      ensures exists x, y :: lo <= y < hi && CrossHazard(es, x, y) && es[x].lane == lane && w[lane] == LaneValue(es, x)
    {
      MergedProducer(es, lo, mid, hi, a, b, lane);
    }
    forall x, y | lo <= y < hi && CrossHazard(es, x, y) ensures es[x].lane in w && LaneValue(es, x) <= w[es[x].lane] {
      if y < mid { assert es[x].lane in a; } else { assert es[x].lane in b; }
    }
  }

  lemma MergedProducer(
    es: seq<Expanded>, lo: nat, mid: nat, hi: nat, a: map<DeviceQueue, nat>, b: map<DeviceQueue, nat>,
      lane: DeviceQueue)
    requires lo <= mid <= hi <= |es| && LogicalWaits(es, lo, mid, a) && LogicalWaits(es, mid, hi, b)
    requires lane in MergeWaits(a, b)
    ensures exists x, y ::
      lo <= y < hi && CrossHazard(es, x, y) && es[x].lane == lane
      && MergeWaits(a, b)[lane] == LaneValue(es, x)
  {
    if lane in b && (lane !in a || a[lane] < b[lane]) {
      var x, y :| mid <= y < hi && CrossHazard(es, x, y) && es[x].lane == lane && b[lane] == LaneValue(es, x);
      assert lo <= y;
    } else {
      var x, y :| lo <= y < mid && CrossHazard(es, x, y) && es[x].lane == lane && a[lane] == LaneValue(es, x);
      assert y < hi;
    }
  }

  ghost predicate LogicalBlocks(es: seq<Expanded>, n: nat, subs: seq<LaneSubmission>, bounds: seq<nat>) {
    && Blocks(es, n, subs, bounds)
    && forall j :: 0 <= j < |subs| ==> LogicalWaits(es, bounds[j], bounds[j + 1], subs[j].waits)
  }

  function Join(last: LaneSubmission, next: LaneSubmission): LaneSubmission {
    LaneSubmission(last.lane, MergeWaits(last.waits, next.waits), last.commands + next.commands, next.signalValue)
  }

  /** The state of the merge pass after n raw submissions. */
  ghost predicate MergeState(
    es: seq<Expanded>, n: nat, limits: MergeLimits, subs: seq<LaneSubmission>, bounds: seq<nat>, counts: seq<nat>)
  {
    && LogicalBlocks(es, n, subs, bounds) && GreedilyMerged(subs, limits)
    && |counts| == |subs| && forall j :: 0 <= j < |subs| ==> counts[j] == |subs[j].commands|
  }

  predicate MayAppend(last: LaneSubmission, count: nat, next: LaneSubmission, limits: MergeLimits) {
    && last.lane == next.lane
    && (limits.maxSubmissions == 0 || count < limits.maxSubmissions)
    && (limits.maxCommands == 0 || |last.commands| + |next.commands| <= limits.maxCommands)
  }

  lemma JoinIsBlock(es: seq<Expanded>, k: nat, raw: seq<LaneSubmission>, last: LaneSubmission, lo: nat)
    requires k < |raw| == |es| && IsRaw(es, raw, k) && IsBlock(es, last, lo, k) && last.lane == raw[k].lane
    ensures IsBlock(es, Join(last, raw[k]), lo, k + 1)
  {
  }

  lemma JoinBlocks(es: seq<Expanded>, k: nat, raw: seq<LaneSubmission>, subs: seq<LaneSubmission>, bounds: seq<nat>)
    requires k < |raw| == |es| && IsRaw(es, raw, k) && LogicalBlocks(es, k, subs, bounds)
    requires subs != [] && subs[|subs| - 1].lane == raw[k].lane
    ensures var j := |subs| - 1;
      LogicalBlocks(es, k + 1, subs[j := Join(subs[j], raw[k])], bounds[j + 1 := k + 1])
  {
    var j := |subs| - 1;
    var subs', bounds' := subs[j := Join(subs[j], raw[k])], bounds[j + 1 := k + 1];
    JoinLast(es, k, raw, subs[j], bounds[j]);
    forall i | 0 <= i < |subs| ensures BlockHolds(es, subs'[i], bounds'[i], bounds'[i + 1]) {
      assert bounds'[i] == bounds[i];
      if i < j {
        assert subs'[i] == subs[i] && bounds'[i + 1] == bounds[i + 1];
        assert BlockHolds(es, subs[i], bounds[i], bounds[i + 1]);
      }
    }
  }

  ghost predicate BlockHolds(es: seq<Expanded>, sub: LaneSubmission, lo: nat, hi: nat) {
    IsBlock(es, sub, lo, hi) && LogicalWaits(es, lo, hi, sub.waits)
  }

  lemma JoinLast(es: seq<Expanded>, k: nat, raw: seq<LaneSubmission>, last: LaneSubmission, lo: nat)
    requires k < |raw| == |es| && IsRaw(es, raw, k) && BlockHolds(es, last, lo, k) && last.lane == raw[k].lane
    ensures BlockHolds(es, Join(last, raw[k]), lo, k + 1)
  {
    MergeLogicalWaits(es, lo, k, k + 1, last.waits, raw[k].waits);
    JoinIsBlock(es, k, raw, last, lo);
  }

  lemma JoinGreedy(subs: seq<LaneSubmission>, next: LaneSubmission, limits: MergeLimits)
    requires GreedilyMerged(subs, limits) && subs != [] && |next.commands| == 1
    requires MayAppend(subs[|subs| - 1], |subs[|subs| - 1].commands|, next, limits)
    ensures var j := |subs| - 1; GreedilyMerged(subs[j := Join(subs[j], next)], limits)
  {
    var j := |subs| - 1;
    var subs' := subs[j := Join(subs[j], next)];
    forall i | 0 < i < |subs'| ensures MustSplit(subs'[i - 1], subs'[i], limits) {
      assert MustSplit(subs[i - 1], subs[i], limits);
    }
  }

  lemma JoinStep(
    es: seq<Expanded>, k: nat, limits: MergeLimits, raw: seq<LaneSubmission>, subs: seq<LaneSubmission>,
      bounds: seq<nat>,
    counts: seq<nat>)
    requires k < |raw| == |es| && IsRaw(es, raw, k) && MergeState(es, k, limits, subs, bounds, counts)
    requires subs != [] && MayAppend(subs[|subs| - 1], counts[|subs| - 1], raw[k], limits)
    ensures var j := |subs| - 1;
      MergeState(es, k + 1, limits, subs[j := Join(subs[j], raw[k])], bounds[j + 1 := k + 1],
        counts[j := counts[j] + 1])
  {
    JoinBlocks(es, k, raw, subs, bounds);
    JoinGreedy(subs, raw[k], limits);
  }

  lemma OpenStep(
    es: seq<Expanded>, k: nat, limits: MergeLimits, raw: seq<LaneSubmission>, subs: seq<LaneSubmission>,
      bounds: seq<nat>,
    counts: seq<nat>)
    requires k < |raw| == |es| && IsRaw(es, raw, k) && MergeState(es, k, limits, subs, bounds, counts)
    requires subs != [] ==> !MayAppend(subs[|subs| - 1], counts[|subs| - 1], raw[k], limits)
    ensures MergeState(es, k + 1, limits, subs + [raw[k]], bounds + [k + 1], counts + [1])
  {
    var subs', bounds' := subs + [raw[k]], bounds + [k + 1];
    assert BlockHolds(es, raw[k], k, k + 1);
    forall j | 0 <= j < |subs| ensures BlockHolds(es, subs'[j], bounds'[j], bounds'[j + 1]) {
      assert subs'[j] == subs[j] && bounds'[j] == bounds[j] && bounds'[j + 1] == bounds[j + 1];
      assert BlockHolds(es, subs[j], bounds[j], bounds[j + 1]);
    }
    OpenGreedy(es, limits, raw[k], subs, counts);
  }

  lemma OpenGreedy(es: seq<Expanded>, limits: MergeLimits, next: LaneSubmission, subs: seq<LaneSubmission>,
      counts: seq<nat>)
    requires GreedilyMerged(subs, limits) && WithinLimits(next, limits)
    requires |counts| == |subs| && forall j :: 0 <= j < |subs| ==> counts[j] == |subs[j].commands|
    requires subs != [] ==> |next.commands| == 1 && !MayAppend(subs[|subs| - 1], counts[|subs| - 1], next, limits)
    ensures GreedilyMerged(subs + [next], limits)
  {
    var subs' := subs + [next];
    forall i | 0 < i < |subs'| ensures MustSplit(subs'[i - 1], subs'[i], limits) {
      if i < |subs| { assert MustSplit(subs[i - 1], subs[i], limits); }
      else { assert WithinLimits(subs[i - 1], limits); }
    }
  }

  method MergeAdjacent(es: seq<Expanded>, raw: seq<LaneSubmission>, limits: MergeLimits)
    returns (merged: seq<LaneSubmission>, ghost bounds: seq<nat>)
    requires |raw| == |es| && forall k :: 0 <= k < |es| ==> IsRaw(es, raw, k)
    ensures LogicalBlocks(es, |es|, merged, bounds) && GreedilyMerged(merged, limits)
  {
    merged, bounds := [], [0];
    var counts: seq<nat> := [];
    for k := 0 to |raw|
      invariant MergeState(es, k, limits, merged, bounds, counts)
    {
      assert IsRaw(es, raw, k);
      var j := |merged| - 1;
      if merged != [] && MayAppend(merged[j], counts[j], raw[k], limits) {
        JoinStep(es, k, limits, raw, merged, bounds, counts);
        merged := merged[j := Join(merged[j], raw[k])];
        bounds := bounds[j + 1 := k + 1];
        counts := counts[j := counts[j] + 1];
      } else {
        OpenStep(es, k, limits, raw, merged, bounds, counts);
        merged := merged + [raw[k]];
        bounds := bounds + [k + 1];
        counts := counts + [1];
      }
    }
  }

  /** The first submission of `lane`, from `from` on, whose signal covers `value`. */
  function FindPublished(subs: seq<LaneSubmission>, from: nat, lane: DeviceQueue, value: nat): nat
    requires from <= |subs|
    decreases |subs| - from
  {
    if from == |subs| then value
    else if subs[from].lane == lane && subs[from].signalValue >= value then subs[from].signalValue
    else FindPublished(subs, from + 1, lane, value)
  }

  lemma {:induction false} FindPublishedAt(subs: seq<LaneSubmission>, from: nat, lane: DeviceQueue, value: nat, i: nat)
    requires from <= i < |subs| && subs[i].lane == lane && subs[i].signalValue >= value
    requires forall j :: from <= j < i && subs[j].lane == lane ==> subs[j].signalValue < value
    ensures FindPublished(subs, from, lane, value) == subs[i].signalValue
    decreases i - from
  {
    if from < i { FindPublishedAt(subs, from + 1, lane, value, i); }
  }

  lemma SameBlock(es: seq<Expanded>, subs: seq<LaneSubmission>, bounds: seq<nat>, i: nat, a: nat)
    requires Blocks(es, |es|, subs, bounds) && InBlock(bounds, i, a)
    ensures a < |es| && i < |subs| && es[a].lane == subs[i].lane && LaneValue(es, a) <= subs[i].signalValue
  {
    assert IsBlock(es, subs[i], bounds[i], bounds[i + 1]);
    LaneValueOrder(es, a, bounds[i + 1] - 1);
  }

  /** Signals of one lane grow with the submission order. */
  lemma SignalOrder(es: seq<Expanded>, subs: seq<LaneSubmission>, bounds: seq<nat>, i: nat, j: nat)
    requires Blocks(es, |es|, subs, bounds) && i < |subs| && j < |subs| && subs[i].lane == subs[j].lane
    ensures subs[i].signalValue <= subs[j].signalValue <==> i <= j
  {
    assert IsBlock(es, subs[i], bounds[i], bounds[i + 1]) && IsBlock(es, subs[j], bounds[j], bounds[j + 1]);
    assert i < j ==> bounds[i + 1] < bounds[j + 1];
    assert j < i ==> bounds[j + 1] < bounds[i + 1];
    LaneValueOrder(es, bounds[i + 1] - 1, bounds[j + 1] - 1);
  }

  /** The boundary covering a logical value is the end of the submission holding its command. */
  lemma PublishedBoundary(es: seq<Expanded>, subs: seq<LaneSubmission>, bounds: seq<nat>, i: nat, a: nat)
    requires Blocks(es, |es|, subs, bounds) && InBlock(bounds, i, a)
    ensures a < |es| && i < |subs| && FindPublished(subs, 0, es[a].lane, LaneValue(es, a)) == subs[i].signalValue
  {
    SameBlock(es, subs, bounds, i, a);
    forall j | 0 <= j < i && subs[j].lane == es[a].lane
      ensures subs[j].signalValue < LaneValue(es, a)
    {
      assert IsBlock(es, subs[j], bounds[j], bounds[j + 1]);
      assert j + 1 < i ==> bounds[j + 1] < bounds[i];
      LaneValueOrder(es, a, bounds[j + 1] - 1);
    }
    FindPublishedAt(subs, 0, es[a].lane, LaneValue(es, a), i);
  }

  function Published(subs: seq<LaneSubmission>, waits: map<DeviceQueue, nat>): map<DeviceQueue, nat> {
    map lane | lane in waits :: FindPublished(subs, 0, lane, waits[lane])
  }

  /** Moving the exact logical waits to published boundaries gives the exact published waits. */
  lemma PublishWaits(es: seq<Expanded>, subs: seq<LaneSubmission>, bounds: seq<nat>, j: nat,
      waits: map<DeviceQueue, nat>)
    requires Blocks(es, |es|, subs, bounds) && j < |subs| && LogicalWaits(es, bounds[j], bounds[j + 1], waits)
    ensures PublishedWaits(es, subs, bounds, j, Published(subs, waits))
  {
    var published := Published(subs, waits);
    forall lane | lane in published
      ensures exists i, a, b ::
        Dependency(es, bounds, i, a, j, b) && subs[i].lane == lane
        && published[lane] == subs[i].signalValue
    {
      var a, b :| bounds[j] <= b < bounds[j + 1] && CrossHazard(es, a, b) && es[a].lane == lane
        && waits[lane] == LaneValue(es, a);
      var i := BlockOf(bounds, |es|, |subs|, a);
      PublishedBoundary(es, subs, bounds, i, a);
      SameBlock(es, subs, bounds, i, a);
      assert Dependency(es, bounds, i, a, j, b);
    }
    forall i, a, b | Dependency(es, bounds, i, a, j, b)
      ensures subs[i].lane in published && subs[i].signalValue <= published[subs[i].lane]
    {
      PublishDependency(es, subs, bounds, i, a, j, b, waits);
    }
  }

  lemma PublishDependency(
    es: seq<Expanded>, subs: seq<LaneSubmission>, bounds: seq<nat>, i: nat, a: nat, j: nat, b: nat,
      waits: map<DeviceQueue, nat>)
    requires Blocks(es, |es|, subs, bounds) && j < |subs| && LogicalWaits(es, bounds[j], bounds[j + 1], waits)
    requires Dependency(es, bounds, i, a, j, b)
    ensures subs[i].lane in waits && subs[i].signalValue <= FindPublished(subs, 0, subs[i].lane, waits[subs[i].lane])
  {
    var lane := es[a].lane;
    SameBlock(es, subs, bounds, i, a);
    var a', b' :| bounds[j] <= b' < bounds[j + 1] && CrossHazard(es, a', b') && es[a'].lane == lane
      && waits[lane] == LaneValue(es, a');
    var i' := BlockOf(bounds, |es|, |subs|, a');
    SameBlock(es, subs, bounds, i', a');
    PublishedBoundary(es, subs, bounds, i', a');
    LaneValueOrder(es, a, a');
    SignalOrder(es, subs, bounds, i, i');
  }

  /** Rewriting waits touches neither lanes, commands nor signals. */
  ghost predicate SameBoundaries(subs: seq<LaneSubmission>, subs': seq<LaneSubmission>) {
    |subs| == |subs'| && forall i :: 0 <= i < |subs| ==> subs'[i] == subs[i].(waits := subs'[i].waits)
  }

  lemma {:induction false} FindPublishedSame(
    subs: seq<LaneSubmission>, subs': seq<LaneSubmission>, from: nat, lane: DeviceQueue, value: nat)
    requires SameBoundaries(subs, subs') && from <= |subs|
    ensures FindPublished(subs, from, lane, value) == FindPublished(subs', from, lane, value)
    decreases |subs| - from
  {
    if from < |subs| { FindPublishedSame(subs, subs', from + 1, lane, value); }
  }

  lemma PublishedSame(subs: seq<LaneSubmission>, subs': seq<LaneSubmission>, waits: map<DeviceQueue, nat>)
    requires SameBoundaries(subs, subs')
    ensures Published(subs, waits) == Published(subs', waits)
  {
    forall lane | lane in waits { FindPublishedSame(subs, subs', 0, lane, waits[lane]); }
  }

  /** The in-place pass over `merged`: each submission is looked up in a list whose
      earlier waits have already been rewritten. */
  method RewriteWaits(subs: seq<LaneSubmission>) returns (merged: seq<LaneSubmission>)
    ensures SameBoundaries(subs, merged)
    ensures forall i :: 0 <= i < |subs| ==> merged[i].waits == Published(subs, subs[i].waits)
  {
    merged := subs;
    for index := 0 to |merged|
      invariant SameBoundaries(subs, merged)
      invariant forall i :: 0 <= i < index ==> merged[i].waits == Published(subs, subs[i].waits)
      invariant forall i :: index <= i < |subs| ==> merged[i] == subs[i]
    {
      PublishedSame(subs, merged, subs[index].waits);
      merged := merged[index := merged[index].(waits := Published(merged, merged[index].waits))];
    }
  }

  lemma ScheduleFromLogical(
    es: seq<Expanded>, limits: MergeLimits, subs: seq<LaneSubmission>, subs': seq<LaneSubmission>, bounds: seq<nat>)
    requires LogicalBlocks(es, |es|, subs, bounds) && GreedilyMerged(subs, limits) && SameBoundaries(subs, subs')
    requires forall i :: 0 <= i < |subs| ==> subs'[i].waits == Published(subs, subs[i].waits)
    ensures IsSchedule(es, limits, subs', bounds)
  {
    assert Blocks(es, |es|, subs', bounds) by {
      forall j | 0 <= j < |subs| ensures IsBlock(es, subs'[j], bounds[j], bounds[j + 1]) {
        assert IsBlock(es, subs[j], bounds[j], bounds[j + 1]);
      }
    }
    forall j | 0 <= j < |subs| ensures PublishedWaits(es, subs', bounds, j, subs'[j].waits) {
      PublishedSame(subs, subs', subs[j].waits);
      PublishWaits(es, subs', bounds, j, subs[j].waits);
    }
    forall j | 0 < j < |subs| ensures MustSplit(subs'[j - 1], subs'[j], limits) {
      assert MustSplit(subs[j - 1], subs[j], limits);
    }
  }

  /** Every wait names the signal of a strictly earlier submission on another lane. */
  lemma EarlierProducer(
    es: seq<Expanded>, limits: MergeLimits, subs: seq<LaneSubmission>, bounds: seq<nat>, j: nat, lane: DeviceQueue)
    returns (i: nat)
    requires IsSchedule(es, limits, subs, bounds) && j < |subs| && lane in subs[j].waits
    ensures i < j && subs[i].lane == lane != subs[j].lane && subs[i].signalValue == subs[j].waits[lane]
  {
    assert PublishedWaits(es, subs, bounds, j, subs[j].waits);
    var x, a, b :| Dependency(es, bounds, x, a, j, b) && subs[x].lane == lane
      && subs[j].waits[lane] == subs[x].signalValue;
    i := x;
    SameBlock(es, subs, bounds, i, a);
    SameBlock(es, subs, bounds, j, b);
  }

  /** `schedule_device_lanes`. */
  method ScheduleDeviceLanes(ops: seq<Operation>, limits: MergeLimits, canAccess: Access)
    returns (merged: seq<LaneSubmission>, ghost bounds: seq<nat>)
    ensures IsSchedule(Expand(ops, canAccess), limits, merged, bounds)
    ensures HasSchedule(Expand(ops, canAccess), limits, merged)
  {
    var es := ExpandOperations(ops, canAccess);
    var raw := DeriveRaw(es);
    merged, bounds := MergeAdjacent(es, raw, limits);
    ghost var before := merged;
    merged := RewriteWaits(merged);
    ScheduleFromLogical(es, limits, before, merged, bounds);
  }

  /** Command i of submission j is a command of one of the operations, on a lane where that operation allows it. */
  lemma SubmissionsPlaced(
    ops: seq<Operation>, canAccess: Access, limits: MergeLimits, subs: seq<LaneSubmission>, bounds: seq<nat>, j: nat,
    i: nat) returns (k: nat)
    requires AccessesItself(canAccess) && IsSchedule(Expand(ops, canAccess), limits, subs, bounds)
    requires j < |subs| && i < |subs[j].commands|
    ensures k < |ops| && |bounds| == |subs| + 1 && bounds[j] + i < |Expand(ops, canAccess)|
    ensures var e := Expand(ops, canAccess)[bounds[j] + i];
      && Placed(e, ops[k], canAccess) && e.lane == subs[j].lane
      && subs[j].commands[i].operation == ops[k].operation && subs[j].commands[i].copyLeg == e.leg
  {
    assert IsBlock(Expand(ops, canAccess), subs[j], bounds[j], bounds[j + 1]);
    k := EveryCommandPlaced(ops, canAccess, bounds[j] + i);
  }

  // ----- a schedule is determined by its program -----

  /** Greedy merging leaves no choice: no block can end before another schedule's block that starts with it. */
  lemma BlockEndsAlike(
    es: seq<Expanded>, limits: MergeLimits, subs: seq<LaneSubmission>, bounds: seq<nat>, others: seq<LaneSubmission>,
      cuts: seq<nat>, j: nat)
    requires Blocks(es, |es|, subs, bounds) && Blocks(es, |es|, others, cuts)
    requires GreedilyMerged(subs, limits) && GreedilyMerged(others, limits)
    requires j < |subs| && j < |others| && bounds[j] == cuts[j]
    ensures bounds[j + 1] >= cuts[j + 1]
  {
    BlockEndsForReason(es, limits, subs, bounds, j);
    BlockIsUniform(es, limits, others, cuts, j);
  }

  lemma BlockIsUniform(es: seq<Expanded>, limits: MergeLimits, subs: seq<LaneSubmission>, bounds: seq<nat>, j: nat)
    requires Blocks(es, |es|, subs, bounds) && GreedilyMerged(subs, limits) && j < |subs|
    ensures bounds[j] < bounds[j + 1] <= |es|
    ensures forall c :: bounds[j] <= c < bounds[j + 1] ==> es[c].lane == es[bounds[j]].lane
    ensures limits.maxSubmissions == 0 || bounds[j + 1] - bounds[j] <= limits.maxSubmissions
    ensures limits.maxCommands == 0 || bounds[j + 1] - bounds[j] <= limits.maxCommands
  {
    assert IsBlock(es, subs[j], bounds[j], bounds[j + 1]) && WithinLimits(subs[j], limits);
  }

  lemma BlockEndsForReason(es: seq<Expanded>, limits: MergeLimits, subs: seq<LaneSubmission>, bounds: seq<nat>, j: nat)
    requires Blocks(es, |es|, subs, bounds) && GreedilyMerged(subs, limits) && j < |subs|
    ensures bounds[j] < bounds[j + 1] <= |es|
    ensures var lo, hi := bounds[j], bounds[j + 1];
      hi == |es| || es[hi].lane != es[lo].lane || limits.maxSubmissions == hi - lo || limits.maxCommands == hi - lo
  {
    assert IsBlock(es, subs[j], bounds[j], bounds[j + 1]);
    if j + 1 < |subs| {
      assert IsBlock(es, subs[j + 1], bounds[j + 1], bounds[j + 2]);
      assert MustSplit(subs[j], subs[j + 1], limits);
    }
  }

  lemma {:induction false} BoundsAlike(
    es: seq<Expanded>, limits: MergeLimits, subs: seq<LaneSubmission>, bounds: seq<nat>, others: seq<LaneSubmission>,
      cuts: seq<nat>, n: nat)
    requires Blocks(es, |es|, subs, bounds) && Blocks(es, |es|, others, cuts)
    requires GreedilyMerged(subs, limits) && GreedilyMerged(others, limits)
    requires n <= |subs|
    ensures n <= |others| && forall j :: 0 <= j <= n ==> bounds[j] == cuts[j]
  {
    if n > 0 {
      BoundsAlike(es, limits, subs, bounds, others, cuts, n - 1);
      assert bounds[n - 1] < bounds[n] <= bounds[|subs|];
      assert n - 1 < |others|;
      BlockEndsAlike(es, limits, subs, bounds, others, cuts, n - 1);
      BlockEndsAlike(es, limits, others, cuts, subs, bounds, n - 1);
    }
  }

  /** One half of what a published wait is: it names a dependency and is no later than another schedule's. */
  lemma WaitBelow(
    es: seq<Expanded>, limits: MergeLimits, subs: seq<LaneSubmission>, others: seq<LaneSubmission>, bounds: seq<nat>,
      j: nat, lane: DeviceQueue)
    requires IsSchedule(es, limits, subs, bounds) && IsSchedule(es, limits, others, bounds) && j < |subs| == |others|
      && lane in subs[j].waits
    ensures lane in others[j].waits && subs[j].waits[lane] <= others[j].waits[lane]
  {
    var i, a, b := WaitWitness(es, limits, subs, bounds, j, lane);
    SameBlockSignal(es, subs, others, bounds, i);
    WaitCovers(es, limits, others, bounds, i, a, j, b);
  }

  lemma WaitWitness(es: seq<Expanded>, limits: MergeLimits, subs: seq<LaneSubmission>, bounds: seq<nat>, j: nat,
      lane: DeviceQueue)
    returns (i: nat, a: int, b: int)
    requires IsSchedule(es, limits, subs, bounds) && j < |subs| && lane in subs[j].waits
    ensures i < |subs| && Dependency(es, bounds, i, a, j, b) && subs[i].lane == lane
      && subs[j].waits[lane] == subs[i].signalValue
  {
    assert PublishedWaits(es, subs, bounds, j, subs[j].waits);
    var x, y, z :| Dependency(es, bounds, x, y, j, z) && subs[x].lane == lane
      && subs[j].waits[lane] == subs[x].signalValue;
    i, a, b := x, y, z;
  }

  lemma WaitCovers(es: seq<Expanded>, limits: MergeLimits, subs: seq<LaneSubmission>, bounds: seq<nat>, i: nat, a: int,
      j: nat, b: int)
    requires IsSchedule(es, limits, subs, bounds) && j < |subs| && i < |subs| && Dependency(es, bounds, i, a, j, b)
    ensures subs[i].lane in subs[j].waits && subs[i].signalValue <= subs[j].waits[subs[i].lane]
  {
    assert PublishedWaits(es, subs, bounds, j, subs[j].waits);
  }

  lemma SameBlockSignal(es: seq<Expanded>, subs: seq<LaneSubmission>, others: seq<LaneSubmission>, bounds: seq<nat>,
      i: nat)
    requires Blocks(es, |es|, subs, bounds) && Blocks(es, |es|, others, bounds) && i < |subs| == |others|
    ensures subs[i].lane == others[i].lane && subs[i].signalValue == others[i].signalValue
      && subs[i].commands == others[i].commands
  {
    assert IsBlock(es, subs[i], bounds[i], bounds[i + 1]) && IsBlock(es, others[i], bounds[i], bounds[i + 1]);
    assert subs[i].lane == es[bounds[i]].lane;
  }

  lemma WaitsAlike(es: seq<Expanded>, limits: MergeLimits, subs: seq<LaneSubmission>, others: seq<LaneSubmission>,
      bounds: seq<nat>, j: nat)
    requires IsSchedule(es, limits, subs, bounds) && IsSchedule(es, limits, others, bounds) && j < |subs| == |others|
    ensures subs[j].waits == others[j].waits
  {
    forall lane
      ensures SameWait(subs[j].waits, others[j].waits, lane)
    {
      WaitAlike(es, limits, subs, others, bounds, j, lane);
    }
    SameWaits(subs[j].waits, others[j].waits);
  }

  predicate SameWait(w: map<DeviceQueue, nat>, v: map<DeviceQueue, nat>, lane: DeviceQueue) {
    (lane in w <==> lane in v) && (lane in w ==> w[lane] == v[lane])
  }

  lemma SameWaits(w: map<DeviceQueue, nat>, v: map<DeviceQueue, nat>)
    requires forall lane :: SameWait(w, v, lane)
    ensures w == v
  {
    assert forall lane :: SameWait(w, v, lane) ==> (lane in w <==> lane in v);
  }

  lemma WaitAlike(
    es: seq<Expanded>, limits: MergeLimits, subs: seq<LaneSubmission>, others: seq<LaneSubmission>, bounds: seq<nat>,
      j: nat, lane: DeviceQueue)
    requires IsSchedule(es, limits, subs, bounds) && IsSchedule(es, limits, others, bounds) && j < |subs| == |others|
    ensures SameWait(subs[j].waits, others[j].waits, lane)
  {
    if lane in subs[j].waits { WaitBelow(es, limits, subs, others, bounds, j, lane); }
    if lane in others[j].waits { WaitBelow(es, limits, others, subs, bounds, j, lane); }
  }

  /** Commands, limits and nothing else determine the submissions. */
  lemma ScheduleUnique(
    es: seq<Expanded>, limits: MergeLimits, subs: seq<LaneSubmission>, bounds: seq<nat>, others: seq<LaneSubmission>,
      cuts: seq<nat>)
    requires IsSchedule(es, limits, subs, bounds) && IsSchedule(es, limits, others, cuts)
    ensures subs == others && bounds == cuts
  {
    BoundsAlike(es, limits, subs, bounds, others, cuts, |subs|);
    BoundsAlike(es, limits, others, cuts, subs, bounds, |others|);
    assert bounds == cuts;
    forall i | 0 <= i < |subs| ensures subs[i] == others[i] {
      SameBlockSignal(es, subs, others, bounds, i);
      WaitsAlike(es, limits, subs, others, bounds, i);
    }
  }
}
