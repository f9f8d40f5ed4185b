/** What the native queues compute: the order in which a run of them dispatches the operations. */
module NativeRuns {
  import opened Topology
  import opened Scheduler
  import opened LinkedPlan
  import opened NativeQueues
  import LaneRuns
  import ProgramOrder

  /** How often submission j stepped. */
  function Turns(steps: seq<nat>, j: nat): nat {
    if steps == [] then 0
    else Turns(steps[..|steps| - 1], j) + if steps[|steps| - 1] == j then 1 else 0
  }

  predicate Dispatching(natives: seq<NativeSubmission>, j: nat, q: nat) {
    j < |natives| && q < |natives[j].commands| && natives[j].commands[q].Dispatch?
  }

  /** The submissions whose operation a run dispatched, in the order of dispatch. */
  function Dispatched(natives: seq<NativeSubmission>, steps: seq<nat>): seq<nat> {
    if steps == [] then []
    else
      var before, j := steps[..|steps| - 1], steps[|steps| - 1];
      Dispatched(natives, before) + if Dispatching(natives, j, Turns(before, j)) then [j] else []
  }

  lemma {:induction false} ProgressIsTurns(natives: seq<NativeSubmission>, steps: seq<nat>, s: QueueState)
    requires RunsTo(natives, steps, s)
    ensures |s.progress| == |natives| && forall j: nat :: j < |natives| ==> s.progress[j] == Turns(steps, j)
    decreases |steps|
  {
    if steps != [] {
      var before := StateBefore(natives, steps, s);
      ProgressIsTurns(natives, steps[..|steps| - 1], before);
    }
  }

  lemma StateBefore(natives: seq<NativeSubmission>, steps: seq<nat>, s: QueueState) returns (before: QueueState)
    requires RunsTo(natives, steps, s) && steps != []
    ensures RunsTo(natives, steps[..|steps| - 1], before) && CanStep(natives, before, steps[|steps| - 1])
    ensures s == StepOf(natives, before, steps[|steps| - 1])
  {
    before :| RunsTo(natives, steps[..|steps| - 1], before) && CanStep(natives, before, steps[|steps| - 1])
      && s == StepOf(natives, before, steps[|steps| - 1]);
  }

  predicate IsDispatch(native: NativeSubmission, q: int) {
    0 <= q < |native.commands| && native.commands[q].Dispatch?
  }

  /** A lane dispatches just before its store, and nothing else; the finalizer dispatches nothing. */
  ghost predicate DispatchesLast(native: NativeSubmission, operation: nat) {
    && |native.commands| >= 2 && native.commands[|native.commands| - 2] == Dispatch(operation)
    && forall q :: IsDispatch(native, q) ==> q == |native.commands| - 2
  }

  lemma LaneDispatch(subs: seq<LaneSubmission>, producers: Producers, natives: seq<NativeSubmission>, j: nat)
    requires IsNative(subs, producers, natives) && j < |subs|
    ensures |subs[j].commands| == 1 && DispatchesLast(natives[j], subs[j].commands[0].operation)
  {
    assert HasLowering(subs, producers, j, natives[j]);
    var waits :| IsLowered(subs, producers, j, waits, natives[j]);
    NoDispatch(waits, Awaited(subs, producers, j));
    LoweredDispatch(subs[j], j, IsFirst(subs, j), waits, ScopeOf(subs, producers, j));
  }

  predicate DispatchFree(commands: seq<NativeCommand>) {
    forall q :: 0 <= q < |commands| ==> !commands[q].Dispatch?
  }

  lemma NoDispatch(waits: seq<NativeCommand>, indices: set<nat>)
    requires WaitsForSlots(waits, indices)
    ensures DispatchFree(waits)
  {
    forall q | 0 <= q < |waits| ensures !waits[q].Dispatch? { assert IsWaitAmong(waits[q], indices); }
  }

  lemma LoweredDispatch(sub: LaneSubmission, j: nat, first: bool, waits: seq<NativeCommand>, scope: Scope)
    requires |sub.commands| == 1 && DispatchFree(waits)
    ensures DispatchesLast(Lower(sub, j, first, waits, scope), sub.commands[0].operation)
  {
    var front := Opening(first) + waits + (if sub.waits == map[] then [] else [MemoryBarrier]);
    assert DispatchFree(front);
    assert Lower(sub, j, first, waits, scope).commands
        == front + [Dispatch(sub.commands[0].operation)] + [StoreSlot(j + 1, scope)];
  }

  lemma FinalizerDispatch(subs: seq<LaneSubmission>, producers: Producers, natives: seq<NativeSubmission>)
    requires IsNative(subs, producers, natives)
    ensures DispatchFree(natives[|subs|].commands)
  {
    var waits :| IsFinalizer(subs, waits, natives[|subs|]);
    NoDispatch(waits, AwaitedAtEnd(subs));
  }

  /** Command q of submission j is a dispatch exactly when it is the last but one of a lane. */
  lemma DispatchPlace(subs: seq<LaneSubmission>, producers: Producers, natives: seq<NativeSubmission>, j: nat, q: nat)
    requires IsNative(subs, producers, natives)
    ensures Dispatching(natives, j, q) <==> j < |subs| && q == |natives[j].commands| - 2
  {
    if j < |subs| {
      LaneDispatch(subs, producers, natives, j);
      assert Dispatching(natives, j, q) <==> IsDispatch(natives[j], q);
    } else if j == |subs| {
      FinalizerDispatch(subs, producers, natives);
    }
  }

  /** A lane's operation has been dispatched exactly when at most its store is left. */
  lemma {:induction false} DispatchedExactly(
    subs: seq<LaneSubmission>, producers: Producers, natives: seq<NativeSubmission>, steps: seq<nat>, s: QueueState,
      j: nat)
    requires IsNative(subs, producers, natives) && RunsTo(natives, steps, s) && |s.progress| == |natives|
    ensures j in Dispatched(natives, steps) <==> j < |subs| && s.progress[j] >= |natives[j].commands| - 1
    decreases |steps|
  {
    if steps == [] {
      if j < |subs| { LaneDispatch(subs, producers, natives, j); }
    } else {
      var init, i := steps[..|steps| - 1], steps[|steps| - 1];
      var before := StateBefore(natives, steps, s);
      ProgressIsTurns(natives, init, before);
      DispatchedExactly(subs, producers, natives, init, before, j);
      DispatchPlace(subs, producers, natives, i, Turns(init, i));
    }
  }

  // ----- the previous epoch -----

  lemma FirstOfLane(subs: seq<LaneSubmission>, j: nat) returns (i: nat)
    requires j < |subs|
    ensures i <= j && subs[i].lane == subs[j].lane && forall k :: 0 <= k < i ==> subs[k].lane != subs[i].lane
    decreases j
  {
    if k :| 0 <= k < j && subs[k].lane == subs[j].lane { i := FirstOfLane(subs, k); } else { i := j; }
  }

  /** Before the previous epoch has signalled, a submission that opens an epoch is held at its second packet. */
  lemma HeldAtOpening(natives: seq<NativeSubmission>, s: QueueState, i: nat)
    requires QueuesOk(natives, s) && 0 !in s.stored && i < |natives| && OpensEpoch(natives[i])
    ensures s.progress[i] <= 1 && !Finished(natives, s, i)
  {
    assert natives[i].commands[1].WaitSlot? && natives[i].commands[1].slot == 0;
  }

  lemma HeldLane(
    subs: seq<LaneSubmission>, producers: Producers, natives: seq<NativeSubmission>, s: QueueState, j: nat)
    requires IsNative(subs, producers, natives) && QueuesOk(natives, s) && 0 !in s.stored && j < |subs|
    ensures s.progress[j] < |natives[j].commands| - 1
  {
    var i := FirstOfLane(subs, j);
    FirstUseOpens(subs, producers, natives, i);
    HeldAtOpening(natives, s, i);
    LaneDispatch(subs, producers, natives, j);
    if i < j {
      NativeStore(subs, producers, natives, i);
      NativeStore(subs, producers, natives, j);
      assert s.progress[j] == 0;
    }
  }

  /** In every run, as long as the previous epoch has not signalled, nothing is dispatched, no submission
      finishes and the finalizer's slot is not stored. */
  lemma NothingBeforeEpoch(
    subs: seq<LaneSubmission>, producers: Producers, natives: seq<NativeSubmission>, steps: seq<nat>, s: QueueState)
    requires IsNative(subs, producers, natives) && RunsTo(natives, steps, s) && 0 !in s.stored
    ensures Dispatched(natives, steps) == [] && |subs| + 1 !in s.stored
    ensures forall j :: 0 <= j <= |subs| ==> !Finished(natives, s, j)
  {
    NativeStores(subs, producers, natives);
    QueuesReachable(natives, steps, s);
    forall j | 0 <= j <= |subs| ensures !Finished(natives, s, j) {
      if j < |subs| { HeldLane(subs, producers, natives, s, j); } else { HeldFinalizer(subs, producers, natives, s); }
    }
    assert Finished(natives, s, |subs|) <==> |subs| + 1 in s.stored;
    NoneDispatched(subs, producers, natives, steps, s);
  }

  lemma NoneDispatched(
    subs: seq<LaneSubmission>, producers: Producers, natives: seq<NativeSubmission>, steps: seq<nat>, s: QueueState)
    requires IsNative(subs, producers, natives) && RunsTo(natives, steps, s) && QueuesOk(natives, s) && 0 !in s.stored
    ensures Dispatched(natives, steps) == []
  {
    if Dispatched(natives, steps) != [] {
      var j := Dispatched(natives, steps)[0];
      DispatchedExactly(subs, producers, natives, steps, s, j);
      HeldLane(subs, producers, natives, s, j);
    }
  }

  lemma HeldFinalizer(
    subs: seq<LaneSubmission>, producers: Producers, natives: seq<NativeSubmission>, s: QueueState)
    requires IsNative(subs, producers, natives) && QueuesOk(natives, s) && 0 !in s.stored
    ensures !Finished(natives, s, |subs|)
  {
    FinalizerOpens(subs, producers, natives);
    NativeStore(subs, producers, natives, |subs|);
    if j: nat :| j < |subs| && subs[j].lane == DeviceQueue(subs[0].lane.device, ComputeQueue(0)) {
      HeldLane(subs, producers, natives, s, j);
      NativeStore(subs, producers, natives, j);
      assert s.progress[|subs|] == 0;
    } else {
      HeldAtOpening(natives, s, |subs|);
    }
  }

  // ----- order -----

  /** Unmerged submissions are the commands themselves. */
  lemma {:induction false} UnitBounds(es: seq<Expanded>, subs: seq<LaneSubmission>, bounds: seq<nat>, j: nat)
    requires Blocks(es, |es|, subs, bounds) && (forall i :: 0 <= i < |subs| ==> |subs[i].commands| == 1) && j <= |subs|
    ensures bounds[j] == j
  {
    if j > 0 {
      UnitBounds(es, subs, bounds, j - 1);
      assert IsBlock(es, subs[j - 1], bounds[j - 1], bounds[j]);
    }
  }

  lemma UnitBlock(es: seq<Expanded>, subs: seq<LaneSubmission>, bounds: seq<nat>, j: nat)
    requires Blocks(es, |es|, subs, bounds) && (forall i :: 0 <= i < |subs| ==> |subs[i].commands| == 1)
    ensures |es| == |subs|
    ensures j < |subs| ==>
      InBlock(bounds, j, j) && es[j].lane == subs[j].lane
      && subs[j].commands == [es[j].ToCommand()]
  {
    UnitBounds(es, subs, bounds, |subs|);
    if j < |subs| {
      UnitBounds(es, subs, bounds, j);
      UnitBounds(es, subs, bounds, j + 1);
      assert IsBlock(es, subs[j], bounds[j], bounds[j + 1]);
    }
  }

  /** When an operation is dispatched, every earlier one it conflicts with has been. */
  lemma HazardDispatched(
    es: seq<Expanded>, limits: MergeLimits, subs: seq<LaneSubmission>, bounds: seq<nat>, producers: Producers,
    natives: seq<NativeSubmission>, steps: seq<nat>, s: QueueState, a: nat)
    requires IsSchedule(es, limits, subs, bounds) && IsNative(subs, producers, natives) && RunsTo(natives, steps, s)
    requires steps != []
    requires var init, j := steps[..|steps| - 1], steps[|steps| - 1];
      Dispatching(natives, j, Turns(init, j)) && a < j < |es| && Hazard(es[a], es[j])
    ensures a in Dispatched(natives, steps[..|steps| - 1])
  {
    var init, j := steps[..|steps| - 1], steps[|steps| - 1];
    var before := StateBefore(natives, steps, s);
    ProgressIsTurns(natives, init, before);
    DispatchPlace(subs, producers, natives, j, Turns(init, j));
    UnitBlock(es, subs, bounds, a);
    UnitBlock(es, subs, bounds, j);
    if es[a].lane == es[j].lane {
      NativeStore(subs, producers, natives, a);
      NativeStore(subs, producers, natives, j);
    } else {
      assert Dependency(es, bounds, a, a, j, j);
      NativeKeepsDependencies(es, limits, subs, bounds, producers, natives, steps, s, a, a, j, j);
    }
    assert Finished(natives, before, a);
    DispatchedExactly(subs, producers, natives, init, before, a);
  }

  /** Every run dispatches each operation at most once, and none before an earlier one it conflicts with. */
  lemma {:induction false} DispatchOrdered(
    es: seq<Expanded>, limits: MergeLimits, subs: seq<LaneSubmission>, bounds: seq<nat>, producers: Producers,
    natives: seq<NativeSubmission>, steps: seq<nat>, s: QueueState)
    requires IsSchedule(es, limits, subs, bounds) && IsNative(subs, producers, natives) && RunsTo(natives, steps, s)
    ensures LaneRuns.Ordered(es, Dispatched(natives, steps))
    decreases |steps|
  {
    if steps != [] {
      var init, j := steps[..|steps| - 1], steps[|steps| - 1];
      var before := StateBefore(natives, steps, s);
      DispatchOrdered(es, limits, subs, bounds, producers, natives, init, before);
      if Dispatching(natives, j, Turns(init, j)) {
        DispatchNext(es, limits, subs, bounds, producers, natives, steps, s);
      } else {
        assert Dispatched(natives, steps) == Dispatched(natives, init);
      }
    }
  }

  lemma DispatchNext(
    es: seq<Expanded>, limits: MergeLimits, subs: seq<LaneSubmission>, bounds: seq<nat>, producers: Producers,
    natives: seq<NativeSubmission>, steps: seq<nat>, s: QueueState)
    requires IsSchedule(es, limits, subs, bounds) && IsNative(subs, producers, natives) && RunsTo(natives, steps, s)
    requires steps != [] && Dispatching(natives, steps[|steps| - 1], Turns(steps[..|steps| - 1], steps[|steps| - 1]))
    requires LaneRuns.Ordered(es, Dispatched(natives, steps[..|steps| - 1]))
    ensures LaneRuns.Ordered(es, Dispatched(natives, steps[..|steps| - 1]) + [steps[|steps| - 1]])
  {
    var init, j := steps[..|steps| - 1], steps[|steps| - 1];
    FirstDispatch(es, subs, bounds, producers, natives, steps, s);
    forall a | 0 <= a < j && Hazard(es[a], es[j]) ensures a in Dispatched(natives, init) {
      HazardDispatched(es, limits, subs, bounds, producers, natives, steps, s, a);
    }
    LaneRuns.ExtendOrdered(es, Dispatched(natives, init), j);
  }

  /** No operation is dispatched twice. */
  lemma FirstDispatch(
    es: seq<Expanded>, subs: seq<LaneSubmission>, bounds: seq<nat>, producers: Producers,
      natives: seq<NativeSubmission>,
    steps: seq<nat>, s: QueueState)
    requires Blocks(es, |es|, subs, bounds) && IsNative(subs, producers, natives) && RunsTo(natives, steps, s)
      && steps != []
    requires Dispatching(natives, steps[|steps| - 1], Turns(steps[..|steps| - 1], steps[|steps| - 1]))
    ensures steps[|steps| - 1] < |es| && steps[|steps| - 1] !in Dispatched(natives, steps[..|steps| - 1])
  {
    var init, j := steps[..|steps| - 1], steps[|steps| - 1];
    var before := StateBefore(natives, steps, s);
    ProgressIsTurns(natives, init, before);
    DispatchPlace(subs, producers, natives, j, Turns(init, j));
    DispatchedExactly(subs, producers, natives, init, before, j);
    UnitBlock(es, subs, bounds, j);
  }

  // ----- the theorem -----

  /** Once the finalizer has stored its slot, every operation has been dispatched. */
  lemma AllDispatched(
    es: seq<Expanded>, limits: MergeLimits, subs: seq<LaneSubmission>, bounds: seq<nat>, producers: Producers,
    natives: seq<NativeSubmission>, steps: seq<nat>, s: QueueState, j: nat)
    requires OneDevice(subs) && IsSchedule(es, limits, subs, bounds) && IsNative(subs, producers, natives)
    requires RunsTo(natives, steps, s) && |subs| + 1 in s.stored
    ensures j in Dispatched(natives, steps) <==> j < |es|
  {
    ProgressIsTurns(natives, steps, s);
    DispatchedExactly(subs, producers, natives, steps, s, j);
    UnitBlock(es, subs, bounds, j);
    if j < |subs| { FinalizerIsLast(subs, producers, natives, steps, s, j); }
  }

  /** The memory after a run's dispatches. */
  ghost function MemoryAfter(
    k: Kernels, es: seq<Expanded>, natives: seq<NativeSubmission>, steps: seq<nat>, m: Memory): Memory
    requires forall i :: 0 <= i < |Dispatched(natives, steps)| ==> Dispatched(natives, steps)[i] < |es|
  {
    LaneRuns.RunTrace(ProgramOrder.RunOn(k), es, Dispatched(natives, steps), m)
  }

  /** Every run of a schedule's native queues that reaches the finalizer's store has computed
      what the caller's program computes, staging memory aside. */
  lemma NativeQueuesMatchProgram(
    k: Kernels, ops: seq<Operation>, canAccess: Access, limits: MergeLimits, subs: seq<LaneSubmission>,
      bounds: seq<nat>,
    producers: Producers, natives: seq<NativeSubmission>, steps: seq<nat>, s: QueueState, m: Memory)
    requires OneDevice(subs) && IsSchedule(Expand(ops, canAccess), limits, subs, bounds)
      && IsNative(subs, producers, natives)
    requires RunsTo(natives, steps, s) && |subs| + 1 in s.stored
    requires ProgramOrder.StagingUnused(ProgramOrder.StageIds(ops), ops)
    ensures LaneRuns.Ordered(Expand(ops, canAccess), Dispatched(natives, steps))
    ensures ProgramOrder.Agree(ProgramOrder.StageIds(ops),
      MemoryAfter(k, Expand(ops, canAccess), natives, steps, m), ProgramOrder.RunProgram(k, ops, m))
  {
    var es := Expand(ops, canAccess);
    DispatchOrdered(es, limits, subs, bounds, producers, natives, steps, s);
    forall j: nat ensures j in Dispatched(natives, steps) <==> j < |es| {
      AllDispatched(es, limits, subs, bounds, producers, natives, steps, s, j);
    }
    ProgramOrder.RunRespectsHazards(k);
    LaneRuns.Serializable(ProgramOrder.RunOn(k), es, |es|, Dispatched(natives, steps), m);
    ProgramOrder.ExpansionMatches(k, ProgramOrder.StageIds(ops), ops, canAccess, m);
  }

  // ----- what the packets say -----

  /** The operation ids in the dispatched packets; a packet does not hold the leg of a staged copy. */
  function Packets(natives: seq<NativeSubmission>, steps: seq<nat>): seq<nat> {
    if steps == [] then []
    else
      var before, j := steps[..|steps| - 1], steps[|steps| - 1];
      var q := Turns(before, j);
      Packets(natives, before) + if Dispatching(natives, j, q) then [natives[j].commands[q].operation] else []
  }

  /** The first command of an operation that has not run yet; past the end if there is none. */
  function FirstLeft(es: seq<Expanded>, ran: seq<nat>, operation: nat, from: nat): nat
    decreases |es| - from
  {
    if from >= |es| || (es[from].operation == operation && from !in ran) then from
    else FirstLeft(es, ran, operation, from + 1)
  }

  /** An executor that sees only ids runs the commands of each operation one after the other. */
  function Resolved(es: seq<Expanded>, packets: seq<nat>): seq<nat> {
    if packets == [] then []
    else
      var before := Resolved(es, packets[..|packets| - 1]);
      before + [FirstLeft(es, before, packets[|packets| - 1], 0)]
  }

  ghost predicate DistinctOperations(ops: seq<Operation>) {
    forall i, j :: 0 <= i < j < |ops| ==> ops[i].operation != ops[j].operation
  }

  lemma {:induction false} OperationOf(ops: seq<Operation>, canAccess: Access, i: nat) returns (k: nat)
    requires i < |Expand(ops, canAccess)|
    ensures k < |ops| && ops[k].operation == Expand(ops, canAccess)[i].operation
  {
    var init := ops[..|ops| - 1];
    if i < |Expand(init, canAccess)| { k := OperationOf(init, canAccess, i); } else { k := |ops| - 1; }
  }

  lemma EarlierOperationsDiffer(ops: seq<Operation>, canAccess: Access, i: nat)
    requires DistinctOperations(ops) && ops != [] && i < |Expand(ops[..|ops| - 1], canAccess)|
    ensures Expand(ops[..|ops| - 1], canAccess)[i].operation != ops[|ops| - 1].operation
  {
    var k := OperationOf(ops[..|ops| - 1], canAccess, i);
  }

  /** Two commands of one operation are the legs of a staged copy, which follow each other and depend on each other. */
  lemma {:induction false} LegsOfOne(ops: seq<Operation>, canAccess: Access, i: nat, j: nat)
    requires DistinctOperations(ops) && i < j < |Expand(ops, canAccess)|
    requires Expand(ops, canAccess)[i].operation == Expand(ops, canAccess)[j].operation
    ensures var es := Expand(ops, canAccess);
      j == i + 1 && es[i].leg == Some(ToHost) && es[j].leg == Some(FromHost) && Hazard(es[i], es[j])
  {
    var init, last := ops[..|ops| - 1], ops[|ops| - 1];
    var before := Expand(init, canAccess);
    if j < |before| {
      LegsOfOne(init, canAccess, i, j);
    } else if i < |before| {
      EarlierOperationsDiffer(ops, canAccess, i);
    } else {
      StageLinksLegs(last, canAccess);
    }
  }

  /** The second leg reads what the first wrote. */
  lemma StageLinksLegs(op: Operation, canAccess: Access)
    requires IsStaged(op, canAccess)
    ensures |Legs(op, canAccess)| == 2 && Hazard(Legs(op, canAccess)[0], Legs(op, canAccess)[1])
  {
    var legs, stage := Legs(op, canAccess), Stage(op.operation, op.kind.bytes);
    assert stage in legs[0].writeSet && stage in legs[1].readSet && stage.Overlaps(stage);
  }

  lemma {:induction false} FirstLeftIs(es: seq<Expanded>, ran: seq<nat>, operation: nat, from: nat, j: nat)
    requires from <= j < |es| && es[j].operation == operation && j !in ran
    requires forall x :: from <= x < j && es[x].operation == operation ==> x in ran
    ensures FirstLeft(es, ran, operation, from) == j
    decreases j - from
  {
    if from < j { FirstLeftIs(es, ran, operation, from + 1, j); }
  }

  function OperationsOf(es: seq<Expanded>, trace: seq<nat>): seq<nat>
    requires forall i :: 0 <= i < |trace| ==> trace[i] < |es|
  {
    seq(|trace|, i requires 0 <= i < |trace| => es[trace[i]].operation)
  }

  /** The ids of an ordered trace name its commands. */
  lemma {:induction false} IdsNameCommands(ops: seq<Operation>, canAccess: Access, trace: seq<nat>)
    requires DistinctOperations(ops) && LaneRuns.Ordered(Expand(ops, canAccess), trace)
    ensures Resolved(Expand(ops, canAccess), OperationsOf(Expand(ops, canAccess), trace)) == trace
  {
    var es := Expand(ops, canAccess);
    if trace != [] {
      OrderedPrefix(es, trace);
      IdsNameCommands(ops, canAccess, trace[..|trace| - 1]);
      NextOfOperation(ops, canAccess, trace);
      ResolvedNext(es, trace);
    }
  }

  lemma ResolvedNext(es: seq<Expanded>, trace: seq<nat>)
    requires trace != [] && forall i :: 0 <= i < |trace| ==> trace[i] < |es|
    requires var n := |trace| - 1;
      && FirstLeft(es, trace[..n], es[trace[n]].operation, 0) == trace[n]
      && Resolved(es, OperationsOf(es, trace[..n])) == trace[..n]
    ensures Resolved(es, OperationsOf(es, trace)) == trace
  {
    var n := |trace| - 1;
    assert OperationsOf(es, trace)[..n] == OperationsOf(es, trace[..n]);
    assert trace == trace[..n] + [trace[n]];
  }

  lemma OrderedPrefix(es: seq<Expanded>, trace: seq<nat>)
    requires LaneRuns.Ordered(es, trace) && trace != []
    ensures LaneRuns.Ordered(es, trace[..|trace| - 1])
  {
    assert forall q :: 0 <= q < |trace| - 1 ==> trace[..|trace| - 1][..q] == trace[..q];
  }

  /** The last command of an ordered trace is the first of its operation that had not run. */
  lemma NextOfOperation(ops: seq<Operation>, canAccess: Access, trace: seq<nat>)
    requires DistinctOperations(ops) && LaneRuns.Ordered(Expand(ops, canAccess), trace) && trace != []
    ensures var es, n := Expand(ops, canAccess), |trace| - 1;
      FirstLeft(es, trace[..n], es[trace[n]].operation, 0) == trace[n]
  {
    var es, n := Expand(ops, canAccess), |trace| - 1;
    var init, j := trace[..n], trace[n];
    forall x | 0 <= x < j && es[x].operation == es[j].operation ensures x in init {
      LegsOfOne(ops, canAccess, x, j);
    }
    FirstLeftIs(es, init, es[j].operation, 0, j);
  }

  lemma {:induction false} PacketsAreIds(
    es: seq<Expanded>, subs: seq<LaneSubmission>, bounds: seq<nat>, producers: Producers,
    natives: seq<NativeSubmission>, steps: seq<nat>)
    requires Blocks(es, |es|, subs, bounds) && IsNative(subs, producers, natives)
    requires forall i :: 0 <= i < |Dispatched(natives, steps)| ==> Dispatched(natives, steps)[i] < |es|
    ensures Packets(natives, steps) == OperationsOf(es, Dispatched(natives, steps))
    decreases |steps|
  {
    if steps != [] {
      var init, j := steps[..|steps| - 1], steps[|steps| - 1];
      var before := Dispatched(natives, init);
      assert forall i :: 0 <= i < |before| ==> before[i] == Dispatched(natives, steps)[i];
      PacketsAreIds(es, subs, bounds, producers, natives, init);
      if Dispatching(natives, j, Turns(init, j)) {
        PacketOf(es, subs, bounds, producers, natives, j, Turns(init, j));
        OperationsNext(es, before, j);
      } else {
        assert Dispatched(natives, steps) == before && Packets(natives, steps) == Packets(natives, init);
      }
    }
  }

  lemma PacketOf(
    es: seq<Expanded>, subs: seq<LaneSubmission>, bounds: seq<nat>, producers: Producers,
    natives: seq<NativeSubmission>, j: nat, q: nat)
    requires Blocks(es, |es|, subs, bounds) && IsNative(subs, producers, natives) && Dispatching(natives, j, q)
    ensures j < |es| && natives[j].commands[q] == Dispatch(es[j].operation)
  {
    DispatchPlace(subs, producers, natives, j, q);
    LaneDispatch(subs, producers, natives, j);
    UnitBlock(es, subs, bounds, j);
  }

  lemma OperationsNext(es: seq<Expanded>, trace: seq<nat>, j: nat)
    requires j < |es| && forall i :: 0 <= i < |trace| ==> trace[i] < |es|
    ensures OperationsOf(es, trace + [j]) == OperationsOf(es, trace) + [es[j].operation]
  {
  }

  /** The packets alone determine the memory: an executor that sees only operation ids, with distinct ids for distinct
      operations, computes the caller's program in every run that reaches the finalizer's store. */
  lemma NativePacketsMatchProgram(
    k: Kernels, ops: seq<Operation>, canAccess: Access, limits: MergeLimits, subs: seq<LaneSubmission>,
    bounds: seq<nat>, producers: Producers, natives: seq<NativeSubmission>, steps: seq<nat>, s: QueueState, m: Memory)
    requires DistinctOperations(ops)
    requires OneDevice(subs) && IsSchedule(Expand(ops, canAccess), limits, subs, bounds)
      && IsNative(subs, producers, natives)
    requires RunsTo(natives, steps, s) && |subs| + 1 in s.stored
    requires ProgramOrder.StagingUnused(ProgramOrder.StageIds(ops), ops)
    ensures var es := Expand(ops, canAccess);
      var ran := Resolved(es, Packets(natives, steps));
      && (forall i :: 0 <= i < |ran| ==> ran[i] < |es|)
      && ProgramOrder.Agree(ProgramOrder.StageIds(ops),
           LaneRuns.RunTrace(ProgramOrder.RunOn(k), es, ran, m), ProgramOrder.RunProgram(k, ops, m))
  {
    var es := Expand(ops, canAccess);
    NativeQueuesMatchProgram(k, ops, canAccess, limits, subs, bounds, producers, natives, steps, s, m);
    PacketsAreIds(es, subs, bounds, producers, natives, steps);
    IdsNameCommands(ops, canAccess, Dispatched(natives, steps));
  }

  // ----- which schedules can be lowered -----

  /** A schedule can be lowered exactly when it is for one device and left unmerged;
      a merge limit of one keeps every schedule unmerged. */
  lemma ScheduleLowers(es: seq<Expanded>, limits: MergeLimits, subs: seq<LaneSubmission>, bounds: seq<nat>)
    requires IsSchedule(es, limits, subs, bounds)
    ensures Lowerable(subs) <==> OneDevice(subs) && |subs| == |es|
    ensures limits.maxSubmissions == 1 || limits.maxCommands == 1 ==> |subs| == |es|
  {
    ScheduleLinks(es, limits, subs, bounds);
    if Lowerable(subs) { UnitBounds(es, subs, bounds, |subs|); }
    if limits.maxSubmissions == 1 || limits.maxCommands == 1 {
      forall j | 0 <= j < |subs| ensures |subs[j].commands| == 1 {
        assert IsBlock(es, subs[j], bounds[j], bounds[j + 1]) && WithinLimits(subs[j], limits);
      }
      UnitBounds(es, subs, bounds, |subs|);
    }
    if |subs| == |es| {
      forall j | 0 <= j < |subs| ensures |subs[j].commands| == 1 {
        StrictBounds(es, subs, bounds, j);
        StrictBounds(es, subs, bounds, j + 1);
        assert IsBlock(es, subs[j], bounds[j], bounds[j + 1]);
      }
    }
  }

  /** As many submissions as commands leave each bound no choice. */
  lemma StrictBounds(es: seq<Expanded>, subs: seq<LaneSubmission>, bounds: seq<nat>, j: nat)
    requires Blocks(es, |es|, subs, bounds) && |subs| == |es| && j <= |subs|
    ensures bounds[j] == j
  {
    GrowBounds(bounds, 0, j);
    GrowBounds(bounds, j, |subs|);
  }

  lemma {:induction false} GrowBounds(bounds: seq<nat>, i: nat, j: nat)
    requires i <= j < |bounds| && forall x, y :: 0 <= x < y < |bounds| ==> bounds[x] < bounds[y]
    ensures bounds[j] - bounds[i] >= j - i
    decreases j
  {
    if i < j { GrowBounds(bounds, i, j - 1); }
  }
}
