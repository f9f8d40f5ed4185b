/** Lowering an unmerged single-device schedule to native queues with a finalizer,
    and running those queues concurrently. */
module NativeQueues {
  import opened Topology
  import opened Scheduler
  import opened LinkedPlan

  datatype Scope = QueueScope | SystemScope

  /** Slot 0 is the previous epoch, slot j + 1 the signal of submission j, and the last slot the finalizer's. */
  datatype NativeCommand = MemoryBarrier | WaitSlot(slot: nat) | Dispatch(operation: nat)
      | StoreSlot(slot: nat, scope: Scope)

  datatype NativeSubmission = NativeSubmission(queue: QueueKind, commands: seq<NativeCommand>)

  predicate OneDevice(subs: seq<LaneSubmission>) {
    forall j :: 0 <= j < |subs| ==> subs[j].lane.device == subs[0].lane.device
  }

  predicate Lowerable(subs: seq<LaneSubmission>) {
    && (forall j :: 0 <= j < |subs| ==> |subs[j].commands| == 1)
    && OneDevice(subs) && AllWaitsBound(subs)
  }

  type Producers = map<(DeviceQueue, nat), nat>

  /** Each published value leads to the last submission publishing it. */
  ghost predicate IsProducers(subs: seq<LaneSubmission>, n: nat, producers: Producers)
    requires n <= |subs|
  {
    && (forall key :: key in producers ==> producers[key] < n && Publishes(subs, producers[key], key.0, key.1))
    && (forall i :: 0 <= i < n ==>
          (subs[i].lane, subs[i].signalValue) in producers && i <= producers[(subs[i].lane, subs[i].signalValue)])
  }

  method CollectProducers(subs: seq<LaneSubmission>) returns (producers: Producers)
    ensures IsProducers(subs, |subs|, producers)
  {
    producers := map[];
    for i := 0 to |subs|
      invariant IsProducers(subs, i, producers)
    {
      producers := producers[(subs[i].lane, subs[i].signalValue) := i];
    }
  }

  function ProducerOf(producers: Producers, lane: DeviceQueue, value: nat): nat {
    if (lane, value) in producers then producers[(lane, value)] else 0
  }

  predicate IsLatest(subs: seq<LaneSubmission>, j: int) {
    0 <= j < |subs| && forall i :: j < i < |subs| ==> subs[i].lane != subs[j].lane
  }

  predicate IsFirst(subs: seq<LaneSubmission>, j: int) {
    0 <= j < |subs| && forall i :: 0 <= i < j ==> subs[i].lane != subs[j].lane
  }

  function FinalLane(subs: seq<LaneSubmission>): DeviceQueue
    requires subs != []
  {
    DeviceQueue(subs[0].lane.device, ComputeQueue(0))
  }

  /** Indices of the submissions that submission j waits for. */
  function Awaited(subs: seq<LaneSubmission>, producers: Producers, j: nat): set<nat>
    requires j < |subs|
  {
    set lane | lane in subs[j].waits :: ProducerOf(producers, lane, subs[j].waits[lane])
  }

  /** Indices the finalizer waits for: the last submission of every lane but its own. */
  function AwaitedAtEnd(subs: seq<LaneSubmission>): set<nat>
    requires subs != []
  {
    set j | 0 <= j < |subs| && IsLatest(subs, j) && subs[j].lane != FinalLane(subs)
  }

  ghost predicate WaitsForSlots(commands: seq<NativeCommand>, indices: set<nat>) {
    && (forall q :: 0 <= q < |commands| ==> IsWaitAmong(commands[q], indices))
    && (forall i {:trigger HasWait(commands, i)} :: i in indices ==> HasWait(commands, i))
  }

  predicate IsWaitAmong(command: NativeCommand, indices: set<nat>) {
    command.WaitSlot? && command.slot >= 1 && command.slot - 1 in indices
  }

  predicate HasWait(commands: seq<NativeCommand>, i: nat) {
    WaitSlot(i + 1) in commands
  }

  lemma OneMoreWait(waits: seq<NativeCommand>, indices: set<nat>, i: nat)
    requires WaitsForSlots(waits, indices)
    ensures WaitsForSlots(waits + [WaitSlot(i + 1)], indices + {i})
  {
    var more := waits + [WaitSlot(i + 1)];
    forall q | 0 <= q < |more| ensures IsWaitAmong(more[q], indices + {i}) {
      if q < |waits| { assert IsWaitAmong(waits[q], indices); }
    }
    forall k | k in indices + {i} ensures HasWait(more, k) {
      if k != i {
        assert HasWait(waits, k);
        StillWaits(waits, k, WaitSlot(i + 1));
      } else {
        assert more[|waits|] == WaitSlot(k + 1);
      }
    }
  }

  lemma StillWaits(waits: seq<NativeCommand>, k: nat, command: NativeCommand)
    requires HasWait(waits, k)
    ensures HasWait(waits + [command], k)
  {
  }

  function Opening(first: bool): seq<NativeCommand> {
    if first then [MemoryBarrier, WaitSlot(0)] else []
  }

  ghost predicate IsPublished(subs: seq<LaneSubmission>, producers: Producers, i: nat)
    requires subs != []
  {
    i in AwaitedAtEnd(subs) || exists j :: 0 <= j < |subs| && i in Awaited(subs, producers, j)
  }

  /** A store is System-scoped when another submission or the finalizer waits for it. */
  ghost function ScopeOf(subs: seq<LaneSubmission>, producers: Producers, j: nat): Scope
    requires subs != []
  {
    if IsPublished(subs, producers, j) then SystemScope else QueueScope
  }

  function Lower(sub: LaneSubmission, j: nat, first: bool, waits: seq<NativeCommand>, scope: Scope): NativeSubmission
    requires |sub.commands| == 1
  {
    NativeSubmission(sub.lane.queue,
      Opening(first) + waits + (if sub.waits == map[] then [] else [MemoryBarrier])
      + [Dispatch(sub.commands[0].operation), StoreSlot(j + 1, scope)])
  }

  ghost predicate IsLowered(subs: seq<LaneSubmission>, producers: Producers, j: nat, waits: seq<NativeCommand>,
      native: NativeSubmission)
    requires j < |subs| && |subs[j].commands| == 1
  {
    && WaitsForSlots(waits, Awaited(subs, producers, j)) && |waits| == |Awaited(subs, producers, j)|
    && native == Lower(subs[j], j, IsFirst(subs, j), waits, ScopeOf(subs, producers, j))
  }

  ghost predicate HasLowering(subs: seq<LaneSubmission>, producers: Producers, j: nat, native: NativeSubmission)
    requires j < |subs| && |subs[j].commands| == 1
  {
    exists waits :: IsLowered(subs, producers, j, waits, native)
  }

  function Finalizer(subs: seq<LaneSubmission>, waits: seq<NativeCommand>): NativeSubmission
    requires subs != []
  {
    NativeSubmission(FinalLane(subs).queue,
      Opening(forall i :: 0 <= i < |subs| ==> subs[i].lane != FinalLane(subs)) + waits
        + [StoreSlot(|subs| + 1, SystemScope)])
  }

  ghost predicate IsFinalizer(subs: seq<LaneSubmission>, waits: seq<NativeCommand>, native: NativeSubmission)
    requires subs != []
  {
    && WaitsForSlots(waits, AwaitedAtEnd(subs)) && |waits| == |AwaitedAtEnd(subs)|
    && native == Finalizer(subs, waits)
  }

  ghost predicate LanesLowered(subs: seq<LaneSubmission>, producers: Producers, natives: seq<NativeSubmission>, n: nat)
    requires n <= |subs| && n <= |natives|
  {
    && (forall j :: 0 <= j < |subs| ==> |subs[j].commands| == 1)
    && (forall j :: 0 <= j < n ==> HasLowering(subs, producers, j, natives[j]))
  }

  ghost predicate IsNative(subs: seq<LaneSubmission>, producers: Producers, natives: seq<NativeSubmission>) {
    && subs != [] && IsProducers(subs, |subs|, producers) && |natives| == |subs| + 1
    && LanesLowered(subs, producers, natives, |subs|)
    && exists waits :: IsFinalizer(subs, waits, natives[|subs|])
  }

  method SlotWaits(indices: set<nat>) returns (waits: seq<NativeCommand>)
    ensures WaitsForSlots(waits, indices) && |waits| == |indices|
  {
    waits := [];
    var rest := indices;
    while rest != {}
      invariant rest <= indices && WaitsForSlots(waits, indices - rest) && |waits| + |rest| == |indices|
      decreases |rest|
    {
      var i :| i in rest;
      OneMoreWait(waits, indices - rest, i);
      assert indices - (rest - {i}) == indices - rest + {i};
      waits := waits + [WaitSlot(i + 1)];
      rest := rest - {i};
    }
    assert indices - rest == indices;
  }

  /** The submissions whose store someone other than their own queue reads. */
  method CollectPublished(subs: seq<LaneSubmission>, producers: Producers) returns (published: set<nat>)
    requires subs != []
    ensures forall i :: i in published <==> IsPublished(subs, producers, i)
  {
    published := {};
    for j := 0 to |subs|
      invariant forall i :: i in published <==> exists k :: 0 <= k < j && i in Awaited(subs, producers, k)
    {
      published := published + Awaited(subs, producers, j);
    }
    published := published + AwaitedAtEnd(subs);
  }

  lemma LoweredPrefix(
    subs: seq<LaneSubmission>, producers: Producers, natives: seq<NativeSubmission>, more: seq<NativeSubmission>,
      n: nat)
    requires n <= |subs| && n <= |natives| && natives <= more && LanesLowered(subs, producers, natives, n)
    ensures LanesLowered(subs, producers, more, n)
  {
    forall j | 0 <= j < n ensures HasLowering(subs, producers, j, more[j]) {
      assert more[j] == natives[j];
    }
  }

  method LowerLanes(subs: seq<LaneSubmission>, producers: Producers) returns (natives: seq<NativeSubmission>)
    requires subs != [] && forall j :: 0 <= j < |subs| ==> |subs[j].commands| == 1
    ensures |natives| == |subs| && LanesLowered(subs, producers, natives, |subs|)
  {
    var published := CollectPublished(subs, producers);
    natives := [];
    for j := 0 to |subs|
      invariant |natives| == j && LanesLowered(subs, producers, natives, j)
    {
      var waits := SlotWaits(Awaited(subs, producers, j));
      var scope := if j in published then SystemScope else QueueScope;
      ghost var before := natives;
      natives := natives + [Lower(subs[j], j, IsFirst(subs, j), waits, scope)];
      assert IsLowered(subs, producers, j, waits, natives[j]);
      assert HasLowering(subs, producers, j, natives[j]);
      LoweredPrefix(subs, producers, before, natives, j);
    }
  }

  datatype NativeResult =
    | Native(submissions: seq<NativeSubmission>)
    | Merged
    | SeveralDevices
    | NoProducer(lane: DeviceQueue, value: nat)

  /** Some submission waits for the value, and none publishes it. */
  ghost predicate Unpublished(subs: seq<LaneSubmission>, lane: DeviceQueue, value: nat) {
    && (exists j :: 0 <= j < |subs| && lane in subs[j].waits && subs[j].waits[lane] == value)
    && forall i :: !Publishes(subs, i, lane, value)
  }

  /** Looks up every wait. */
  method MissingProducer(subs: seq<LaneSubmission>, producers: Producers) returns (missing: Option<(DeviceQueue, nat)>)
    requires IsProducers(subs, |subs|, producers)
    ensures missing.None? ==> AllWaitsBound(subs)
    ensures missing.Some? ==> Unpublished(subs, missing.value.0, missing.value.1)
  {
    for j := 0 to |subs|
      invariant forall i :: 0 <= i < j ==> WaitsBound(subs, i)
    {
      var lanes := subs[j].waits.Keys;
      while lanes != {}
        invariant lanes <= subs[j].waits.Keys
        invariant forall lane :: lane in subs[j].waits && lane !in lanes ==> (lane, subs[j].waits[lane]) in producers
        decreases |lanes|
      {
        var lane :| lane in lanes;
        if (lane, subs[j].waits[lane]) !in producers { return Some((lane, subs[j].waits[lane])); }
        lanes := lanes - {lane};
      }
      forall lane | lane in subs[j].waits
        ensures exists i :: 0 <= i < |subs| && Publishes(subs, i, lane, subs[j].waits[lane])
      {
        assert Publishes(subs, producers[(lane, subs[j].waits[lane])], lane, subs[j].waits[lane]);
      }
    }
    missing := None;
  }

  /** `native_submissions`. */
  method NativeSubmissions(subs: seq<LaneSubmission>) returns (r: NativeResult, ghost producers: Producers)
    ensures r.Native? <==> subs == [] || Lowerable(subs)
    ensures r.Native? ==> if subs == [] then r.submissions == [] else IsNative(subs, producers, r.submissions)
    ensures r.Merged? <==> exists j :: 0 <= j < |subs| && |subs[j].commands| != 1
    ensures r.SeveralDevices? <==> !r.Merged? && !OneDevice(subs)
    ensures r.NoProducer? ==> Unpublished(subs, r.lane, r.value)
  {
    producers := map[];
    if subs == [] { return Native([]), producers; }
    if exists j :: 0 <= j < |subs| && |subs[j].commands| != 1 { return Merged, producers; }
    if exists j :: 0 <= j < |subs| && subs[j].lane.device != subs[0].lane.device { return SeveralDevices, producers; }
    var collected := CollectProducers(subs);
    var missing := MissingProducer(subs, collected);
    if missing.Some? {
      NotAllBound(subs, missing.value.0, missing.value.1);
      return NoProducer(missing.value.0, missing.value.1), producers;
    }
    var natives := LowerLanes(subs, collected);
    var waits := SlotWaits(AwaitedAtEnd(subs));
    ghost var lanes := natives;
    natives := natives + [Finalizer(subs, waits)];
    assert IsFinalizer(subs, waits, natives[|subs|]);
    LoweredPrefix(subs, collected, lanes, natives, |subs|);
    return Native(natives), collected;
  }

  lemma NotAllBound(subs: seq<LaneSubmission>, lane: DeviceQueue, value: nat)
    requires Unpublished(subs, lane, value)
    ensures !AllWaitsBound(subs)
  {
    var j :| 0 <= j < |subs| && lane in subs[j].waits && subs[j].waits[lane] == value;
    assert !WaitsBound(subs, j);
  }

  // ----- the queues running concurrently -----

  /** How far each submission got, and which slots have been stored. */
  datatype QueueState = QueueState(progress: seq<nat>, stored: set<nat>)

  ghost predicate Finished(natives: seq<NativeSubmission>, s: QueueState, j: int) {
    0 <= j < |natives| == |s.progress| && s.progress[j] == |natives[j].commands|
  }

  ghost predicate CanRun(natives: seq<NativeSubmission>, s: QueueState, j: nat) {
    && j < |natives| == |s.progress| && s.progress[j] < |natives[j].commands|
    && (forall i :: 0 <= i < j && natives[i].queue == natives[j].queue ==> Finished(natives, s, i))
    && var command := natives[j].commands[s.progress[j]]; command.WaitSlot? ==> command.slot in s.stored
  }

  /** A step is one of a submission at the head of its queue, or, numbered past them all, the previous epoch's
      signal. */
  ghost predicate CanStep(natives: seq<NativeSubmission>, s: QueueState, j: nat) {
    if j == |natives| then |s.progress| == |natives| && 0 !in s.stored else CanRun(natives, s, j)
  }

  /** Submission j runs its next command, or the previous epoch signals slot 0. */
  ghost function StepOf(natives: seq<NativeSubmission>, s: QueueState, j: nat): QueueState
    requires CanStep(natives, s, j)
  {
    if j == |natives| then s.(stored := s.stored + {0}) else
    var command := natives[j].commands[s.progress[j]];
    QueueState(s.progress[j := s.progress[j] + 1], if command.StoreSlot? then s.stored + {command.slot} else s.stored)
  }

  /** The states reachable by some interleaving, from a start at which no slot is stored. */
  ghost predicate RunsTo(natives: seq<NativeSubmission>, steps: seq<nat>, s: QueueState)
    decreases |steps|
  {
    if steps == [] then s == QueueState(seq(|natives|, i => 0), {})
    else
      var n := |steps| - 1;
      exists before :: RunsTo(natives, steps[..n], before) && CanStep(natives, before, steps[n])
        && s == StepOf(natives, before, steps[n])
  }

  /** Every command but the last is no store, and the last stores the submission's own slot. */
  predicate StoresOnlyOwn(native: NativeSubmission, j: nat) {
    && |native.commands| > 0
    && (forall q :: 0 <= q < |native.commands| - 1 ==> !native.commands[q].StoreSlot?)
    && native.commands[|native.commands| - 1].StoreSlot? && native.commands[|native.commands| - 1].slot == j + 1
  }

  ghost predicate WellStored(natives: seq<NativeSubmission>) {
    forall j :: 0 <= j < |natives| ==> StoresOnlyOwn(natives[j], j)
  }

  predicate Awaits(natives: seq<NativeSubmission>, j: int, p: int) {
    0 <= j < |natives| && 0 <= p && WaitSlot(p + 1) in natives[j].commands
  }

  ghost predicate FifoOk(natives: seq<NativeSubmission>, s: QueueState) {
    && |s.progress| == |natives|
    && (forall j :: 0 <= j < |natives| ==> s.progress[j] <= |natives[j].commands|)
    && (forall i, j :: 0 <= i < j < |natives| && natives[i].queue == natives[j].queue && s.progress[j] > 0 ==>
      Finished(natives, s, i))
  }

  /** A slot is stored exactly when its submission has finished. */
  ghost predicate StoredOk(natives: seq<NativeSubmission>, s: QueueState) {
    forall j :: 0 <= j < |natives| ==> (j + 1 in s.stored <==> Finished(natives, s, j))
  }

  ghost predicate WaitedOk(natives: seq<NativeSubmission>, s: QueueState)
    requires FifoOk(natives, s)
  {
    forall j, q :: 0 <= j < |natives| && 0 <= q < s.progress[j] && natives[j].commands[q].WaitSlot? ==>
      natives[j].commands[q].slot in s.stored
  }

  ghost predicate QueuesOk(natives: seq<NativeSubmission>, s: QueueState) {
    FifoOk(natives, s) && StoredOk(natives, s) && WaitedOk(natives, s)
  }

  lemma FifoStep(natives: seq<NativeSubmission>, s: QueueState, j: nat)
    requires FifoOk(natives, s) && CanStep(natives, s, j)
    ensures FifoOk(natives, StepOf(natives, s, j))
  {
  }

  lemma StoredStep(natives: seq<NativeSubmission>, s: QueueState, j: nat)
    requires FifoOk(natives, s) && StoredOk(natives, s) && CanStep(natives, s, j) && WellStored(natives)
    ensures StoredOk(natives, StepOf(natives, s, j))
  {
    var s' := StepOf(natives, s, j);
    if j < |natives| { assert StoresOnlyOwn(natives[j], j); }
    forall i | 0 <= i < |natives| ensures i + 1 in s'.stored <==> Finished(natives, s', i) {
      assert i + 1 in s.stored <==> Finished(natives, s, i);
      if i != j { assert Finished(natives, s, i) <==> Finished(natives, s', i); }
    }
  }

  lemma {:induction false} QueuesReachable(natives: seq<NativeSubmission>, steps: seq<nat>, s: QueueState)
    requires RunsTo(natives, steps, s) && WellStored(natives)
    ensures QueuesOk(natives, s)
    decreases |steps|
  {
    if steps == [] {
      forall j | 0 <= j < |natives| ensures !Finished(natives, s, j) { assert StoresOnlyOwn(natives[j], j); }
    } else {
      var n := |steps| - 1;
      var before :| RunsTo(natives, steps[..n], before) && CanStep(natives, before, steps[n])
        && s == StepOf(natives, before, steps[n]);
      QueuesReachable(natives, steps[..n], before);
      FifoStep(natives, before, steps[n]);
      StoredStep(natives, before, steps[n]);
    }
  }

  /** Past its waits, a submission knows that all it awaits, and all before that on the same queue, has finished. */
  lemma AwaitedFinished(natives: seq<NativeSubmission>, steps: seq<nat>, s: QueueState, j: nat, p: nat, i: nat)
    requires WellStored(natives) && RunsTo(natives, steps, s) && |s.progress| == |natives|
    requires Awaits(natives, j, p) && s.progress[j] >= |natives[j].commands| - 1
    requires i <= p < |natives| && natives[i].queue == natives[p].queue
    ensures Finished(natives, s, i)
  {
    QueuesReachable(natives, steps, s);
    assert StoresOnlyOwn(natives[j], j) && StoresOnlyOwn(natives[p], p);
    var q :| 0 <= q < |natives[j].commands| && natives[j].commands[q] == WaitSlot(p + 1);
    assert p + 1 in s.stored;
    assert Finished(natives, s, p);
  }

  lemma FirstUnfinishedQueue(natives: seq<NativeSubmission>, s: QueueState) returns (j: nat)
    requires exists i :: 0 <= i < |natives| && !Finished(natives, s, i)
    ensures j < |natives| && !Finished(natives, s, j) && forall i :: 0 <= i < j ==> Finished(natives, s, i)
  {
    j := 0;
    while Finished(natives, s, j)
      invariant j < |natives| && forall i :: 0 <= i < j ==> Finished(natives, s, i)
      decreases |natives| - j
    {
      j := j + 1;
    }
  }

  /** Queues whose waits all look back never deadlock, once the previous epoch has signalled. */
  lemma QueuesNoDeadlock(natives: seq<NativeSubmission>, steps: seq<nat>, s: QueueState) returns (j: nat)
    requires WellStored(natives) && RunsTo(natives, steps, s) && 0 in s.stored
    requires forall j, p :: Awaits(natives, j, p) ==> p < j
    requires exists i :: 0 <= i < |natives| && !Finished(natives, s, i)
    ensures CanRun(natives, s, j)
  {
    QueuesReachable(natives, steps, s);
    j := FirstUnfinishedQueue(natives, s);
    var command := natives[j].commands[s.progress[j]];
    if command.WaitSlot? && command.slot > 0 {
      var p := command.slot - 1;
      assert command == WaitSlot(p + 1) && command in natives[j].commands;
      assert Awaits(natives, j, p);
      assert Finished(natives, s, p);
    }
  }

  // ----- what the lowering guarantees -----

  lemma LoweredCommands(
    commands: seq<NativeCommand>, opening: bool, waits: seq<NativeCommand>, tail: seq<NativeCommand>, indices: set<nat>,
      i: nat)
    requires commands == Opening(opening) + waits + tail
    requires WaitsForSlots(waits, indices) && forall q :: 0 <= q < |tail| ==> !tail[q].WaitSlot?
    ensures WaitSlot(i + 1) in commands <==> i in indices
  {
    var c := WaitSlot(i + 1);
    assert i in indices ==> HasWait(waits, i);
    assert c !in tail && c !in Opening(opening);
    assert c in commands <==> HasWait(waits, i);
    if c in waits {
      var w :| 0 <= w < |waits| && waits[w] == c;
      assert IsWaitAmong(waits[w], indices);
    }
  }

  /** A submission waits for slot i + 1 exactly when it awaits submission i. */
  lemma LaneAwaits(subs: seq<LaneSubmission>, producers: Producers, natives: seq<NativeSubmission>, j: nat, i: nat)
    requires IsNative(subs, producers, natives) && j < |subs|
    ensures Awaits(natives, j, i) <==> i in Awaited(subs, producers, j)
  {
    assert HasLowering(subs, producers, j, natives[j]);
    var waits :| IsLowered(subs, producers, j, waits, natives[j]);
    var tail := (if subs[j].waits == map[] then [] else [MemoryBarrier])
      + [Dispatch(subs[j].commands[0].operation), StoreSlot(j + 1, ScopeOf(subs, producers, j))];
    LoweredCommands(natives[j].commands, IsFirst(subs, j), waits, tail, Awaited(subs, producers, j), i);
  }

  lemma FinalizerAwaits(subs: seq<LaneSubmission>, producers: Producers, natives: seq<NativeSubmission>, i: nat)
    requires IsNative(subs, producers, natives)
    ensures Awaits(natives, |subs|, i) <==> i in AwaitedAtEnd(subs)
  {
    var waits :| IsFinalizer(subs, waits, natives[|subs|]);
    var first := forall k :: 0 <= k < |subs| ==> subs[k].lane != FinalLane(subs);
    LoweredCommands(natives[|subs|].commands, first, waits, [StoreSlot(|subs| + 1, SystemScope)], AwaitedAtEnd(subs),
      i);
  }

  lemma NativeStore(subs: seq<LaneSubmission>, producers: Producers, natives: seq<NativeSubmission>, j: nat)
    requires IsNative(subs, producers, natives) && j <= |subs|
    ensures StoresOnlyOwn(natives[j], j)
    ensures natives[j].queue == if j < |subs| then subs[j].lane.queue else FinalLane(subs).queue
    ensures j < |subs| ==> natives[j].commands[|natives[j].commands| - 1].scope == ScopeOf(subs, producers, j)
  {
    if j < |subs| {
      assert HasLowering(subs, producers, j, natives[j]);
      var waits :| IsLowered(subs, producers, j, waits, natives[j]);
      LoweredStore(subs[j], j, IsFirst(subs, j), waits, ScopeOf(subs, producers, j));
    } else {
      var waits :| IsFinalizer(subs, waits, natives[|subs|]);
      FinalStore(subs, waits);
    }
  }

  predicate StoreFree(commands: seq<NativeCommand>) {
    forall q :: 0 <= q < |commands| ==> !commands[q].StoreSlot?
  }

  lemma LoweredStore(sub: LaneSubmission, j: nat, first: bool, waits: seq<NativeCommand>, scope: Scope)
    requires |sub.commands| == 1 && StoreFree(waits)
    ensures var native := Lower(sub, j, first, waits, scope);
      StoresOnlyOwn(native, j) && native.commands[|native.commands| - 1].scope == scope
  {
    var front := Opening(first) + waits + (if sub.waits == map[] then [] else [MemoryBarrier]);
    assert StoreFree(front);
    assert Lower(sub, j, first, waits, scope).commands
      == front + [Dispatch(sub.commands[0].operation)] + [StoreSlot(j + 1, scope)];
  }

  lemma FinalStore(subs: seq<LaneSubmission>, waits: seq<NativeCommand>)
    requires subs != [] && StoreFree(waits)
    ensures StoresOnlyOwn(Finalizer(subs, waits), |subs|)
  {
  }

  lemma NativeStores(subs: seq<LaneSubmission>, producers: Producers, natives: seq<NativeSubmission>)
    requires IsNative(subs, producers, natives)
    ensures WellStored(natives)
  {
    forall j | 0 <= j < |natives| ensures StoresOnlyOwn(natives[j], j) { NativeStore(subs, producers, natives, j); }
  }

  /** Published submissions are those that some submission or the finalizer waits for. */
  lemma PublishedIsAwaited(subs: seq<LaneSubmission>, producers: Producers, natives: seq<NativeSubmission>, i: nat)
    requires IsNative(subs, producers, natives)
    ensures IsPublished(subs, producers, i) <==> exists j :: Awaits(natives, j, i)
  {
    if j :| Awaits(natives, j, i) {
      if j < |subs| {
        LaneAwaits(subs, producers, natives, j, i);
      } else {
        FinalizerAwaits(subs, producers, natives, i);
      }
    }
    if i in AwaitedAtEnd(subs) {
      FinalizerAwaits(subs, producers, natives, i);
      assert Awaits(natives, |subs|, i);
    } else if j :| 0 <= j < |subs| && i in Awaited(subs, producers, j) {
      LaneAwaits(subs, producers, natives, j, i);
      assert Awaits(natives, j, i);
    }
  }

  /** A lane's store is System-scoped exactly when another submission, or the finalizer, waits for it. */
  lemma ScopeExact(subs: seq<LaneSubmission>, producers: Producers, natives: seq<NativeSubmission>, i: nat)
    requires IsNative(subs, producers, natives) && i < |subs|
    ensures natives[i].commands != [] && (natives[i].commands[|natives[i].commands| - 1]
      == StoreSlot(i + 1, SystemScope)
      <==> exists j :: Awaits(natives, j, i))
  {
    NativeStore(subs, producers, natives, i);
    PublishedIsAwaited(subs, producers, natives, i);
  }

  // ----- what each packet list looks like -----

  /** The packets with which a lane's first use begins: caches are made coherent, and the previous epoch is awaited. */
  predicate OpensEpoch(native: NativeSubmission) {
    |native.commands| >= 3 && native.commands[0] == MemoryBarrier && native.commands[1] == WaitSlot(0)
  }

  predicate AwaitsEpoch(native: NativeSubmission) {
    WaitSlot(0) in native.commands
  }

  /** A lane's first submission opens the epoch, and no other one of it waits for the previous epoch. */
  lemma FirstUseOpens(subs: seq<LaneSubmission>, producers: Producers, natives: seq<NativeSubmission>, j: nat)
    requires IsNative(subs, producers, natives) && j < |subs|
    ensures (forall i :: 0 <= i < j ==> subs[i].lane != subs[j].lane) ==>
      OpensEpoch(natives[j]) && |natives[j].commands| >= 4
    ensures AwaitsEpoch(natives[j]) <==> forall i :: 0 <= i < j ==> subs[i].lane != subs[j].lane
  {
    assert HasLowering(subs, producers, j, natives[j]);
    var waits :| IsLowered(subs, producers, j, waits, natives[j]);
    if forall i :: 0 <= i < j ==> subs[i].lane != subs[j].lane {
      assert natives[j].commands[..2] == Opening(true);
    } else {
      assert !IsFirst(subs, j) && WaitSlot(0) !in waits;
    }
  }

  /** The finalizer runs on compute queue 0, and opens the epoch itself where no submission of that lane has. */
  lemma FinalizerOpens(subs: seq<LaneSubmission>, producers: Producers, natives: seq<NativeSubmission>)
    requires IsNative(subs, producers, natives)
    ensures natives[|subs|].queue == ComputeQueue(0)
    ensures (forall i :: 0 <= i < |subs| ==> subs[i].lane != DeviceQueue(subs[0].lane.device, ComputeQueue(0))) ==>
      OpensEpoch(natives[|subs|])
    ensures AwaitsEpoch(natives[|subs|]) <==>
      forall i :: 0 <= i < |subs| ==> subs[i].lane != DeviceQueue(subs[0].lane.device, ComputeQueue(0))
  {
    var waits :| IsFinalizer(subs, waits, natives[|subs|]);
    assert WaitSlot(0) !in waits;
    if forall i :: 0 <= i < |subs| ==> subs[i].lane != DeviceQueue(subs[0].lane.device, ComputeQueue(0)) {
      assert natives[|subs|].commands[..2] == Opening(true);
    }
  }

  /** What a submission waits for from others has reached memory before its caches are made coherent, which is
      before its dispatch. */
  lemma BarrierAfterWaits(
    subs: seq<LaneSubmission>, producers: Producers, natives: seq<NativeSubmission>, j: nat, p: nat)
    requires IsNative(subs, producers, natives) && j < |subs| && Awaits(natives, j, p)
    ensures var c := natives[j].commands; var n := |c|;
      && n >= 4 && c[n - 3] == MemoryBarrier && c[n - 2].Dispatch? && c[n - 1].StoreSlot?
      && forall q :: 0 <= q < n && c[q].WaitSlot? ==> q < n - 3
  {
    LaneAwaits(subs, producers, natives, j, p);
    assert HasLowering(subs, producers, j, natives[j]);
    var waits :| IsLowered(subs, producers, j, waits, natives[j]);
    var lane :| lane in subs[j].waits;
    assert subs[j].waits != map[];
    var front, tail := Opening(IsFirst(subs, j)) + waits,
      [MemoryBarrier, Dispatch(subs[j].commands[0].operation), StoreSlot(j + 1, ScopeOf(subs, producers, j))];
    assert natives[j].commands == front + tail;
    assert |waits| > 0 by { assert HasWait(waits, p); }
  }

  /** A scheduled submission waits for exactly the submissions that publish the values it was scheduled to wait for. */
  lemma WaitsForPublishers(
    es: seq<Expanded>, limits: MergeLimits, subs: seq<LaneSubmission>, bounds: seq<nat>, producers: Producers,
    natives: seq<NativeSubmission>, j: nat, p: nat)
    requires IsSchedule(es, limits, subs, bounds) && IsNative(subs, producers, natives) && j < |subs|
    ensures Awaits(natives, j, p) <==>
      exists lane :: lane in subs[j].waits && Publishes(subs, p, lane, subs[j].waits[lane])
  {
    LaneAwaits(subs, producers, natives, j, p);
    if Awaits(natives, j, p) {
      var lane :| lane in subs[j].waits && p == ProducerOf(producers, lane, subs[j].waits[lane]);
      var q := ScheduledAwaits(es, limits, subs, bounds, producers, j, lane);
      assert Publishes(subs, p, lane, subs[j].waits[lane]);
    }
    if lane :| lane in subs[j].waits && Publishes(subs, p, lane, subs[j].waits[lane]) {
      OnlyPublisher(es, limits, subs, bounds, producers, j, p, lane);
    }
  }

  lemma OnlyPublisher(
    es: seq<Expanded>, limits: MergeLimits, subs: seq<LaneSubmission>, bounds: seq<nat>, producers: Producers, j: nat,
    p: nat, lane: DeviceQueue)
    requires IsSchedule(es, limits, subs, bounds) && IsProducers(subs, |subs|, producers) && j < |subs|
    requires lane in subs[j].waits && Publishes(subs, p, lane, subs[j].waits[lane])
    ensures p in Awaited(subs, producers, j)
  {
    var q := ScheduledAwaits(es, limits, subs, bounds, producers, j, lane);
    SignalOrder(es, subs, bounds, p, q);
    SignalOrder(es, subs, bounds, q, p);
  }

  /** The finalizer waits for exactly the last submission of every lane but its own. */
  lemma FinalizerWaitsForLast(
    subs: seq<LaneSubmission>, producers: Producers, natives: seq<NativeSubmission>, i: nat)
    requires IsNative(subs, producers, natives)
    ensures Awaits(natives, |subs|, i) <==>
      && i < |subs| && subs[i].lane != DeviceQueue(subs[0].lane.device, ComputeQueue(0))
      && forall k :: i < k < |subs| ==> subs[k].lane != subs[i].lane
  {
    FinalizerAwaits(subs, producers, natives, i);
  }

  lemma LatestOf(subs: seq<LaneSubmission>, j: nat) returns (last: nat)
    requires j < |subs|
    ensures j <= last < |subs| && IsLatest(subs, last) && subs[last].lane == subs[j].lane
    decreases |subs| - j
  {
    if IsLatest(subs, j) {
      last := j;
    } else {
      var i :| j < i < |subs| && subs[i].lane == subs[j].lane;
      last := LatestOf(subs, i);
    }
  }

  /** In every interleaving, the finalizer's store comes after every operation has run. */
  lemma FinalizerIsLast(
    subs: seq<LaneSubmission>, producers: Producers, natives: seq<NativeSubmission>, steps: seq<nat>, s: QueueState,
      j: nat)
    requires OneDevice(subs) && IsNative(subs, producers, natives) && RunsTo(natives, steps, s)
    requires |subs| + 1 in s.stored && j < |subs|
    ensures Finished(natives, s, j)
  {
    NativeStores(subs, producers, natives);
    QueuesReachable(natives, steps, s);
    var f := |subs|;
    NativeStore(subs, producers, natives, f);
    NativeStore(subs, producers, natives, j);
    assert Finished(natives, s, f);
    if subs[j].lane != FinalLane(subs) {
      var last := LatestOf(subs, j);
      NativeStore(subs, producers, natives, last);
      FinalizerAwaits(subs, producers, natives, last);
      AwaitedFinished(natives, steps, s, f, last, j);
    }
  }

  /** The producers a scheduled submission awaits are earlier ones, and reach at least the last
      submission it depends on in each lane. */
  lemma ScheduledAwaits(
    es: seq<Expanded>, limits: MergeLimits, subs: seq<LaneSubmission>, bounds: seq<nat>, producers: Producers, j: nat,
      lane: DeviceQueue)
    returns (p: nat)
    requires IsSchedule(es, limits, subs, bounds) && IsProducers(subs, |subs|, producers) && j < |subs|
      && lane in subs[j].waits
    ensures p == ProducerOf(producers, lane, subs[j].waits[lane]) < j
    ensures subs[p].lane == lane && subs[p].signalValue == subs[j].waits[lane]
  {
    var i := EarlierProducer(es, limits, subs, bounds, j, lane);
    assert (subs[i].lane, subs[i].signalValue) in producers;
    p := ProducerOf(producers, lane, subs[j].waits[lane]);
    assert Publishes(subs, p, lane, subs[j].waits[lane]);
    SignalOrder(es, subs, bounds, p, i);
  }

  /** The native queues of a schedule never deadlock: the previous epoch can signal, or a submission can step. */
  lemma NativeNoDeadlock(
    es: seq<Expanded>, limits: MergeLimits, subs: seq<LaneSubmission>, bounds: seq<nat>, producers: Producers,
    natives: seq<NativeSubmission>, steps: seq<nat>, s: QueueState) returns (j: nat)
    requires IsSchedule(es, limits, subs, bounds) && IsNative(subs, producers, natives) && RunsTo(natives, steps, s)
    requires exists i :: 0 <= i < |natives| && !Finished(natives, s, i)
    ensures CanStep(natives, s, j) && (0 in s.stored ==> j < |natives|)
  {
    QueuesReachable(natives, steps, s) by { NativeStores(subs, producers, natives); }
    if 0 !in s.stored { return |natives|; }
    NativeStores(subs, producers, natives);
    forall j: int, p: int | Awaits(natives, j, p) ensures p < j {
      AwaitsLookBack(es, limits, subs, bounds, producers, natives, j, p);
    }
    j := QueuesNoDeadlock(natives, steps, s);
  }

  /** A schedule's native waits name earlier submissions only. */
  lemma AwaitsLookBack(
    es: seq<Expanded>, limits: MergeLimits, subs: seq<LaneSubmission>, bounds: seq<nat>, producers: Producers,
    natives: seq<NativeSubmission>, j: nat, p: nat)
    requires IsSchedule(es, limits, subs, bounds) && IsNative(subs, producers, natives) && Awaits(natives, j, p)
    ensures p < j
  {
    if j < |subs| {
      LaneAwaits(subs, producers, natives, j, p);
      var lane :| lane in subs[j].waits && p == ProducerOf(producers, lane, subs[j].waits[lane]);
      var p' := ScheduledAwaits(es, limits, subs, bounds, producers, j, lane);
    } else {
      FinalizerAwaits(subs, producers, natives, p);
    }
  }

  lemma AwaitsDependency(
    es: seq<Expanded>, limits: MergeLimits, subs: seq<LaneSubmission>, bounds: seq<nat>, producers: Producers, i: nat,
      a: nat, j: nat, b: nat)
    returns (p: nat)
    requires IsSchedule(es, limits, subs, bounds) && IsProducers(subs, |subs|, producers)
      && Dependency(es, bounds, i, a, j, b)
    ensures j < |subs| && p in Awaited(subs, producers, j) && i <= p < |subs| && subs[p].lane == subs[i].lane
  {
    assert PublishedWaits(es, subs, bounds, j, subs[j].waits);
    p := ScheduledAwaits(es, limits, subs, bounds, producers, j, subs[i].lane);
    SignalOrder(es, subs, bounds, i, p);
  }

  /** On the native queues of a schedule, a conflicting later operation is dispatched only
      after the submission of the earlier one has finished. */
  lemma NativeKeepsDependencies(
    es: seq<Expanded>, limits: MergeLimits, subs: seq<LaneSubmission>, bounds: seq<nat>, producers: Producers,
    natives: seq<NativeSubmission>, steps: seq<nat>, s: QueueState, i: nat, a: nat, j: nat, b: nat)
    requires IsSchedule(es, limits, subs, bounds) && IsNative(subs, producers, natives) && RunsTo(natives, steps, s)
    requires Dependency(es, bounds, i, a, j, b) && |s.progress| == |natives|
      && s.progress[j] >= |natives[j].commands| - 1
    ensures Finished(natives, s, i)
  {
    var p := AwaitsDependency(es, limits, subs, bounds, producers, i, a, j, b);
    NativeStores(subs, producers, natives);
    NativeStore(subs, producers, natives, i);
    NativeStore(subs, producers, natives, p);
    LaneAwaits(subs, producers, natives, j, p);
    AwaitedFinished(natives, steps, s, j, p, i);
  }
}
