/** Binding a schedule to timeline points, and replaying it on the null executor. */
module LinkedPlan {
  import opened Topology
  import opened Scheduler

  const TIMELINE_ROLLOVER: nat := 0x8000_0000

  datatype TimelinePoint = TimelinePoint(address: nat, value: nat)

  datatype SignalPair = SignalPair(first: nat, second: nat)

  /** The k-th point a timeline hands out: values run to the rollover, then the shadow signal takes over. */
  function PointAt(signals: SignalPair, k: nat): TimelinePoint {
    TimelinePoint(if k / TIMELINE_ROLLOVER % 2 == 0 then signals.first else signals.second, k % TIMELINE_ROLLOVER + 1)
  }

  /** Points repeat exactly every two rollovers of 2^31 values each. */
  lemma PointsRepeat(signals: SignalPair, j: nat, k: nat)
    requires signals.first != signals.second && j <= k
    ensures PointAt(signals, j) == PointAt(signals, k) <==> (k - j) % 0x1_0000_0000 == 0
  {
    if (k - j) % (2 * TIMELINE_ROLLOVER) == 0 {
      DivideShifted(j, 2 * ((k - j) / (2 * TIMELINE_ROLLOVER)));
    }
    if PointAt(signals, j) == PointAt(signals, k) { SameGeneration(j, k); }
  }

  lemma SameGeneration(j: nat, k: nat)
    requires j / TIMELINE_ROLLOVER % 2 == k / TIMELINE_ROLLOVER % 2 && j % TIMELINE_ROLLOVER == k % TIMELINE_ROLLOVER
    ensures (k - j) % (2 * TIMELINE_ROLLOVER) == 0
  {
    var t := k / TIMELINE_ROLLOVER / 2 - j / TIMELINE_ROLLOVER / 2;
    assert k / TIMELINE_ROLLOVER == j / TIMELINE_ROLLOVER + 2 * t;
    assert k - j == t * (2 * TIMELINE_ROLLOVER);
  }

  lemma DivideShifted(j: nat, n: nat)
    ensures (j + n * TIMELINE_ROLLOVER) / TIMELINE_ROLLOVER == j / TIMELINE_ROLLOVER + n
    ensures (j + n * TIMELINE_ROLLOVER) % TIMELINE_ROLLOVER == j % TIMELINE_ROLLOVER
  {
  }

  /** Where in the point sequence a timeline opened at `start` hands out its k-th point. */
  function Position(start: nat, k: nat): int {
    if start > TIMELINE_ROLLOVER then TIMELINE_ROLLOVER + k else start + k - 1
  }

  /** A timeline opened at 0 first hands out value 0, which stands before the sequence. */
  function PointFrom(signals: SignalPair, start: nat, k: nat): TimelinePoint {
    var at := Position(start, k);
    if at < 0 then TimelinePoint(signals.first, 0) else PointAt(signals, at)
  }

  lemma NextPosition(p: nat)
    ensures p % TIMELINE_ROLLOVER < TIMELINE_ROLLOVER - 1 ==>
      (p + 1) % TIMELINE_ROLLOVER == p % TIMELINE_ROLLOVER + 1 && (p + 1) / TIMELINE_ROLLOVER == p / TIMELINE_ROLLOVER
    ensures p % TIMELINE_ROLLOVER == TIMELINE_ROLLOVER - 1 ==>
      && (p + 1) % TIMELINE_ROLLOVER == 0
      && (p + 1) / TIMELINE_ROLLOVER % 2 == 1 - p / TIMELINE_ROLLOVER % 2
  {
  }

  class EpochTimeline {
    const signals: SignalPair
    ghost const start: nat
    var active: nat
    var next: nat
    var pendingReset: Option<nat>
    ghost var issued: nat

    ghost predicate Valid() reads this {
      && active < 2
      && (issued == 0 ==> active == 0 && next == start)
      && (issued > 0 ==> StandsAfter(Position(start, issued - 1)))
    }

    ghost predicate StandsAfter(p: int) reads this {
      if p < 0 then active == 0 && next == 1
      else active == p / TIMELINE_ROLLOVER % 2 && next == p % TIMELINE_ROLLOVER + 2
    }

    constructor (signals: SignalPair)
      ensures Valid() && issued == 0 && start == 1 && this.signals == signals && pendingReset == None
    {
      this.signals, start := signals, 1;
      active, next, pendingReset, issued := 0, 1, None, 0;
    }

    /** `with_next`: opens the timeline at any value. */
    constructor WithNext(signals: SignalPair, next: nat)
      ensures Valid() && issued == 0 && start == next && this.signals == signals && pendingReset == None
    {
      this.signals, start := signals, next;
      this.next := next;
      active, pendingReset, issued := 0, None, 0;
    }

    function Address(): nat reads this { if active == 0 then signals.first else signals.second }

    /** The last point handed out; before the first, the value just below the opening one. */
    method Current() returns (point: TimelinePoint)
      requires Valid()
      ensures issued > 0 ==> point == PointFrom(signals, start, issued - 1)
      ensures issued == 0 ==> point == TimelinePoint(signals.first, if start == 0 then 0 else start - 1)
    {
      point := TimelinePoint(Address(), if next >= 1 then next - 1 else 0);
    }

    method Reserve() returns (point: TimelinePoint)
      requires Valid()
      modifies this
      ensures Valid() && issued == old(issued) + 1 && point == PointFrom(signals, start, old(issued))
      ensures var at := Position(start, old(issued));
        pendingReset == if at > 0 && at % TIMELINE_ROLLOVER == 0 then Some(point.address) else old(pendingReset)
    {
      ghost var p := Position(start, issued);
      if p > 0 { NextPosition(p - 1); }
      if next > TIMELINE_ROLLOVER {
        active := 1 - active;
        next := 1;
        pendingReset := Some(Address());
      }
      point := TimelinePoint(Address(), next);
      next := next + 1;
      issued := issued + 1;
    }

    method TakeReset() returns (reset: Option<nat>)
      requires Valid()
      modifies this
      ensures Valid() && issued == old(issued) && reset == old(pendingReset) && pendingReset == None
    {
      reset := pendingReset;
      pendingReset := None;
    }
  }

  // ----- linking -----

  datatype TimelineBinding = TimelineBinding(lane: DeviceQueue, logicalValue: nat, point: TimelinePoint)

  type LaneSignals = DeviceQueue -> SignalPair

  /** Submissions of `lane` among the first n. */
  function Before(subs: seq<LaneSubmission>, n: nat, lane: DeviceQueue): nat
    requires n <= |subs|
  {
    if n == 0 then 0 else Before(subs, n - 1, lane) + if subs[n - 1].lane == lane then 1 else 0
  }

  /** Each lane's submissions take consecutive points of the lane's own timeline. */
  function BindingOf(subs: seq<LaneSubmission>, signals: LaneSignals, j: nat): TimelineBinding
    requires j < |subs|
  {
    var lane := subs[j].lane;
    TimelineBinding(lane, subs[j].signalValue, PointAt(signals(lane), Before(subs, j, lane)))
  }

  predicate Publishes(subs: seq<LaneSubmission>, i: int, lane: DeviceQueue, value: nat) {
    0 <= i < |subs| && subs[i].lane == lane && subs[i].signalValue == value
  }

  predicate WaitsBound(subs: seq<LaneSubmission>, j: nat)
    requires j < |subs|
  {
    forall lane :: lane in subs[j].waits ==> exists i ::
      0 <= i < |subs| && Publishes(subs, i, lane, subs[j].waits[lane])
  }

  predicate AllWaitsBound(subs: seq<LaneSubmission>) {
    forall j :: 0 <= j < |subs| ==> WaitsBound(subs, j)
  }

  /** Every lane met so far owns one timeline, advanced once per submission of that lane. */
  ghost predicate TimelinesOk(
    timelines: map<DeviceQueue, EpochTimeline>, subs: seq<LaneSubmission>, j: nat, signals: LaneSignals)
    requires j <= |subs|
    reads timelines.Values
  {
    && (forall lane :: lane in timelines ==>
          var t := timelines[lane];
            t.Valid() && t.start == 1 && t.signals == signals(lane)
            && t.issued == Before(subs, j, lane))
    && (forall x, y :: x in timelines && y in timelines && x != y ==> timelines[x] != timelines[y])
    && (forall lane :: lane !in timelines ==> Before(subs, j, lane) == 0)
  }

  method OpenTimeline(
    timelines: map<DeviceQueue, EpochTimeline>, ghost subs: seq<LaneSubmission>, ghost j: nat, signals: LaneSignals,
    lane: DeviceQueue) returns (grown: map<DeviceQueue, EpochTimeline>)
    requires j <= |subs| && TimelinesOk(timelines, subs, j, signals)
    ensures TimelinesOk(grown, subs, j, signals) && lane in grown
    ensures forall l :: l in grown ==> if l in timelines then grown[l] == timelines[l] else fresh(grown[l])
  {
    grown := timelines;
    if lane !in timelines {
      var timeline := new EpochTimeline(signals(lane));
      grown := timelines[lane := timeline];
    }
  }

  method ReserveFor(
    timelines: map<DeviceQueue, EpochTimeline>, ghost subs: seq<LaneSubmission>, ghost j: nat,
      ghost signals: LaneSignals,
    lane: DeviceQueue) returns (point: TimelinePoint)
    requires j < |subs| && TimelinesOk(timelines, subs, j, signals) && lane in timelines && subs[j].lane == lane
    modifies timelines[lane]
    ensures TimelinesOk(timelines, subs, j + 1, signals) && point == PointAt(signals(lane), Before(subs, j, lane))
  {
    point := timelines[lane].Reserve();
  }

  method ReserveBindings(subs: seq<LaneSubmission>, signals: LaneSignals) returns (bindings: seq<TimelineBinding>)
    ensures |bindings| == |subs| && forall j :: 0 <= j < |subs| ==> bindings[j] == BindingOf(subs, signals, j)
  {
    var timelines: map<DeviceQueue, EpochTimeline> := map[];
    bindings := [];
    for j := 0 to |subs|
      invariant |bindings| == j && forall i :: 0 <= i < j ==> bindings[i] == BindingOf(subs, signals, i)
      invariant (forall lane :: lane in timelines ==> fresh(timelines[lane]))
        && TimelinesOk(timelines, subs, j, signals)
    {
      var binding;
      timelines, binding := ReserveNext(timelines, subs, j, signals);
      bindings := bindings + [binding];
    }
  }

  /** Opens the lane's timeline if need be, and reserves its next point. */
  method ReserveNext(
    timelines: map<DeviceQueue, EpochTimeline>, subs: seq<LaneSubmission>, j: nat, signals: LaneSignals)
    returns (grown: map<DeviceQueue, EpochTimeline>, binding: TimelineBinding)
    requires j < |subs| && TimelinesOk(timelines, subs, j, signals)
    modifies timelines.Values
    ensures forall l :: l in grown ==> (l in timelines && grown[l] == timelines[l]) || fresh(grown[l])
    ensures TimelinesOk(grown, subs, j + 1, signals) && binding == BindingOf(subs, signals, j)
  {
    grown := OpenTimeline(timelines, subs, j, signals, subs[j].lane);
    var point := ReserveFor(grown, subs, j, signals, subs[j].lane);
    binding := TimelineBinding(subs[j].lane, subs[j].signalValue, point);
  }

  predicate BindsValue(bindings: seq<TimelineBinding>, lane: DeviceQueue, value: nat) {
    exists i :: 0 <= i < |bindings| && bindings[i].lane == lane && bindings[i].logicalValue == value
  }

  lemma BindsPublished(
    subs: seq<LaneSubmission>, signals: LaneSignals, bindings: seq<TimelineBinding>, lane: DeviceQueue, value: nat)
    requires |bindings| == |subs| && forall j :: 0 <= j < |subs| ==> bindings[j] == BindingOf(subs, signals, j)
    ensures BindsValue(bindings, lane, value) <==> exists i :: 0 <= i < |subs| && Publishes(subs, i, lane, value)
  {
    if i :| 0 <= i < |subs| && Publishes(subs, i, lane, value) {
      assert bindings[i].lane == lane && bindings[i].logicalValue == value;
    }
    if i :| 0 <= i < |bindings| && bindings[i].lane == lane && bindings[i].logicalValue == value {
      assert Publishes(subs, i, lane, value);
    }
  }

  /** `from_lane_submissions`: None is the rejection of a wait nobody publishes. */
  method FromLaneSubmissions(subs: seq<LaneSubmission>, signals: LaneSignals) returns (r: Option<seq<TimelineBinding>>)
    ensures r.Some? <==> AllWaitsBound(subs)
    ensures r.Some? ==> |r.value| == |subs| && forall j :: 0 <= j < |subs| ==> r.value[j] == BindingOf(subs, signals, j)
  {
    var bindings := ReserveBindings(subs, signals);
    for j := 0 to |subs|
      invariant forall i :: 0 <= i < j ==> WaitsBound(subs, i)
    {
      var waits := subs[j].waits;
      forall lane | lane in waits
        ensures BindsValue(bindings, lane, waits[lane])
          <==> exists i :: 0 <= i < |subs| && Publishes(subs, i, lane, waits[lane])
      {
        BindsPublished(subs, signals, bindings, lane, waits[lane]);
      }
      if exists lane :: lane in waits && !BindsValue(bindings, lane, waits[lane]) {
        assert !WaitsBound(subs, j);
        return None;
      }
    }
    return Some(bindings);
  }

  /** The scheduler never produces a wait that linking would reject. */
  lemma ScheduleLinks(es: seq<Expanded>, limits: MergeLimits, subs: seq<LaneSubmission>, bounds: seq<nat>)
    requires IsSchedule(es, limits, subs, bounds)
    ensures AllWaitsBound(subs)
  {
    forall j, lane | 0 <= j < |subs| && lane in subs[j].waits
      ensures exists i :: 0 <= i < |subs| && Publishes(subs, i, lane, subs[j].waits[lane])
    {
      var i := EarlierProducer(es, limits, subs, bounds, j, lane);
      assert Publishes(subs, i, lane, subs[j].waits[lane]);
    }
  }

  // ----- the null executor -----

  /** Copies, barriers and compute packets only enter the trace; a compute packet is named by a number. */
  datatype QueueCommand =
    | Wait(point: TimelinePoint)
    | Execute(command: Command)
    | Store(point: TimelinePoint)
    | Timestamp(dst: nat)
    | Barrier
    | CopyBytes(dst: nat, src: nat, bytes: nat)
    | Compute(packet: nat)

  datatype Outcome = Completed | UnsatisfiedWait(waited: TimelinePoint) | CallbackFailed(failed: Command)

  /** Whether the host callback accepts a command on a lane. */
  type Callback = (DeviceQueue, Command) -> bool

  /** The signal slots, and the clock that timestamps read and advance. */
  datatype Slots = Slots(values: map<nat, nat>, clock: nat, step: nat)
  {
    function At(address: nat): nat { if address in values then values[address] else 0 }

    function Set(point: TimelinePoint): Slots { this.(values := values[point.address := point.value]) }

    function Stamped(dst: nat): Slots {
      this.(values := values[dst := clock], clock := (clock + step) % (U64_MAX + 1))
    }
  }

  /** What a command that runs leaves in the slots. */
  function Effect(slots: Slots, command: QueueCommand): Slots {
    match command
    case Store(point) => slots.Set(point)
    case Timestamp(dst) => slots.Stamped(dst)
    case _ => slots
  }

  function AfterStores(slots: Slots, commands: seq<QueueCommand>): Slots {
    if commands == [] then slots
    else Effect(AfterStores(slots, commands[..|commands| - 1]), commands[|commands| - 1])
  }

  function Executes(commands: seq<QueueCommand>): seq<Command> {
    if commands == [] then []
    else
      var before := Executes(commands[..|commands| - 1]);
      match commands[|commands| - 1]
      case Execute(command) => before + [command]
      case _ => before
  }

  /** The reason `command` stops a submission, if it does. */
  function Stop(slots: Slots, command: QueueCommand, lane: DeviceQueue, execute: Callback): Outcome {
    match command
    case Wait(point) => if slots.At(point.address) < point.value then UnsatisfiedWait(point) else Completed
    case Execute(c) => if execute(lane, c) then Completed else CallbackFailed(c)
    case _ => Completed
  }

  /** All of `commands` run, one after the other, from `slots`. */
  predicate Passes(slots: Slots, commands: seq<QueueCommand>, lane: DeviceQueue, execute: Callback) {
    commands == [] ||
    var init := commands[..|commands| - 1];
    Passes(slots, init, lane, execute) && Stop(AfterStores(slots, init), commands[|commands| - 1], lane, execute)
      == Completed
  }

  predicate Sets(command: QueueCommand, address: nat) {
    (command.Store? && command.point.address == address) || (command.Timestamp? && command.dst == address)
  }

  /** A slot that no command sets keeps its value. */
  lemma {:induction false} SlotKept(slots: Slots, commands: seq<QueueCommand>, address: nat)
    requires forall i :: 0 <= i < |commands| ==> !Sets(commands[i], address)
    ensures AfterStores(slots, commands).At(address) == slots.At(address)
  {
    if commands != [] { SlotKept(slots, commands[..|commands| - 1], address); }
  }

  /** Otherwise it holds what the last command that sets it left: the value of a store, the clock for a timestamp. */
  lemma {:induction false} SlotSet(slots: Slots, commands: seq<QueueCommand>, address: nat, k: nat)
    requires k < |commands| && Sets(commands[k], address)
    requires forall i :: k < i < |commands| ==> !Sets(commands[i], address)
    ensures AfterStores(slots, commands).At(address)
      == if commands[k].Store? then commands[k].point.value else AfterStores(slots, commands[..k]).clock
  {
    var init := commands[..|commands| - 1];
    if k < |init| {
      SlotSet(slots, init, address, k);
      assert init[..k] == commands[..k];
    }
  }

  /** The commands that ran: every wait was met when its turn came, and the callback accepted every command. */
  lemma {:induction false} WhatPassed(
    slots: Slots, commands: seq<QueueCommand>, lane: DeviceQueue, execute: Callback, i: nat)
    requires Passes(slots, commands, lane, execute) && i < |commands|
    ensures commands[i].Wait? ==>
      AfterStores(slots, commands[..i]).At(commands[i].point.address) >= commands[i].point.value
    ensures commands[i].Execute? ==> execute(lane, commands[i].command)
  {
    var init := commands[..|commands| - 1];
    if i < |init| {
      WhatPassed(slots, init, lane, execute, i);
      assert init[..i] == commands[..i];
    }
  }

  /** A slot that nothing has ever set holds zero, so that no wait for more passes. */
  lemma NeverSetBlocks(slots: Slots, commands: seq<QueueCommand>, lane: DeviceQueue, execute: Callback, i: nat)
    requires i < |commands| && commands[i].Wait? && commands[i].point.value > 0
    requires commands[i].point.address !in slots.values
    requires forall j :: 0 <= j < i ==> !Sets(commands[j], commands[i].point.address)
    ensures !Passes(slots, commands, lane, execute)
  {
    SlotKept(slots, commands[..i], commands[i].point.address);
    if Passes(slots, commands, lane, execute) { WhatPassed(slots, commands, lane, execute, i); }
  }

  /** What stops a submission: a wait for more than its slot holds, or a command the callback rejects; nothing else. */
  lemma WhatStops(slots: Slots, command: QueueCommand, lane: DeviceQueue, execute: Callback)
    ensures Stop(slots, command, lane, execute) != Completed <==>
      || (command.Wait? && slots.At(command.point.address) < command.point.value)
      || (command.Execute? && !execute(lane, command.command))
    ensures Stop(slots, command, lane, execute).UnsatisfiedWait? <==>
      command.Wait? && slots.At(command.point.address) < command.point.value
  {
  }

  datatype Traced = Traced(queue: QueueKind, command: QueueCommand)

  function Tagged(queue: QueueKind, commands: seq<QueueCommand>): seq<Traced> {
    seq(|commands|, i requires 0 <= i < |commands| => Traced(queue, commands[i]))
  }

  function CommandsOf(trace: seq<Traced>): seq<QueueCommand> {
    seq(|trace|, i requires 0 <= i < |trace| => trace[i].command)
  }

  lemma CommandsAppend(trace: seq<Traced>, queue: QueueKind, commands: seq<QueueCommand>)
    ensures CommandsOf(trace + Tagged(queue, commands)) == CommandsOf(trace) + commands
  {
  }

  class NullHcq {
    var signals: map<nat, nat>
    var trace: seq<Traced>
    var clock: nat
    const step: nat

    constructor ()
      ensures State() == Slots(map[], 0, 1) && trace == []
    {
      signals, trace, clock, step := map[], [], 0, 1;
    }

    constructor WithClock(start: nat, step: nat)
      ensures State() == Slots(map[], start, step) && trace == []
    {
      signals, trace, clock, this.step := map[], [], start, step;
    }

    function State(): Slots
      reads this
    {
      Slots(signals, clock, step)
    }

    method SetSignal(address: nat, value: nat)
      modifies this`signals
      ensures State() == old(State()).Set(TimelinePoint(address, value))
    {
      signals := signals[address := value];
    }

    /** Runs `commands` up to the first that stops, and records those that ran, with their queue. */
    method SubmitWith(lane: DeviceQueue, commands: seq<QueueCommand>, execute: Callback)
      returns (outcome: Outcome, n: nat)
      modifies this
      ensures n <= |commands| && (outcome == Completed <==> n == |commands|)
      ensures n < |commands| ==>
        if commands[n].Wait? then
          && old(AfterStores(State(), commands[..n])).At(commands[n].point.address) < commands[n].point.value
          && outcome == UnsatisfiedWait(commands[n].point)
        else
          && commands[n].Execute? && !execute(lane, commands[n].command)
          && outcome == CallbackFailed(commands[n].command)
      ensures Passes(old(State()), commands[..n], lane, execute)
      ensures n < |commands| ==> outcome == Stop(State(), commands[n], lane, execute)
      ensures State() == AfterStores(old(State()), commands[..n])
      ensures trace == old(trace) + Tagged(lane.queue, commands[..n])
    {
      n := 0;
      while n < |commands|
        invariant n <= |commands| && State() == AfterStores(old(State()), commands[..n])
        invariant Passes(old(State()), commands[..n], lane, execute)
        invariant trace == old(trace) + Tagged(lane.queue, commands[..n])
      {
        outcome := Stop(State(), commands[n], lane, execute);
        if outcome != Completed { return; }
        RunOne(lane.queue, commands[n]);
        assert commands[..n + 1][..n] == commands[..n];
        n := n + 1;
      }
      outcome := Completed;
    }

    method RunOne(queue: QueueKind, command: QueueCommand)
      modifies this
      ensures State() == Effect(old(State()), command) && trace == old(trace) + [Traced(queue, command)]
    {
      match command {
        case Store(point) =>
          signals := signals[point.address := point.value];
        case Timestamp(dst) =>
          signals := signals[dst := clock];
          clock := (clock + step) % (U64_MAX + 1);
        case _ =>
      }
      trace := trace + [Traced(queue, command)];
    }
  }
}
