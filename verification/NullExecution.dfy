/** Replaying a linked schedule on the null executor, in plan order. */
module NullExecution {
  import opened Topology
  import opened Scheduler
  import opened LinkedPlan
  import opened Sequences

  function FindBinding(bindings: seq<TimelineBinding>, lane: DeviceQueue, value: nat): Option<TimelinePoint> {
    if bindings == [] then None
    else if bindings[0].lane == lane && bindings[0].logicalValue == value then Some(bindings[0].point)
    else FindBinding(bindings[1..], lane, value)
  }

  /** The point bound to a lane's logical value. */
  function PointOf(bindings: seq<TimelineBinding>, lane: DeviceQueue, value: nat): TimelinePoint {
    match FindBinding(bindings, lane, value)
    case Some(point) => point
    case None => TimelinePoint(0, 0)
  }

  function WaitPoints(bindings: seq<TimelineBinding>, waits: map<DeviceQueue, nat>): set<TimelinePoint> {
    set lane | lane in waits :: PointOf(bindings, lane, waits[lane])
  }

  /** A submission all of whose values, waited for and published, have a point. */
  ghost predicate AllBound(bindings: seq<TimelineBinding>, sub: LaneSubmission) {
    && FindBinding(bindings, sub.lane, sub.signalValue).Some?
    && forall lane :: lane in sub.waits ==> FindBinding(bindings, lane, sub.waits[lane]).Some?
  }

  /** Waits for exactly `points`, in some order. */
  ghost predicate WaitsFor(commands: seq<QueueCommand>, points: set<TimelinePoint>) {
    && (forall q :: 0 <= q < |commands| ==> commands[q].Wait? && commands[q].point in points)
    && (forall point :: point in points ==> Wait(point) in commands)
  }

  function RunAll(commands: seq<Command>): seq<QueueCommand> {
    seq(|commands|, t requires 0 <= t < |commands| => QueueCommand.Execute(commands[t]))
  }

  /** Submission j as queue commands: its waits in some order, its commands, its signal. */
  ghost predicate Materialized(
    sub: LaneSubmission, bindings: seq<TimelineBinding>, waits: seq<QueueCommand>, commands: seq<QueueCommand>)
  {
    && WaitsFor(waits, WaitPoints(bindings, sub.waits)) && |waits| == |sub.waits|
    && commands == waits + RunAll(sub.commands) + [Store(PointOf(bindings, sub.lane, sub.signalValue))]
  }

  ghost predicate IsMaterialized(sub: LaneSubmission, bindings: seq<TimelineBinding>, commands: seq<QueueCommand>) {
    exists waits :: Materialized(sub, bindings, waits, commands)
  }

  ghost predicate SignalsDistinct(subs: seq<LaneSubmission>) {
    forall i, j :: 0 <= i < j < |subs| && subs[i].lane == subs[j].lane ==> subs[i].signalValue != subs[j].signalValue
  }

  ghost predicate Bound(subs: seq<LaneSubmission>, signals: LaneSignals, bindings: seq<TimelineBinding>) {
    |bindings| == |subs| && forall j :: 0 <= j < |subs| ==> bindings[j] == BindingOf(subs, signals, j)
  }

  lemma {:induction false} FindAt(bindings: seq<TimelineBinding>, i: nat)
    requires i < |bindings|
    requires forall j :: 0 <= j < i ==>
      !(bindings[j].lane == bindings[i].lane
      && bindings[j].logicalValue == bindings[i].logicalValue)
    ensures FindBinding(bindings, bindings[i].lane, bindings[i].logicalValue) == Some(bindings[i].point)
  {
    if i > 0 {
      assert bindings[0] != bindings[i];
      FindAt(bindings[1..], i - 1);
    }
  }

  /** Looking up a published value finds the point of the submission that publishes it. */
  lemma FindsPublisher(
    subs: seq<LaneSubmission>, signals: LaneSignals, bindings: seq<TimelineBinding>, i: nat, lane: DeviceQueue,
      value: nat)
    requires Bound(subs, signals, bindings) && SignalsDistinct(subs) && Publishes(subs, i, lane, value)
    ensures FindBinding(bindings, lane, value) == Some(BindingOf(subs, signals, i).point)
  {
    FindAt(bindings, i);
  }

  /** `submission(index)`: no commands where a value has no point. */
  method Materialize(sub: LaneSubmission, bindings: seq<TimelineBinding>)
      returns (r: Option<seq<QueueCommand>>, ghost waits: seq<QueueCommand>)
    ensures r.Some? <==> AllBound(bindings, sub)
    ensures r.Some? ==> Materialized(sub, bindings, waits, r.value) && IsMaterialized(sub, bindings, r.value)
  {
    var commands := [];
    waits := [];
    var completion := FindBinding(bindings, sub.lane, sub.signalValue);
    if completion.None? { return None, waits; }
    var lanes := sub.waits.Keys;
    ghost var points: set<TimelinePoint> := {};
    while lanes != {}
      invariant lanes <= sub.waits.Keys && WaitsFor(commands, points)
      invariant points == set lane | lane in sub.waits && lane !in lanes :: PointOf(bindings, lane, sub.waits[lane])
      invariant forall lane :: lane in sub.waits && lane !in lanes ==>
        FindBinding(bindings, lane, sub.waits[lane]).Some?
      invariant |commands| + |lanes| == |sub.waits.Keys|
      decreases |lanes|
    {
      var lane :| lane in lanes;
      var point := FindBinding(bindings, lane, sub.waits[lane]);
      if point.None? { return None, waits; }
      commands := commands + [Wait(point.value)];
      lanes := lanes - {lane};
      points := points + {point.value};
    }
    waits := commands;
    KeysCount(sub.waits);
    commands := commands + RunAll(sub.commands) + [Store(completion.value)];
    assert Materialized(sub, bindings, waits, commands);
    r := Some(commands);
  }

  lemma {:induction false} KeysCount<K, V>(m: map<K, V>)
    ensures |m.Keys| == |m|
  {
  }

  lemma {:induction false} WaitsOnly(waits: seq<QueueCommand>, slots: Slots, lane: DeviceQueue,
      execute: Callback)
    requires forall q :: 0 <= q < |waits| ==> waits[q].Wait?
    ensures AfterStores(slots, waits) == slots && Executes(waits) == []
  {
    if waits != [] { WaitsOnly(waits[..|waits| - 1], slots, lane, execute); }
  }

  lemma {:induction false} RunsOnly(waits: seq<QueueCommand>, commands: seq<Command>, slots: Slots, t: nat)
    requires t <= |commands| && AfterStores(slots, waits) == slots && Executes(waits) == []
    ensures AfterStores(slots, waits + RunAll(commands)[..t]) == slots
    ensures Executes(waits + RunAll(commands)[..t]) == commands[..t]
  {
    var all := waits + RunAll(commands)[..t];
    if t == 0 {
      assert all == waits;
    } else {
      RunsOnly(waits, commands, slots, t - 1);
      assert all[..|all| - 1] == waits + RunAll(commands)[..t - 1];
    }
  }

  // ----- points never clash inside a plan -----

  predicate Apart(x: SignalPair, y: SignalPair) {
    {x.first, x.second} !! {y.first, y.second}
  }

  /** Each lane of the plan has two signal addresses of its own. */
  ghost predicate DistinctAddresses(subs: seq<LaneSubmission>, signals: LaneSignals) {
    && (forall i :: 0 <= i < |subs| ==> signals(subs[i].lane).first != signals(subs[i].lane).second)
    && forall i, j :: 0 <= i < |subs| && 0 <= j < |subs| && subs[i].lane != subs[j].lane ==>
         Apart(signals(subs[i].lane), signals(subs[j].lane))
  }

  /** At most two generations per lane: no signal slot is used twice. */
  ghost predicate NoReuse(subs: seq<LaneSubmission>) {
    forall lane :: Before(subs, |subs|, lane) <= 2 * TIMELINE_ROLLOVER
  }

  lemma {:induction false} BeforeMonotone(subs: seq<LaneSubmission>, m: nat, n: nat, lane: DeviceQueue)
    requires m <= n <= |subs|
    ensures Before(subs, m, lane) <= Before(subs, n, lane)
  {
    if m < n { BeforeMonotone(subs, m, n - 1, lane); }
  }

  lemma OtherLaneApart(subs: seq<LaneSubmission>, signals: LaneSignals, i: nat, j: nat)
    requires i < |subs| && j < |subs| && DistinctAddresses(subs, signals)
    ensures subs[i].lane != subs[j].lane ==>
      BindingOf(subs, signals, i).point.address != BindingOf(subs, signals, j).point.address
  {
    if subs[i].lane != subs[j].lane {
      assert Apart(signals(subs[i].lane), signals(subs[j].lane));
    }
  }

  lemma GenerationGrows(j: nat, k: nat)
    requires j < k < 2 * TIMELINE_ROLLOVER && j / TIMELINE_ROLLOVER % 2 == k / TIMELINE_ROLLOVER % 2
    ensures j % TIMELINE_ROLLOVER < k % TIMELINE_ROLLOVER
  {
  }

  /** A later point at the same address always carries a larger value. */
  lemma LaterPointsGrow(subs: seq<LaneSubmission>, signals: LaneSignals, i: nat, j: nat)
    requires i < j < |subs| && DistinctAddresses(subs, signals) && NoReuse(subs)
    requires BindingOf(subs, signals, i).point.address == BindingOf(subs, signals, j).point.address
    ensures BindingOf(subs, signals, i).point.value < BindingOf(subs, signals, j).point.value
  {
    var lane := subs[j].lane;
    OtherLaneApart(subs, signals, i, j);
    BeforeMonotone(subs, i + 1, j, lane);
    BeforeMonotone(subs, j + 1, |subs|, lane);
    GenerationGrows(Before(subs, i, lane), Before(subs, j, lane));
  }

  ghost predicate AllPublished(subs: seq<LaneSubmission>, signals: LaneSignals, slots: Slots, n: nat)
    requires n <= |subs|
  {
    forall i :: 0 <= i < n ==>
      BindingOf(subs, signals, i).point.value <= slots.At(BindingOf(subs, signals, i).point.address)
  }

  function ToCommands(es: seq<Expanded>): seq<Command> {
    seq(|es|, i requires 0 <= i < |es| => es[i].ToCommand())
  }

  predicate Accepted(es: seq<Expanded>, n: nat, execute: Callback)
    requires n <= |es|
  {
    forall c :: 0 <= c < n ==> execute(es[c].lane, es[c].ToCommand())
  }

  // ----- replay -----

  lemma {:induction false} ExecutesAppend(a: seq<QueueCommand>, b: seq<QueueCommand>)
    ensures Executes(a + b) == Executes(a) + Executes(b)
  {
    if b == [] {
      assert a + b == a;
    } else {
      ExecutesAppend(a, b[..|b| - 1]);
      assert (a + b)[..|a + b| - 1] == a + b[..|b| - 1];
    }
  }

  lemma {:induction false} PassedAt(slots: Slots, commands: seq<QueueCommand>, lane: DeviceQueue,
      execute: Callback, i: nat)
    requires Passes(slots, commands, lane, execute) && i < |commands|
    ensures Stop(AfterStores(slots, commands[..i]), commands[i], lane, execute) == Completed
  {
    if i < |commands| - 1 {
      var init := commands[..|commands| - 1];
      PassedAt(slots, init, lane, execute, i);
      assert init[..i] == commands[..i];
    }
  }

  lemma ScheduleSignalsDistinct(es: seq<Expanded>, limits: MergeLimits, subs: seq<LaneSubmission>, bounds: seq<nat>)
    requires IsSchedule(es, limits, subs, bounds)
    ensures SignalsDistinct(subs)
  {
    forall i, j | 0 <= i < j < |subs| && subs[i].lane == subs[j].lane
      ensures subs[i].signalValue != subs[j].signalValue
    {
      SignalOrder(es, subs, bounds, j, i);
    }
  }

  ghost predicate PointsMet(bindings: seq<TimelineBinding>, waits: map<DeviceQueue, nat>, slots: Slots) {
    forall point :: point in WaitPoints(bindings, waits) ==> point.value <= slots.At(point.address)
  }

  /** When everything before submission j has published, all its waits are met. */
  lemma WaitsMet(
    es: seq<Expanded>, limits: MergeLimits, subs: seq<LaneSubmission>, bounds: seq<nat>, signals: LaneSignals,
    bindings: seq<TimelineBinding>, slots: Slots, j: nat)
    requires IsSchedule(es, limits, subs, bounds) && Bound(subs, signals, bindings)
    requires j < |subs| && AllPublished(subs, signals, slots, j)
    ensures PointsMet(bindings, subs[j].waits, slots)
  {
    ScheduleSignalsDistinct(es, limits, subs, bounds);
    forall lane | lane in subs[j].waits
      ensures var point := PointOf(bindings, lane, subs[j].waits[lane]); point.value <= slots.At(point.address)
    {
      var i := EarlierProducer(es, limits, subs, bounds, j, lane);
      FindsPublisher(subs, signals, bindings, i, lane, subs[j].waits[lane]);
    }
  }

  /** Every value a linked schedule waits for or publishes has a point, so each of its submissions can be made. */
  lemma ScheduleBound(
    es: seq<Expanded>, limits: MergeLimits, subs: seq<LaneSubmission>, bounds: seq<nat>, signals: LaneSignals,
    bindings: seq<TimelineBinding>, j: nat)
    requires IsSchedule(es, limits, subs, bounds) && Bound(subs, signals, bindings) && j < |subs|
    ensures AllBound(bindings, subs[j])
  {
    ScheduleSignalsDistinct(es, limits, subs, bounds);
    FindsPublisher(subs, signals, bindings, j, subs[j].lane, subs[j].signalValue);
    forall lane | lane in subs[j].waits ensures FindBinding(bindings, lane, subs[j].waits[lane]).Some? {
      var i := EarlierProducer(es, limits, subs, bounds, j, lane);
      FindsPublisher(subs, signals, bindings, i, lane, subs[j].waits[lane]);
    }
  }

  /** A submission whose waits are met stops only at a command its callback rejects. */
  lemma StopsAtRejection(
    sub: LaneSubmission, bindings: seq<TimelineBinding>, waits: seq<QueueCommand>, commands: seq<QueueCommand>,
    slots: Slots, execute: Callback, n: nat)
    requires Materialized(sub, bindings, waits, commands) && n <= |commands|
      && Passes(slots, commands[..n], sub.lane, execute)
    requires PointsMet(bindings, sub.waits, slots)
    requires n < |commands| ==> Stop(AfterStores(slots, commands[..n]), commands[n], sub.lane, execute) != Completed
    ensures var t := if n == |commands| then |sub.commands| else n - |waits|;
      && 0 <= t <= |sub.commands| && (forall i :: 0 <= i < t ==> execute(sub.lane, sub.commands[i]))
      && Executes(commands[..n]) == sub.commands[..t]
      && (n < |commands| ==>
        t < |sub.commands| && commands[n] == QueueCommand.Execute(sub.commands[t])
        && !execute(sub.lane, sub.commands[t]))
  {
    if n < |waits| {
      assert commands[..n] == waits[..n];
      WaitsOnly(waits[..n], slots, sub.lane, execute);
    } else {
      var t := if n == |commands| then |sub.commands| else n - |waits|;
      ExecutedFirst(sub, bindings, waits, commands, slots, execute, n, t);
      RunsPassed(sub, bindings, waits, commands, slots, execute, n, t);
    }
  }

  lemma ExecutedFirst(
    sub: LaneSubmission, bindings: seq<TimelineBinding>, waits: seq<QueueCommand>, commands: seq<QueueCommand>,
    slots: Slots, execute: Callback, n: nat, t: nat)
    requires Materialized(sub, bindings, waits, commands) && |waits| <= n <= |commands|
    requires t == if n == |commands| then |sub.commands| else n - |waits|
    ensures t <= |sub.commands| && Executes(commands[..n]) == sub.commands[..t]
  {
    WaitsOnly(waits, slots, sub.lane, execute);
    RunsOnly(waits, sub.commands, slots, t);
    assert commands[..|waits| + t] == waits + RunAll(sub.commands)[..t];
    if n == |commands| { assert commands[..n][..n - 1] == commands[..|waits| + t]; }
  }

  lemma RunsPassed(
    sub: LaneSubmission, bindings: seq<TimelineBinding>, waits: seq<QueueCommand>, commands: seq<QueueCommand>,
    slots: Slots, execute: Callback, n: nat, t: nat)
    requires Materialized(sub, bindings, waits, commands) && |waits| <= n <= |commands|
      && Passes(slots, commands[..n], sub.lane, execute)
    requires t <= |sub.commands| && |waits| + t <= n
    ensures forall i :: 0 <= i < t ==> execute(sub.lane, sub.commands[i])
  {
    forall i | 0 <= i < t ensures execute(sub.lane, sub.commands[i]) {
      PassedAt(slots, commands[..n], sub.lane, execute, |waits| + i);
      assert commands[|waits| + i] == QueueCommand.Execute(sub.commands[i]);
    }
  }

  /** A completed submission leaves just its own signal behind. */
  lemma CompletedStores(
    sub: LaneSubmission, bindings: seq<TimelineBinding>, waits: seq<QueueCommand>, commands: seq<QueueCommand>,
      slots: Slots, execute: Callback)
    requires Materialized(sub, bindings, waits, commands)
    ensures var point := PointOf(bindings, sub.lane, sub.signalValue);
      AfterStores(slots, commands) == slots.Set(point)
  {
    WaitsOnly(waits, slots, sub.lane, execute);
    RunsOnly(waits, sub.commands, slots, |sub.commands|);
    assert commands[..|commands| - 1] == waits + RunAll(sub.commands)[..|sub.commands|];
  }

  lemma PublishNext(
    subs: seq<LaneSubmission>, signals: LaneSignals, slots: Slots, j: nat)
    requires j < |subs| && DistinctAddresses(subs, signals) && NoReuse(subs) && AllPublished(subs, signals, slots, j)
    ensures var point := BindingOf(subs, signals, j).point;
      AllPublished(subs, signals, slots.Set(point), j + 1)
  {
    var point := BindingOf(subs, signals, j).point;
    forall i | 0 <= i < j && BindingOf(subs, signals, i).point.address == point.address
      ensures BindingOf(subs, signals, i).point.value < point.value
    {
      LaterPointsGrow(subs, signals, i, j);
    }
  }

  /** How far a replay got: the first n commands ran, in program order, and nothing else. */
  ghost predicate Replayed(es: seq<Expanded>, n: nat, execute: Callback, before: seq<QueueCommand>,
      after: seq<QueueCommand>) {
    n <= |es| && Accepted(es, n, execute) && Executes(after) == Executes(before) + ToCommands(es[..n])
  }

  lemma ReplayMore(
    es: seq<Expanded>, sub: LaneSubmission, lo: nat, hi: nat, execute: Callback, before: seq<QueueCommand>,
    mid: seq<QueueCommand>, ran: seq<QueueCommand>, t: nat)
    requires IsBlock(es, sub, lo, hi) && Replayed(es, lo, execute, before, mid)
    requires t <= |sub.commands| && Executes(ran) == sub.commands[..t]
    requires forall i :: 0 <= i < t ==> execute(sub.lane, sub.commands[i])
    ensures Replayed(es, lo + t, execute, before, mid + ran)
  {
    ExecutesAppend(mid, ran);
    BlockCommands(es, sub, lo, hi, t);
    Regroup(Executes(before), ToCommands(es[..lo]), sub.commands[..t]);
    AcceptedMore(es, sub, lo, hi, execute, t);
  }

  lemma AcceptedMore(es: seq<Expanded>, sub: LaneSubmission, lo: nat, hi: nat, execute: Callback, t: nat)
    requires IsBlock(es, sub, lo, hi) && Accepted(es, lo, execute) && t <= |sub.commands|
    requires forall i :: 0 <= i < t ==> execute(sub.lane, sub.commands[i])
    ensures Accepted(es, lo + t, execute)
  {
    forall c | 0 <= c < lo + t ensures execute(es[c].lane, es[c].ToCommand()) {
      if lo <= c { assert sub.commands[c - lo] == es[lo + (c - lo)].ToCommand(); }
    }
  }

  lemma BlockCommands(es: seq<Expanded>, sub: LaneSubmission, lo: nat, hi: nat, t: nat)
    requires IsBlock(es, sub, lo, hi) && t <= |sub.commands|
    ensures ToCommands(es[..lo + t]) == ToCommands(es[..lo]) + sub.commands[..t]
  {
    forall i | 0 <= i < t ensures ToCommands(es[..lo + t])[lo + i] == sub.commands[i] {
      assert es[..lo + t][lo + i] == es[lo + i];
    }
  }

  /** One submission of the replay: `done` of its queue commands ran, t of them callbacks. */
  lemma ReplayBlock(
    es: seq<Expanded>, sub: LaneSubmission, lo: nat, hi: nat, bindings: seq<TimelineBinding>, execute: Callback,
    before: seq<QueueCommand>, mid: seq<QueueCommand>, slots: Slots, waits: seq<QueueCommand>,
    commands: seq<QueueCommand>, done: nat) returns (t: nat)
    requires IsBlock(es, sub, lo, hi) && Replayed(es, lo, execute, before, mid) && PointsMet(bindings, sub.waits, slots)
    requires Materialized(sub, bindings, waits, commands) && done <= |commands|
    requires Passes(slots, commands[..done], sub.lane, execute)
    requires done < |commands| ==>
      Stop(AfterStores(slots, commands[..done]), commands[done], sub.lane,
      execute) != Completed
    ensures Replayed(es, lo + t, execute, before, mid + commands[..done])
    ensures if done == |commands| then lo + t == hi else
      && lo + t < |es| && commands[done] == QueueCommand.Execute(es[lo + t].ToCommand())
      && es[lo + t].lane == sub.lane && !execute(sub.lane, es[lo + t].ToCommand())
  {
    StopsAtRejection(sub, bindings, waits, commands, slots, execute, done);
    t := if done == |commands| then |sub.commands| else done - |waits|;
    ReplayMore(es, sub, lo, hi, execute, before, mid, commands[..done], t);
  }

  lemma ReplaySubmission(
    es: seq<Expanded>, limits: MergeLimits, subs: seq<LaneSubmission>, bounds: seq<nat>, signals: LaneSignals,
    bindings: seq<TimelineBinding>, slots: Slots, j: nat)
    requires IsSchedule(es, limits, subs, bounds) && Bound(subs, signals, bindings) && j < |subs|
    requires AllPublished(subs, signals, slots, j)
    ensures IsBlock(es, subs[j], bounds[j], bounds[j + 1]) && PointsMet(bindings, subs[j].waits, slots)
    ensures AllBound(bindings, subs[j])
  {
    WaitsMet(es, limits, subs, bounds, signals, bindings, slots, j);
    ScheduleBound(es, limits, subs, bounds, signals, bindings, j);
  }

  lemma PublishSubmission(
    es: seq<Expanded>, limits: MergeLimits, subs: seq<LaneSubmission>, bounds: seq<nat>, signals: LaneSignals,
    bindings: seq<TimelineBinding>, execute: Callback, slots: Slots, j: nat, waits: seq<QueueCommand>,
    commands: seq<QueueCommand>)
    requires IsSchedule(es, limits, subs, bounds) && Bound(subs, signals, bindings) && j < |subs|
    requires DistinctAddresses(subs, signals) && NoReuse(subs) && AllPublished(subs, signals, slots, j)
    requires Materialized(subs[j], bindings, waits, commands)
    ensures AllPublished(subs, signals, AfterStores(slots, commands), j + 1)
  {
    CompletedStores(subs[j], bindings, waits, commands, slots, execute);
    ScheduleSignalsDistinct(es, limits, subs, bounds);
    FindsPublisher(subs, signals, bindings, j, subs[j].lane, subs[j].signalValue);
    PublishNext(subs, signals, slots, j);
  }

  /** One submission: it runs to its end, or stops at a rejecting callback. */
  method SubmitNext(
    ghost es: seq<Expanded>, sub: LaneSubmission, ghost lo: nat, ghost hi: nat, bindings: seq<TimelineBinding>,
    hcq: NullHcq, execute: Callback, ghost start: seq<QueueCommand>)
    returns (outcome: Outcome, ghost t: nat, ghost waits: seq<QueueCommand>, ghost commands: seq<QueueCommand>)
    requires IsBlock(es, sub, lo, hi) && AllBound(bindings, sub) && PointsMet(bindings, sub.waits, hcq.State())
    requires Replayed(es, lo, execute, start, CommandsOf(hcq.trace))
    modifies hcq
    ensures Replayed(es, lo + t, execute, start, CommandsOf(hcq.trace)) && Materialized(sub, bindings, waits, commands)
    ensures outcome == Completed ==> lo + t == hi && hcq.State() == AfterStores(old(hcq.State()), commands)
    ensures outcome != Completed ==> lo + t < |es| && outcome == CallbackFailed(es[lo + t].ToCommand())
    ensures outcome != Completed ==> !execute(es[lo + t].lane, es[lo + t].ToCommand())
  {
    var all;
    all, waits := Materialize(sub, bindings);
    commands := all.value;
    ghost var slots, trace := hcq.State(), CommandsOf(hcq.trace);
    var done;
    outcome, done := hcq.SubmitWith(sub.lane, all.value, execute);
    CommandsAppend(old(hcq.trace), sub.lane.queue, commands[..done]);
    t := ReplayBlock(es, sub, lo, hi, bindings, execute, start, trace, slots, waits, commands, done);
    if outcome == Completed { assert commands[..done] == commands; }
  }

  /** Submission j of a linked schedule, when all before it have published. */
  method ReplayNext(
    ghost es: seq<Expanded>, ghost limits: MergeLimits, subs: seq<LaneSubmission>, ghost bounds: seq<nat>,
    ghost signals: LaneSignals, bindings: seq<TimelineBinding>, hcq: NullHcq, execute: Callback,
    ghost start: seq<QueueCommand>, j: nat)
    returns (outcome: Outcome, ghost n: nat)
    requires IsSchedule(es, limits, subs, bounds) && Bound(subs, signals, bindings)
    requires DistinctAddresses(subs, signals) && NoReuse(subs) && j < |subs|
    requires Replayed(es, bounds[j], execute, start, CommandsOf(hcq.trace))
      && AllPublished(subs, signals, hcq.State(), j)
    modifies hcq
    ensures Replayed(es, n, execute, start, CommandsOf(hcq.trace))
    ensures outcome == Completed ==> n == bounds[j + 1] && AllPublished(subs, signals, hcq.State(), j + 1)
    ensures outcome != Completed ==> n < |es| && outcome == CallbackFailed(es[n].ToCommand())
    ensures outcome != Completed ==> !execute(es[n].lane, es[n].ToCommand())
  {
    ghost var t, waits, commands;
    ghost var slots := hcq.State();
    ReplaySubmission(es, limits, subs, bounds, signals, bindings, slots, j);
    outcome, t, waits, commands := SubmitNext(es, subs[j], bounds[j], bounds[j + 1], bindings, hcq, execute, start);
    n := bounds[j] + t;
    if outcome == Completed {
      PublishSubmission(es, limits, subs, bounds, signals, bindings, execute, slots, j, waits, commands);
    }
  }

  /** `execute_null` on a linked schedule: no wait is ever unsatisfied, commands run in
      program order, and only a rejecting callback stops it. */
  method ExecuteNull(
    ghost es: seq<Expanded>, ghost limits: MergeLimits, subs: seq<LaneSubmission>, ghost bounds: seq<nat>,
    ghost signals: LaneSignals, bindings: seq<TimelineBinding>, hcq: NullHcq, execute: Callback)
    returns (outcome: Outcome, ghost n: nat)
    requires IsSchedule(es, limits, subs, bounds) && Bound(subs, signals, bindings)
    requires DistinctAddresses(subs, signals) && NoReuse(subs)
    modifies hcq
    ensures Replayed(es, n, execute, CommandsOf(old(hcq.trace)), CommandsOf(hcq.trace))
    ensures outcome == if n == |es| then Completed else CallbackFailed(es[n].ToCommand())
    ensures n < |es| ==> !execute(es[n].lane, es[n].ToCommand())
  {
    n := 0;
    for j := 0 to |subs|
      invariant |bounds| == |subs| + 1 && n == bounds[j]
      invariant Replayed(es, n, execute, CommandsOf(old(hcq.trace)), CommandsOf(hcq.trace))
      invariant AllPublished(subs, signals, hcq.State(), j)
    {
      outcome, n :=
        ReplayNext(es, limits, subs, bounds, signals, bindings, hcq, execute, CommandsOf(old(hcq.trace)), j);
      if outcome != Completed { return; }
    }
    outcome := Completed;
  }
}
