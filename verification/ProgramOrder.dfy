/** The whole scheduler against its specification: every interleaving terminates,
    and leaves the memory that running the caller's operations one by one leaves. */
module ProgramOrder {
  import opened Topology
  import opened Scheduler
  import opened LaneRuns

  // ----- termination -----

  function PhaseWork(p: Plan, j: nat, phase: Phase): int
    requires |p.bounds| == |p.subs| + 1 && j < |p.subs|
  {
    var lo: int, hi: int := p.bounds[j], p.bounds[j + 1];
    match phase
    case Pending => 0
    case Running(next) => 1 + next - lo
    case Finished => 2 + hi - lo
  }

  function Work(p: Plan, phases: seq<Phase>, n: nat): int
    requires |p.bounds| == |p.subs| + 1 && n <= |phases| == |p.subs|
  {
    if n == 0 then 0 else Work(p, phases, n - 1) + PhaseWork(p, n - 1, phases[n - 1])
  }

  lemma {:induction false} WorkUpdate(p: Plan, phases: seq<Phase>, n: nat, j: nat, phase: Phase)
    requires p.Shaped() && n <= |phases| == |p.subs| && j < |phases|
    ensures Work(p, phases[j := phase], n)
      == Work(p, phases, n) + if j < n then PhaseWork(p, j, phase) - PhaseWork(p, j, phases[j]) else 0
  {
    if n > 0 { WorkUpdate(p, phases, n - 1, j, phase); }
  }

  lemma {:induction false} WorkBound<M>(p: Plan, s: State<M>, n: nat)
    requires p.Shaped() && PhasesOk(p, s) && n <= |p.subs|
    ensures Work(p, s.phases, n) <= 2 * n + p.bounds[n]
  {
    if n > 0 { WorkBound(p, s, n - 1); }
  }

  lemma {:induction false} WorkZero<M>(p: Plan, m: M, n: nat)
    requires p.Shaped() && n <= |p.subs|
    ensures Work(p, Start(p, m).phases, n) == 0
  {
    if n > 0 { WorkZero(p, m, n - 1); }
  }

  /** Each step is one unit of work, so a run of length n has done n units. */
  lemma {:induction false} WorkDone<M(!new)>(run: Effect<M>, p: Plan, m: M, actions: seq<Action>, s: State<M>)
    requires p.Scheduled() && Interleaving(run, p, m, actions, s)
    ensures |s.phases| == |p.subs| && Work(p, s.phases, |p.subs|) == |actions|
    decreases |actions|
  {
    if actions == [] {
      WorkZero(p, m, |p.subs|);
    } else {
      var n := |actions| - 1;
      var before :| Interleaving(run, p, m, actions[..n], before) && |before.phases| == |p.subs|
        && Enabled(p, before, actions[n]) && s == Apply(run, p, before, actions[n]);
      WorkDone(run, p, m, actions[..n], before);
      var j := actions[n].sub;
      WorkUpdate(p, before.phases, |p.subs|, j, s.phases[j]);
    }
  }

  /** No interleaving runs forever: it has at most a begin and a publish per submission, and a step per command. */
  lemma BoundedRuns<M(!new)>(run: Effect<M>, p: Plan, m: M, actions: seq<Action>, s: State<M>)
    requires p.Scheduled() && Interleaving(run, p, m, actions, s)
    ensures |actions| <= 2 * |p.subs| + |p.es|
  {
    Reachable(run, p, m, actions, s);
    WorkDone(run, p, m, actions, s);
    WorkBound(p, s, |p.subs|);
  }

  lemma Extend<M(!new)>(run: Effect<M>, p: Plan, m: M, actions: seq<Action>, s: State<M>, a: Action)
      returns (s': State<M>)
    requires p.Shaped() && Interleaving(run, p, m, actions, s) && |s.phases| == |p.subs| && Enabled(p, s, a)
    ensures Interleaving(run, p, m, actions + [a], s')
  {
    s' := Apply(run, p, s, a);
    assert (actions + [a])[..|actions|] == actions && (actions + [a])[|actions|] == a;
  }

  lemma Advance<M(!new)>(run: Effect<M>, p: Plan, m: M, actions: seq<Action>, s: State<M>)
      returns (longer: seq<Action>, a: Action, s': State<M>)
    requires p.Scheduled() && Interleaving(run, p, m, actions, s) && !Complete(s)
    ensures longer == actions + [a] && Interleaving(run, p, m, longer, s') && |longer| <= 2 * |p.subs| + |p.es|
  {
    a := NoDeadlock(run, p, m, actions, s);
    s' := Extend(run, p, m, actions, s, a);
    longer := actions + [a];
    BoundedRuns(run, p, m, longer, s');
  }

  /** From any reachable state the lanes can finish: waits never leave them stuck. */
  lemma {:induction false} CanComplete<M(!new)>(run: Effect<M>, p: Plan, m: M, actions: seq<Action>, s: State<M>)
    returns (longer: seq<Action>, end: State<M>)
    requires p.Scheduled() && Interleaving(run, p, m, actions, s)
    ensures actions <= longer && Interleaving(run, p, m, longer, end) && Complete(end)
    decreases 2 * |p.subs| + |p.es| - |actions|
  {
    if Complete(s) {
      longer, end := actions, s;
    } else {
      var next, a, s' := Advance(run, p, m, actions, s);
      longer, end := CanComplete(run, p, m, next, s');
    }
  }

  // ----- the caller's program -----

  ghost function RunOperation(k: Kernels, op: Operation, m: Memory): Memory {
    match op.kind
    case Execute => RunKernel(k, op.operation, op.readSet, op.writeSet, m)
    case Copy(src, dst, bytes) => RunCopy(src, dst, bytes, m)
  }

  ghost function RunProgram(k: Kernels, ops: seq<Operation>, m: Memory): Memory {
    if ops == [] then m else RunOperation(k, ops[|ops| - 1], RunProgram(k, ops[..|ops| - 1], m))
  }

  function Resources(op: Operation): seq<Resource> {
    match op.kind
    case Execute => op.readSet + op.writeSet
    case Copy(src, dst, _) => [src, dst]
  }

  predicate Staging(ids: set<nat>, l: Location) {
    l.owner == Cpu && l.id in ids
  }

  /** `ids` holds the staging ids of all operations, and no operation names one itself. */
  predicate StagingUnused(ids: set<nat>, ops: seq<Operation>) {
    && (forall op :: op in ops ==> StageId(op.operation) in ids)
    && (forall op, r :: op in ops && r in Resources(op) ==> !(r.owner == Cpu && r.id in ids))
  }

  function StageIds(ops: seq<Operation>): set<nat> {
    set op | op in ops :: StageId(op.operation)
  }

  ghost predicate Agree(ids: set<nat>, m: Memory, m': Memory) {
    forall l: Location :: !Staging(ids, l) ==> m[l] == m'[l]
  }

  lemma {:induction false} RunPrefix<M>(run: Effect<M>, es: seq<Expanded>, more: seq<Expanded>, n: nat, m: M)
    requires n <= |es|
    ensures RunFirst(run, es + more, n, m) == RunFirst(run, es, n, m)
  {
    if n > 0 { RunPrefix(run, es, more, n - 1, m); }
  }

  lemma CopyAgrees(ids: set<nat>, src: Resource, dst: Resource, bytes: nat, m: Memory, m': Memory)
    requires Agree(ids, m, m') && !(src.owner == Cpu && src.id in ids)
    ensures Agree(ids, RunCopy(src, dst, bytes, m), RunCopy(src, dst, bytes, m'))
  {
    forall l: Location | !Staging(ids, l)
      ensures RunCopy(src, dst, bytes, m)[l] == RunCopy(src, dst, bytes, m')[l]
    {
      if dst.Covers(l) {
        var from := Location(src.owner, src.id, src.start + (l.byte - dst.start));
        assert m[from] == m'[from];
      }
    }
  }

  lemma KernelAgrees(k: Kernels, ids: set<nat>, op: Operation, m: Memory, m': Memory)
    requires op.kind.Execute? && Agree(ids, m, m') && forall r ::
      r in Resources(op) ==> !(r.owner == Cpu && r.id in ids)
    ensures Agree(ids, RunKernel(k, op.operation, op.readSet, op.writeSet, m),
                       RunKernel(k, op.operation, op.readSet, op.writeSet, m'))
  {
    forall l: Location | Touches(op.readSet, l) || Touches(op.writeSet, l) ensures m[l] == m'[l] {
      var r :| r in Resources(op) && r.Covers(l);
    }
    assert Declared(op.readSet, op.writeSet, m) == Declared(op.readSet, op.writeSet, m');
  }

  /** Copying through a stage no one else names is copying directly. */
  lemma CopyThroughStage(ids: set<nat>, src: Resource, stage: Resource, dst: Resource, bytes: nat, m: Memory)
    requires stage.owner == Cpu && stage.id in ids && stage.start == 0 && bytes <= stage.end
    ensures Agree(ids, RunCopy(stage, dst, bytes, RunCopy(src, stage, bytes, m)), RunCopy(src, dst, bytes, m))
  {
    var m1 := RunCopy(src, stage, bytes, m);
    forall l: Location | !Staging(ids, l)
      ensures RunCopy(stage, dst, bytes, m1)[l] == RunCopy(src, dst, bytes, m)[l]
    {
      StagedAt(ids, src, stage, dst, bytes, m, l);
    }
  }

  lemma StagedAt(ids: set<nat>, src: Resource, stage: Resource, dst: Resource, bytes: nat, m: Memory, l: Location)
    requires stage.owner == Cpu && stage.id in ids && stage.start == 0 && bytes <= stage.end && !Staging(ids, l)
    ensures RunCopy(stage, dst, bytes, RunCopy(src, stage, bytes, m))[l] == RunCopy(src, dst, bytes, m)[l]
  {
    if dst.Covers(l) && l.byte - dst.start < bytes { StagedByte(src, stage, bytes, m, l.byte - dst.start); }
  }

  lemma StagedByte(src: Resource, stage: Resource, bytes: nat, m: Memory, i: nat)
    requires stage.start == 0 && i < bytes <= stage.end
    ensures ByteOf(stage, i, RunCopy(src, stage, bytes, m)) == ByteOf(src, i, m)
  {
    var l := Location(stage.owner, stage.id, i);
    assert RunCopy(src, stage, bytes, m)[l] == ByteOf(src, i, m);
  }

  ghost function RunLegs<M>(run: Effect<M>, legs: seq<Expanded>, m: M): M
    requires 1 <= |legs| <= 2
  {
    if |legs| == 1 then run(legs[0], m) else run(legs[1], run(legs[0], m))
  }

  lemma RunAppend<M>(run: Effect<M>, es: seq<Expanded>, legs: seq<Expanded>, m: M)
    requires 1 <= |legs| <= 2
    ensures RunFirst(run, es + legs, |es + legs|, m) == RunLegs(run, legs, RunFirst(run, es, |es|, m))
  {
    RunPrefix(run, es, legs, |es|, m);
    assert RunFirst(run, es + legs, |es| + 1, m) == run(legs[0], RunFirst(run, es + legs, |es|, m));
  }

  /** One operation's commands, staged or not, have the operation's effect. */
  lemma LegsMatch(k: Kernels, ids: set<nat>, op: Operation, canAccess: Access, m: Memory, m': Memory)
    requires StageId(op.operation) in ids && forall r :: r in Resources(op) ==> !(r.owner == Cpu && r.id in ids)
    requires Agree(ids, m, m')
    ensures Agree(ids, RunLegs(RunOn(k), Legs(op, canAccess), m), RunOperation(k, op, m'))
  {
    match op.kind
    case Execute => KernelAgrees(k, ids, op, m, m');
    case Copy(src, dst, bytes) =>
      assert src in Resources(op) && dst in Resources(op);
      CopyAgrees(ids, src, dst, bytes, m, m');
      CopyLegs(k, ids, op, canAccess, m);
  }

  /** A copy's commands, through a stage or direct, copy. */
  lemma CopyLegs(k: Kernels, ids: set<nat>, op: Operation, canAccess: Access, m: Memory)
    requires op.kind.Copy? && StageId(op.operation) in ids
    ensures Agree(ids, RunLegs(RunOn(k), Legs(op, canAccess), m), RunCopy(op.kind.src, op.kind.dst, op.kind.bytes, m))
  {
    if IsStaged(op, canAccess) {
      CopyThroughStage(ids, op.kind.src, Stage(op.operation, op.kind.bytes), op.kind.dst, op.kind.bytes, m);
    }
  }

  /** Running the expanded commands in order is running the program, staging aside. */
  lemma {:induction false} ExpansionMatches(k: Kernels, ids: set<nat>, ops: seq<Operation>, canAccess: Access,
      m: Memory)
    requires StagingUnused(ids, ops)
    ensures var es := Expand(ops, canAccess); Agree(ids, RunFirst(RunOn(k), es, |es|, m), RunProgram(k, ops, m))
  {
    if ops != [] {
      var init, op := ops[..|ops| - 1], ops[|ops| - 1];
      assert op in ops && forall o :: o in init ==> o in ops;
      ExpansionMatches(k, ids, init, canAccess, m);
      var es := Expand(init, canAccess);
      RunAppend(RunOn(k), es, Legs(op, canAccess), m);
      LegsMatch(k, ids, op, canAccess, RunFirst(RunOn(k), es, |es|, m), RunProgram(k, init, m));
    }
  }

  /** What a lane does when it runs a command. */
  ghost function RunOn(k: Kernels): Effect<Memory> {
    (e, m) => Run(k, e, m)
  }

  lemma RunRespectsHazards(k: Kernels)
    ensures RespectsHazards(RunOn(k))
  {
    forall a, b, m: Memory | !Hazard(a, b) ensures RunOn(k)(b, RunOn(k)(a, m)) == RunOn(k)(a, RunOn(k)(b, m)) {
      Commute(k, a, b, m);
    }
  }

  /** Every interleaving of the scheduled lanes computes what the program computes. */
  lemma EveryInterleavingMatchesProgram(
    k: Kernels, ops: seq<Operation>, canAccess: Access, p: Plan, m: Memory, actions: seq<Action>, s: State<Memory>)
    requires p.es == Expand(ops, canAccess) && p.Scheduled() && StagingUnused(StageIds(ops), ops)
    requires Interleaving(RunOn(k), p, m, actions, s) && Complete(s)
    ensures Agree(StageIds(ops), s.memory, RunProgram(k, ops, m))
  {
    RunRespectsHazards(k);
    LanesMatchProgramOrder(RunOn(k), p, m, actions, s);
    ExpansionMatches(k, StageIds(ops), ops, canAccess, m);
  }
}
