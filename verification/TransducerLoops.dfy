/** The transducer decoding loops: one lane at a time, all lanes in lockstep, and label-looping. */
module TransducerLoops {
  import opened Topology
  import opened GreedyTransducer
  import opened LaneCosts

  const NOTHING: LaneDecode := LaneDecode("", [])

  function Filled<T>(n: nat, x: T): (r: seq<T>)
    ensures |r| == n && forall i :: 0 <= i < n ==> r[i] == x
  {
    seq(n, i => x)
  }

  /** The smaller of two frame counts. */
  function Clamp(a: nat, b: nat): (r: nat)
    ensures r <= a && r <= b && (r == a || r == b)
  {
    if a < b then a else b
  }

  /** A batch passes the blank where there is no previous token. */
  function Prefix<S, P>(task: Task<S, P>, prev: nat): Option<nat> {
    if prev == task.Blank() then None else Some(prev)
  }

  // ----- one lane -----

  /** The backend of one lane: a step reads the committed state and writes only the tentative one. */
  class JointStep<S(!new), P(!new)> {
    const task: Task<S, P>
    const lane: nat
    var committed: S
    var tentative: S
    ghost var steps: nat

    constructor (task: Task<S, P>, lane: nat)
      ensures this.task == task && this.lane == lane && steps == 0
    {
      this.task, this.lane, steps := task, lane, 0;
      committed, tentative := task.net.initial, task.net.initial;
    }

    method Reset()
      modifies this`committed, this`tentative
      ensures committed == task.net.initial
    {
      committed, tentative := task.net.initial, task.net.initial;
    }

    method Step(t: nat, prev: Option<nat>) returns (k: nat)
      modifies this`tentative, this`steps
      ensures steps == old(steps) + 1
      ensures k == task.net.joint(lane, t, task.net.predict(prev, committed).0)
      ensures tentative == task.net.predict(prev, committed).1
    {
      var output := task.net.predict(prev, committed);
      tentative := output.1;
      k := task.net.joint(lane, t, output.0);
      steps := steps + 1;
    }

    method Commit()
      modifies this`committed
      ensures committed == tentative
    {
      committed := tentative;
    }
  }

  /** A lane state that still leads to the greedy transcript, and the loop variables that hold it. */
  ghost predicate Follows<S(!new), P(!new)>(task: Task<S, P>, lane: nat, valid: nat, st: LaneState<S>,
    prev: Option<nat>, committed: S, done: LaneDecode)
    requires PicksTokens(task)
  {
    && task.maxSymbols >= 1 && InFrame(task, st)
    && st.prev == prev && st.committed == committed && st.done == done
    && Finish(task, lane, valid, st) == Finish(task, lane, valid, InitialState(task))
  }

  /** Where a lane stands inside frame t after j of its tokens. */
  predicate Inside<S, P>(task: Task<S, P>, st: LaneState<S>, t: nat, j: nat) {
    if j < task.maxSymbols then st.time == t && st.symbols == j else st.time == t + 1 && st.symbols == 0
  }

  /** A lane state reached after n evaluations. */
  ghost predicate Spent<S(!new), P(!new)>(task: Task<S, P>, lane: nat, valid: nat, st: LaneState<S>, n: int)
    requires PicksTokens(task) && task.maxSymbols >= 1
  {
    InFrame(task, st) && Rounds(task, lane, valid, InitialState(task)) == Rounds(task, lane, valid, st) + n
  }

  /** Blanks alone change no transcript. */
  lemma {:induction false} EmptyVocabulary<S(!new), P(!new)>(task: Task<S, P>, lane: nat, valid: nat, st: LaneState<S>)
    requires PicksTokens(task) && InFrame(task, st) && task.maxSymbols >= 1 && task.vocabulary == []
    ensures Finish(task, lane, valid, st).done == st.done
    decreases Measure(task, valid, st)
  {
    if st.time < valid {
      StepShrinks(task, lane, valid, st);
      EmptyVocabulary(task, lane, valid, LaneStep(task, lane, st));
    }
  }

  method DecodeInner<S(!new), P(!new)>(step: JointStep<S, P>, strideFrames: nat, validFrames: nat)
      returns (done: LaneDecode)
    requires PicksTokens(step.task)
    modifies step
    ensures step.task.maxSymbols >= 1 ==> done == Greedy(step.task, step.lane, Clamp(strideFrames, validFrames))
    ensures step.task.maxSymbols == 0 ==> done == NOTHING
    ensures step.steps == old(step.steps) + if step.task.vocabulary == [] || step.task.maxSymbols == 0 then 0
      else Rounds(step.task, step.lane, Clamp(strideFrames, validFrames), InitialState(step.task))
  {
    var task, n := step.task, Clamp(strideFrames, validFrames);
    if task.vocabulary == [] || validFrames == 0 {
      if task.vocabulary == [] && task.maxSymbols >= 1 { EmptyVocabulary(task, step.lane, n, InitialState(task)); }
      return NOTHING;
    }
    step.Reset();
    done := NOTHING;
    var prev: Option<nat> := None;
    ghost var st, start := InitialState(task), step.steps;
    for t := 0 to n
      invariant task.maxSymbols == 0 ==> done == NOTHING && step.steps == start
      invariant task.maxSymbols >= 1 ==>
        && Follows(task, step.lane, n, st, prev, step.committed, done) && st.time == t && st.symbols == 0
        && Spent(task, step.lane, n, st, step.steps - start)
    {
      var j := 0;
      while j < task.maxSymbols
        invariant task.maxSymbols == 0 ==> done == NOTHING && step.steps == start
        invariant j <= task.maxSymbols
        invariant task.maxSymbols >= 1 ==>
          && Follows(task, step.lane, n, st, prev, step.committed, done) && Inside(task, st, t, j)
          && Spent(task, step.lane, n, st, step.steps - start)
      {
        var k := step.Step(t, prev);
        StepShrinks(task, step.lane, n, st);
        st := LaneStep(task, step.lane, st);
        if k == task.Blank() { break; }
        done := Append(task.vocabulary, done, k, t);
        prev := Some(k);
        step.Commit();
        j := j + 1;
      }
    }
  }

  // ----- all lanes in lockstep -----

  /** The backend of all lanes. What it computes for an inactive lane is not specified. */
  class BatchJointStep<S(!new), P(!new)> {
    const task: Task<S, P>
    const lanes: nat
    var committed: seq<S>
    var tentative: seq<S>
    ghost var steps: nat

    ghost predicate Valid()
      reads this
    {
      |committed| == |tentative| == lanes
    }

    constructor (task: Task<S, P>, lanes: nat)
      ensures Valid() && this.task == task && this.lanes == lanes && steps == 0
    {
      this.task, this.lanes, steps := task, lanes, 0;
      committed, tentative := seq(lanes, i => task.net.initial), seq(lanes, i => task.net.initial);
    }

    method Reset()
      requires Valid()
      modifies this`committed, this`tentative
      ensures Valid() && forall i :: 0 <= i < lanes ==> committed[i] == task.net.initial
    {
      committed, tentative := seq(lanes, i => task.net.initial), seq(lanes, i => task.net.initial);
    }

    method Step(t: nat, prev: seq<nat>, active: seq<bool>) returns (out: seq<nat>)
      requires Valid() && |prev| == |active| == lanes
      modifies this`tentative, this`steps
      ensures Valid() && |out| == lanes && steps == old(steps) + 1
      ensures forall i: nat :: i < lanes && active[i] ==>
        var output := task.net.predict(Prefix(task, prev[i]), committed[i]);
          tentative[i] == output.1 && out[i] == task.net.joint(i, t, output.0)
    {
      var net, before, states := task.net, tentative, committed;
      tentative := seq(lanes, i requires 0 <= i < lanes =>
        if active[i] then net.predict(Prefix(task, prev[i]), states[i]).1 else before[i]);
      out := [];
      for i := 0 to lanes
        invariant |out| == i
        invariant forall l: nat :: l < i && active[l] ==>
          out[l] == net.joint(l, t, net.predict(Prefix(task, prev[l]), states[l]).0)
      {
        out := out + [if active[i] then net.joint(i, t, net.predict(Prefix(task, prev[i]), states[i]).0)
          else task.Blank()];
      }
      steps := steps + 1;
    }

    method Commit(mask: seq<bool>)
      requires Valid() && |mask| == lanes
      modifies this`committed
      ensures Valid() && forall i :: 0 <= i < lanes ==>
        committed[i] == if mask[i] then tentative[i] else old(committed[i])
    {
      var before, next := committed, tentative;
      committed := seq(lanes, i requires 0 <= i < lanes => if mask[i] then next[i] else before[i]);
    }
  }

  /** What one round leaves of a lane, given the token picked for it. */
  predicate LaneAbsorbed<S, P>(task: Task<S, P>, t: nat, k: nat, active: bool, prev: nat, done: LaneDecode,
    nextActive: bool, nextPrev: nat, nextDone: LaneDecode, commits: bool)
  {
    if !active || k >= task.Blank() then !nextActive && nextPrev == prev && nextDone == done && !commits
    else nextActive && nextPrev == k && nextDone == Append(task.vocabulary, done, k, t) && commits
  }

  /** The lockstep loop's pass over the lanes after one step. */
  method AbsorbRound<S, P>(task: Task<S, P>, b: nat, t: nat, out: seq<nat>, active: seq<bool>, prev: seq<nat>,
      dones: seq<LaneDecode>)
    returns (nextActive: seq<bool>, nextPrev: seq<nat>, nextDones: seq<LaneDecode>, mask: seq<bool>, anyCommit: bool)
    requires b <= |out| == |active| == |prev| && |dones| == b
    requires forall i :: 0 <= i < b && active[i] ==> out[i] <= task.Blank()
    requires forall i :: b <= i < |active| ==> !active[i]
    ensures |nextActive| == |nextPrev| == |mask| == |out| && |nextDones| == b
    ensures forall i :: 0 <= i < b ==>
      LaneAbsorbed(task, t, out[i], active[i], prev[i], dones[i], nextActive[i], nextPrev[i], nextDones[i], mask[i])
    ensures forall i :: b <= i < |out| ==> !nextActive[i] && !mask[i]
    ensures anyCommit <==> exists i :: 0 <= i < |mask| && mask[i]
  {
    nextActive, nextPrev, nextDones := active, prev, dones;
    mask, anyCommit := seq(|out|, i => false), false;
    for i := 0 to b
      invariant |nextActive| == |nextPrev| == |mask| == |out| && |nextDones| == b
      invariant forall l :: 0 <= l < i ==>
        LaneAbsorbed(task, t, out[l], active[l], prev[l], dones[l], nextActive[l], nextPrev[l], nextDones[l], mask[l])
      invariant forall l :: i <= l < b ==> nextPrev[l] == prev[l] && nextDones[l] == dones[l]
      invariant forall l :: i <= l < |out| ==> nextActive[l] == active[l] && !mask[l]
      invariant anyCommit <==> exists l :: 0 <= l < |mask| && mask[l]
    {
      if !active[i] {
        mask := mask[i := false];
      } else if out[i] == task.Blank() {
        nextActive, mask := nextActive[i := false], mask[i := false];
      } else {
        nextDones := nextDones[i := Append(task.vocabulary, nextDones[i], out[i], t)];
        nextPrev, mask, anyCommit := nextPrev[i := out[i]], mask[i := true], true;
        assert mask[i];
      }
    }
  }

  /** A lane of the lockstep loop, inside frame t after j rounds. */
  ghost predicate InLockstep<S(!new), P(!new)>(task: Task<S, P>, lane: nat, valid: nat, st: LaneState<S>,
    prev: nat, committed: S, done: LaneDecode, active: bool, t: nat, j: nat)
    requires PicksTokens(task)
  {
    if task.maxSymbols == 0 then done == NOTHING else
    && Follows(task, lane, valid, st, Prefix(task, prev), committed, done)
    && (if active then t < valid && Inside(task, st, t, j) else st.symbols == 0 && st.time == Clamp(t + 1, valid))
  }

  /** A lane after j rounds of a frame in which it makes `total` evaluations, ending as `end`. */
  ghost predicate Paced<S(!new), P(!new)>(task: Task<S, P>, lane: nat, st: LaneState<S>, active: bool, t: nat, j: nat,
    total: nat, end: LaneState<S>)
    requires PicksTokens(task)
  {
    && task.maxSymbols >= 1 && InFrame(task, st)
    && if active then total == j + EvalsIn(task, lane, t, st) && end == Through(task, lane, t, st)
       else total <= j && end == st
  }

  ghost predicate Stepped<S(!new), P(!new)>(task: Task<S, P>, lane: nat, st: LaneState<S>, active: bool,
      next: LaneState<S>,
    nextActive: bool)
    requires PicksTokens(task)
  {
    && next == (if active then LaneStep(task, lane, st) else st)
    && nextActive == (active && Picked(task, lane, st) != task.Blank())
  }

  lemma PacedRound<S(!new), P(!new)>(task: Task<S, P>, lane: nat, st: LaneState<S>, active: bool, t: nat, j: nat,
    total: nat, end: LaneState<S>, next: LaneState<S>, nextActive: bool)
    requires PicksTokens(task) && Paced(task, lane, st, active, t, j, total, end)
    requires active ==> st.time == t
    requires Stepped(task, lane, st, active, next, nextActive)
    ensures Paced(task, lane, next, nextActive, t, j + 1, total, end)
    ensures active ==> total >= j + 1
  {
    if active {
      StepShrinks(task, lane, t + 1, st);
      assert EvalsIn(task, lane, t, st) == 1 + EvalsIn(task, lane, t, next);
      assert Through(task, lane, t, st) == Through(task, lane, t, next);
    }
  }

  /** One round keeps a lane on the way to its transcript. */
  lemma LockstepRound<S(!new), P(!new)>(task: Task<S, P>, lane: nat, valid: nat, st: LaneState<S>,
    prev: nat, committed: S, done: LaneDecode, active: bool, t: nat, j: nat,
    k: nat, nextActive: bool, nextPrev: nat, nextDone: LaneDecode, commits: bool)
    requires PicksTokens(task) && j < task.maxSymbols
    requires InLockstep(task, lane, valid, st, prev, committed, done, active, t, j)
    requires active ==> k == task.net.joint(lane, t, task.net.predict(Prefix(task, prev), committed).0)
    requires LaneAbsorbed(task, t, k, active, prev, done, nextActive, nextPrev, nextDone, commits)
    ensures InLockstep(task, lane, valid, if active then LaneStep(task, lane, st) else st,
      nextPrev, if commits then task.net.predict(Prefix(task, prev), committed).1
        else committed, nextDone, nextActive, t, j + 1)
  {
    if active { StepShrinks(task, lane, valid, st); }
  }

  /** The lockstep decoder; ghost results name the lanes' states. */
  method DecodeBatch<S(!new), P(!new)>(valid: seq<nat>, step: BatchJointStep<S, P>) returns (dones: seq<LaneDecode>)
    requires PicksTokens(step.task) && step.Valid() && |valid| <= step.lanes
    modifies step
    ensures |dones| == |valid|
    ensures forall i :: 0 <= i < |valid| ==>
      dones[i] == if step.task.maxSymbols == 0 then NOTHING else Greedy(step.task, i, valid[i])
    ensures step.steps == old(step.steps) + if step.task.vocabulary == [] || step.task.maxSymbols == 0 then 0
      else LockstepTotal(Evals(step.task), valid, Longest(valid))
  {
    var task, b := step.task, |valid|;
    dones := Filled(b, NOTHING);
    if task.vocabulary == [] {
      forall i | 0 <= i < b && task.maxSymbols >= 1 ensures Greedy(task, i, valid[i]) == NOTHING {
        EmptyVocabulary(task, i, valid[i], InitialState(task));
      }
      return;
    }
    dones := DecodeFrames(valid, step);
  }

  method DecodeFrames<S(!new), P(!new)>(valid: seq<nat>, step: BatchJointStep<S, P>) returns (dones: seq<LaneDecode>)
    requires PicksTokens(step.task) && step.Valid() && |valid| <= step.lanes
    modifies step
    ensures |dones| == |valid|
    ensures forall i :: 0 <= i < |valid| ==>
      dones[i] == if step.task.maxSymbols == 0 then NOTHING else Greedy(step.task, i, valid[i])
    ensures step.steps == old(step.steps)
      + if step.task.maxSymbols == 0 then 0 else LockstepTotal(Evals(step.task), valid, Longest(valid))
  {
    var task, b := step.task, |valid|;
    var maxT := Longest(valid);
    step.Reset();
    dones := Filled(b, NOTHING);
    var prev: seq<nat> := Filled(step.lanes, task.Blank());
    ghost var sts := seq(b, i => InitialState(task));
    assert AllAtFrame(step, valid, sts, prev, dones, 0);
    for t := 0 to maxT
      invariant AllAtFrame(step, valid, sts, prev, dones, t)
      invariant step.steps == old(step.steps)
        + if task.maxSymbols == 0 then 0 else LockstepTotal(Evals(task), valid, t)
    {
      sts, prev, dones := DecodeFrame(step, valid, t, prev, dones, sts);
    }
    forall i | 0 <= i < b ensures dones[i] == if task.maxSymbols == 0 then NOTHING else Greedy(task, i, valid[i]) {
      AtEnd(task, i, valid[i], sts[i], prev[i], step.committed[i], dones[i], maxT);
    }
  }

  ghost predicate AllAtFrame<S(!new), P(!new)>(step: BatchJointStep<S, P>, valid: seq<nat>, sts: seq<LaneState<S>>,
    prev: seq<nat>, dones: seq<LaneDecode>, t: nat)
    requires PicksTokens(step.task)
    reads step
  {
    && step.Valid() && |prev| == step.lanes && |dones| == |sts| == |valid| <= step.lanes
    && forall i :: 0 <= i < |valid| ==>
         AtFrame(step.task, i, valid[i], sts[i], prev[i], step.committed[i], dones[i], t)
  }

  lemma AtEnd<S(!new), P(!new)>(task: Task<S, P>, lane: nat, valid: nat, st: LaneState<S>, prev: nat, committed: S,
    done: LaneDecode, t: nat)
    requires PicksTokens(task) && AtFrame(task, lane, valid, st, prev, committed, done, t) && valid <= t
    ensures done == if task.maxSymbols == 0 then NOTHING else Greedy(task, lane, valid)
  {
  }

  /** A lane of the lockstep loop before frame t. */
  ghost predicate AtFrame<S(!new), P(!new)>(task: Task<S, P>, lane: nat, valid: nat, st: LaneState<S>,
    prev: nat, committed: S, done: LaneDecode, t: nat)
    requires PicksTokens(task)
  {
    if task.maxSymbols == 0 then done == NOTHING else
    && Follows(task, lane, valid, st, Prefix(task, prev), committed, done)
    && st.symbols == 0 && st.time == Clamp(t, valid)
    && (t <= valid ==> st == AtStart(task, lane, t))
  }

  function Longest(valid: seq<nat>): (r: nat)
    ensures (forall i :: 0 <= i < |valid| ==> valid[i] <= r) && (valid == [] ==> r == 0) && (valid != [] ==> r in valid)
  {
    if valid == [] then 0 else
    var rest := Longest(valid[..|valid| - 1]);
    if valid[|valid| - 1] > rest then valid[|valid| - 1] else rest
  }

  /** What is known between the rounds of a frame: how every lane of the batch paces. */
  ghost predicate AllPaced<S(!new), P(!new)>(task: Task<S, P>, valid: seq<nat>, sts: seq<LaneState<S>>,
    active: seq<bool>, t: nat, j: nat, totals: seq<nat>, ends: seq<LaneState<S>>)
    requires PicksTokens(task) && |sts| == |totals| == |ends| == |valid| <= |active|
  {
    && (forall i :: 0 <= i < |valid| && t < valid[i] ==>
          Paced(task, i, sts[i], active[i], t, j, totals[i], ends[i]))
    && (forall i :: 0 <= i < |valid| && t >= valid[i] ==> !active[i])
    && (j > 0 ==> exists i :: 0 <= i < |valid| && t < valid[i] && totals[i] >= j)
  }

  /** The rounds of one frame: as many as its slowest lane takes. */
  method DecodeFrame<S(!new), P(!new)>(step: BatchJointStep<S, P>, valid: seq<nat>, t: nat, prev0: seq<nat>,
    dones0: seq<LaneDecode>, ghost sts0: seq<LaneState<S>>)
    returns (ghost sts: seq<LaneState<S>>, prev: seq<nat>, dones: seq<LaneDecode>)
    requires PicksTokens(step.task) && AllAtFrame(step, valid, sts0, prev0, dones0, t)
    modifies step
    ensures AllAtFrame(step, valid, sts, prev, dones, t + 1)
    ensures step.steps == old(step.steps)
      + if step.task.maxSymbols == 0 then 0 else Slowest(Evals(step.task), valid, t, |valid|)
  {
    if step.task.maxSymbols == 0 { return sts0, prev0, dones0; }
    var active0 := seq(step.lanes, i requires 0 <= i => i < |valid| && t < valid[i]);
    ghost var totals, ends := FrameOpens(step.task, valid, sts0, prev0, step.committed, dones0, active0, t);
    ghost var active, j;
    sts, prev, dones, active, j := RunFrame(step, valid, t, active0, prev0, dones0, sts0, totals, ends);
    FrameCloses(step.task, valid, sts, prev, step.committed, dones, active, t, j, totals, ends);
  }

  lemma FrameOpens<S(!new), P(!new)>(task: Task<S, P>, valid: seq<nat>, sts: seq<LaneState<S>>, prev: seq<nat>,
    committed: seq<S>, dones: seq<LaneDecode>, active: seq<bool>, t: nat)
    returns (totals: seq<nat>, ends: seq<LaneState<S>>)
    requires PicksTokens(task) && task.maxSymbols >= 1
    requires |sts| == |dones| == |valid| <= |active| == |prev| == |committed|
    requires forall i :: 0 <= i < |valid| ==> active[i] == (t < valid[i])
    requires forall i :: 0 <= i < |valid| ==> AtFrame(task, i, valid[i], sts[i], prev[i], committed[i], dones[i], t)
    ensures |totals| == |ends| == |valid| && AllPaced(task, valid, sts, active, t, 0, totals, ends)
    ensures forall i: nat :: i < |valid| && t < valid[i] ==>
      totals[i] == Evals(task)(i, t) && ends[i] == AtStart(task, i, t + 1)
    ensures forall i :: 0 <= i < |valid| ==>
      InLockstep(task, i, valid[i], sts[i], prev[i], committed[i], dones[i], active[i], t, 0)
  {
    totals := seq(|valid|, i requires 0 <= i < |valid| => EvalsIn(task, i, t, AtStart(task, i, t)));
    ends := seq(|valid|, i requires 0 <= i < |valid| => Through(task, i, t, AtStart(task, i, t)));
    forall i: nat | i < |valid|
      ensures InLockstep(task, i, valid[i], sts[i], prev[i], committed[i], dones[i], active[i], t, 0)
      ensures t < valid[i] ==> Paced(task, i, sts[i], active[i], t, 0, totals[i], ends[i])
    {
      assert AtFrame(task, i, valid[i], sts[i], prev[i], committed[i], dones[i], t);
    }
  }

  lemma FrameCloses<S(!new), P(!new)>(task: Task<S, P>, valid: seq<nat>, sts: seq<LaneState<S>>, prev: seq<nat>,
    committed: seq<S>, dones: seq<LaneDecode>, active: seq<bool>, t: nat, j: nat, totals: seq<nat>,
    ends: seq<LaneState<S>>)
    requires PicksTokens(task) && task.maxSymbols >= 1 && j <= task.maxSymbols
    requires |sts| == |dones| == |totals| == |ends| == |valid| <= |active| == |prev| == |committed|
    requires AllPaced(task, valid, sts, active, t, j, totals, ends)
    requires forall i: nat :: i < |valid| && t < valid[i] ==>
      totals[i] == Evals(task)(i, t) && ends[i] == AtStart(task, i, t + 1)
    requires forall i :: 0 <= i < |valid| ==>
      InLockstep(task, i, valid[i], sts[i], prev[i], committed[i], dones[i], active[i], t, j)
    requires j == task.maxSymbols || forall i :: 0 <= i < |valid| ==> !active[i]
    ensures Slowest(Evals(task), valid, t, |valid|) == j
    ensures forall i :: 0 <= i < |valid| ==> AtFrame(task, i, valid[i], sts[i], prev[i], committed[i], dones[i], t + 1)
  {
    forall i: nat | i < |valid|
      ensures AtFrame(task, i, valid[i], sts[i], prev[i], committed[i], dones[i], t + 1)
      ensures t < valid[i] ==> totals[i] <= j
    {
      assert InLockstep(task, i, valid[i], sts[i], prev[i], committed[i], dones[i], active[i], t, j);
      if t < valid[i] { assert Paced(task, i, sts[i], active[i], t, j, totals[i], ends[i]); }
    }
  }

  /** The lanes inside frame t after j rounds. */
  ghost predicate Running<S(!new), P(!new)>(step: BatchJointStep<S, P>, valid: seq<nat>, sts: seq<LaneState<S>>,
    prev: seq<nat>, dones: seq<LaneDecode>, active: seq<bool>, t: nat, j: nat, totals: seq<nat>,
    ends: seq<LaneState<S>>)
    requires PicksTokens(step.task)
    reads step
  {
    && step.Valid() && |prev| == |active| == step.lanes
      && |dones| == |sts| == |totals| == |ends| == |valid| <= step.lanes
    && (forall i :: |valid| <= i < step.lanes ==> !active[i])
    && (forall i :: 0 <= i < |valid| ==>
          InLockstep(step.task, i, valid[i], sts[i], prev[i], step.committed[i], dones[i], active[i], t, j))
    && AllPaced(step.task, valid, sts, active, t, j, totals, ends)
  }

  method RunFrame<S(!new), P(!new)>(step: BatchJointStep<S, P>, valid: seq<nat>, t: nat, active0: seq<bool>,
      prev0: seq<nat>,
    dones0: seq<LaneDecode>, ghost sts0: seq<LaneState<S>>, ghost totals: seq<nat>, ghost ends: seq<LaneState<S>>)
    returns (ghost sts: seq<LaneState<S>>, prev: seq<nat>, dones: seq<LaneDecode>, ghost last: seq<bool>, ghost n: nat)
    requires PicksTokens(step.task) && Running(step, valid, sts0, prev0, dones0, active0, t, 0, totals, ends)
    modifies step
    ensures Running(step, valid, sts, prev, dones, last, t, n, totals, ends)
    ensures step.steps == old(step.steps) + n && n <= step.task.maxSymbols
    ensures n == step.task.maxSymbols || forall i :: 0 <= i < |valid| ==> !last[i]
  {
    var active, j := active0, 0;
    sts, prev, dones := sts0, prev0, dones0;
    while j < step.task.maxSymbols
      invariant Running(step, valid, sts, prev, dones, active, t, j, totals, ends)
      invariant step.steps == old(step.steps) + j && j <= step.task.maxSymbols
    {
      if forall i :: 0 <= i < |active| ==> !active[i] { break; }
      sts, active, prev, dones := RoundPaced(step, valid, t, j, active, prev, dones, sts, totals, ends);
      j := j + 1;
    }
    last, n := active, j;
  }

  method RoundPaced<S(!new), P(!new)>(step: BatchJointStep<S, P>, valid: seq<nat>, t: nat, ghost j: nat,
      active0: seq<bool>, prev0: seq<nat>,
    dones0: seq<LaneDecode>, ghost sts0: seq<LaneState<S>>, ghost totals: seq<nat>, ghost ends: seq<LaneState<S>>)
    returns (ghost sts: seq<LaneState<S>>, active: seq<bool>, prev: seq<nat>, dones: seq<LaneDecode>)
    requires PicksTokens(step.task) && Running(step, valid, sts0, prev0, dones0, active0, t, j, totals, ends)
    requires j < step.task.maxSymbols && exists i :: 0 <= i < |active0| && active0[i]
    modifies step
    ensures Running(step, valid, sts, prev, dones, active, t, j + 1, totals, ends)
    ensures step.steps == old(step.steps) + 1
  {
    sts, active, prev, dones := Round(step, valid, t, j, active0, prev0, dones0, sts0);
    PaceRound(step.task, valid, sts0, active0, t, j, totals, ends, sts, active);
  }

  lemma PaceRound<S(!new), P(!new)>(task: Task<S, P>, valid: seq<nat>, sts: seq<LaneState<S>>, active: seq<bool>,
    t: nat, j: nat, totals: seq<nat>, ends: seq<LaneState<S>>, next: seq<LaneState<S>>, nextActive: seq<bool>)
    requires PicksTokens(task) && |sts| == |totals| == |ends| == |next| == |valid| <= |active| == |nextActive|
    requires AllPaced(task, valid, sts, active, t, j, totals, ends)
    requires forall i :: 0 <= i < |valid| ==> Stepped(task, i, sts[i], active[i], next[i], nextActive[i])
    requires forall i :: 0 <= i < |valid| && active[i] ==> sts[i].time == t
    requires exists i :: 0 <= i < |valid| && active[i]
    ensures AllPaced(task, valid, next, nextActive, t, j + 1, totals, ends)
  {
    forall i | 0 <= i < |valid|
      ensures t < valid[i] ==> Paced(task, i, next[i], nextActive[i], t, j + 1, totals[i], ends[i])
      ensures active[i] ==> t < valid[i] && totals[i] >= j + 1
      ensures t >= valid[i] ==> !nextActive[i]
    {
      assert Stepped(task, i, sts[i], active[i], next[i], nextActive[i]);
      if t < valid[i] {
        PacedRound(task, i, sts[i], active[i], t, j, totals[i], ends[i], next[i], nextActive[i]);
      }
    }
  }

  method Round<S(!new), P(!new)>(step: BatchJointStep<S, P>, valid: seq<nat>, t: nat, ghost j: nat, active0: seq<bool>,
      prev0: seq<nat>,
    dones0: seq<LaneDecode>, ghost sts0: seq<LaneState<S>>)
    returns (ghost sts: seq<LaneState<S>>, active: seq<bool>, prev: seq<nat>, dones: seq<LaneDecode>)
    requires PicksTokens(step.task) && step.Valid() && |valid| <= step.lanes && j < step.task.maxSymbols
    requires |prev0| == |active0| == step.lanes && |dones0| == |sts0| == |valid|
    requires forall i :: |valid| <= i < step.lanes ==> !active0[i]
    requires forall i :: 0 <= i < |valid| ==>
      InLockstep(step.task, i, valid[i], sts0[i], prev0[i], step.committed[i], dones0[i], active0[i], t, j)
    modifies step
    ensures step.Valid() && |prev| == |active| == step.lanes && |dones| == |sts| == |valid|
      && step.steps == old(step.steps) + 1
    ensures forall i :: |valid| <= i < step.lanes ==> !active[i]
    ensures forall i :: 0 <= i < |valid| ==>
      && Stepped(step.task, i, sts0[i], active0[i], sts[i], active[i]) && (active0[i] ==> sts0[i].time == t)
    ensures forall i :: 0 <= i < |valid| ==>
      InLockstep(step.task, i, valid[i], sts[i], prev[i], step.committed[i], dones[i], active[i], t, j + 1)
  {
    var task, b := step.task, |valid|;
    ghost var committed := step.committed;
    var out := step.Step(t, prev0, active0);
    var mask, anyCommit;
    active, prev, dones, mask, anyCommit := AbsorbRound(task, b, t, out, active0, prev0, dones0);
    if anyCommit { step.Commit(mask); }
    sts := seq(b, i requires 0 <= i < b => if active0[i] then LaneStep(task, i, sts0[i]) else sts0[i]);
    forall i | 0 <= i < b
      ensures InLockstep(task, i, valid[i], sts[i], prev[i], step.committed[i], dones[i], active[i], t, j + 1)
    {
      LockstepRound(task, i, valid[i], sts0[i], prev0[i], committed[i], dones0[i], active0[i], t, j,
        out[i], active[i], prev[i], dones[i], mask[i]);
    }
  }
}
