/** Label-looping: the transducer loop that runs the predictor only after rounds that emit. */
module LabelLooping {
  import opened Topology
  import opened GreedyTransducer
  import opened TransducerLoops
  import opened LaneCosts

  // ----- what the schedule should cost -----

  /** The most joint evaluations any lane needs. */
  function MostRounds<S(!new), P(!new)>(task: Task<S, P>, valid: seq<nat>, b: nat): (r: nat)
    requires PicksTokens(task) && task.maxSymbols >= 1 && b <= |valid|
    ensures forall i :: 0 <= i < b ==> Rounds(task, i, valid[i], InitialState(task)) <= r
    ensures r > 0 ==> exists i :: 0 <= i < b && Rounds(task, i, valid[i], InitialState(task)) == r
  {
    if b == 0 then 0 else
    var rest, own := MostRounds(task, valid, b - 1), Rounds(task, b - 1, valid[b - 1], InitialState(task));
    if own > rest then own else rest
  }

  /** Lane i's evaluation number r, counted from zero, emits. */
  predicate EmitsAt<S(!new), P(!new)>(task: Task<S, P>, lane: nat, valid: nat, r: nat)
    requires PicksTokens(task)
  {
    var st := After(task, lane, valid, InitialState(task), r);
    st.time < valid && Picked(task, lane, st) != task.Blank()
  }

  predicate SomeEmitsAt<S(!new), P(!new)>(task: Task<S, P>, valid: seq<nat>, r: nat)
    requires PicksTokens(task)
  {
    exists i: nat :: i < |valid| && EmitsAt(task, i, valid[i], r)
  }

  /** How many of the first n rounds emit in some lane. */
  function EmittingRounds<S(!new), P(!new)>(task: Task<S, P>, valid: seq<nat>, n: nat): nat
    requires PicksTokens(task)
  {
    if n == 0 then 0 else EmittingRounds(task, valid, n - 1) + if SomeEmitsAt(task, valid, n - 1) then 1 else 0
  }

  // ----- the backend -----

  /** Predictor and joint run apart; a joint reads the last predictor outputs, at per-lane frames. */
  class BatchLabelStep<S(!new), P(!new)> {
    const task: Task<S, P>
    const lanes: nat
    var committed: seq<S>
    var tentative: seq<S>
    var inputs: seq<P>
    ghost var joints: nat
    ghost var predicts: nat

    ghost predicate Valid()
      reads this
    {
      |committed| == |tentative| == |inputs| == lanes
    }

    constructor (task: Task<S, P>, lanes: nat)
      ensures Valid() && this.task == task && this.lanes == lanes && joints == predicts == 0
    {
      this.task, this.lanes, joints, predicts := task, lanes, 0, 0;
      committed, tentative := Filled(lanes, task.net.initial), Filled(lanes, task.net.initial);
      inputs := Filled(lanes, task.net.predict(None, task.net.initial).0);
    }

    method Reset()
      requires Valid()
      modifies this`committed, this`tentative
      ensures Valid() && forall i :: 0 <= i < lanes ==> committed[i] == task.net.initial
    {
      committed, tentative := Filled(lanes, task.net.initial), Filled(lanes, task.net.initial);
    }

    method Predict(prev: seq<nat>)
      requires Valid() && |prev| == lanes
      modifies this`tentative, this`inputs, this`predicts
      ensures Valid() && predicts == old(predicts) + 1
      ensures forall i :: 0 <= i < lanes ==>
        (inputs[i], tentative[i])
        == task.net.predict(Prefix(task, prev[i]), committed[i])
    {
      var net, states := task.net, committed;
      inputs := seq(lanes, i requires 0 <= i < lanes => net.predict(Prefix(task, prev[i]), states[i]).0);
      tentative := seq(lanes, i requires 0 <= i < lanes => net.predict(Prefix(task, prev[i]), states[i]).1);
      predicts := predicts + 1;
    }

    method Commit(mask: seq<bool>)
      requires Valid() && |mask| == lanes
      modifies this`committed
      ensures Valid() && forall i :: 0 <= i < lanes ==>
        committed[i] == if mask[i] then tentative[i] else old(committed[i])
    {
      var before, next := committed, tentative;
      committed := seq(lanes, i requires 0 <= i < lanes => if mask[i] then next[i] else before[i]);
    }

    method Joint(time: seq<nat>, active: seq<bool>) returns (out: seq<nat>)
      requires Valid() && |time| == |active| == lanes
      modifies this`joints
      ensures |out| == lanes && joints == old(joints) + 1
      ensures forall i: nat :: i < lanes && active[i] ==> out[i] == task.net.joint(i, time[i], inputs[i])
    {
      out := [];
      for i := 0 to lanes
        invariant |out| == i
        invariant forall l: nat :: l < i && active[l] ==> out[l] == task.net.joint(l, time[l], inputs[l])
      {
        out := out + [if active[i] then task.net.joint(i, time[i], inputs[i]) else task.Blank()];
      }
      joints := joints + 1;
    }
  }

  // ----- the loop -----

  /** The loop variables of one lane. */
  datatype Cursor = Cursor(time: nat, symbols: nat, prev: nat, done: LaneDecode)

  predicate Holds<S, P>(task: Task<S, P>, c: Cursor, st: LaneState<S>) {
    c.time == st.time && c.symbols == st.symbols && Prefix(task, c.prev) == st.prev && c.done == st.done
  }

  /** What one round leaves of a lane, given the token picked for it. */
  function Absorbed<S, P>(task: Task<S, P>, c: Cursor, active: bool, k: nat): Cursor {
    if !active then c
    else if k >= task.Blank() then c.(time := c.time + 1, symbols := 0)
    else
      var d := c.(done := Append(task.vocabulary, c.done, k, c.time), prev := k);
      if c.symbols + 1 >= task.maxSymbols then d.(time := c.time + 1, symbols := 0) else d.(symbols := c.symbols + 1)
  }

  method AbsorbLabels<S, P>(task: Task<S, P>, out: seq<nat>, active: seq<bool>, lanes: seq<Cursor>)
    returns (next: seq<Cursor>, mask: seq<bool>, anyCommit: bool)
    requires |lanes| <= |out| == |active|
    requires forall i :: 0 <= i < |lanes| && active[i] ==> out[i] <= task.Blank()
    ensures |next| == |lanes| && |mask| == |out|
    ensures forall i :: 0 <= i < |lanes| ==> next[i] == Absorbed(task, lanes[i], active[i], out[i])
    ensures forall i :: 0 <= i < |mask| ==> (mask[i] <==> i < |lanes| && active[i] && out[i] < task.Blank())
    ensures anyCommit <==> exists i :: 0 <= i < |mask| && mask[i]
  {
    next, mask, anyCommit := lanes, seq(|out|, i => false), false;
    for i := 0 to |lanes|
      invariant |next| == |lanes| && |mask| == |out|
      invariant forall l :: 0 <= l < i ==> next[l] == Absorbed(task, lanes[l], active[l], out[l])
      invariant forall l :: i <= l < |lanes| ==> next[l] == lanes[l]
      invariant forall l :: 0 <= l < |mask| ==> (mask[l] <==> l < i && active[l] && out[l] < task.Blank())
      invariant anyCommit <==> exists l :: 0 <= l < |mask| && mask[l]
    {
      if active[i] {
        var c, k := next[i], out[i];
        if k == task.Blank() {
          next := next[i := c.(time := c.time + 1, symbols := 0)];
        } else {
          c := c.(done := Append(task.vocabulary, c.done, k, c.time), prev := k, symbols := c.symbols + 1);
          if c.symbols >= task.maxSymbols { c := c.(time := c.time + 1, symbols := 0); }
          next, mask, anyCommit := next[i := c], mask[i := true], true;
          assert mask[i];
        }
      }
    }
  }

  /** A lane of the label loop after r rounds: cursor, committed state and predictor output all match its run. */
  ghost predicate InLabels<S(!new), P(!new)>(task: Task<S, P>, lane: nat, valid: nat, c: Cursor, committed: S,
      tentative: S, input: P, r: nat)
    requires PicksTokens(task)
  {
    var st := After(task, lane, valid, InitialState(task), r);
    Holds(task, c, st) && committed == st.committed && (input, tentative) == task.net.predict(st.prev, st.committed)
  }

  lemma LabelRound<S(!new), P(!new)>(task: Task<S, P>, lane: nat, valid: nat, c: Cursor, committed: S, tentative: S,
      input: P, r: nat,
    active: bool, k: nat)
    requires PicksTokens(task) && InLabels(task, lane, valid, c, committed, tentative, input, r)
    requires active == (c.time < valid) && (active ==> k == task.net.joint(lane, c.time, input))
    ensures var st := After(task, lane, valid, InitialState(task), r + 1);
      Holds(task, Absorbed(task, c, active, k), st) && st.committed == if active && k < task.Blank() then tentative
        else committed
    ensures EmitsAt(task, lane, valid, r) <==> active && k < task.Blank()
    ensures !(active && k < task.Blank()) ==> Absorbed(task, c, active, k).prev == c.prev
  {
  }

  function Clamped<S, P>(task: Task<S, P>): (r: Task<S, P>)
    ensures r.maxSymbols >= 1 && r.net == task.net && r.vocabulary == task.vocabulary
    ensures if task.maxSymbols >= 1 then r == task else r.maxSymbols == 1
  {
    task.(maxSymbols := if task.maxSymbols == 0 then 1 else task.maxSymbols)
  }

  function TimesOf(lanes: seq<Cursor>, n: nat): (r: seq<nat>)
    requires |lanes| <= n
    ensures |r| == n && forall i :: 0 <= i < |lanes| ==> r[i] == lanes[i].time
  {
    seq(n, i requires 0 <= i < n => if i < |lanes| then lanes[i].time else 0)
  }

  function PrevsOf<S, P>(task: Task<S, P>, lanes: seq<Cursor>, n: nat): (r: seq<nat>)
    requires |lanes| <= n
    ensures |r| == n && forall i :: 0 <= i < |lanes| ==> r[i] == lanes[i].prev
  {
    seq(n, i requires 0 <= i < n => if i < |lanes| then lanes[i].prev else task.Blank())
  }

  /** All lanes after r rounds. */
  ghost predicate AllInLabels<S(!new), P(!new)>(task: Task<S, P>, valid: seq<nat>, lanes: seq<Cursor>,
      step: BatchLabelStep<S, P>, r: nat)
    requires PicksTokens(task) && step.Valid() && |valid| == |lanes| <= step.lanes
    reads step
  {
    forall i :: 0 <= i < |lanes| ==>
      InLabels(task, i, valid[i], lanes[i], step.committed[i], step.tentative[i], step.inputs[i], r)
  }

  /** What a round leaves of a lane: it emitted exactly where the mask is set, and then its state is to be committed. */
  ghost predicate RoundLeaves<S(!new), P(!new)>(task: Task<S, P>, lane: nat, valid: nat, was: Cursor, c: Cursor,
    committed: S, tentative: S, mask: bool, r: nat)
    requires PicksTokens(task)
  {
    var st := After(task, lane, valid, InitialState(task), r + 1);
    && Holds(task, c, st) && st.committed == (if mask then tentative else committed)
    && (EmitsAt(task, lane, valid, r) <==> mask)
    && (!mask ==> c.prev == was.prev)
  }

  lemma MaskedEmit<S(!new), P(!new)>(task: Task<S, P>, valid: seq<nat>, before: seq<Cursor>, lanes: seq<Cursor>,
    committed: seq<S>, tentative: seq<S>, mask: seq<bool>, r: nat)
    requires PicksTokens(task) && |valid| == |before| == |lanes| <= |mask| == |committed| == |tentative|
    requires forall i: nat :: i < |valid| ==>
      RoundLeaves(task, i, valid[i], before[i], lanes[i], committed[i], tentative[i], mask[i], r)
    requires forall i :: |valid| <= i < |mask| ==> !mask[i]
    ensures (exists i :: 0 <= i < |mask| && mask[i]) <==> SomeEmitsAt(task, valid, r)
  {
    if i :| 0 <= i < |mask| && mask[i] { assert EmitsAt(task, i, valid[i], r); }
    if SomeEmitsAt(task, valid, r) {
      var i: nat :| i < |valid| && EmitsAt(task, i, valid[i], r);
      assert mask[i];
    }
  }

  /** One round of the label loop. */
  method LabelLoopRound<S(!new), P(!new)>(task: Task<S, P>, valid: seq<nat>, active: seq<bool>, lanes0: seq<Cursor>,
    step: BatchLabelStep<S, P>, ghost r: nat)
    returns (lanes: seq<Cursor>)
    requires PicksTokens(task) && task.net == step.task.net && task.vocabulary == step.task.vocabulary
    requires step.Valid() && |valid| == |lanes0| <= step.lanes && AllInLabels(task, valid, lanes0, step, r)
    requires |active| == step.lanes && forall i ::
      0 <= i < |active| ==> active[i] == (i < |valid| && lanes0[i].time < valid[i])
    modifies step
    ensures step.Valid() && |lanes| == |lanes0| && AllInLabels(task, valid, lanes, step, r + 1)
    ensures step.joints == old(step.joints) + 1
    ensures step.predicts == old(step.predicts) + EmittingRounds(task, valid, r + 1) - EmittingRounds(task, valid, r)
  {
    var out := step.Joint(TimesOf(lanes0, step.lanes), active);
    var mask, anyCommit;
    lanes, mask, anyCommit := AbsorbLabels(task, out, active, lanes0);
    forall i: nat | i < |valid|
      ensures RoundLeaves(task, i, valid[i], lanes0[i], lanes[i], step.committed[i], step.tentative[i], mask[i], r)
    {
      LabelRound(task, i, valid[i], lanes0[i], step.committed[i], step.tentative[i], step.inputs[i], r, active[i],
        out[i]);
    }
    MaskedEmit(task, valid, lanes0, lanes, step.committed, step.tentative, mask, r);
    TakeCommits(step, mask, anyCommit, PrevsOf(task, lanes, step.lanes));
  }

  /** The predictor runs only when some lane emitted; otherwise its last outputs still stand. */
  method TakeCommits<S(!new), P(!new)>(step: BatchLabelStep<S, P>, mask: seq<bool>, anyCommit: bool, prevs: seq<nat>)
    requires step.Valid() && |mask| == |prevs| == step.lanes && (anyCommit <==> exists i :: 0 <= i < |mask| && mask[i])
    modifies step`committed, step`tentative, step`inputs, step`predicts
    ensures step.Valid() && step.predicts == old(step.predicts) + if anyCommit then 1 else 0
    ensures forall i :: 0 <= i < step.lanes ==>
      && step.committed[i] == (if mask[i] then old(step.tentative[i]) else old(step.committed[i]))
      && (step.inputs[i], step.tentative[i]) == if anyCommit
           then step.task.net.predict(Prefix(step.task, prevs[i]), step.committed[i])
           else old((step.inputs[i], step.tentative[i]))
  {
    if anyCommit {
      step.Commit(mask);
      step.Predict(prevs);
    }
  }

  lemma LabelStart<S(!new), P(!new)>(task: Task<S, P>, lane: nat, valid: nat, tentative: S, input: P)
    requires PicksTokens(task) && (input, tentative) == task.net.predict(None, task.net.initial)
    ensures InLabels(task, lane, valid, Cursor(0, 0, task.Blank(), NOTHING), task.net.initial, tentative, input, 0)
  {
  }

  /** Lanes that are done after r rounds hold their transcript; a lane that is not has at least r + 1 rounds. */
  lemma LabelTranscript<S(!new), P(!new)>(task: Task<S, P>, lane: nat, valid: nat, c: Cursor, r: nat)
    requires PicksTokens(task) && task.maxSymbols >= 1
    requires Holds(task, c, After(task, lane, valid, InitialState(task), r))
    ensures c.time >= valid ==>
      c.done == Greedy(task, lane, valid)
      && Rounds(task, lane, valid, InitialState(task)) <= r
    ensures c.time < valid ==> Rounds(task, lane, valid, InitialState(task)) > r
  {
    AfterFinishes(task, lane, valid, InitialState(task), r);
  }

  predicate Unfinished(valid: seq<nat>, lanes: seq<Cursor>)
    requires |valid| == |lanes|
  {
    exists i :: 0 <= i < |lanes| && lanes[i].time < valid[i]
  }

  /** The lanes that still have frames. */
  function Live(valid: seq<nat>, lanes: seq<Cursor>, n: nat): (r: seq<bool>)
    requires |valid| == |lanes| <= n
    ensures |r| == n && forall i :: 0 <= i < n ==> r[i] == (i < |valid| && lanes[i].time < valid[i])
    ensures true in r <==> Unfinished(valid, lanes)
  {
    var r := seq(n, i requires 0 <= i < n => i < |valid| && lanes[i].time < valid[i]);
    assert Unfinished(valid, lanes) ==> true in r by {
      if i :| 0 <= i < |lanes| && lanes[i].time < valid[i] { assert r[i]; }
    }
    r
  }

  predicate Transcribed<S(!new), P(!new)>(task: Task<S, P>, valid: seq<nat>, lanes: seq<Cursor>)
    requires PicksTokens(task) && task.maxSymbols >= 1 && |valid| == |lanes|
  {
    forall i :: 0 <= i < |valid| ==> lanes[i].done == Greedy(task, i, valid[i])
  }

  lemma LabelTranscripts<S(!new), P(!new)>(task: Task<S, P>, valid: seq<nat>, lanes: seq<Cursor>,
      step: BatchLabelStep<S, P>, r: nat)
    requires PicksTokens(task) && task.maxSymbols >= 1
    requires step.Valid() && |valid| == |lanes| <= step.lanes && AllInLabels(task, valid, lanes, step, r)
    ensures !Unfinished(valid, lanes) ==> Transcribed(task, valid, lanes)
    ensures Unfinished(valid, lanes) <==> r < MostRounds(task, valid, |valid|)
  {
    var most := MostRounds(task, valid, |valid|);
    forall i | 0 <= i < |lanes|
      ensures lanes[i].time >= valid[i] ==> lanes[i].done == Greedy(task, i, valid[i])
      ensures lanes[i].time < valid[i] <==> r < Rounds(task, i, valid[i], InitialState(task))
    {
      LabelTranscript(task, i, valid[i], lanes[i], r);
    }
  }

  /** The label loop proper. */
  method RunLabels<S(!new), P(!new)>(task: Task<S, P>, valid: seq<nat>, lanes0: seq<Cursor>, step: BatchLabelStep<S, P>)
    returns (lanes: seq<Cursor>, ghost r: nat)
    requires PicksTokens(task) && task.net == step.task.net && task.vocabulary == step.task.vocabulary
      && task.maxSymbols >= 1
    requires step.Valid() && |valid| == |lanes0| <= step.lanes && AllInLabels(task, valid, lanes0, step, 0)
    modifies step
    ensures step.Valid() && |lanes| == |valid|
    ensures Transcribed(task, valid, lanes)
    ensures r == MostRounds(task, valid, |valid|)
    ensures step.joints == old(step.joints) + r && step.predicts == old(step.predicts) + EmittingRounds(task, valid, r)
  {
    ghost var most := MostRounds(task, valid, |valid|);
    lanes, r := lanes0, 0;
    var active := Live(valid, lanes, step.lanes);
    while true in active
      invariant step.Valid() && |lanes| == |valid| && AllInLabels(task, valid, lanes, step, r)
        && active == Live(valid, lanes, step.lanes)
      invariant r <= most && step.joints == old(step.joints) + r
        && step.predicts == old(step.predicts) + EmittingRounds(task, valid, r)
      decreases most - r
    {
      LabelTranscripts(task, valid, lanes, step, r);
      lanes := LabelLoopRound(task, valid, active, lanes, step, r);
      active := Live(valid, lanes, step.lanes);
      r := r + 1;
    }
    LabelTranscripts(task, valid, lanes, step, r);
  }

  method DecodeBatchLabels<S(!new), P(!new)>(valid: seq<nat>, step: BatchLabelStep<S, P>)
      returns (dones: seq<LaneDecode>)
    requires PicksTokens(step.task) && step.Valid() && |valid| <= step.lanes
    modifies step
    ensures |dones| == |valid|
    ensures forall i :: 0 <= i < |valid| ==> dones[i] == Greedy(Clamped(step.task), i, valid[i])
    ensures var task := Clamped(step.task); var most := MostRounds(task, valid, |valid|);
      if task.vocabulary == [] then step.joints == old(step.joints) && step.predicts == old(step.predicts)
      else
        && step.joints == old(step.joints) + most
        && step.predicts == old(step.predicts) + 1 + EmittingRounds(task, valid, most)
  {
    var task, b := Clamped(step.task), |valid|;
    if task.vocabulary == [] {
      dones := Filled(b, NOTHING);
      forall i | 0 <= i < b
        ensures Greedy(task, i, valid[i]) == NOTHING
      {
        EmptyVocabulary(task, i, valid[i], InitialState(task));
      }
      return;
    }
    step.Reset();
    var lanes := Filled(b, Cursor(0, 0, task.Blank(), NOTHING));
    step.Predict(Filled(step.lanes, task.Blank()));
    forall i | 0 <= i < b
      ensures InLabels(task, i, valid[i], lanes[i], step.committed[i], step.tentative[i], step.inputs[i], 0)
    {
      LabelStart(task, i, valid[i], step.tentative[i], step.inputs[i]);
    }
    ghost var r;
    lanes, r := RunLabels(task, valid, lanes, step);
    dones := seq(b, i requires 0 <= i < b => lanes[i].done);
  }

  // ----- lockstep against label-looping -----

  /** Both batched loops on one task: the transcripts are the same, and label-looping runs at most as many joints
      as lockstep runs steps, since the most rounds of any lane are at most the rounds of all frames together. */
  method CompareSchedules<S(!new), P(!new)>(valid: seq<nat>, lockstep: BatchJointStep<S, P>,
      labels: BatchLabelStep<S, P>)
    returns (stepped: seq<LaneDecode>, looped: seq<LaneDecode>)
    requires lockstep.task == labels.task && PicksTokens(labels.task) && labels.task.maxSymbols >= 1
    requires lockstep.Valid() && labels.Valid() && |valid| <= lockstep.lanes && |valid| <= labels.lanes
    modifies lockstep, labels
    ensures stepped == looped && |looped| == |valid|
    ensures labels.joints - old(labels.joints) <= lockstep.steps - old(lockstep.steps)
  {
    stepped := DecodeBatch(valid, lockstep);
    looped := DecodeBatchLabels(valid, labels);
    forall i | 0 <= i < |valid|
      ensures Rounds(labels.task, i, valid[i], InitialState(labels.task))
        <= LockstepTotal(Evals(labels.task), valid, Longest(valid))
    {
      LockstepCost(labels.task, valid, i, Longest(valid));
    }
  }

  /** With a cap of zero the loops differ: label-looping clamps it to one, so it agrees with lockstep's empty
      transcript exactly when every frame picks the blank from the initial state. */
  lemma ZeroCap<S(!new), P(!new)>(task: Task<S, P>, lane: nat, valid: nat)
    requires PicksTokens(task) && task.maxSymbols == 0
    ensures Greedy(Clamped(task), lane, valid).emissions == NOTHING.emissions <==>
      forall u :: 0 <= u < valid ==> Picked(task, lane, InitialState(task).(time := u)) == task.Blank()
  {
    SilentFrames(Clamped(task), lane, valid, 0);
    assert InitialState(task) == InitialState(Clamped(task)).(time := 0);
    assert forall u: nat ::
      Picked(task, lane, InitialState(task).(time := u))
      == Picked(Clamped(task), lane, InitialState(task).(time := u));
  }

  /** Networks that always pick the first token. */
  function Chatty(): Task<int, int> {
    Task(Network(0, (prev: Option<nat>, state: int) => (0, 0), (lane: nat, t: nat, input: int) => 0), ["a"], 0)
  }

  /** On them, one frame and a cap of zero tell the loops apart. */
  lemma ZeroCapExample()
    ensures PicksTokens(Chatty()) && Greedy(Clamped(Chatty()), 0, 1).emissions != NOTHING.emissions
  {
    ZeroCap(Chatty(), 0, 1);
    assert Picked(Chatty(), 0, InitialState(Chatty()).(time := 0)) == 0;
  }
}
