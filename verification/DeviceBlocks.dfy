/** Device-resident decoding in blocks: the host only notes the flagged entries of each block's tapes. */
module DeviceBlocks {
  import opened GreedyTransducer
  import opened TransducerLoops

  /** One tape entry per lane and step: whether it emits, which token, at which frame. */
  datatype TapeEntry = TapeEntry(emit: bool, token: nat, frame: nat)

  /** A device step runs at least one joint evaluation of a lane and reports the one emission it makes, if any. */
  ghost predicate DeviceStep<S(!new), P(!new)>(task: Task<S, P>, lane: nat, valid: nat, u: LaneState<S>,
      entry: TapeEntry, v: LaneState<S>, m: nat)
    requires PicksTokens(task)
  {
    && m >= 1 && v == After(task, lane, valid, u, m)
    && Real(task, valid, entry)
    && v.done == Noted(task, valid, u.done, entry)
  }

  /** A flagged entry is a token of the vocabulary at one of the lane's frames. */
  predicate Real<S, P>(task: Task<S, P>, valid: nat, entry: TapeEntry) {
    entry.emit ==> entry.token < task.Blank() && entry.frame < valid
  }

  function Noted<S, P>(task: Task<S, P>, valid: nat, done: LaneDecode, entry: TapeEntry): LaneDecode {
    if entry.emit && entry.frame < valid && entry.token < task.Blank()
    then Append(task.vocabulary, done, entry.token, entry.frame) else done
  }

  function NotedAll<S, P>(task: Task<S, P>, valid: nat, done: LaneDecode, tape: seq<TapeEntry>): LaneDecode {
    if tape == [] then done else Noted(task, valid, NotedAll(task, valid, done, tape[..|tape| - 1]), tape[|tape| - 1])
  }

  /** The transcript of the emissions below frame h. */
  function Cut<S, P>(task: Task<S, P>, h: nat, emissions: seq<TokenEmission>): LaneDecode {
    if emissions == [] then NOTHING
    else
      var before, last := Cut(task, h, emissions[..|emissions| - 1]), emissions[|emissions| - 1];
      if last.frame < h && last.tokenId < task.Blank() then Append(task.vocabulary, before, last.tokenId, last.frame)
        else before
  }

  predicate RealTape<S, P>(task: Task<S, P>, valid: nat, tape: seq<TapeEntry>) {
    forall s :: 0 <= s < |tape| ==> Real(task, valid, tape[s])
  }

  /** A host that counts h frames notes what the device emits below h. */
  lemma {:induction false} NotesAreCut<S, P>(task: Task<S, P>, h: nat, valid: nat, done: LaneDecode,
      tape: seq<TapeEntry>)
    requires RealTape(task, valid, tape)
    ensures NotedAll(task, h, Cut(task, h, done.emissions), tape)
      == Cut(task, h, NotedAll(task, valid, done, tape).emissions)
  {
    if tape != [] {
      var n := |tape| - 1;
      NotesAreCut(task, h, valid, done, tape[..n]);
      assert Real(task, valid, tape[n]);
      CutAppend(task, h, NotedAll(task, valid, done, tape[..n]).emissions, tape[n].token, tape[n].frame);
    }
  }

  lemma CutAppend<S, P>(task: Task<S, P>, h: nat, emissions: seq<TokenEmission>, token: nat, frame: nat)
    ensures Cut(task, h, emissions + [TokenEmission(token, frame)]) ==
      if frame < h && token < task.Blank() then Append(task.vocabulary, Cut(task, h, emissions), token, frame)
      else Cut(task, h, emissions)
  {
    assert (emissions + [TokenEmission(token, frame)])[..|emissions|] == emissions;
  }

  /** A lane past frame h emits nothing below h any more. */
  lemma {:induction false} NothingEarlier<S(!new), P(!new)>(task: Task<S, P>, lane: nat, valid: nat, st: LaneState<S>,
      h: nat)
    requires PicksTokens(task) && InFrame(task, st) && task.maxSymbols >= 1 && h <= st.time
    ensures Cut(task, h, Finish(task, lane, valid, st).done.emissions) == Cut(task, h, st.done.emissions)
    decreases Measure(task, valid, st)
  {
    if st.time < valid {
      StepShrinks(task, lane, valid, st);
      CutAppend(task, h, st.done.emissions, Picked(task, lane, st), st.time);
      NothingEarlier(task, lane, valid, LaneStep(task, lane, st), h);
    }
  }

  /** Cutting a finished transcript at h is finishing with h frames: later frames do not reach back. */
  lemma {:induction false} CutFinishes<S(!new), P(!new)>(task: Task<S, P>, lane: nat, valid: nat, st: LaneState<S>,
      h: nat)
    requires PicksTokens(task) && InFrame(task, st) && task.maxSymbols >= 1
      && Cut(task, h, st.done.emissions) == st.done
    ensures Cut(task, h, Finish(task, lane, valid, st).done.emissions) == Finish(task, lane, Clamp(h, valid), st).done
    decreases Measure(task, valid, st)
  {
    if st.time < valid {
      if st.time < h {
        StepShrinks(task, lane, valid, st);
        StepShrinks(task, lane, Clamp(h, valid), st);
        CutAppend(task, h, st.done.emissions, Picked(task, lane, st), st.time);
        CutFinishes(task, lane, valid, LaneStep(task, lane, st), h);
      } else {
        NothingEarlier(task, lane, valid, st, h);
      }
    }
  }

  /** A windowed step: look at up to w frames against the fixed predictor state and jump to the first token. */
  function Windowed<S(!new), P(!new)>(task: Task<S, P>, lane: nat, valid: nat, u: LaneState<S>, w: nat):
      (LaneState<S>, TapeEntry)
    requires PicksTokens(task) && w >= 1
    decreases w
  {
    var k := Picked(task, lane, u);
    if u.time >= valid then (u, TapeEntry(false, 0, u.time))
    else if k < task.Blank() then (LaneStep(task, lane, u), TapeEntry(true, k, u.time))
    else if w == 1 then (LaneStep(task, lane, u), TapeEntry(false, k, u.time))
    else Windowed(task, lane, valid, u.(time := u.time + 1, symbols := 0), w - 1)
  }

  /** Whatever the window, such a step is one the host's transcript allows. */
  lemma {:induction false} WindowedIsDeviceStep<S(!new), P(!new)>(task: Task<S, P>, lane: nat, valid: nat,
      u: LaneState<S>, w: nat) returns (m: nat)
    requires PicksTokens(task) && w >= 1
    ensures var r := Windowed(task, lane, valid, u, w); DeviceStep(task, lane, valid, u, r.1, r.0, m)
    decreases w
  {
    if u.time >= valid || Picked(task, lane, u) < task.Blank() || w == 1 {
      OneEvaluation(task, lane, valid, u);
      m := 1;
    } else {
      var k := WindowedIsDeviceStep(task, lane, valid, LaneStep(task, lane, u), w - 1);
      BlankFirst(task, lane, valid, u, k);
      m := k + 1;
    }
  }

  lemma OneEvaluation<S(!new), P(!new)>(task: Task<S, P>, lane: nat, valid: nat, u: LaneState<S>)
    requires PicksTokens(task)
    ensures After(task, lane, valid, u, 1) == Advance(task, lane, valid, u)
  {
    assert After(task, lane, valid, u, 0) == u;
  }

  lemma BlankFirst<S(!new), P(!new)>(task: Task<S, P>, lane: nat, valid: nat, u: LaneState<S>, m: nat)
    requires PicksTokens(task) && u.time < valid
    ensures After(task, lane, valid, LaneStep(task, lane, u), m) == After(task, lane, valid, u, m + 1)
  {
    OneEvaluation(task, lane, valid, u);
    AfterAdds(task, lane, valid, u, 1, m);
  }

  /** A block's tape for one lane, with the lane states between its entries and the evaluations each entry stands
      for. */
  ghost predicate DeviceSteps<S(!new), P(!new)>(task: Task<S, P>, lane: nat, valid: nat, tape: seq<TapeEntry>,
      sts: seq<LaneState<S>>, ms: seq<nat>)
    requires PicksTokens(task)
  {
    && |sts| == |tape| + 1 && |ms| == |tape|
    && forall s :: 0 <= s < |tape| ==> DeviceStep(task, lane, valid, sts[s], tape[s], sts[s + 1], ms[s])
  }

  /** Whatever window a device step spans, noting a block's tape keeps the lane on the way to its transcript. */
  lemma {:induction false} TapeNotesRun<S(!new), P(!new)>(task: Task<S, P>, lane: nat, valid: nat, tape: seq<TapeEntry>,
    sts: seq<LaneState<S>>, ms: seq<nat>)
    requires PicksTokens(task) && task.maxSymbols >= 1 && DeviceSteps(task, lane, valid, tape, sts, ms)
      && InFrame(task, sts[0])
    ensures var v := sts[|tape|];
      && v.done == NotedAll(task, valid, sts[0].done, tape)
      && InFrame(task, v)
      && Finish(task, lane, valid, v) == Finish(task, lane, valid, sts[0])
      && Rounds(task, lane, valid, v) <= Later(Rounds(task, lane, valid, sts[0]), |tape|)
    decreases |tape|
  {
    if tape != [] {
      var n := |tape| - 1;
      assert DeviceSteps(task, lane, valid, tape[..n], sts[..n + 1], ms[..n]) by {
        forall s | 0 <= s < n ensures DeviceStep(task, lane, valid, sts[s], tape[s], sts[s + 1], ms[s]) { }
      }
      TapeNotesRun(task, lane, valid, tape[..n], sts[..n + 1], ms[..n]);
      assert DeviceStep(task, lane, valid, sts[n], tape[n], sts[n + 1], ms[n]);
      AfterFinishes(task, lane, valid, sts[n], ms[n]);
    }
  }

  function Later(rounds: nat, n: nat): nat {
    if rounds <= n then 0 else rounds - n
  }

  /** Device-resident lanes; the state is the device's, the host reads only tapes. */
  class BatchBlockStep<S(!new), P(!new)> {
    const task: Task<S, P>
    const valid: seq<nat>
    const blockSteps: nat
    var states: seq<LaneState<S>>

    ghost predicate Valid()
      reads this
    {
      |states| == |valid|
    }

    constructor (task: Task<S, P>, valid: seq<nat>, blockSteps: nat)
      ensures Valid() && this.task == task && this.valid == valid && this.blockSteps == blockSteps
    {
      this.task, this.valid, this.blockSteps := task, valid, blockSteps;
      states := seq(|valid|, i => InitialState(task));
    }

    method Reset()
      requires Valid()
      modifies this
      ensures Valid() && forall i :: 0 <= i < |states| ==> states[i] == InitialState(task)
    {
      states := seq(|valid|, i => InitialState(task));
    }

    /** A device that evaluates one joint per step; any other device meets the same contract. */
    method RunBlock() returns (tapes: seq<seq<TapeEntry>>, activeAny: bool)
      requires Valid() && PicksTokens(task)
      modifies this
      ensures Valid() && |tapes| == |valid|
      ensures forall i: nat :: i < |valid| ==>
        |tapes[i]| == blockSteps && OnTape(task, i, valid[i], old(states[i]), tapes[i], states[i])
      ensures activeAny <==> exists i :: 0 <= i < |valid| && states[i].time < valid[i]
    {
      tapes := [];
      ghost var before := states;
      for i := 0 to |valid|
        invariant Valid() && |tapes| == i
        invariant forall l: nat :: l < i ==>
          |tapes[l]| == blockSteps
          && OnTape(task, l, valid[l], before[l], tapes[l], states[l])
        invariant forall l :: i <= l < |valid| ==> states[l] == before[l]
      {
        var tape, last := RunLane(i);
        tapes, states := tapes + [tape], states[i := last];
      }
      activeAny := exists i :: 0 <= i < |valid| && states[i].time < valid[i];
    }

    method RunLane(i: nat) returns (tape: seq<TapeEntry>, st: LaneState<S>)
      requires Valid() && PicksTokens(task) && i < |valid|
      ensures |tape| == blockSteps && OnTape(task, i, valid[i], states[i], tape, st)
    {
      tape, st := [], states[i];
      ghost var sts, ms := [st], [];
      for s := 0 to blockSteps
        invariant |tape| == s && DeviceSteps(task, i, valid[i], tape, sts, ms) && sts[0] == states[i] && sts[s] == st
      {
        var k := Picked(task, i, st);
        var entry := TapeEntry(st.time < valid[i] && k < task.Blank(), k, st.time);
        var next := if st.time < valid[i] then LaneStep(task, i, st) else st;
        assert After(task, i, valid[i], st, 1) == Advance(task, i, valid[i], After(task, i, valid[i], st, 0));
        assert DeviceStep(task, i, valid[i], st, entry, next, 1);
        tape, sts, ms, st := tape + [entry], sts + [next], ms + [1], next;
      }
    }
  }

  ghost predicate OnTape<S(!new), P(!new)>(task: Task<S, P>, lane: nat, valid: nat, u: LaneState<S>,
      tape: seq<TapeEntry>, v: LaneState<S>)
    requires PicksTokens(task)
  {
    exists sts, ms :: DeviceSteps(task, lane, valid, tape, sts, ms) && sts[0] == u && sts[|tape|] == v
  }

  lemma OnTapeRuns<S(!new), P(!new)>(task: Task<S, P>, lane: nat, valid: nat, u: LaneState<S>, tape: seq<TapeEntry>,
      v: LaneState<S>)
    requires PicksTokens(task) && task.maxSymbols >= 1 && InFrame(task, u) && OnTape(task, lane, valid, u, tape, v)
    ensures v.done == NotedAll(task, valid, u.done, tape) && InFrame(task, v)
    ensures Finish(task, lane, valid, v) == Finish(task, lane, valid, u)
    ensures Rounds(task, lane, valid, v) <= Later(Rounds(task, lane, valid, u), |tape|)
  {
    var sts, ms :| DeviceSteps(task, lane, valid, tape, sts, ms) && sts[0] == u && sts[|tape|] == v;
    TapeNotesRun(task, lane, valid, tape, sts, ms);
  }

  /** Appends one block's flagged entries to every lane's transcript. */
  method NoteTapes<S, P>(task: Task<S, P>, valid: seq<nat>, tapes: seq<seq<TapeEntry>>, dones0: seq<LaneDecode>)
      returns (dones: seq<LaneDecode>)
    requires |valid| == |dones0| <= |tapes|
    requires forall i, s :: 0 <= i < |valid| && 0 <= s < |tapes[i]| && tapes[i][s].emit ==>
      tapes[i][s].token < task.Blank()
    ensures |dones| == |dones0| && forall i ::
      0 <= i < |dones| ==> dones[i] == NotedAll(task, valid[i], dones0[i], tapes[i])
  {
    dones := dones0;
    for i := 0 to |valid|
      invariant |dones| == |dones0|
      invariant forall l :: 0 <= l < i ==> dones[l] == NotedAll(task, valid[l], dones0[l], tapes[l])
      invariant forall l :: i <= l < |dones| ==> dones[l] == dones0[l]
    {
      var tape := tapes[i];
      for s := 0 to |tape|
        invariant |dones| == |dones0| && dones[i] == NotedAll(task, valid[i], dones0[i], tape[..s])
        invariant forall l :: 0 <= l < i ==> dones[l] == NotedAll(task, valid[l], dones0[l], tapes[l])
        invariant forall l :: i < l < |dones| ==> dones[l] == dones0[l]
      {
        assert tape[..s + 1][..s] == tape[..s];
        if tape[s].emit && tape[s].frame < valid[i] {
          dones := dones[i := Append(task.vocabulary, dones[i], tape[s].token, tape[s].frame)];
        }
      }
      assert tape[..|tape|] == tape;
    }
  }

  // ----- the host loop -----

  ghost predicate AllInFrame<S(!new), P(!new)>(task: Task<S, P>, states: seq<LaneState<S>>) {
    forall i :: 0 <= i < |states| ==> InFrame(task, states[i])
  }

  /** Some lane still has frames. */
  ghost predicate Active<S(!new)>(valid: seq<nat>, states: seq<LaneState<S>>)
    requires |valid| == |states|
  {
    exists i :: 0 <= i < |valid| && states[i].time < valid[i]
  }

  /** No lane has more than n evaluations left. */
  ghost predicate LeftWithin<S(!new), P(!new)>(task: Task<S, P>, valid: seq<nat>, states: seq<LaneState<S>>, n: nat)
    requires PicksTokens(task) && task.maxSymbols >= 1 && |valid| == |states| && AllInFrame(task, states)
  {
    forall i :: 0 <= i < |valid| ==> Rounds(task, i, valid[i], states[i]) <= n
  }

  lemma {:induction false} SomeBound<S(!new), P(!new)>(task: Task<S, P>, valid: seq<nat>, states: seq<LaneState<S>>,
      b: nat) returns (n: nat)
    requires PicksTokens(task) && task.maxSymbols >= 1 && |valid| == |states| && AllInFrame(task, states)
      && b <= |valid|
    ensures forall i :: 0 <= i < b ==> Rounds(task, i, valid[i], states[i]) <= n
  {
    n := 0;
    if b > 0 {
      n := SomeBound(task, valid, states, b - 1);
      n := n + Rounds(task, b - 1, valid[b - 1], states[b - 1]);
    }
  }

  /** Lanes whose device states still lead to where `states0` leads, and whose noted transcripts are the device's
      up to the host's own frame counts. */
  ghost predicate OnCourse<S(!new), P(!new)>(task: Task<S, P>, hosts: seq<nat>, valid: seq<nat>,
      states0: seq<LaneState<S>>,
    states: seq<LaneState<S>>, dones: seq<LaneDecode>)
    requires PicksTokens(task) && task.maxSymbols >= 1 && |dones| == |hosts| <= |valid| == |states| == |states0|
    requires AllInFrame(task, states0) && AllInFrame(task, states)
  {
    && (forall i :: 0 <= i < |valid| ==> Finish(task, i, valid[i], states[i]) == Finish(task, i, valid[i], states0[i]))
    && (forall i :: 0 <= i < |dones| ==> dones[i] == Cut(task, hosts[i], states[i].done.emissions))
  }

  /** One block and its notes. */
  method TakeBlock<S(!new), P(!new)>(valid: seq<nat>, step: BatchBlockStep<S, P>, ghost states0: seq<LaneState<S>>,
      dones0: seq<LaneDecode>,
    ghost n: nat)
    returns (dones: seq<LaneDecode>, activeAny: bool)
    requires PicksTokens(step.task) && step.task.maxSymbols >= 1 && step.Valid() && |states0| == |step.valid|
    requires |dones0| == |valid| <= |step.valid| && AllInFrame(step.task, states0) && AllInFrame(step.task, step.states)
    requires OnCourse(step.task, valid, step.valid, states0, step.states, dones0)
      && LeftWithin(step.task, step.valid, step.states, n)
    modifies step
    ensures step.Valid() && |dones| == |valid| && AllInFrame(step.task, step.states)
    ensures OnCourse(step.task, valid, step.valid, states0, step.states, dones)
    ensures LeftWithin(step.task, step.valid, step.states, Later(n, step.blockSteps))
    ensures activeAny <==> Active(step.valid, step.states)
  {
    ghost var task, before := step.task, step.states;
    var tapes;
    tapes, activeAny := step.RunBlock();
    forall i: nat | i < |step.valid|
      ensures var v := step.states[i];
        && v.done == NotedAll(task, step.valid[i], before[i].done, tapes[i]) && InFrame(task, v)
        && Finish(task, i, step.valid[i], v) == Finish(task, i, step.valid[i], before[i])
        && Rounds(task, i, step.valid[i], v) <= Later(n, step.blockSteps)
    {
      OnTapeRuns(task, i, step.valid[i], before[i], tapes[i], step.states[i]);
    }
    TapesReal(task, step.valid, before, tapes, step.states);
    dones := NoteTapes(step.task, valid, tapes, dones0);
    forall i | 0 <= i < |dones| ensures dones[i] == Cut(task, valid[i], step.states[i].done.emissions) {
      NotesAreCut(task, valid[i], step.valid[i], before[i].done, tapes[i]);
    }
  }

  /** The host's frame counts and the device's need not agree: a lane ends at the smaller one. */
  method RunBlocks<S(!new), P(!new)>(valid: seq<nat>, step: BatchBlockStep<S, P>) returns (dones: seq<LaneDecode>)
    requires PicksTokens(step.task) && step.task.maxSymbols >= 1 && step.Valid() && step.blockSteps >= 1
      && |valid| <= |step.valid|
    requires AllInFrame(step.task, step.states) && forall i :: 0 <= i < |step.states| ==> step.states[i].done == NOTHING
    modifies step
    ensures step.Valid() && |dones| == |valid|
    ensures forall i :: 0 <= i < |valid| ==>
      dones[i]
      == Finish(step.task, i, Clamp(valid[i], step.valid[i]), old(step.states)[i]).done
  {
    ghost var states0 := step.states;
    ghost var n := SomeBound(step.task, step.valid, step.states, |step.valid|);
    dones := Filled(|valid|, NOTHING);
    var activeAny := true;
    while activeAny
      invariant step.Valid() && |dones| == |valid| && AllInFrame(step.task, step.states)
      invariant OnCourse(step.task, valid, step.valid, states0, step.states, dones)
      invariant LeftWithin(step.task, step.valid, step.states, n)
      invariant activeAny || !Active(step.valid, step.states)
      decreases activeAny, n
    {
      dones, activeAny := TakeBlock(valid, step, states0, dones, n);
      n := Later(n, step.blockSteps);
    }
    assert forall i :: 0 <= i < |valid| ==> step.states[i].time >= step.valid[i];
    forall i | 0 <= i < |valid|
      ensures dones[i] == Finish(step.task, i, Clamp(valid[i], step.valid[i]), states0[i]).done
    {
      CutFinishes(step.task, i, step.valid[i], states0[i], valid[i]);
    }
  }

  /** Decoding in blocks, whatever the block size, gives every lane its greedy transcript. */
  method DecodeBatchBlocks<S(!new), P(!new)>(valid: seq<nat>, step: BatchBlockStep<S, P>)
      returns (dones: seq<LaneDecode>)
    requires PicksTokens(step.task) && step.task.maxSymbols >= 1 && step.Valid() && step.blockSteps >= 1
      && |valid| <= |step.valid|
    modifies step
    ensures |dones| == |valid| && forall i ::
      0 <= i < |valid| ==> dones[i] == Greedy(step.task, i, Clamp(valid[i], step.valid[i]))
  {
    if step.task.vocabulary == [] || forall i :: 0 <= i < |valid| ==> valid[i] == 0 {
      if step.task.vocabulary == [] {
        forall i | 0 <= i < |valid| ensures Greedy(step.task, i, Clamp(valid[i], step.valid[i])) == NOTHING {
          EmptyVocabulary(step.task, i, Clamp(valid[i], step.valid[i]), InitialState(step.task));
        }
      }
      return Filled(|valid|, NOTHING);
    }
    step.Reset();
    dones := RunBlocks(valid, step);
  }

  /** A chunk of a stream, from the lanes' present states. */
  method ResumeBatchBlocks<S(!new), P(!new)>(valid: seq<nat>, step: BatchBlockStep<S, P>)
      returns (dones: seq<LaneDecode>)
    requires PicksTokens(step.task) && step.task.maxSymbols >= 1 && step.Valid() && step.blockSteps >= 1
      && |valid| <= |step.valid|
    requires AllInFrame(step.task, step.states) && forall i :: 0 <= i < |step.states| ==> step.states[i].done == NOTHING
    modifies step
    ensures |dones| == |valid| && forall i ::
      0 <= i < |valid| ==> dones[i] == Finish(step.task, i, Clamp(valid[i], step.valid[i]), old(step.states)[i]).done
  {
    if step.task.vocabulary == [] || forall i :: 0 <= i < |valid| ==> valid[i] == 0 {
      if step.task.vocabulary == [] {
        forall i | 0 <= i < |valid|
          ensures Finish(step.task, i, Clamp(valid[i], step.valid[i]), step.states[i]).done == NOTHING
        {
          EmptyVocabulary(step.task, i, Clamp(valid[i], step.valid[i]), step.states[i]);
        }
      }
      return Filled(|valid|, NOTHING);
    }
    dones := RunBlocks(valid, step);
  }

  /** The entries a block flags are real emissions. */
  lemma TapesReal<S(!new), P(!new)>(task: Task<S, P>, valid: seq<nat>, before: seq<LaneState<S>>,
      tapes: seq<seq<TapeEntry>>,
    after: seq<LaneState<S>>)
    requires PicksTokens(task) && |valid| == |before| == |after| == |tapes|
    requires forall i: nat :: i < |valid| ==> OnTape(task, i, valid[i], before[i], tapes[i], after[i])
    ensures forall i :: 0 <= i < |valid| ==> RealTape(task, valid[i], tapes[i])
  {
    forall i: nat, s | i < |valid| && 0 <= s < |tapes[i]| ensures Real(task, valid[i], tapes[i][s]) {
      assert OnTape(task, i, valid[i], before[i], tapes[i], after[i]);
      var sts, ms :| DeviceSteps(task, i, valid[i], tapes[i], sts, ms) && sts[0] == before[i]
        && sts[|tapes[i]|] == after[i];
      assert DeviceStep(task, i, valid[i], sts[s], tapes[i][s], sts[s + 1], ms[s]);
    }
  }
}
