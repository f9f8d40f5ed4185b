/** What greedy transducer decoding computes for one lane, one joint evaluation at a time. */
module GreedyTransducer {
  import opened Topology
  import opened Sequences

  datatype TokenEmission = TokenEmission(tokenId: nat, frame: nat)

  datatype LaneDecode = LaneDecode(text: string, emissions: seq<TokenEmission>)

  /** The networks behind a decoder. The predictor reads the previous token and the committed state, and gives
      the joint's input and a tentative state; the joint reads one lane's encoder frame and picks a token. */
  datatype Network<!S, !P> = Network(initial: S, predict: (Option<nat>, S) -> (P, S), joint: (nat, nat, P) -> nat)

  /** One decoding problem: networks, vocabulary (the blank is the token past it), and the cap on tokens per frame. */
  datatype Task<!S, !P> = Task(net: Network<S, P>, vocabulary: seq<string>, maxSymbols: nat) {
    function Blank(): nat { |vocabulary| }
  }

  ghost predicate PicksTokens<S(!new), P(!new)>(task: Task<S, P>) {
    forall lane, t, p :: task.net.joint(lane, t, p) <= task.Blank()
  }

  /** A lane between joint evaluations. */
  datatype LaneState<S> = LaneState(time: nat, symbols: nat, prev: Option<nat>, committed: S, done: LaneDecode)

  function InitialState<S, P>(task: Task<S, P>): LaneState<S> {
    LaneState(0, 0, None, task.net.initial, LaneDecode("", []))
  }

  function Picked<S, P>(task: Task<S, P>, lane: nat, st: LaneState<S>): nat {
    task.net.joint(lane, st.time, task.net.predict(st.prev, st.committed).0)
  }

  function Append(vocabulary: seq<string>, done: LaneDecode, token: nat, frame: nat): LaneDecode
    requires token < |vocabulary|
  {
    LaneDecode(done.text + vocabulary[token], done.emissions + [TokenEmission(token, frame)])
  }

  /** One joint evaluation: a blank ends the frame, a token is emitted and committed, and ends the frame at the cap. */
  function LaneStep<S(!new), P(!new)>(task: Task<S, P>, lane: nat, st: LaneState<S>): LaneState<S>
    requires PicksTokens(task)
  {
    var k := Picked(task, lane, st);
    if k == task.Blank() then st.(time := st.time + 1, symbols := 0)
    else
      var emitted := st.(prev := Some(k), committed := task.net.predict(st.prev, st.committed).1,
        done := Append(task.vocabulary, st.done, k, st.time));
      if st.symbols + 1 >= task.maxSymbols then emitted.(time := st.time + 1, symbols := 0)
      else emitted.(symbols := st.symbols + 1)
  }

  predicate InFrame<S, P>(task: Task<S, P>, st: LaneState<S>) {
    st.symbols == 0 || st.symbols < task.maxSymbols
  }

  /** How many joint evaluations the remaining frames can take. */
  function Measure<S, P>(task: Task<S, P>, valid: nat, st: LaneState<S>): (r: nat)
    requires InFrame(task, st) && task.maxSymbols >= 1
  {
    if st.time >= valid then 0 else
    assert (valid - st.time - 1) * task.maxSymbols >= 0;
    assert (valid - st.time) * task.maxSymbols == (valid - st.time - 1) * task.maxSymbols + task.maxSymbols;
    (valid - st.time) * task.maxSymbols - st.symbols
  }

  lemma StepShrinks<S(!new), P(!new)>(task: Task<S, P>, lane: nat, valid: nat, st: LaneState<S>)
    requires PicksTokens(task) && InFrame(task, st) && task.maxSymbols >= 1 && st.time < valid
    ensures InFrame(task, LaneStep(task, lane, st))
    ensures Measure(task, valid, LaneStep(task, lane, st)) < Measure(task, valid, st)
  {
    assert (valid - st.time) * task.maxSymbols == (valid - st.time - 1) * task.maxSymbols + task.maxSymbols;
  }

  /** Runs a lane to the end of its frames. */
  function Finish<S(!new), P(!new)>(task: Task<S, P>, lane: nat, valid: nat, st: LaneState<S>): LaneState<S>
    requires PicksTokens(task) && InFrame(task, st) && task.maxSymbols >= 1
    decreases Measure(task, valid, st)
  {
    if st.time >= valid then st else
    StepShrinks(task, lane, valid, st);
    Finish(task, lane, valid, LaneStep(task, lane, st))
  }

  /** The number of joint evaluations that run takes. */
  function Rounds<S(!new), P(!new)>(task: Task<S, P>, lane: nat, valid: nat, st: LaneState<S>): (r: nat)
    requires PicksTokens(task) && InFrame(task, st) && task.maxSymbols >= 1
    ensures r <= Measure(task, valid, st)
    ensures r == 0 <==> st.time >= valid
    decreases Measure(task, valid, st)
  {
    if st.time >= valid then 0 else
    StepShrinks(task, lane, valid, st);
    1 + Rounds(task, lane, valid, LaneStep(task, lane, st))
  }

  /** The greedy transcript of one lane. */
  function Greedy<S(!new), P(!new)>(task: Task<S, P>, lane: nat, valid: nat): LaneDecode
    requires PicksTokens(task) && task.maxSymbols >= 1
  {
    Finish(task, lane, valid, InitialState(task)).done
  }

  // ----- the run, step by step -----

  function Advance<S(!new), P(!new)>(task: Task<S, P>, lane: nat, valid: nat, st: LaneState<S>): LaneState<S>
    requires PicksTokens(task)
  {
    if st.time >= valid then st else LaneStep(task, lane, st)
  }

  /** A lane after n more joint evaluations, standing still once its frames are used up. */
  function After<S(!new), P(!new)>(task: Task<S, P>, lane: nat, valid: nat, st: LaneState<S>, n: nat): LaneState<S>
    requires PicksTokens(task)
  {
    if n == 0 then st else Advance(task, lane, valid, After(task, lane, valid, st, n - 1))
  }

  /** However far a lane has run, finishing it ends in the same state, after the evaluations it has left. */
  lemma {:induction false} AfterFinishes<S(!new), P(!new)>(task: Task<S, P>, lane: nat, valid: nat, st: LaneState<S>,
      n: nat)
    requires PicksTokens(task) && InFrame(task, st) && task.maxSymbols >= 1
    ensures var u := After(task, lane, valid, st, n);
      && InFrame(task, u)
      && Finish(task, lane, valid, u) == Finish(task, lane, valid, st)
      && Rounds(task, lane, valid, u) == if n <= Rounds(task, lane, valid, st) then Rounds(task, lane, valid, st) - n
        else 0
  {
    if n > 0 {
      AfterFinishes(task, lane, valid, st, n - 1);
      var u := After(task, lane, valid, st, n - 1);
      if u.time < valid { StepShrinks(task, lane, valid, u); }
    }
  }

  lemma {:induction false} AfterAdds<S(!new), P(!new)>(task: Task<S, P>, lane: nat, valid: nat, st: LaneState<S>,
      m: nat, n: nat)
    requires PicksTokens(task)
    ensures After(task, lane, valid, After(task, lane, valid, st, m), n) == After(task, lane, valid, st, m + n)
  {
    if n > 0 { AfterAdds(task, lane, valid, st, m, n - 1); }
  }

  /** Emission frames never decrease, stay below the lane's frame count, and no frame has more than the cap. */
  predicate WithinCap(emissions: seq<TokenEmission>, valid: nat, cap: nat) {
    && (forall i :: 0 <= i < |emissions| ==> emissions[i].frame < valid)
    && (forall i, j :: 0 <= i < j < |emissions| ==> emissions[i].frame <= emissions[j].frame)
    && (forall i :: cap <= i < |emissions| ==> emissions[i - cap].frame < emissions[i].frame)
  }

  predicate Tidy<S, P>(task: Task<S, P>, valid: nat, st: LaneState<S>) {
    TidyAt(st.done.emissions, valid, task.maxSymbols, st.time, st.symbols) && InFrame(task, st)
  }

  /** The last `symbols` tokens are at the lane's time, the rest before it. */
  predicate TidyAt(e: seq<TokenEmission>, valid: nat, cap: nat, time: nat, symbols: nat) {
    && WithinCap(e, valid, cap) && symbols <= |e|
    && (forall i :: 0 <= i < |e| ==> e[i].frame <= time)
    && (forall i :: 0 <= i < |e| - symbols ==> e[i].frame < time)
    && (forall i :: |e| - symbols <= i < |e| ==> e[i].frame == time)
  }

  lemma TidyStep<S(!new), P(!new)>(task: Task<S, P>, lane: nat, valid: nat, st: LaneState<S>)
    requires PicksTokens(task) && task.maxSymbols >= 1 && Tidy(task, valid, st) && st.time < valid
    ensures Tidy(task, valid, LaneStep(task, lane, st))
  {
    var e, next := st.done.emissions, LaneStep(task, lane, st);
    if Picked(task, lane, st) == task.Blank() {
      NextFrame(e, valid, task.maxSymbols, st.time, st.symbols);
    } else {
      TidyToken(e, valid, task.maxSymbols, st.time, st.symbols, Picked(task, lane, st));
      assert next.done.emissions == e + [TokenEmission(Picked(task, lane, st), st.time)];
    }
  }

  lemma TidyToken(e: seq<TokenEmission>, valid: nat, cap: nat, time: nat, symbols: nat, token: nat)
    requires TidyAt(e, valid, cap, time, symbols) && symbols < cap && time < valid
    ensures var more := e + [TokenEmission(token, time)];
      TidyAt(more, valid, cap, time, symbols + 1) && TidyAt(more, valid, cap, time + 1, 0)
  {
    OneMoreEmission(e, valid, cap, time, symbols, token);
    NextFrame(e + [TokenEmission(token, time)], valid, cap, time, symbols + 1);
  }

  lemma NextFrame(e: seq<TokenEmission>, valid: nat, cap: nat, time: nat, symbols: nat)
    requires TidyAt(e, valid, cap, time, symbols)
    ensures TidyAt(e, valid, cap, time + 1, 0)
  {
  }

  lemma OneMoreEmission(e: seq<TokenEmission>, valid: nat, cap: nat, time: nat, symbols: nat, token: nat)
    requires TidyAt(e, valid, cap, time, symbols) && symbols < cap && time < valid
    ensures TidyAt(e + [TokenEmission(token, time)], valid, cap, time, symbols + 1)
  {
  }

  lemma {:induction false} FinishTidy<S(!new), P(!new)>(task: Task<S, P>, lane: nat, valid: nat, st: LaneState<S>)
    requires PicksTokens(task) && task.maxSymbols >= 1 && Tidy(task, valid, st)
    ensures Tidy(task, valid, Finish(task, lane, valid, st))
    decreases Measure(task, valid, st)
  {
    if st.time < valid {
      StepShrinks(task, lane, valid, st);
      TidyStep(task, lane, valid, st);
      FinishTidy(task, lane, valid, LaneStep(task, lane, st));
    }
  }

  /** At most maxSymbols tokens per frame, in frame order. */
  lemma GreedyWithinCap<S(!new), P(!new)>(task: Task<S, P>, lane: nat, valid: nat)
    requires PicksTokens(task) && task.maxSymbols >= 1
    ensures WithinCap(Greedy(task, lane, valid).emissions, valid, task.maxSymbols)
  {
    FinishTidy(task, lane, valid, InitialState(task));
  }

  // ----- what a transcript says, in terms of the networks alone -----

  /** The vocabulary entries of the emitted tokens, one after the other. */
  function Spelled(vocabulary: seq<string>, emissions: seq<TokenEmission>): string {
    if emissions == [] then ""
    else
      var id := emissions[0].tokenId;
      (if id < |vocabulary| then vocabulary[id] else "") + Spelled(vocabulary, emissions[1..])
  }

  lemma {:induction false} SpelledConcat(vocabulary: seq<string>, a: seq<TokenEmission>, b: seq<TokenEmission>)
    ensures Spelled(vocabulary, a + b) == Spelled(vocabulary, a) + Spelled(vocabulary, b)
  {
    if a == [] {
      assert a + b == b;
    } else {
      SpelledConcat(vocabulary, a[1..], b);
      assert (a + b)[1..] == a[1..] + b && (a + b)[0] == a[0];
      var id := a[0].tokenId;
      Regroup(if id < |vocabulary| then vocabulary[id] else "", Spelled(vocabulary, a[1..]), Spelled(vocabulary, b));
    }
  }

  predicate TextMatches<S, P>(task: Task<S, P>, done: LaneDecode) {
    done.text == Spelled(task.vocabulary, done.emissions)
  }

  /** The previous token and the predictor state that a list of emitted tokens leads to. */
  function PrevOf(emissions: seq<TokenEmission>): Option<nat> {
    if emissions == [] then None else Some(emissions[|emissions| - 1].tokenId)
  }

  function StateOf<S, P>(task: Task<S, P>, emissions: seq<TokenEmission>): S {
    if emissions == [] then task.net.initial
    else
      var init := emissions[..|emissions| - 1];
      task.net.predict(PrevOf(init), StateOf(task, init)).1
  }

  /** What the joint picks at frame t after these tokens. */
  function PickAfter<S, P>(task: Task<S, P>, lane: nat, emissions: seq<TokenEmission>, t: nat): nat {
    task.net.joint(lane, t, task.net.predict(PrevOf(emissions), StateOf(task, emissions)).0)
  }

  /** Every token is what the joint picks at its frame after the tokens before it, and is not the blank. */
  ghost predicate TokensPicked<S, P>(task: Task<S, P>, lane: nat, e: seq<TokenEmission>) {
    forall k :: 0 <= k < |e| ==>
      e[k].tokenId == PickAfter(task, lane, e[..k], e[k].frame) && e[k].tokenId < task.Blank()
  }

  /** Frame t ends after k tokens: with a blank, or at the cap. */
  ghost predicate FrameEnds<S, P>(task: Task<S, P>, lane: nat, e: seq<TokenEmission>, t: nat, k: nat) {
    && k <= |e| && (forall i :: 0 <= i < k ==> e[i].frame <= t) && (forall i :: k <= i < |e| ==> e[i].frame > t)
    && (PickAfter(task, lane, e[..k], t) == task.Blank()
        || (k >= task.maxSymbols >= 1 && e[k - task.maxSymbols].frame == t))
  }

  ghost predicate AllFramesEnd<S, P>(task: Task<S, P>, lane: nat, e: seq<TokenEmission>, ends: seq<nat>) {
    forall t :: 0 <= t < |ends| ==> FrameEnds(task, lane, e, t, ends[t])
  }

  /** A lane state that says no more than its emissions do; `ends` counts the tokens up to the end of each past
      frame. */
  ghost predicate Explained<S, P>(task: Task<S, P>, lane: nat, valid: nat, st: LaneState<S>, ends: seq<nat>) {
    var e := st.done.emissions;
    && Tidy(task, valid, st) && TextMatches(task, st.done)
    && st.prev == PrevOf(e) && st.committed == StateOf(task, e) && TokensPicked(task, lane, e)
    && |ends| == st.time && AllFramesEnd(task, lane, e, ends)
  }

  lemma AppendSpells<S, P>(task: Task<S, P>, done: LaneDecode, token: nat, frame: nat)
    requires token < task.Blank() && TextMatches(task, done)
    ensures TextMatches(task, Append(task.vocabulary, done, token, frame))
  {
    var last := [TokenEmission(token, frame)];
    SpelledConcat(task.vocabulary, done.emissions, last);
    assert last[1..] == [] && Spelled(task.vocabulary, last) == task.vocabulary[token];
  }

  lemma OneMorePicked<S, P>(task: Task<S, P>, lane: nat, e: seq<TokenEmission>, ends: seq<nat>, t: nat, token: nat)
    requires TokensPicked(task, lane, e) && AllFramesEnd(task, lane, e, ends) && |ends| <= t
    requires token == PickAfter(task, lane, e, t) && token < task.Blank()
    ensures TokensPicked(task, lane, e + [TokenEmission(token, t)])
    ensures AllFramesEnd(task, lane, e + [TokenEmission(token, t)], ends)
    ensures StateOf(task, e + [TokenEmission(token, t)]) == task.net.predict(PrevOf(e), StateOf(task, e)).1
  {
    var more := e + [TokenEmission(token, t)];
    assert more[..|e|] == e;
    forall k | 0 <= k < |more|
      ensures more[k].tokenId == PickAfter(task, lane, more[..k], more[k].frame) && more[k].tokenId < task.Blank()
    {
      if k < |e| { assert more[..k] == e[..k]; }
    }
    forall u | 0 <= u < |ends| ensures FrameEnds(task, lane, more, u, ends[u]) {
      assert FrameEnds(task, lane, e, u, ends[u]) && more[..ends[u]] == e[..ends[u]];
    }
  }

  lemma EndFrame<S, P>(task: Task<S, P>, lane: nat, e: seq<TokenEmission>, ends: seq<nat>, t: nat)
    requires AllFramesEnd(task, lane, e, ends) && |ends| == t && FrameEnds(task, lane, e, t, |e|)
    ensures AllFramesEnd(task, lane, e, ends + [|e|])
  {
  }

  lemma ExplainedBlank<S(!new), P(!new)>(task: Task<S, P>, lane: nat, valid: nat, st: LaneState<S>, ends: seq<nat>)
    requires PicksTokens(task) && task.maxSymbols >= 1 && Explained(task, lane, valid, st, ends) && st.time < valid
    requires Picked(task, lane, st) == task.Blank()
    ensures Explained(task, lane, valid, LaneStep(task, lane, st), ends + [|st.done.emissions|])
  {
    var e := st.done.emissions;
    TidyStep(task, lane, valid, st);
    assert e[..|e|] == e;
    EndFrame(task, lane, e, ends, st.time);
  }

  lemma TokenKeeps<S(!new), P(!new)>(task: Task<S, P>, lane: nat, valid: nat, st: LaneState<S>, ends: seq<nat>)
    requires PicksTokens(task) && task.maxSymbols >= 1 && Explained(task, lane, valid, st, ends) && st.time < valid
    requires Picked(task, lane, st) != task.Blank()
    ensures var v := LaneStep(task, lane, st); var e := v.done.emissions;
      && e == st.done.emissions + [TokenEmission(Picked(task, lane, st), st.time)]
      && TextMatches(task, v.done) && v.prev == PrevOf(e) && v.committed == StateOf(task, e)
      && TokensPicked(task, lane, e) && AllFramesEnd(task, lane, e, ends)
  {
    var e, t, k := st.done.emissions, st.time, Picked(task, lane, st);
    OneMorePicked(task, lane, e, ends, t, k);
    AppendSpells(task, st.done, k, t);
  }

  lemma ExplainedToken<S(!new), P(!new)>(task: Task<S, P>, lane: nat, valid: nat, st: LaneState<S>, ends: seq<nat>)
    returns (next: seq<nat>)
    requires PicksTokens(task) && task.maxSymbols >= 1 && Explained(task, lane, valid, st, ends) && st.time < valid
    requires Picked(task, lane, st) != task.Blank()
    ensures Explained(task, lane, valid, LaneStep(task, lane, st), next)
  {
    var e, t, k := st.done.emissions, st.time, Picked(task, lane, st);
    TidyStep(task, lane, valid, st);
    TokenKeeps(task, lane, valid, st, ends);
    next := ends;
    if st.symbols + 1 >= task.maxSymbols {
      CapReached(task, lane, valid, e, st.symbols, t, k, ends);
      next := ends + [|e| + 1];
    }
  }

  lemma ExplainedStep<S(!new), P(!new)>(task: Task<S, P>, lane: nat, valid: nat, st: LaneState<S>, ends: seq<nat>)
    returns (next: seq<nat>)
    requires PicksTokens(task) && task.maxSymbols >= 1 && Explained(task, lane, valid, st, ends) && st.time < valid
    ensures Explained(task, lane, valid, LaneStep(task, lane, st), next)
  {
    if Picked(task, lane, st) == task.Blank() {
      ExplainedBlank(task, lane, valid, st, ends);
      next := ends + [|st.done.emissions|];
    } else {
      next := ExplainedToken(task, lane, valid, st, ends);
    }
  }

  lemma CapReached<S, P>(task: Task<S, P>, lane: nat, valid: nat, e: seq<TokenEmission>, symbols: nat, t: nat,
    token: nat, ends: seq<nat>)
    requires TidyAt(e, valid, task.maxSymbols, t, symbols) && symbols + 1 == task.maxSymbols && |ends| == t
    requires AllFramesEnd(task, lane, e + [TokenEmission(token, t)], ends)
    ensures AllFramesEnd(task, lane, e + [TokenEmission(token, t)], ends + [|e| + 1])
  {
    var more := e + [TokenEmission(token, t)];
    assert more[|more| - task.maxSymbols].frame == t;
    EndFrame(task, lane, more, ends, t);
  }

  lemma {:induction false} FinishExplained<S(!new), P(!new)>(task: Task<S, P>, lane: nat, valid: nat, st: LaneState<S>,
    ends: seq<nat>) returns (all: seq<nat>)
    requires PicksTokens(task) && task.maxSymbols >= 1 && Explained(task, lane, valid, st, ends)
    ensures Explained(task, lane, valid, Finish(task, lane, valid, st), all)
    decreases Measure(task, valid, st)
  {
    if st.time < valid {
      StepShrinks(task, lane, valid, st);
      var next := ExplainedStep(task, lane, valid, st, ends);
      all := FinishExplained(task, lane, valid, LaneStep(task, lane, st), next);
    } else {
      all := ends;
    }
  }

  /** Emissions that greedy decoding with this cap makes of these networks: tokens in frame order, each what the joint
      picks at its frame after the tokens before it, and each frame ended by a blank or by the cap. */
  ghost predicate IsGreedy<S, P>(task: Task<S, P>, lane: nat, valid: nat, e: seq<TokenEmission>, ends: seq<nat>) {
    && WithinCap(e, valid, task.maxSymbols) && TokensPicked(task, lane, e)
    && |ends| == valid && AllFramesEnd(task, lane, e, ends)
  }

  lemma {:induction false} FinishTime<S(!new), P(!new)>(task: Task<S, P>, lane: nat, valid: nat, st: LaneState<S>)
    requires PicksTokens(task) && InFrame(task, st) && task.maxSymbols >= 1 && st.time <= valid
    ensures Finish(task, lane, valid, st).time == valid
    decreases Measure(task, valid, st)
  {
    if st.time < valid {
      StepShrinks(task, lane, valid, st);
      FinishTime(task, lane, valid, LaneStep(task, lane, st));
    }
  }

  /** What every transcript says: its emissions are the greedy ones, and its text spells them in order. */
  lemma TranscriptMeaning<S(!new), P(!new)>(task: Task<S, P>, lane: nat, valid: nat) returns (ends: seq<nat>)
    requires PicksTokens(task) && task.maxSymbols >= 1
    ensures IsGreedy(task, lane, valid, Greedy(task, lane, valid).emissions, ends)
    ensures Greedy(task, lane, valid).text == Spelled(task.vocabulary, Greedy(task, lane, valid).emissions)
  {
    ends := FinishExplained(task, lane, valid, InitialState(task), []);
    FinishTime(task, lane, valid, InitialState(task));
  }

  /** After the same tokens, another greedy list has its next token no later. */
  lemma NextNotLater<S, P>(task: Task<S, P>, lane: nat, valid: nat, e: seq<TokenEmission>, ends: seq<nat>,
    f: seq<TokenEmission>, others: seq<nat>, k: nat)
    requires IsGreedy(task, lane, valid, e, ends) && IsGreedy(task, lane, valid, f, others)
    requires k < |e| && k <= |f| && e[..k] == f[..k]
    ensures k < |f| && f[k].frame <= e[k].frame
  {
    SameBelow(e, f, k);
    var t := e[k].frame;
    assert FrameEnds(task, lane, f, t, others[t]);
    assert e[k].tokenId == PickAfter(task, lane, e[..k], t) && e[k].tokenId < task.Blank();
    EndsLater(e, f, valid, task.maxSymbols, k, others[t]);
  }

  /** The frame of token k goes on, in a list with the same tokens before, past the first k, unless it meets a blank. */
  lemma EndsLater(e: seq<TokenEmission>, f: seq<TokenEmission>, valid: nat, cap: nat, k: nat, end: nat)
    requires WithinCap(e, valid, cap) && k < |e| && k <= |f| && end <= |f| && forall i :: 0 <= i < k ==> e[i] == f[i]
    requires forall i :: end <= i < |f| ==> f[i].frame > e[k].frame
    requires end == k ==> k >= cap >= 1 && f[k - cap].frame == e[k].frame
    ensures end > k
  {
    assert forall i :: 0 <= i < k ==> f[i].frame <= e[k].frame;
    assert end < |f| ==> f[end].frame > e[k].frame;
    assert k >= cap >= 1 ==> f[k - cap] == e[k - cap] && e[k - cap].frame < e[k].frame;
  }

  lemma SameBelow(e: seq<TokenEmission>, f: seq<TokenEmission>, k: nat)
    requires k <= |e| && k <= |f| && e[..k] == f[..k]
    ensures forall i :: 0 <= i < k ==> e[i] == f[i]
  {
    forall i | 0 <= i < k ensures e[i] == f[i] { assert e[..k][i] == f[..k][i]; }
  }

  lemma SameNext<S, P>(task: Task<S, P>, lane: nat, valid: nat, e: seq<TokenEmission>, ends: seq<nat>,
    f: seq<TokenEmission>, others: seq<nat>, k: nat)
    requires IsGreedy(task, lane, valid, e, ends) && IsGreedy(task, lane, valid, f, others)
    requires k < |e| && k <= |f| && e[..k] == f[..k]
    ensures k < |f| && e[k] == f[k]
  {
    NextNotLater(task, lane, valid, e, ends, f, others, k);
    NextNotLater(task, lane, valid, f, others, e, ends, k);
    assert e[k].tokenId == PickAfter(task, lane, e[..k], e[k].frame);
    assert f[k].tokenId == PickAfter(task, lane, f[..k], f[k].frame);
  }

  lemma {:induction false} SamePrefix<S, P>(task: Task<S, P>, lane: nat, valid: nat, e: seq<TokenEmission>,
    ends: seq<nat>, f: seq<TokenEmission>, others: seq<nat>, k: nat)
    requires IsGreedy(task, lane, valid, e, ends) && IsGreedy(task, lane, valid, f, others) && k <= |e|
    ensures k <= |f| && e[..k] == f[..k]
  {
    if k > 0 {
      SamePrefix(task, lane, valid, e, ends, f, others, k - 1);
      SameNext(task, lane, valid, e, ends, f, others, k - 1);
      OneMoreSame(e, f, k - 1);
    }
  }

  lemma OneMoreSame(e: seq<TokenEmission>, f: seq<TokenEmission>, k: nat)
    requires k < |e| && k < |f| && e[..k] == f[..k] && e[k] == f[k]
    ensures e[..k + 1] == f[..k + 1]
  {
    assert e[..k + 1] == e[..k] + [e[k]] && f[..k + 1] == f[..k] + [f[k]];
  }

  /** There is only one such list of emissions. */
  lemma GreedyUnique<S, P>(task: Task<S, P>, lane: nat, valid: nat, e: seq<TokenEmission>, ends: seq<nat>,
    f: seq<TokenEmission>, others: seq<nat>)
    requires IsGreedy(task, lane, valid, e, ends) && IsGreedy(task, lane, valid, f, others)
    ensures e == f
  {
    SamePrefix(task, lane, valid, e, ends, f, others, |e|);
    SamePrefix(task, lane, valid, f, others, e, ends, |f|);
    assert e[..|e|] == e && f[..|f|] == f;
  }

  /** A transcript only grows: text and emissions after n evaluations begin those after more. */
  lemma {:induction false} TranscriptGrows<S(!new), P(!new)>(task: Task<S, P>, lane: nat, valid: nat, st: LaneState<S>,
    n: nat, m: nat)
    requires PicksTokens(task) && n <= m
    ensures After(task, lane, valid, st, n).done.text <= After(task, lane, valid, st, m).done.text
    ensures After(task, lane, valid, st, n).done.emissions <= After(task, lane, valid, st, m).done.emissions
    decreases m
  {
    if n < m { TranscriptGrows(task, lane, valid, st, n, m - 1); }
  }

  // ----- a cap of zero -----

  /** With a cap of one, a transcript is empty exactly when no frame picks a token from the initial state. */
  lemma {:induction false} SilentFrames<S(!new), P(!new)>(task: Task<S, P>, lane: nat, valid: nat, t: nat)
    requires PicksTokens(task) && task.maxSymbols >= 1 && t <= valid
    ensures var st := InitialState(task).(time := t);
      Finish(task, lane, valid, st).done.emissions == [] <==>
        forall u :: t <= u < valid ==> Picked(task, lane, InitialState(task).(time := u)) == task.Blank()
    decreases valid - t
  {
    if t < valid {
      var st := InitialState(task).(time := t);
      StepShrinks(task, lane, valid, st);
      if Picked(task, lane, st) == task.Blank() {
        SilentFrames(task, lane, valid, t + 1);
      } else {
        Grows(task, lane, valid, LaneStep(task, lane, st));
      }
    }
  }

  lemma {:induction false} Grows<S(!new), P(!new)>(task: Task<S, P>, lane: nat, valid: nat, st: LaneState<S>)
    requires PicksTokens(task) && InFrame(task, st) && task.maxSymbols >= 1
    ensures |st.done.emissions| <= |Finish(task, lane, valid, st).done.emissions|
    decreases Measure(task, valid, st)
  {
    if st.time < valid {
      StepShrinks(task, lane, valid, st);
      Grows(task, lane, valid, LaneStep(task, lane, st));
    }
  }
}
