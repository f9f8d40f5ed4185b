/** How many joint evaluations lanes take, frame by frame, alone and in lockstep. */
module LaneCosts {
  import opened GreedyTransducer

  /** Evaluations that a lane in this state still makes in frame t. */
  function EvalsIn<S(!new), P(!new)>(task: Task<S, P>, lane: nat, t: nat, st: LaneState<S>): (r: nat)
    requires PicksTokens(task) && InFrame(task, st) && task.maxSymbols >= 1
    decreases if st.time == t then task.maxSymbols - st.symbols else 0
  {
    if st.time != t then 0 else 1 + EvalsIn(task, lane, t, LaneStep(task, lane, st))
  }

  /** The state in which it leaves that frame. */
  function Through<S(!new), P(!new)>(task: Task<S, P>, lane: nat, t: nat, st: LaneState<S>): (r: LaneState<S>)
    requires PicksTokens(task) && InFrame(task, st) && task.maxSymbols >= 1
    ensures InFrame(task, r)
    ensures st.time == t ==> r.time == t + 1 && r.symbols == 0
    decreases if st.time == t then task.maxSymbols - st.symbols else 0
  {
    if st.time != t then st else Through(task, lane, t, LaneStep(task, lane, st))
  }

  /** The state in which a lane begins frame t. */
  function AtStart<S(!new), P(!new)>(task: Task<S, P>, lane: nat, t: nat): (r: LaneState<S>)
    requires PicksTokens(task) && task.maxSymbols >= 1
    ensures r.time == t && r.symbols == 0
  {
    if t == 0 then InitialState(task) else Through(task, lane, t - 1, AtStart(task, lane, t - 1))
  }

  /** Evaluations of the lane in frame t. */
  function FrameEvals<S(!new), P(!new)>(task: Task<S, P>, lane: nat, t: nat): nat
    requires PicksTokens(task) && task.maxSymbols >= 1
  {
    EvalsIn(task, lane, t, AtStart(task, lane, t))
  }

  lemma {:induction false} RoundsInFrame<S(!new), P(!new)>(
    task: Task<S, P>, lane: nat, valid: nat, t: nat, st: LaneState<S>)
    requires PicksTokens(task) && InFrame(task, st) && task.maxSymbols >= 1 && t < valid && st.time == t
    ensures Rounds(task, lane, valid, st)
      == EvalsIn(task, lane, t, st) + Rounds(task, lane, valid, Through(task, lane, t, st))
    decreases task.maxSymbols - st.symbols
  {
    StepShrinks(task, lane, valid, st);
    var next := LaneStep(task, lane, st);
    if next.time == t { RoundsInFrame(task, lane, valid, t, next); }
  }

  // ----- costs of several lanes -----

  /** What each lane takes in each frame. */
  type Cost = (nat, nat) -> nat

  ghost function Evals<S(!new), P(!new)>(task: Task<S, P>): Cost {
    (lane: nat, t: nat) => if PicksTokens(task) && task.maxSymbols >= 1 then FrameEvals(task, lane, t) else 0
  }

  /** The most that any of the first b lanes takes in frame t, lanes without that frame not counted. */
  function Slowest(cost: Cost, valid: seq<nat>, t: nat, b: nat): (r: nat)
    requires b <= |valid|
    ensures forall i :: 0 <= i < b && t < valid[i] ==> cost(i, t) <= r
    ensures r > 0 ==> exists i :: 0 <= i < b && t < valid[i] && cost(i, t) == r
  {
    if b == 0 then 0 else
    var rest := Slowest(cost, valid, t, b - 1);
    if t < valid[b - 1] && cost(b - 1, t) > rest then cost(b - 1, t) else rest
  }

  /** In lockstep each frame takes as long as its slowest lane. */
  function LockstepTotal(cost: Cost, valid: seq<nat>, n: nat): nat {
    if n == 0 then 0 else LockstepTotal(cost, valid, n - 1) + Slowest(cost, valid, n - 1, |valid|)
  }

  function LaneTotal(cost: Cost, lane: nat, n: nat): nat {
    if n == 0 then 0 else LaneTotal(cost, lane, n - 1) + cost(lane, n - 1)
  }

  lemma {:induction false} LaneWithinLockstep(cost: Cost, valid: seq<nat>, i: nat, n: nat)
    requires i < |valid|
    ensures LaneTotal(cost, i, if n <= valid[i] then n else valid[i]) <= LockstepTotal(cost, valid, n)
  {
    if n > 0 { LaneWithinLockstep(cost, valid, i, n - 1); }
  }

  lemma {:induction false} AloneInLockstep(cost: Cost, valid: nat, n: nat)
    requires n <= valid
    ensures LockstepTotal(cost, [valid], n) == LaneTotal(cost, 0, n)
  {
    if n > 0 { AloneInLockstep(cost, valid, n - 1); }
  }

  lemma {:induction false} RoundsByFrames<S(!new), P(!new)>(task: Task<S, P>, lane: nat, valid: nat, n: nat)
    requires PicksTokens(task) && task.maxSymbols >= 1 && n <= valid
    ensures Rounds(task, lane, valid, InitialState(task))
      == LaneTotal(Evals(task), lane, n) + Rounds(task, lane, valid, AtStart(task, lane, n))
  {
    if n > 0 {
      RoundsByFrames(task, lane, valid, n - 1);
      RoundsInFrame(task, lane, valid, n - 1, AtStart(task, lane, n - 1));
    }
  }

  /** A lane alone takes what its frames take one by one; in lockstep no lane takes less; and a batch of one lane takes
      exactly what that lane takes alone. */
  lemma LockstepCost<S(!new), P(!new)>(task: Task<S, P>, valid: seq<nat>, i: nat, n: nat)
    requires PicksTokens(task) && task.maxSymbols >= 1 && i < |valid| && valid[i] <= n
    ensures Rounds(task, i, valid[i], InitialState(task)) == LaneTotal(Evals(task), i, valid[i])
    ensures Rounds(task, i, valid[i], InitialState(task)) <= LockstepTotal(Evals(task), valid, n)
    ensures |valid| == 1 && n == valid[0] ==>
      LockstepTotal(Evals(task), valid, n) == Rounds(task, i, valid[i], InitialState(task))
  {
    RoundsByFrames(task, i, valid[i], valid[i]);
    LaneWithinLockstep(Evals(task), valid, i, n);
    if |valid| == 1 && n == valid[0] {
      assert valid == [n];
      AloneInLockstep(Evals(task), n, n);
    }
  }
}
