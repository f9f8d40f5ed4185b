/** Lanes as concurrent processes. Each lane runs its submissions first in, first out:
    it begins one when all its waits are met, runs the commands in order, and then
    publishes the signal. Nothing else orders the lanes. */
module LaneRuns {
  import opened Topology
  import opened Scheduler

  datatype Plan = Plan(es: seq<Expanded>, limits: MergeLimits, subs: seq<LaneSubmission>, bounds: seq<nat>)
  {
    ghost predicate Shaped() { Partition(bounds, |es|, |subs|) }

    ghost predicate Scheduled() { IsSchedule(es, limits, subs, bounds) }
  }

  /** Running(next): the submission has begun and `next` is its next command. */
  datatype Phase = Pending | Running(next: nat) | Finished

  datatype State<M> = State(memory: M, signals: map<DeviceQueue, nat>, phases: seq<Phase>, trace: seq<nat>)
  {
    function Signal(lane: DeviceQueue): nat { if lane in signals then signals[lane] else 0 }
  }

  /** What each command does to memory. */
  type Effect<!M> = (Expanded, M) -> M

  /** Commands without a hazard between them may run in either order. */
  ghost predicate RespectsHazards<M(!new)>(run: Effect<M>) {
    forall a, b, m :: !Hazard(a, b) ==> run(b, run(a, m)) == run(a, run(b, m))
  }

  datatype Action = Begin(sub: nat) | RunNext(sub: nat) | Publish(sub: nat)

  ghost predicate Enabled<M>(p: Plan, s: State<M>, a: Action)
    requires p.Shaped() && |s.phases| == |p.subs|
  {
    a.sub < |p.subs| && match a
    case Begin(j) =>
      && s.phases[j].Pending?
      && (forall i :: 0 <= i < j && p.subs[i].lane == p.subs[j].lane ==> s.phases[i].Finished?)
      && (forall lane :: lane in p.subs[j].waits ==> p.subs[j].waits[lane] <= s.Signal(lane))
    case RunNext(j) => s.phases[j].Running? && s.phases[j].next < p.bounds[j + 1] && p.bounds[j] <= s.phases[j].next
    case Publish(j) => s.phases[j].Running? && s.phases[j].next == p.bounds[j + 1]
  }

  ghost function Apply<M>(run: Effect<M>, p: Plan, s: State<M>, a: Action): State<M>
    requires p.Shaped() && |s.phases| == |p.subs| && Enabled(p, s, a)
  {
    match a
    case Begin(j) => s.(phases := s.phases[j := Running(p.bounds[j])])
    case RunNext(j) =>
      var c := s.phases[j].next;
      assert p.bounds[j + 1] <= p.bounds[|p.subs|];
      s.(memory := run(p.es[c], s.memory), phases := s.phases[j := Running(c + 1)], trace := s.trace + [c])
    case Publish(j) => s.(signals := s.signals[p.subs[j].lane := p.subs[j].signalValue], phases :=
      s.phases[j := Finished])
  }

  ghost function Start<M>(p: Plan, m: M): State<M> {
    State(m, map[], seq(|p.subs|, i => Pending), [])
  }

  /** `actions` is a possible interleaving from the start, ending in `s`. */
  ghost predicate Interleaving<M(!new)>(run: Effect<M>, p: Plan, m: M, actions: seq<Action>, s: State<M>)
    requires p.Shaped()
    decreases |actions|
  {
    if actions == [] then s == Start(p, m)
    else
      var n := |actions| - 1;
      exists before :: Interleaving(run, p, m, actions[..n], before) && |before.phases| == |p.subs|
        && Enabled(p, before, actions[n]) && s == Apply(run, p, before, actions[n])
  }

  ghost predicate Complete<M>(s: State<M>) { forall j :: 0 <= j < |s.phases| ==> s.phases[j].Finished? }

  // ----- replaying a trace -----

  ghost function RunTrace<M>(run: Effect<M>, es: seq<Expanded>, trace: seq<nat>, m: M): M
    requires forall i :: 0 <= i < |trace| ==> trace[i] < |es|
  {
    if trace == [] then m else run(es[trace[|trace| - 1]], RunTrace(run, es, trace[..|trace| - 1], m))
  }

  ghost function RunFirst<M>(run: Effect<M>, es: seq<Expanded>, n: nat, m: M): M
    requires n <= |es|
  {
    if n == 0 then m else run(es[n - 1], RunFirst(run, es, n - 1, m))
  }

  /** No command ran twice, and none ran before an earlier command it conflicts with. */
  ghost predicate Ordered(es: seq<Expanded>, trace: seq<nat>) {
    && (forall i :: 0 <= i < |trace| ==> trace[i] < |es|)
    && (forall i, j :: 0 <= i < j < |trace| ==> trace[i] != trace[j])
    && (forall a, q :: 0 <= q < |trace| && 0 <= a < trace[q] && Hazard(es[a], es[trace[q]]) ==> a in trace[..q])
  }

  lemma {:induction false} MoveLast<M(!new)>(run: Effect<M>, es: seq<Expanded>, pre: seq<nat>, c: nat, post: seq<nat>,
      m: M)
    requires RespectsHazards(run)
    requires forall i :: 0 <= i < |pre| ==> pre[i] < |es|
    requires c < |es| && forall i :: 0 <= i < |post| ==> post[i] < |es| && !Hazard(es[post[i]], es[c])
    ensures RunTrace(run, es, pre + [c] + post, m) == run(es[c], RunTrace(run, es, pre + post, m))
  {
    if post == [] {
      assert pre + [c] + post == pre + [c] && pre + post == pre;
      assert (pre + [c])[..|pre|] == pre;
    } else {
      var n := |post| - 1;
      MoveLast(run, es, pre, c, post[..n], m);
      TraceLast(run, es, pre + [c], post, m);
      TraceLast(run, es, pre, post, m);
      assert !Hazard(es[post[n]], es[c]);
    }
  }

  lemma TraceLast<M>(run: Effect<M>, es: seq<Expanded>, a: seq<nat>, b: seq<nat>, m: M)
    requires b != [] && (forall i :: 0 <= i < |a| ==> a[i] < |es|) && forall i :: 0 <= i < |b| ==> b[i] < |es|
    ensures RunTrace(run, es, a + b, m) == run(es[b[|b| - 1]], RunTrace(run, es, a + b[..|b| - 1], m))
  {
    assert (a + b)[..|a + b| - 1] == a + b[..|b| - 1];
  }

  /** Nothing after a maximal command conflicts with it. */
  lemma LastIsFree(es: seq<Expanded>, trace: seq<nat>, p: nat, q: nat)
    requires Ordered(es, trace) && p < q < |trace| && trace[q] <= trace[p]
    ensures !Hazard(es[trace[q]], es[trace[p]])
  {
    assert trace[q] !in trace[..p];
  }

  lemma PlaceOfLast(trace: seq<nat>, n: nat) returns (p: nat)
    requires n > 0 && forall c: nat :: c in trace <==> c < n
    ensures p < |trace| && trace[p] == n - 1 && forall i :: 0 <= i < |trace| ==> trace[i] <= trace[p]
  {
    assert n - 1 in trace;
    p :| 0 <= p < |trace| && trace[p] == n - 1;
    forall i | 0 <= i < |trace| ensures trace[i] <= trace[p] { assert trace[i] in trace; }
  }

  /** An ordered trace of the first n commands can give up command n - 1, which nothing after it needs. */
  lemma RemoveLast(es: seq<Expanded>, n: nat, trace: seq<nat>) returns (pre: seq<nat>, post: seq<nat>)
    requires 0 < n <= |es| && Ordered(es, trace) && forall c: nat :: c in trace <==> c < n
    ensures trace == pre + [n - 1] + post && Ordered(es, pre + post) && forall i :: 0 <= i < |pre| ==> pre[i] < |es|
    ensures forall i :: 0 <= i < |post| ==> post[i] < |es| && !Hazard(es[post[i]], es[n - 1])
    ensures forall c: nat :: c in pre + post <==> c < n - 1
  {
    var p := PlaceOfLast(trace, n);
    pre, post := trace[..p], trace[p + 1..];
    forall i | 0 <= i < |post| ensures post[i] < |es| && !Hazard(es[post[i]], es[n - 1]) {
      LastIsFree(es, trace, p, p + 1 + i);
    }
    RestOrdered(es, trace, p);
    forall x: nat ensures x in pre + post <==> x < n - 1 { RestElements(trace, p, x); }
  }

  lemma MoveLastIn<M(!new)>(run: Effect<M>, es: seq<Expanded>, trace: seq<nat>, pre: seq<nat>, c: nat, post: seq<nat>,
      m: M)
    requires RespectsHazards(run)
    requires c < |es| && trace == pre + [c] + post && forall i :: 0 <= i < |pre| ==> pre[i] < |es|
    requires forall i :: 0 <= i < |post| ==> post[i] < |es| && !Hazard(es[post[i]], es[c])
    ensures RunTrace(run, es, trace, m) == run(es[c], RunTrace(run, es, pre + post, m))
  {
    MoveLast(run, es, pre, c, post, m);
  }

  lemma NoCommands(trace: seq<nat>)
    requires forall c: nat :: c in trace <==> c < 0
    ensures trace == []
  {
    Elements(trace);
  }

  lemma Elements(trace: seq<nat>)
    ensures trace != [] ==> trace[0] in trace
  {
  }

  /** Every ordered trace of the first n commands has their sequential effect. */
  lemma {:induction false} Serializable<M(!new)>(run: Effect<M>, es: seq<Expanded>, n: nat, trace: seq<nat>, m: M)
    requires RespectsHazards(run)
    requires n <= |es| && Ordered(es, trace)
    requires forall c: nat :: c in trace <==> c < n
    ensures RunTrace(run, es, trace, m) == RunFirst(run, es, n, m)
    decreases n
  {
    if n == 0 {
      NoCommands(trace);
    } else {
      var pre, post := RemoveLast(es, n, trace);
      Serializable(run, es, n - 1, pre + post, m);
      MoveLastIn(run, es, trace, pre, n - 1, post, m);
    }
  }

  lemma RestElements(trace: seq<nat>, p: nat, x: nat)
    requires p < |trace| && forall i, j :: 0 <= i < j < |trace| ==> trace[i] != trace[j]
    ensures x in trace[..p] + trace[p + 1..] <==> x in trace && x != trace[p]
  {
    assert trace == trace[..p] + [trace[p]] + trace[p + 1..];
  }

  lemma RestOrdered(es: seq<Expanded>, trace: seq<nat>, p: nat)
    requires Ordered(es, trace) && p < |trace| && forall i :: 0 <= i < |trace| ==> trace[i] <= trace[p]
    ensures Ordered(es, trace[..p] + trace[p + 1..])
  {
    var rest := trace[..p] + trace[p + 1..];
    forall a, q | 0 <= q < |rest| && 0 <= a < rest[q] && Hazard(es[a], es[rest[q]])
      ensures a in rest[..q]
    {
      var q' := if q < p then q else q + 1;
      assert rest[q] == trace[q'];
      assert a in trace[..q'];
      var i :| 0 <= i < q' && trace[i] == a;
      assert i != p;
      assert rest[..q][if i < p then i else i - 1] == a;
    }
  }

  // ----- the invariant of every reachable state -----

  /** Command c, of submission j, has run. */
  predicate Ran<M>(p: Plan, s: State<M>, j: int, c: int) {
    && InBlock(p.bounds, j, c) && j < |s.phases|
    && (s.phases[j].Finished? || (s.phases[j].Running? && c < s.phases[j].next))
  }

  ghost predicate PhasesOk<M>(p: Plan, s: State<M>)
    requires p.Shaped()
  {
    && |s.phases| == |p.subs|
    && (forall j :: 0 <= j < |p.subs| && s.phases[j].Running? ==> p.bounds[j] <= s.phases[j].next <= p.bounds[j + 1])
    && (forall i, j :: 0 <= i < j < |p.subs| && p.subs[i].lane == p.subs[j].lane && !s.phases[j].Pending?
          ==> s.phases[i].Finished?)
  }

  /** A lane's signal has reached a submission's value exactly when that submission has finished. */
  ghost predicate SignalsOk<M>(p: Plan, s: State<M>)
    requires |s.phases| == |p.subs|
  {
    forall j :: 0 <= j < |p.subs| ==> (p.subs[j].signalValue <= s.Signal(p.subs[j].lane) <==> s.phases[j].Finished?)
  }

  ghost predicate WaitsOk<M>(p: Plan, s: State<M>)
    requires |s.phases| == |p.subs|
  {
    forall j, lane :: 0 <= j < |p.subs| && !s.phases[j].Pending? && lane in p.subs[j].waits
      ==> p.subs[j].waits[lane] <= s.Signal(lane)
  }

  ghost predicate TraceOk<M>(p: Plan, s: State<M>) {
    && Ordered(p.es, s.trace)
    && (forall c: nat :: c in s.trace <==> exists j :: Ran(p, s, j, c))
  }

  ghost predicate Inv<M>(run: Effect<M>, p: Plan, m: M, s: State<M>)
    requires p.Shaped()
  {
    && PhasesOk(p, s) && SignalsOk(p, s) && WaitsOk(p, s) && TraceOk(p, s)
    && s.memory == RunTrace(run, p.es, s.trace, m)
  }

  lemma BlockUnique(p: Plan, i: int, j: int, c: int)
    requires p.Shaped() && InBlock(p.bounds, i, c) && InBlock(p.bounds, j, c)
    ensures i == j
  {
  }

  /** What the waits buy: a command's turn comes only after everything it conflicts with. */
  lemma TurnComes<M>(p: Plan, s: State<M>, j: nat, a: nat)
    requires p.Scheduled() && PhasesOk(p, s) && SignalsOk(p, s) && WaitsOk(p, s)
    requires j < |p.subs| && s.phases[j].Running? && s.phases[j].next < p.bounds[j + 1]
    requires s.phases[j].next < |p.es| && a < s.phases[j].next && Hazard(p.es[a], p.es[s.phases[j].next])
    ensures exists i :: Ran(p, s, i, a)
  {
    var c := s.phases[j].next;
    var i := BlockOf(p.bounds, |p.es|, |p.subs|, a);
    if i == j {
      assert Ran(p, s, j, a);
    } else {
      SameBlock(p.es, p.subs, p.bounds, i, a);
      SameBlock(p.es, p.subs, p.bounds, j, c);
      if p.es[a].lane != p.es[c].lane {
        assert Dependency(p.es, p.bounds, i, a, j, c);
        assert PublishedWaits(p.es, p.subs, p.bounds, j, p.subs[j].waits);
      }
      assert s.phases[i].Finished?;
      assert Ran(p, s, i, a);
    }
  }

  lemma SameTrace<M>(p: Plan, s: State<M>, s': State<M>)
    requires TraceOk(p, s) && s'.trace == s.trace && forall j, c :: Ran(p, s', j, c) == Ran(p, s, j, c)
    ensures TraceOk(p, s')
  {
    forall c: nat ensures c in s'.trace <==> exists j :: Ran(p, s', j, c) {
      if j :| Ran(p, s', j, c) { assert Ran(p, s, j, c); }
      if c in s.trace { var j :| Ran(p, s, j, c); assert Ran(p, s', j, c); }
    }
  }

  lemma BeginStep<M>(run: Effect<M>, p: Plan, m: M, s: State<M>, j: nat)
    requires p.Shaped() && Inv(run, p, m, s) && Enabled(p, s, Begin(j))
    ensures Inv(run, p, m, Apply(run, p, s, Begin(j)))
  {
    BeginKeeps(run, p, s, j);
    SameTrace(p, s, Apply(run, p, s, Begin(j)));
  }

  lemma BeginKeeps<M>(run: Effect<M>, p: Plan, s: State<M>, j: nat)
    requires p.Shaped() && PhasesOk(p, s) && SignalsOk(p, s) && WaitsOk(p, s) && Enabled(p, s, Begin(j))
    ensures var s' := Apply(run, p, s, Begin(j)); PhasesOk(p, s') && SignalsOk(p, s') && WaitsOk(p, s')
  {
    var s' := Apply(run, p, s, Begin(j));
    SameSignals(p, s, s');
    forall i, lane | 0 <= i < |p.subs| && !s'.phases[i].Pending? && lane in p.subs[i].waits
      ensures p.subs[i].waits[lane] <= s'.Signal(lane)
    {
      assert s'.Signal(lane) == s.Signal(lane);
    }
  }

  lemma PublishSignals<M>(run: Effect<M>, p: Plan, s: State<M>, j: nat)
    requires p.Shaped() && Blocks(p.es, |p.es|, p.subs, p.bounds) && PhasesOk(p, s) && SignalsOk(p, s)
    requires Enabled(p, s, Publish(j))
    ensures var s' := Apply(run, p, s, Publish(j));
      && PhasesOk(p, s') && SignalsOk(p, s') && forall lane :: s.Signal(lane) <= s'.Signal(lane)
  {
    var s' := Apply(run, p, s, Publish(j));
    assert s.Signal(p.subs[j].lane) < p.subs[j].signalValue;
    forall i | 0 <= i < |p.subs|
      ensures p.subs[i].signalValue <= s'.Signal(p.subs[i].lane) <==> s'.phases[i].Finished?
    {
      PublishedAt(run, p, s, j, i);
    }
  }

  lemma PublishedAt<M>(run: Effect<M>, p: Plan, s: State<M>, j: nat, i: nat)
    requires p.Shaped() && Blocks(p.es, |p.es|, p.subs, p.bounds) && PhasesOk(p, s) && SignalsOk(p, s)
    requires Enabled(p, s, Publish(j)) && i < |p.subs|
    ensures var s' := Apply(run, p, s, Publish(j));
      p.subs[i].signalValue <= s'.Signal(p.subs[i].lane) <==> s'.phases[i].Finished?
  {
    if p.subs[i].lane == p.subs[j].lane { SignalOrder(p.es, p.subs, p.bounds, i, j); }
  }

  lemma PublishStep<M>(run: Effect<M>, p: Plan, m: M, s: State<M>, j: nat)
    requires p.Shaped() && Blocks(p.es, |p.es|, p.subs, p.bounds) && Inv(run, p, m, s) && Enabled(p, s, Publish(j))
    ensures Inv(run, p, m, Apply(run, p, s, Publish(j)))
  {
    PublishSignals(run, p, s, j);
    SameTrace(p, s, Apply(run, p, s, Publish(j)));
  }

  lemma ExtendOrdered(es: seq<Expanded>, trace: seq<nat>, c: nat)
    requires Ordered(es, trace) && c < |es| && c !in trace
    requires forall a :: 0 <= a < c && Hazard(es[a], es[c]) ==> a in trace
    ensures Ordered(es, trace + [c])
  {
    var t := trace + [c];
    forall a, r | 0 <= r < |t| && 0 <= a < t[r] && Hazard(es[a], es[t[r]]) ensures a in t[..r] {
      assert t[..r] == trace[..r];
    }
  }

  lemma ExecuteRan<M>(run: Effect<M>, p: Plan, s: State<M>, j: nat, i: int, x: int)
    requires p.Shaped() && PhasesOk(p, s) && Enabled(p, s, RunNext(j))
    ensures Ran(p, Apply(run, p, s, RunNext(j)), i, x) <==> Ran(p, s, i, x) || (i == j && x == s.phases[j].next)
  {
  }

  lemma ExecuteTrace<M>(run: Effect<M>, p: Plan, s: State<M>, j: nat)
    requires p.Shaped() && PhasesOk(p, s) && TraceOk(p, s) && Enabled(p, s, RunNext(j))
    requires s.phases[j].next < |p.es|
      && forall a: nat :: a < s.phases[j].next && Hazard(p.es[a], p.es[s.phases[j].next]) ==> exists i ::
        Ran(p, s, i, a)
    ensures TraceOk(p, Apply(run, p, s, RunNext(j)))
  {
    var s' := Apply(run, p, s, RunNext(j));
    var c := s.phases[j].next;
    assert !Ran(p, s, j, c) && InBlock(p.bounds, j, c);
    forall i ensures !Ran(p, s, i, c) { if Ran(p, s, i, c) { BlockUnique(p, i, j, c); } }
    ExtendOrdered(p.es, s.trace, c);
    forall x: nat ensures x in s'.trace <==> exists i :: Ran(p, s', i, x) {
      forall i ensures Ran(p, s', i, x) <==> Ran(p, s, i, x) || (i == j && x == c) { ExecuteRan(run, p, s, j, i, x); }
      assert x in s'.trace <==> x in s.trace || x == c;
    }
  }

  lemma ExecuteStep<M>(run: Effect<M>, p: Plan, m: M, s: State<M>, j: nat)
    requires p.Scheduled() && Inv(run, p, m, s) && Enabled(p, s, RunNext(j))
    ensures Inv(run, p, m, Apply(run, p, s, RunNext(j)))
  {
    var c := s.phases[j].next;
    assert p.bounds[j + 1] <= p.bounds[|p.subs|];
    forall a: nat | a < c && Hazard(p.es[a], p.es[c]) ensures exists i :: Ran(p, s, i, a) { TurnComes(p, s, j, a); }
    ExecuteFrame(run, p, m, s, j);
  }

  lemma ExecuteFrame<M>(run: Effect<M>, p: Plan, m: M, s: State<M>, j: nat)
    requires p.Shaped() && Inv(run, p, m, s) && Enabled(p, s, RunNext(j)) && s.phases[j].next < |p.es|
    requires forall a: nat :: a < s.phases[j].next && Hazard(p.es[a], p.es[s.phases[j].next]) ==> exists i ::
      Ran(p, s, i, a)
    ensures Inv(run, p, m, Apply(run, p, s, RunNext(j)))
  {
    RunNextKeeps(run, p, s, j);
    ExecuteTrace(run, p, s, j);
    assert Apply(run, p, s, RunNext(j)).trace[..|s.trace|] == s.trace;
  }

  lemma RunNextKeeps<M>(run: Effect<M>, p: Plan, s: State<M>, j: nat)
    requires p.Shaped() && PhasesOk(p, s) && SignalsOk(p, s) && WaitsOk(p, s) && Enabled(p, s, RunNext(j))
    ensures var s' := Apply(run, p, s, RunNext(j)); PhasesOk(p, s') && SignalsOk(p, s') && WaitsOk(p, s')
  {
    var s' := Apply(run, p, s, RunNext(j));
    RunNextPhases(run, p, s, j);
    SameSignals(p, s, s');
    SameWaits(p, s, s');
  }

  lemma RunNextPhases<M>(run: Effect<M>, p: Plan, s: State<M>, j: nat)
    requires p.Shaped() && PhasesOk(p, s) && Enabled(p, s, RunNext(j))
    ensures PhasesOk(p, Apply(run, p, s, RunNext(j)))
  {
    var s' := Apply(run, p, s, RunNext(j));
    forall i, k | 0 <= i < k < |p.subs| && p.subs[i].lane == p.subs[k].lane && !s'.phases[k].Pending?
      ensures s'.phases[i].Finished?
    {
      assert !s.phases[k].Pending? && s.phases[i].Finished?;
    }
  }

  lemma SameSignals<M>(p: Plan, s: State<M>, s': State<M>)
    requires |s.phases| == |s'.phases| == |p.subs| && SignalsOk(p, s) && s'.signals == s.signals
    requires forall i :: 0 <= i < |p.subs| ==> (s'.phases[i].Finished? <==> s.phases[i].Finished?)
    ensures SignalsOk(p, s')
  {
    forall j | 0 <= j < |p.subs|
      ensures p.subs[j].signalValue <= s'.Signal(p.subs[j].lane) <==> s'.phases[j].Finished?
    {
      assert s'.Signal(p.subs[j].lane) == s.Signal(p.subs[j].lane);
    }
  }

  lemma SameWaits<M>(p: Plan, s: State<M>, s': State<M>)
    requires |s.phases| == |s'.phases| == |p.subs| && WaitsOk(p, s) && s'.signals == s.signals
    requires forall i :: 0 <= i < |p.subs| ==> (s'.phases[i].Pending? <==> s.phases[i].Pending?)
    ensures WaitsOk(p, s')
  {
    forall j, lane | 0 <= j < |p.subs| && !s'.phases[j].Pending? && lane in p.subs[j].waits
      ensures p.subs[j].waits[lane] <= s'.Signal(lane)
    {
      assert s'.Signal(lane) == s.Signal(lane);
    }
  }

  /** Every reachable state of every interleaving satisfies the invariant. */
  lemma {:induction false} Reachable<M(!new)>(run: Effect<M>, p: Plan, m: M, actions: seq<Action>, s: State<M>)
    requires p.Scheduled() && Interleaving(run, p, m, actions, s)
    ensures Inv(run, p, m, s)
    decreases |actions|
  {
    if actions == [] {
      StartInv(run, p, m);
    } else {
      var n := |actions| - 1;
      var before :| Interleaving(run, p, m, actions[..n], before) && |before.phases| == |p.subs|
        && Enabled(p, before, actions[n]) && s == Apply(run, p, before, actions[n]);
      Reachable(run, p, m, actions[..n], before);
      match actions[n]
      case Begin(j) => BeginStep(run, p, m, before, j);
      case RunNext(j) => ExecuteStep(run, p, m, before, j);
      case Publish(j) => PublishStep(run, p, m, before, j);
    }
  }

  lemma StartInv<M>(run: Effect<M>, p: Plan, m: M)
    requires p.Shaped() && Blocks(p.es, |p.es|, p.subs, p.bounds)
    ensures Inv(run, p, m, Start(p, m))
  {
    forall j | 0 <= j < |p.subs| ensures p.subs[j].signalValue > 0 {
      assert IsBlock(p.es, p.subs[j], p.bounds[j], p.bounds[j + 1]);
    }
  }

  // ----- safety and progress -----

  /** When all lanes have finished, memory is what running the commands one by one gives. */
  lemma LanesMatchProgramOrder<M(!new)>(run: Effect<M>, p: Plan, m: M, actions: seq<Action>, s: State<M>)
    requires RespectsHazards(run)
    requires p.Scheduled() && Interleaving(run, p, m, actions, s) && Complete(s)
    ensures s.memory == RunFirst(run, p.es, |p.es|, m)
  {
    Reachable(run, p, m, actions, s);
    forall c: nat ensures c in s.trace <==> c < |p.es| {
      if c < |p.es| {
        var j := BlockOf(p.bounds, |p.es|, |p.subs|, c);
        assert Ran(p, s, j, c);
      }
    }
    Serializable(run, p.es, |p.es|, s.trace, m);
  }

  lemma FirstUnfinished<M>(s: State<M>) returns (j: nat)
    requires !Complete(s)
    ensures j < |s.phases| && !s.phases[j].Finished? && forall i :: 0 <= i < j ==> s.phases[i].Finished?
  {
    j := 0;
    while s.phases[j].Finished?
      invariant j < |s.phases| && forall i :: 0 <= i < j ==> s.phases[i].Finished?
      decreases |s.phases| - j
    {
      j := j + 1;
    }
  }

  /** Deadlock freedom: the earliest unfinished submission can always take a step. */
  lemma NoDeadlock<M(!new)>(run: Effect<M>, p: Plan, m: M, actions: seq<Action>, s: State<M>) returns (a: Action)
    requires p.Scheduled() && Interleaving(run, p, m, actions, s) && !Complete(s)
    ensures |s.phases| == |p.subs| && Enabled(p, s, a)
  {
    Reachable(run, p, m, actions, s);
    var j := FirstUnfinished(s);
    match s.phases[j]
    case Running(next) => a := if next < p.bounds[j + 1] then RunNext(j) else Publish(j);
    case Pending =>
      a := Begin(j);
      forall lane | lane in p.subs[j].waits ensures p.subs[j].waits[lane] <= s.Signal(lane) {
        WaitMet(p, s, j, lane);
      }
  }

  lemma WaitMet<M>(p: Plan, s: State<M>, j: nat, lane: DeviceQueue)
    requires p.Scheduled() && PhasesOk(p, s) && SignalsOk(p, s)
    requires j < |p.subs| && lane in p.subs[j].waits && forall i :: 0 <= i < j ==> s.phases[i].Finished?
    ensures p.subs[j].waits[lane] <= s.Signal(lane)
  {
    var i := EarlierProducer(p.es, p.limits, p.subs, p.bounds, j, lane);
    assert s.phases[i].Finished?;
  }
}
