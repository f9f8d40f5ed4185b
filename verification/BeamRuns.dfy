/** A run of the beam search told on labellings: what each frame may make of the hypotheses it is given,
    and what the masses of such a run mean. */
module BeamRuns {
  import opened Topology
  import opened CtcAlignments
  import opened BeamMasses
  import opened BeamPruning

  datatype NanBehavior = Skip | Error

  datatype BeamOpts = BeamOpts(beamSize: nat, beamSizeToken: Option<nat>, beamThreshold: Threshold,
      onNan: NanBehavior)

  type Hypotheses = seq<SearchPoint<seq<nat>>>

  /** What a frame did: the tokens it was searched with, and the merged hypotheses by falling mass. */
  datatype FrameRecord = FrameRecord(tokens: seq<nat>, ranked: Hypotheses)

  const START: Hypotheses := [SearchPoint([], 1.0, 0.0)]

  ghost predicate SameHypotheses(s: Hypotheses, t: Hypotheses) {
    KeysFrom(s, t) && KeysFrom(t, s) && forall y, endBlank :: Held(s, y, endBlank) == Held(t, y, endBlank)
  }

  /** The record is what one frame may make of hs: every hypothesis extended by every token, one entry for each
      labelling with all of its mass, in order of total mass. Only ties are left open. */
  ghost predicate IsFrameRecord(hs: Hypotheses, r: FrameRecord, frame: seq<real>, blank: nat, opts: BeamOpts) {
    && IsFrame(frame, blank) && IsTokenChoice(frame, opts.beamSizeToken, blank, r.tokens)
    && KeysDiffer(r.ranked) && Ranked(r.ranked) && NonNegativeAll(r.ranked)
    && SameHypotheses(r.ranked, Spread(hs, r.tokens, frame, blank))
  }

  /** What pruning leaves of a record. */
  function Survivors(r: FrameRecord, opts: BeamOpts): Hypotheses {
    Pruned(r.ranked, opts.beamThreshold, opts.beamSize)
  }

  /** The hypotheses after the recorded frames. */
  function Left(records: seq<FrameRecord>, opts: BeamOpts): Hypotheses {
    if records == [] then START else Survivors(records[|records| - 1], opts)
  }

  ghost predicate IsRun(records: seq<FrameRecord>, frames: seq<seq<real>>, blank: nat, opts: BeamOpts) {
    |records| <= |frames| && forall m :: 0 <= m < |records| ==> IsStep(records, m, frames, blank, opts)
  }

  ghost predicate IsStep(records: seq<FrameRecord>, m: int, frames: seq<seq<real>>, blank: nat, opts: BeamOpts)
    requires 0 <= m < |records| <= |frames|
  {
    IsFrameRecord(Left(records[..m], opts), records[m], frames[m], blank, opts)
  }

  /** No token and no hypothesis was cut. */
  predicate Uncut(records: seq<FrameRecord>, blank: nat, opts: BeamOpts) {
    forall m :: 0 <= m < |records| ==>
      records[m].tokens == AllTokens(blank + 1)
      && Survivors(records[m], opts) == records[m].ranked
  }

  lemma OneMoreFrame(records: seq<FrameRecord>, r: FrameRecord, frames: seq<seq<real>>, blank: nat, opts: BeamOpts)
    requires IsRun(records, frames, blank, opts) && |records| < |frames|
    requires IsFrameRecord(Left(records, opts), r, frames[|records|], blank, opts)
    ensures IsRun(records + [r], frames, blank, opts) && Left(records + [r], opts) == Survivors(r, opts)
  {
    var more := records + [r];
    forall m | 0 <= m < |more| ensures IsStep(more, m, frames, blank, opts) {
      assert more[..m] == records[..m];
      if m < |records| { assert IsStep(records, m, frames, blank, opts); } else { assert records[..m] == records; }
    }
  }

  lemma LastFrame(records: seq<FrameRecord>, frames: seq<seq<real>>, blank: nat, opts: BeamOpts)
    requires IsRun(records, frames, blank, opts) && records != []
    ensures var n := |records| - 1;
      IsRun(records[..n], frames, blank, opts)
        && IsFrameRecord(Left(records[..n], opts), records[n], frames[n], blank, opts)
  {
    var n := |records| - 1;
    assert IsStep(records, n, frames, blank, opts);
    forall m | 0 <= m < n ensures IsStep(records[..n], m, frames, blank, opts) {
      assert IsStep(records, m, frames, blank, opts);
      assert records[..n][..m] == records[..m];
    }
  }

  // ----- one frame -----

  ghost predicate WellFormed(hs: Hypotheses) {
    KeysDiffer(hs) && Ranked(hs) && NonNegativeAll(hs)
  }

  lemma SurvivorsWellFormed(r: FrameRecord, opts: BeamOpts)
    requires WellFormed(r.ranked)
    ensures WellFormed(Survivors(r, opts)) && |Survivors(r, opts)| <= |r.ranked|
      && |Survivors(r, opts)| <= opts.beamSize
  {
    PrunedIsPrefix(r.ranked, opts.beamThreshold, opts.beamSize);
  }

  lemma FrameWithin(hs: Hypotheses, r: FrameRecord, frames: seq<seq<real>>, blank: nat, opts: BeamOpts, n: nat)
    requires n < |frames| && IsFrameRecord(hs, r, frames[n], blank, opts)
    requires NonNegativeAll(hs) && Within(hs, frames, blank, n)
    ensures Within(Survivors(r, opts), frames, blank, n + 1)
  {
    var spread := Spread(hs, r.tokens, frames[n], blank);
    SpreadWithin(hs, r.tokens, frames, blank, n);
    forall y, endBlank | Labels(y, blank)
      ensures Held(Survivors(r, opts), y, endBlank) <= PathSum(frames, blank, n + 1, y, endBlank)
    {
      PrunedHolds(r.ranked, opts.beamThreshold, opts.beamSize, y, endBlank);
      assert Held(r.ranked, y, endBlank) == Held(spread, y, endBlank);
    }
  }

  lemma FrameExact(hs: Hypotheses, r: FrameRecord, frames: seq<seq<real>>, blank: nat, opts: BeamOpts, n: nat)
    requires n < |frames| && IsFrameRecord(hs, r, frames[n], blank, opts) && r.tokens == AllTokens(blank + 1)
    requires NonNegativeAll(hs) && Exact(hs, frames, blank, n)
    ensures Exact(r.ranked, frames, blank, n + 1)
  {
    var spread := Spread(hs, r.tokens, frames[n], blank);
    forall c: nat | c <= blank ensures c in r.tokens { assert r.tokens[c] == c; }
    SpreadExact(hs, r.tokens, frames, blank, n);
    forall y, endBlank | Labels(y, blank)
      ensures Held(r.ranked, y, endBlank) == PathSum(frames, blank, n + 1, y, endBlank)
    {
      assert Held(r.ranked, y, endBlank) == Held(spread, y, endBlank);
    }
  }

  // ----- how many hypotheses a frame can leave -----

  function Candidates(h: SearchPoint<seq<nat>>, blank: nat): seq<seq<nat>> {
    [h.key] + seq(blank, c => h.key + [c])
  }

  function AllCandidates(hs: Hypotheses, blank: nat): (r: seq<seq<nat>>)
    ensures |r| == |hs| * (blank + 1)
  {
    if hs == [] then [] else
    assert (|hs| - 1) * (blank + 1) + (blank + 1) == |hs| * (blank + 1);
    AllCandidates(hs[..|hs| - 1], blank) + Candidates(hs[|hs| - 1], blank)
  }

  lemma CandidateMembers(h: SearchPoint<seq<nat>>, blank: nat, c: nat)
    requires c <= blank
    ensures h.key in Candidates(h, blank) && (c < blank ==> h.key + [c] in Candidates(h, blank))
  {
    var all := Candidates(h, blank);
    assert all[0] == h.key;
    if c < blank { assert all[c + 1] == h.key + [c]; }
  }

  lemma {:induction false} GrowAllCandidates(h: SearchPoint<seq<nat>>, tokens: seq<nat>, frame: seq<real>, blank: nat)
    requires |frame| == blank + 1 && forall i :: 0 <= i < |tokens| ==> tokens[i] <= blank
    ensures forall p :: p in GrowAll(h, tokens, frame, blank) ==> p.key in Candidates(h, blank)
    decreases |tokens|
  {
    if tokens != [] {
      GrowAllCandidates(h, tokens[..|tokens| - 1], frame, blank);
      CandidateMembers(h, blank, tokens[|tokens| - 1]);
    }
  }

  lemma {:induction false} SpreadCandidates(hs: Hypotheses, tokens: seq<nat>, frame: seq<real>, blank: nat)
    requires |frame| == blank + 1 && forall i :: 0 <= i < |tokens| ==> tokens[i] <= blank
    ensures forall p :: p in Spread(hs, tokens, frame, blank) ==> p.key in AllCandidates(hs, blank)
    decreases |hs|
  {
    if hs != [] {
      SpreadCandidates(hs[..|hs| - 1], tokens, frame, blank);
      GrowAllCandidates(hs[|hs| - 1], tokens, frame, blank);
    }
  }

  lemma {:induction false} Pigeonhole<K>(s: seq<SearchPoint<K>>, all: seq<K>)
    requires KeysDiffer(s) && forall i :: 0 <= i < |s| ==> s[i].key in all
    ensures |s| <= |all|
    decreases |s|
  {
    if s != [] {
      var fewer, x := s[..|s| - 1], s[|s| - 1].key;
      var k :| 0 <= k < |all| && all[k] == x;
      var rest := all[..k] + all[k + 1..];
      forall i | 0 <= i < |fewer| ensures fewer[i].key in rest {
        var j :| 0 <= j < |all| && all[j] == fewer[i].key;
        assert rest[if j < k then j else j - 1] == all[j];
      }
      Pigeonhole(fewer, rest);
    }
  }

  lemma RankedCount(hs: Hypotheses, r: FrameRecord, frame: seq<real>, blank: nat, opts: BeamOpts)
    requires IsFrameRecord(hs, r, frame, blank, opts)
    ensures |r.ranked| <= |hs| * (blank + 1)
  {
    var spread := Spread(hs, r.tokens, frame, blank);
    SpreadCandidates(hs, r.tokens, frame, blank);
    forall i | 0 <= i < |r.ranked| ensures r.ranked[i].key in AllCandidates(hs, blank) {
      assert HasKey(spread, r.ranked[i].key);
      var j :| 0 <= j < |spread| && spread[j].key == r.ranked[i].key;
      assert spread[j] in spread;
    }
    Pigeonhole(r.ranked, AllCandidates(hs, blank));
  }

  function Power(base: nat, n: nat): (r: nat)
    ensures base > 0 ==> r > 0
  {
    if n == 0 then 1 else base * Power(base, n - 1)
  }

  lemma {:induction false} PowerGrows(base: nat, m: nat, n: nat)
    requires base > 0 && m <= n
    ensures Power(base, m) <= Power(base, n)
    decreases n
  {
    if m < n {
      PowerGrows(base, m, n - 1);
      assert Power(base, n) - Power(base, n - 1) == (base - 1) * Power(base, n - 1) >= 0;
    }
  }

  // ----- whole runs -----

  lemma RunWellFormed(records: seq<FrameRecord>, frames: seq<seq<real>>, blank: nat, opts: BeamOpts)
    requires IsRun(records, frames, blank, opts)
    ensures WellFormed(Left(records, opts))
  {
    if records != [] {
      LastFrame(records, frames, blank, opts);
      SurvivorsWellFormed(records[|records| - 1], opts);
    }
  }

  /** There are never more hypotheses than alignments. */
  lemma {:induction false} RunCount(records: seq<FrameRecord>, frames: seq<seq<real>>, blank: nat, opts: BeamOpts)
    requires IsRun(records, frames, blank, opts)
    ensures |Left(records, opts)| <= Power(blank + 1, |records|)
    ensures records != [] ==> |records[|records| - 1].ranked| <= Power(blank + 1, |records|)
  {
    if records != [] {
      LastFrame(records, frames, blank, opts);
      var n := |records| - 1;
      RunCount(records[..n], frames, blank, opts);
      RankedCount(Left(records[..n], opts), records[n], frames[n], blank, opts);
      CountStep(|Left(records[..n], opts)|, Power(blank + 1, n), blank + 1);
      SurvivorsWellFormed(records[n], opts);
    }
  }

  lemma CountStep(a: nat, p: nat, b: nat)
    requires a <= p
    ensures a * b <= b * p
  {
    assert (p - a) * b >= 0;
  }

  /** In any run, whatever is cut, no mass exceeds its alignment sum. */
  lemma {:induction false} RunWithin(records: seq<FrameRecord>, frames: seq<seq<real>>, blank: nat, opts: BeamOpts)
    requires IsRun(records, frames, blank, opts)
    ensures Within(Left(records, opts), frames, blank, |records|)
  {
    if records == [] {
      StartsExact(frames, blank);
    } else {
      LastFrame(records, frames, blank, opts);
      var n := |records| - 1;
      RunWithin(records[..n], frames, blank, opts);
      RunWellFormed(records[..n], frames, blank, opts);
      FrameWithin(Left(records[..n], opts), records[n], frames, blank, opts, n);
    }
  }

  /** In a run that cut nothing every mass is its alignment sum. */
  lemma {:induction false} RunExact(records: seq<FrameRecord>, frames: seq<seq<real>>, blank: nat, opts: BeamOpts)
    requires IsRun(records, frames, blank, opts) && Uncut(records, blank, opts)
    ensures Exact(Left(records, opts), frames, blank, |records|)
  {
    if records == [] {
      StartsExact(frames, blank);
    } else {
      LastFrame(records, frames, blank, opts);
      var n := |records| - 1;
      assert Uncut(records[..n], blank, opts);
      RunExact(records[..n], frames, blank, opts);
      RunWellFormed(records[..n], frames, blank, opts);
      FrameExact(Left(records[..n], opts), records[n], frames, blank, opts, n);
    }
  }

  lemma StartsExact(frames: seq<seq<real>>, blank: nat)
    ensures Exact(START, frames, blank, 0)
  {
    forall y, endBlank | Labels(y, blank) ensures Held(START, y, endBlank) == PathSum(frames, blank, 0, y, endBlank) {
      PathSumStart(frames, blank, y);
      HeldOne(START[0], y, endBlank);
    }
  }

  /** Options that can cut nothing: all tokens, no threshold, and room for as many hypotheses as there are
      alignments. */
  predicate KeepsAll(opts: BeamOpts, blank: nat, n: nat) {
    && (opts.beamSizeToken.None? || opts.beamSizeToken.value >= blank + 1)
    && (opts.beamThreshold.Off? || opts.beamThreshold == Factor(0.0))
    && opts.beamSize >= Power(blank + 1, n)
  }

  lemma {:induction false} KeepsAllIsUncut(records: seq<FrameRecord>, frames: seq<seq<real>>, blank: nat,
      opts: BeamOpts, n: nat)
    requires IsRun(records, frames, blank, opts) && |records| <= n && KeepsAll(opts, blank, n)
    ensures Uncut(records, blank, opts)
  {
    if records != [] {
      var last := |records| - 1;
      LastFrame(records, frames, blank, opts);
      KeepsAllIsUncut(records[..last], frames, blank, opts, n);
      RunCount(records, frames, blank, opts);
      PowerGrows(blank + 1, |records|, n);
      PrunedIsPrefix(records[last].ranked, opts.beamThreshold, opts.beamSize);
      assert forall m :: 0 <= m < last ==> records[..last][m] == records[m];
    }
  }

  /** No threshold, or one of at least zero in the log domain. */
  predicate MildThreshold(opts: BeamOpts) {
    opts.beamThreshold.Off? || (opts.beamThreshold.Factor? && opts.beamThreshold.factor <= 1.0)
  }

  /** With room for one hypothesis such a threshold never empties the beam. */
  lemma {:induction false} RunKeepsOne(records: seq<FrameRecord>, frames: seq<seq<real>>, blank: nat, opts: BeamOpts)
    requires IsRun(records, frames, blank, opts) && MildThreshold(opts) && opts.beamSize > 0
    ensures Left(records, opts) != []
  {
    if records != [] {
      LastFrame(records, frames, blank, opts);
      var n := |records| - 1;
      var before := Left(records[..n], opts);
      RunKeepsOne(records[..n], frames, blank, opts);
      SpreadNonEmpty(before, records[n].tokens, frames[n], blank);
      var spread := Spread(before, records[n].tokens, frames[n], blank);
      assert HasKey(records[n].ranked, spread[0].key);
      BestSurvives(records[n].ranked, opts.beamThreshold, opts.beamSize);
    }
  }

  lemma RunSize(records: seq<FrameRecord>, frames: seq<seq<real>>, blank: nat, opts: BeamOpts)
    requires IsRun(records, frames, blank, opts) && opts.beamSize > 0
    ensures |Left(records, opts)| <= opts.beamSize
  {
    if records != [] {
      LastFrame(records, frames, blank, opts);
      SurvivorsWellFormed(records[|records| - 1], opts);
    }
  }

  // ----- the best labelling -----

  ghost predicate IsMostLikely(frames: seq<seq<real>>, blank: nat, n: nat, y: seq<nat>) {
    Labels(y, blank) && forall z :: Labels(z, blank) ==> Total(frames, blank, n, z) <= Total(frames, blank, n, y)
  }

  function Front(hs: Hypotheses): seq<nat> {
    if hs == [] then [] else hs[0].key
  }

  /** In a run that cut nothing the front hypothesis is a labelling of maximal total probability. */
  lemma FrontIsMostLikely(records: seq<FrameRecord>, frames: seq<seq<real>>, blank: nat, opts: BeamOpts)
    requires IsRun(records, frames, blank, opts) && Uncut(records, blank, opts)
    requires Labels(Front(Left(records, opts)), blank)
    ensures IsMostLikely(frames, blank, |records|, Front(Left(records, opts)))
  {
    var hs, n := Left(records, opts), |records|;
    RunExact(records, frames, blank, opts);
    RunWellFormed(records, frames, blank, opts);
    forall z | Labels(z, blank) ensures Total(frames, blank, n, z) <= Total(frames, blank, n, Front(hs)) {
      if hs == [] {
        NothingIsExact(frames, blank, n, z);
        NothingIsExact(frames, blank, n, []);
      } else {
        BestOfExact(hs, frames, blank, n, z);
      }
    }
  }

  lemma NothingIsExact(frames: seq<seq<real>>, blank: nat, n: nat, z: seq<nat>)
    requires Exact([], frames, blank, n) && Labels(z, blank)
    ensures Total(frames, blank, n, z) == 0.0
  {
    assert Held<seq<nat>>([], z, true) == PathSum(frames, blank, n, z, true);
    assert Held<seq<nat>>([], z, false) == PathSum(frames, blank, n, z, false);
  }

  lemma NoLabelsBelowZero(z: seq<nat>)
    requires z != []
    ensures !Labels(z, 0)
  {
    assert z[0] >= 0;
  }

  /** Without labels, or without frames, the empty labelling is the likeliest. */
  lemma EmptyIsMostLikely(frames: seq<seq<real>>, blank: nat, n: nat)
    requires blank == 0 || n == 0
    ensures IsMostLikely(frames, blank, n, [])
  {
    forall z | Labels(z, blank) ensures Total(frames, blank, n, z) <= Total(frames, blank, n, []) {
      if blank == 0 {
        if z != [] { NoLabelsBelowZero(z); }
      } else {
        PathSumStart(frames, blank, z);
        PathSumStart(frames, blank, []);
      }
    }
  }
}
