/** The greedy CTC decoder: the best label of every frame, collapsed, whole or run by run. */
module GreedyDecoding {
  import opened CtcAlignments
  import opened BeamSearch

  /** A label with the index it was emitted at. */
  datatype Emission = Emission(tip: nat, at: nat)

  /** NaN ranks below every number. */
  predicate Beats(a: Score, b: Score) {
    a.Prob? && (b.Nan? || a.mass > b.mass)
  }

  predicate IsBest(frame: seq<Score>, best: nat) {
    && best < |frame|
    && (forall i :: 0 <= i < |frame| ==> !Beats(frame[i], frame[best]))
    && (forall i :: 0 <= i < best ==> Beats(frame[best], frame[i]))
  }

  /** The best label is the first of the largest mass; NaN stands behind every mass, and label 0 is best of all NaN. */
  lemma BestMeans(frame: seq<Score>, best: nat)
    requires best < |frame|
    ensures IsBest(frame, best) <==>
      if frame[best].Prob? then
        && (forall i :: 0 <= i < |frame| && frame[i].Prob? ==> frame[i].mass <= frame[best].mass)
        && (forall i :: 0 <= i < best && frame[i].Prob? ==> frame[i].mass < frame[best].mass)
      else best == 0 && forall i :: 0 <= i < |frame| ==> frame[i].Nan?
  {
    assert IsBest(frame, best) && best > 0 ==> Beats(frame[best], frame[0]);
  }

  /** The first label that no other beats. */
  method ArgmaxNanSafe(frame: seq<Score>) returns (best: nat)
    requires frame != []
    ensures IsBest(frame, best)
  {
    best := 0;
    for i := 1 to |frame|
      invariant best < i
      invariant forall j :: 0 <= j < i ==> !Beats(frame[j], frame[best])
      invariant forall j :: 0 <= j < best ==> Beats(frame[best], frame[j])
    {
      if Beats(frame[i], frame[best]) { best := i; }
    }
  }

  /** What the labels seen so far emit, after a stream whose last label was prev. */
  function Emitted(labels: seq<nat>, prev: nat, blank: nat): seq<Emission> {
    if labels == [] then [] else
    var n := |labels| - 1;
    var before := if n == 0 then prev else labels[n - 1];
    Emitted(labels[..n], prev, blank) + if labels[n] < blank && labels[n] != before then [Emission(labels[n], n)]
      else []
  }

  function Carried(labels: seq<nat>, prev: nat): nat {
    if labels == [] then prev else labels[|labels| - 1]
  }

  /** A frame emits its label exactly if that is no blank and differs from the label before. */
  lemma {:induction false} EmittedExactly(labels: seq<nat>, prev: nat, blank: nat, e: Emission)
    ensures e in Emitted(labels, prev, blank) <==>
      && e.at < |labels| && e.tip == labels[e.at] < blank
      && e.tip != if e.at == 0 then prev else labels[e.at - 1]
  {
    if labels != [] { EmittedExactly(labels[..|labels| - 1], prev, blank, e); }
  }

  /** Emits one run of labels and carries the last one over to the next run. */
  method CollapseRun(labels: seq<nat>, prev: nat, blank: nat) returns (out: seq<Emission>, carried: nat)
    ensures out == Emitted(labels, prev, blank) && carried == Carried(labels, prev)
  {
    out, carried := [], prev;
    for i := 0 to |labels|
      invariant out == Emitted(labels[..i], prev, blank) && carried == Carried(labels[..i], prev)
    {
      assert labels[..i + 1][..i] == labels[..i];
      if labels[i] < blank && labels[i] != carried { out := out + [Emission(labels[i], i)]; }
      carried := labels[i];
    }
    assert labels[..|labels|] == labels;
  }

  function Shifted(out: seq<Emission>, offset: nat): (r: seq<Emission>) {
    seq(|out|, i requires 0 <= i < |out| => Emission(out[i].tip, out[i].at + offset))
  }

  /** Decoding a stream run by run gives what decoding it whole gives. */
  lemma {:induction false} RunsConcatenate(first: seq<nat>, second: seq<nat>, prev: nat, blank: nat)
    ensures Emitted(first + second, prev, blank)
      == Emitted(first, prev, blank) + Shifted(Emitted(second, Carried(first, prev), blank), |first|)
    ensures Carried(first + second, prev) == Carried(second, Carried(first, prev))
    decreases |second|
  {
    if second == [] {
      assert first + second == first;
    } else {
      var fewer := second[..|second| - 1];
      RunsConcatenate(first, fewer, prev, blank);
      assert (first + second)[..|first| + |second| - 1] == first + fewer;
    }
  }

  function AlignmentOf(labels: seq<nat>): Path {
    if labels == [] then Start else Then(AlignmentOf(labels[..|labels| - 1]), labels[|labels| - 1])
  }

  function TipsOf(out: seq<Emission>): seq<nat> {
    seq(|out|, i requires 0 <= i < |out| => out[i].tip)
  }

  /** Starting from the blank, the emitted labels are the collapse of the alignment, at increasing indices. */
  lemma {:induction false} EmittedIsCollapse(labels: seq<nat>, blank: nat)
    ensures TipsOf(Emitted(labels, blank, blank)) == Collapse(AlignmentOf(labels), blank)
    ensures var out := Emitted(labels, blank, blank);
      (forall i :: 0 <= i < |out| ==> out[i].at < |labels|)
        && (forall i, j :: 0 <= i < j < |out| ==> out[i].at < out[j].at)
    decreases |labels|
  {
    if labels != [] { EmittedIsCollapse(labels[..|labels| - 1], blank); }
  }

  /** The best label of each of the first n frames. */
  ghost predicate AreBest(logProbs: seq<Score>, width: nat, labels: seq<nat>) {
    forall t :: 0 <= t < |labels| ==> BestAt(logProbs, width, t, labels[t])
  }

  predicate BestAt(logProbs: seq<Score>, width: nat, t: nat, tip: nat) {
    Holds(logProbs, width, t + 1) && IsBest(FrameAt(logProbs, width, t), tip)
  }

  method ArgmaxPerFrame(logProbs: seq<Score>, alphabet: nat, strideFrames: nat, validFrames: nat)
      returns (labels: seq<nat>)
    requires Holds(logProbs, alphabet + 1, FrameCount(strideFrames, validFrames))
    ensures |labels| == FrameCount(strideFrames, validFrames) && AreBest(logProbs, alphabet + 1, labels)
  {
    labels := [];
    for t := 0 to FrameCount(strideFrames, validFrames)
      invariant |labels| == t && AreBest(logProbs, alphabet + 1, labels)
    {
      FewerFrames(logProbs, alphabet + 1, FrameCount(strideFrames, validFrames), t + 1);
      var tip := ArgmaxNanSafe(FrameAt(logProbs, alphabet + 1, t));
      OneMoreBest(logProbs, alphabet + 1, labels, tip);
      labels := labels + [tip];
    }
  }

  lemma OneMoreBest(logProbs: seq<Score>, width: nat, labels: seq<nat>, tip: nat)
    requires AreBest(logProbs, width, labels) && BestAt(logProbs, width, |labels|, tip)
    ensures AreBest(logProbs, width, labels + [tip])
  {
    forall t | 0 <= t < |labels + [tip]| ensures BestAt(logProbs, width, t, (labels + [tip])[t]) {
      if t < |labels| { assert BestAt(logProbs, width, t, labels[t]); }
    }
  }

  lemma BestIsUnique(frame: seq<Score>, a: nat, b: nat)
    requires IsBest(frame, a) && IsBest(frame, b)
    ensures a == b
  {
    assert !Beats(frame[b], frame[a]) && !Beats(frame[a], frame[b]);
  }

  lemma BestAreUnique(logProbs: seq<Score>, width: nat, a: seq<nat>, b: seq<nat>)
    requires |a| == |b| && AreBest(logProbs, width, a) && AreBest(logProbs, width, b)
    ensures a == b
  {
    forall t | 0 <= t < |a| ensures a[t] == b[t] {
      assert BestAt(logProbs, width, t, a[t]) && BestAt(logProbs, width, t, b[t]);
      BestIsUnique(FrameAt(logProbs, width, t), a[t], b[t]);
    }
  }

  /** The emissions of the best labels, whatever list of best labels is meant. */
  method DecodeInner(logProbs: seq<Score>, alphabet: nat, strideFrames: nat, validFrames: nat)
      returns (out: seq<Emission>)
    requires Holds(logProbs, alphabet + 1, FrameCount(strideFrames, validFrames))
    ensures forall labels ::
      |labels| == FrameCount(strideFrames, validFrames) && AreBest(logProbs, alphabet + 1, labels) ==>
        out == Emitted(labels, alphabet, alphabet)
    ensures Labels(TipsOf(out), alphabet)
  {
    if alphabet == 0 || validFrames == 0 {
      forall labels | |labels| == FrameCount(strideFrames, validFrames) && AreBest(logProbs, alphabet + 1, labels)
        ensures Emitted(labels, alphabet, alphabet) == []
      {
        BlankOnly(labels, alphabet);
      }
      return [];
    }
    ghost var best;
    out, best := EmitBest(logProbs, alphabet, FrameCount(strideFrames, validFrames));
    EmittedLabels(best, alphabet, alphabet);
    forall labels | |labels| == |best| && AreBest(logProbs, alphabet + 1, labels) ensures labels == best {
      BestAreUnique(logProbs, alphabet + 1, labels, best);
    }
  }

  lemma EmitNext(best: seq<nat>, tip: nat, blank: nat)
    ensures Emitted(best + [tip], blank, blank)
      == Emitted(best, blank, blank) + if tip < blank && tip != Carried(best, blank) then [Emission(tip, |best|)]
        else []
    ensures Carried(best + [tip], blank) == tip
  {
    assert (best + [tip])[..|best|] == best;
  }

  /** The decoding loop; `best` is the label it picks for each frame. */
  method EmitBest(logProbs: seq<Score>, alphabet: nat, n: nat) returns (out: seq<Emission>, ghost best: seq<nat>)
    requires Holds(logProbs, alphabet + 1, n)
    ensures |best| == n && AreBest(logProbs, alphabet + 1, best) && out == Emitted(best, alphabet, alphabet)
  {
    best, out := [], [];
    var prev := alphabet;
    for t := 0 to n
      invariant |best| == t && AreBest(logProbs, alphabet + 1, best)
      invariant out == Emitted(best, alphabet, alphabet) && prev == Carried(best, alphabet)
    {
      FewerFrames(logProbs, alphabet + 1, n, t + 1);
      var tip := ArgmaxNanSafe(FrameAt(logProbs, alphabet + 1, t));
      if tip != alphabet && tip != prev { out := out + [Emission(tip, t)]; }
      EmitNext(best, tip, alphabet);
      OneMoreBest(logProbs, alphabet + 1, best, tip);
      best := best + [tip];
      prev := tip;
    }
  }

  function StampsOf(out: seq<Emission>): (r: seq<nat>)
    ensures |r| == |out| && forall i :: 0 <= i < |r| ==> r[i] == out[i].at
  {
    seq(|out|, i requires 0 <= i < |out| => out[i].at)
  }

  lemma {:induction false} EmittedLabels(labels: seq<nat>, prev: nat, blank: nat)
    ensures Labels(TipsOf(Emitted(labels, prev, blank)), blank)
  {
    if labels != [] {
      var n := |labels| - 1;
      EmittedLabels(labels[..n], prev, blank);
      var front, all := Emitted(labels[..n], prev, blank), Emitted(labels, prev, blank);
      forall i | 0 <= i < |all| ensures TipsOf(all)[i] < blank {
        if i < |front| { assert TipsOf(front)[i] == TipsOf(all)[i]; }
      }
    }
  }

  /** Decodes to text and the frames its tokens were emitted at. */
  method DecodeWithTimestamps(logProbs: seq<Score>, vocabulary: seq<string>, strideFrames: nat, validFrames: nat)
    returns (r: Transcript)
    requires Holds(logProbs, |vocabulary| + 1, FrameCount(strideFrames, validFrames))
    ensures forall labels ::
      |labels| == FrameCount(strideFrames, validFrames) && AreBest(logProbs, |vocabulary| + 1, labels) ==>
        var out := Emitted(labels, |vocabulary|, |vocabulary|);
        Labels(TipsOf(out), |vocabulary|) && r == Transcript(Spell(vocabulary, TipsOf(out)), StampsOf(out))
  {
    var out := DecodeInner(logProbs, |vocabulary|, strideFrames, validFrames);
    r := SpellOut(vocabulary, TipsOf(out), StampsOf(out));
  }

  /** An empty vocabulary leaves only blanks, which emit nothing. */
  lemma {:induction false} BlankOnly(labels: seq<nat>, blank: nat)
    requires blank == 0 || labels == []
    ensures Emitted(labels, blank, blank) == []
    decreases |labels|
  {
    if labels != [] { BlankOnly(labels[..|labels| - 1], blank); }
  }

  predicate IsAlignment(path: Path, blank: nat) {
    path.Start? || (path.tip <= blank && IsAlignment(path.init, blank))
  }

  lemma {:induction false} MassNonNegative(frames: seq<seq<real>>, blank: nat, path: Path)
    requires AreFrames(frames, blank)
    ensures Mass(frames, path) >= 0.0
  {
    if path.Then? {
      MassNonNegative(frames, blank, path.init);
      TimesAtMost(0.0, Mass(frames, path.init), 0.0, At(frames, Length(path.init), path.tip));
    }
  }

  lemma TimesAtMost(a: real, b: real, x: real, y: real)
    requires 0.0 <= a <= b && 0.0 <= x <= y
    ensures Times(a, x) <= Times(b, y) && Times(b, y) >= 0.0
  {
    assert a * x <= b * x <= b * y;
  }

  /** The best label of every frame is the single likeliest alignment. */
  lemma {:induction false} GreedyIsBestAlignment(frames: seq<seq<real>>, blank: nat, best: seq<nat>, path: Path)
    requires AreFrames(frames, blank) && |best| <= |frames|
    requires forall t :: 0 <= t < |best| ==>
      best[t] <= blank
      && (forall c :: 0 <= c <= blank ==> frames[t][c] <= frames[t][best[t]])
    requires Length(path) == |best| && IsAlignment(path, blank)
    ensures Mass(frames, path) <= Mass(frames, AlignmentOf(best))
    decreases |best|
  {
    if best != [] {
      var fewer := best[..|best| - 1];
      GreedyIsBestAlignment(frames, blank, fewer, path.init);
      AlignmentLength(fewer);
      MassNonNegative(frames, blank, path.init);
      TimesAtMost(Mass(frames, path.init), Mass(frames, AlignmentOf(fewer)), frames[|fewer|][path.tip],
        frames[|fewer|][best[|fewer|]]);
    }
  }

  lemma {:induction false} AlignmentLength(labels: seq<nat>)
    ensures Length(AlignmentOf(labels)) == |labels|
  {
    if labels != [] { AlignmentLength(labels[..|labels| - 1]); }
  }

  lemma {:induction false} AllKept(logProbs: seq<Score>, width: nat, n: nat, t: nat)
    requires Holds(logProbs, width, n) && NanFree(logProbs, width, n) && t < n
    ensures |Kept(logProbs, width, n)| == n && Holds(logProbs, width, t + 1) && !HasNan(FrameAt(logProbs, width, t))
    ensures Kept(logProbs, width, n)[t] == Masses(FrameAt(logProbs, width, t))
    decreases n
  {
    FewerFrames(logProbs, width, n, t + 1);
    FewerFrames(logProbs, width, n, n - 1);
    assert !NanFrame(logProbs, width, t) && !NanFrame(logProbs, width, n - 1);
    if n > 1 { AllKept(logProbs, width, n - 1, if t < n - 1 then t else 0); }
  }

  /** Without NaN frames, greedy decoding reads off the labelling of the likeliest alignment. */
  lemma GreedyDecodesBestAlignment(logProbs: seq<Score>, alphabet: nat, labels: seq<nat>, path: Path)
    requires AreScores(logProbs) && Holds(logProbs, alphabet + 1, |labels|) && NanFree(logProbs, alphabet + 1, |labels|)
    requires AreBest(logProbs, alphabet + 1, labels) && Length(path) == |labels| && IsAlignment(path, alphabet)
    ensures TipsOf(Emitted(labels, alphabet, alphabet)) == Collapse(AlignmentOf(labels), alphabet)
    ensures var kept := Kept(logProbs, alphabet + 1, |labels|); Mass(kept, path) <= Mass(kept, AlignmentOf(labels))
  {
    var n := |labels|;
    var kept := Kept(logProbs, alphabet + 1, n);
    EmittedIsCollapse(labels, alphabet);
    KeptAreFrames(logProbs, alphabet, n);
    if n > 0 { AllKept(logProbs, alphabet + 1, n, 0); }
    forall t | 0 <= t < n
      ensures labels[t] <= alphabet && forall c :: 0 <= c <= alphabet ==> kept[t][c] <= kept[t][labels[t]]
    {
      BestLabelOfFrame(logProbs, alphabet, labels, t);
    }
    GreedyIsBestAlignment(kept, alphabet, labels, path);
  }

  lemma BestLabelOfFrame(logProbs: seq<Score>, alphabet: nat, labels: seq<nat>, t: nat)
    requires AreScores(logProbs) && Holds(logProbs, alphabet + 1, |labels|) && NanFree(logProbs, alphabet + 1, |labels|)
    requires AreBest(logProbs, alphabet + 1, labels) && t < |labels|
    ensures var kept := Kept(logProbs, alphabet + 1, |labels|);
      && |kept| == |labels| && |kept[t]| == alphabet + 1 && labels[t] <= alphabet
      && forall c :: 0 <= c <= alphabet ==> kept[t][c] <= kept[t][labels[t]]
  {
    AllKept(logProbs, alphabet + 1, |labels|, t);
    assert BestAt(logProbs, alphabet + 1, t, labels[t]);
    BestMass(FrameAt(logProbs, alphabet + 1, t), labels[t]);
  }

  lemma BestMass(frame: seq<Score>, best: nat)
    requires !HasNan(frame) && IsBest(frame, best)
    ensures forall c :: 0 <= c < |frame| ==> Masses(frame)[c] <= Masses(frame)[best]
  {
    forall c | 0 <= c < |frame| ensures Masses(frame)[c] <= Masses(frame)[best] {
      assert frame[c] in frame && frame[best] in frame;
      assert !Beats(frame[c], frame[best]);
    }
  }
}
