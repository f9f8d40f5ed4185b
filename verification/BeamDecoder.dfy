/** Prefix beam search over a suffix tree, and what its hypotheses' masses mean. */
module BeamSearch {
  import opened Topology
  import opened Sequences
  import opened CtcAlignments
  import opened SuffixTrees
  import opened BeamMasses
  import opened BeamPruning
  import opened BeamRuns

  // ----- input and options -----

  /** A log-probability as the mass it stands for. */
  datatype Score = Nan | Prob(mass: real)

  datatype DecodeResult<T> = Decoded(value: T) | NanInLogits(frame: nat)

  predicate AreScores(logProbs: seq<Score>) {
    forall i :: 0 <= i < |logProbs| ==> logProbs[i].Prob? ==> logProbs[i].mass >= 0.0
  }

  predicate Holds(logProbs: seq<Score>, width: nat, n: nat) {
    n * width <= |logProbs|
  }

  function FrameAt(logProbs: seq<Score>, width: nat, t: nat): (r: seq<Score>)
    requires Holds(logProbs, width, t + 1)
    ensures |r| == width
  {
    assert t * width + width == (t + 1) * width;
    logProbs[t * width..t * width + width]
  }

  predicate HasNan(frame: seq<Score>) {
    Nan in frame
  }

  function Masses(frame: seq<Score>): seq<real>
    requires !HasNan(frame)
  {
    seq(|frame|, i requires 0 <= i < |frame| => assert frame[i] in frame; frame[i].mass)
  }

  lemma FewerFrames(logProbs: seq<Score>, width: nat, n: nat, t: nat)
    requires Holds(logProbs, width, n) && t <= n
    ensures Holds(logProbs, width, t)
  {
    assert (n - t) * width >= 0;
  }

  /** The frames among the first n that hold no NaN. */
  function Kept(logProbs: seq<Score>, width: nat, n: nat): (r: seq<seq<real>>)
    requires Holds(logProbs, width, n)
    ensures |r| <= n
  {
    if n == 0 then [] else
    FewerFrames(logProbs, width, n, n - 1);
    var fewer := Kept(logProbs, width, n - 1);
    if HasNan(FrameAt(logProbs, width, n - 1)) then fewer else fewer + [Masses(FrameAt(logProbs, width, n - 1))]
  }

  lemma {:induction false} KeptPrefix(logProbs: seq<Score>, width: nat, n: nat, t: nat)
    requires Holds(logProbs, width, n) && Holds(logProbs, width, t) && t <= n
    ensures Kept(logProbs, width, t) <= Kept(logProbs, width, n)
    decreases n
  {
    if t < n {
      FewerFrames(logProbs, width, n, n - 1);
      KeptPrefix(logProbs, width, n - 1, t);
    }
  }

  /** Frame t holds no NaN and is kept in place m. */
  predicate IsKeptFrame(logProbs: seq<Score>, width: nat, t: nat, m: nat) {
    && Holds(logProbs, width, t) && Holds(logProbs, width, t + 1)
    && !HasNan(FrameAt(logProbs, width, t)) && |Kept(logProbs, width, t)| == m
  }

  /** Entry c of frame t is score t * width + c. */
  lemma FrameEntry(logProbs: seq<Score>, width: nat, t: nat, c: nat)
    requires Holds(logProbs, width, t + 1) && c < width
    ensures 0 <= t * width + c < |logProbs| && FrameAt(logProbs, width, t)[c] == logProbs[t * width + c]
  {
    assert t * width + width == (t + 1) * width;
  }

  /** Every frame without NaN is kept, in its place among the kept ones, with its masses; the others are left out. */
  lemma KeptEntry(logProbs: seq<Score>, width: nat, n: nat, t: nat, c: nat)
    requires Holds(logProbs, width, n) && Holds(logProbs, width, t) && Holds(logProbs, width, t + 1) && t < n
    requires c < width
    ensures 0 <= t * width + c < |logProbs|
    ensures var before, through := Kept(logProbs, width, t), Kept(logProbs, width, t + 1);
      && before <= through <= Kept(logProbs, width, n)
      && (HasNan(FrameAt(logProbs, width, t)) ==> through == before)
      && (!HasNan(FrameAt(logProbs, width, t)) ==>
            && |through| == |before| + 1 && |through[|before|]| == width
            && logProbs[t * width + c] == Prob(through[|before|][c]))
  {
    FrameEntry(logProbs, width, t, c);
    KeptPrefix(logProbs, width, t + 1, t);
    KeptPrefix(logProbs, width, n, t + 1);
    if !HasNan(FrameAt(logProbs, width, t)) {
      assert FrameAt(logProbs, width, t)[c] in FrameAt(logProbs, width, t);
    }
  }

  lemma {:induction false} KeptAreFrames(logProbs: seq<Score>, blank: nat, n: nat)
    requires Holds(logProbs, blank + 1, n) && AreScores(logProbs)
    ensures AreFrames(Kept(logProbs, blank + 1, n), blank)
  {
    if n > 0 {
      FewerFrames(logProbs, blank + 1, n, n - 1);
      KeptAreFrames(logProbs, blank, n - 1);
      if !HasNan(FrameAt(logProbs, blank + 1, n - 1)) { MassesAreFrame(logProbs, blank, n - 1); }
    }
  }

  lemma MassesAreFrame(logProbs: seq<Score>, blank: nat, t: nat)
    requires Holds(logProbs, blank + 1, t + 1) && AreScores(logProbs) && !HasNan(FrameAt(logProbs, blank + 1, t))
    ensures IsFrame(Masses(FrameAt(logProbs, blank + 1, t)), blank)
  {
    var frame := FrameAt(logProbs, blank + 1, t);
    forall c | 0 <= c < |frame| ensures Masses(frame)[c] >= 0.0 {
      assert frame[c] in frame && frame[c] == logProbs[t * (blank + 1) + c];
    }
  }

  /** A frame without NaN is the next kept one. */
  lemma NextKept(logProbs: seq<Score>, blank: nat, n: nat, t: nat)
    requires Holds(logProbs, blank + 1, n) && Holds(logProbs, blank + 1, t) && Holds(logProbs, blank + 1, t + 1)
      && t < n && AreScores(logProbs)
    ensures var frame, m, kept := FrameAt(logProbs, blank + 1, t), |Kept(logProbs, blank + 1, t)|,
      Kept(logProbs, blank + 1, n);
      && |Kept(logProbs, blank + 1, t + 1)| == m + (if HasNan(frame) then 0 else 1)
      && (!HasNan(frame) ==> m < |kept| && kept[m] == Masses(frame) && IsFrame(kept[m], blank))
  {
    KeptPrefix(logProbs, blank + 1, n, t + 1);
    KeptAreFrames(logProbs, blank, n);
  }

  lemma OneMoreNanFree(logProbs: seq<Score>, width: nat, t: nat)
    requires Holds(logProbs, width, t + 1) && !HasNan(FrameAt(logProbs, width, t))
    ensures NanFree(logProbs, width, t) ==> NanFree(logProbs, width, t + 1)
  {
  }

  /** These are frames without NaN before t, in order and none left out. */
  predicate AreKeptFrames(at: seq<nat>, logProbs: seq<Score>, width: nat, t: nat) {
    forall m :: 0 <= m < |at| ==> at[m] < t && IsKeptFrame(logProbs, width, at[m], m)
  }

  lemma OneMoreKept(at: seq<nat>, logProbs: seq<Score>, width: nat, t: nat)
    requires AreKeptFrames(at, logProbs, width, t) && IsKeptFrame(logProbs, width, t, |at|)
    ensures AreKeptFrames(at + [t], logProbs, width, t + 1)
  {
  }

  // ----- hypotheses on nodes and on labellings -----

  predicate InTree(nodes: seq<LabelNode>, s: seq<SearchPoint<int>>) {
    forall i :: 0 <= i < |s| ==> IsNode(nodes, s[i].key)
  }

  function LiftPoint(nodes: seq<LabelNode>, alphabet: nat, p: SearchPoint<int>): SearchPoint<seq<nat>>
    requires IsForest(nodes, alphabet) && IsNode(nodes, p.key)
  {
    SearchPoint(PathOf(nodes, alphabet, p.key), p.b, p.nb)
  }

  /** The same hypotheses, named by their labellings. */
  function Lift(nodes: seq<LabelNode>, alphabet: nat, s: seq<SearchPoint<int>>): (r: seq<SearchPoint<seq<nat>>>)
    requires IsForest(nodes, alphabet) && InTree(nodes, s)
    ensures |r| == |s| && forall i :: 0 <= i < |s| ==> r[i] == LiftPoint(nodes, alphabet, s[i])
  {
    seq(|s|, i requires 0 <= i < |s| => LiftPoint(nodes, alphabet, s[i]))
  }

  lemma LiftStays(nodes: seq<LabelNode>, more: seq<LabelNode>, alphabet: nat, s: seq<SearchPoint<int>>)
    requires IsForest(nodes, alphabet) && IsForest(more, alphabet) && nodes <= more && InTree(nodes, s)
    ensures InTree(more, s) && Lift(more, alphabet, s) == Lift(nodes, alphabet, s)
  {
    forall i | 0 <= i < |s|
      ensures IsNode(more, s[i].key) && LiftPoint(more, alphabet, s[i]) == LiftPoint(nodes, alphabet, s[i])
    {
      PathStays(nodes, more, alphabet, s[i].key);
    }
  }

  lemma {:induction false} LiftHeld(nodes: seq<LabelNode>, alphabet: nat, s: seq<SearchPoint<int>>, x: int,
      endBlank: bool)
    requires IsForest(nodes, alphabet) && NoTwins(nodes) && InTree(nodes, s) && IsNode(nodes, x)
    ensures Held(Lift(nodes, alphabet, s), PathOf(nodes, alphabet, x), endBlank) == Held(s, x, endBlank)
    decreases |s|
  {
    if s != [] {
      var p, fewer := s[|s| - 1], s[..|s| - 1];
      LiftHeld(nodes, alphabet, fewer, x, endBlank);
      PathsDiffer(nodes, alphabet, p.key, x);
      assert Lift(nodes, alphabet, s)[..|s| - 1] == Lift(nodes, alphabet, fewer);
    }
  }

  ghost predicate AtMost<K(!new)>(s: seq<SearchPoint<K>>, t: seq<SearchPoint<K>>) {
    forall key, endBlank :: Held(s, key, endBlank) <= Held(t, key, endBlank)
  }

  ghost predicate AtMostInTree(nodes: seq<LabelNode>, s: seq<SearchPoint<int>>, t: seq<SearchPoint<int>>) {
    forall key, endBlank :: IsNode(nodes, key) ==> Held(s, key, endBlank) <= Held(t, key, endBlank)
  }

  /** Because nodes and labellings correspond, masses by node and masses by labelling say the same. */
  lemma LiftAtMost(nodes: seq<LabelNode>, alphabet: nat, s: seq<SearchPoint<int>>, t: seq<SearchPoint<int>>)
    requires IsForest(nodes, alphabet) && NoTwins(nodes) && InTree(nodes, s) && InTree(nodes, t)
    requires AtMostInTree(nodes, s, t)
    ensures AtMost(Lift(nodes, alphabet, s), Lift(nodes, alphabet, t))
  {
    forall y, endBlank
      ensures Held(Lift(nodes, alphabet, s), y, endBlank) <= Held(Lift(nodes, alphabet, t), y, endBlank)
    {
      if x :| IsNode(nodes, x) && PathOf(nodes, alphabet, x) == y {
        LiftHeld(nodes, alphabet, s, x, endBlank);
        LiftHeld(nodes, alphabet, t, x, endBlank);
      } else {
        HeldAbsent(Lift(nodes, alphabet, s), y, endBlank);
        HeldAbsent(Lift(nodes, alphabet, t), y, endBlank);
      }
    }
  }

  lemma LiftKeysDiffer(nodes: seq<LabelNode>, alphabet: nat, s: seq<SearchPoint<int>>)
    requires IsForest(nodes, alphabet) && NoTwins(nodes) && InTree(nodes, s) && KeysDiffer(s)
    ensures KeysDiffer(Lift(nodes, alphabet, s))
  {
    forall i, j | 0 <= i < j < |s| ensures PathOf(nodes, alphabet, s[i].key) != PathOf(nodes, alphabet, s[j].key) {
      PathsDiffer(nodes, alphabet, s[i].key, s[j].key);
    }
  }

  // ----- from nodes to labellings -----

  lemma LiftKeys(nodes: seq<LabelNode>, alphabet: nat, s: seq<SearchPoint<int>>, t: seq<SearchPoint<int>>)
    requires IsForest(nodes, alphabet) && InTree(nodes, s) && InTree(nodes, t) && KeysFrom(s, t)
    ensures KeysFrom(Lift(nodes, alphabet, s), Lift(nodes, alphabet, t))
  {
    var u, v := Lift(nodes, alphabet, s), Lift(nodes, alphabet, t);
    forall i | 0 <= i < |u| ensures HasKey(v, u[i].key) {
      assert HasKey(t, s[i].key);
      var j :| 0 <= j < |t| && t[j].key == s[i].key;
      assert v[j].key == u[i].key;
    }
  }

  /** The merged list stands for the same hypotheses as the extended one. */
  lemma LiftSame(nodes: seq<LabelNode>, alphabet: nat, s: seq<SearchPoint<int>>, t: seq<SearchPoint<int>>)
    requires IsForest(nodes, alphabet) && NoTwins(nodes) && InTree(nodes, s) && InTree(nodes, t)
    requires SameMasses(s, t) && KeysFrom(s, t) && KeysFrom(t, s)
    ensures SameHypotheses(Lift(nodes, alphabet, s), Lift(nodes, alphabet, t))
  {
    assert forall key :: IsNode(nodes, key) ==> key != DELETED;
    LiftAtMost(nodes, alphabet, s, t);
    LiftAtMost(nodes, alphabet, t, s);
    LiftKeys(nodes, alphabet, s, t);
    LiftKeys(nodes, alphabet, t, s);
    forall y, endBlank
      ensures Held(Lift(nodes, alphabet, s), y, endBlank) == Held(Lift(nodes, alphabet, t), y, endBlank)
    {
      assert Held(Lift(nodes, alphabet, s), y, endBlank) <= Held(Lift(nodes, alphabet, t), y, endBlank);
    }
  }

  lemma LiftRanked(nodes: seq<LabelNode>, alphabet: nat, s: seq<SearchPoint<int>>)
    requires IsForest(nodes, alphabet) && InTree(nodes, s)
    ensures Ranked(Lift(nodes, alphabet, s)) <==> Ranked(s)
    ensures NonNegativeAll(Lift(nodes, alphabet, s)) <==> NonNegativeAll(s)
    ensures KeysDiffer(Lift(nodes, alphabet, s)) ==> KeysDiffer(s)
    ensures Named(s)
  {
    var u := Lift(nodes, alphabet, s);
    assert forall i :: 0 <= i < |s| ==> u[i].Total() == s[i].Total() && (u[i].NonNegative() <==> s[i].NonNegative());
    if Ranked(u) {
      forall i, j | 0 <= i < j < |s| ensures s[i].Total() >= s[j].Total() { assert u[i].Total() >= u[j].Total(); }
    }
    if NonNegativeAll(u) { forall i | 0 <= i < |s| ensures s[i].NonNegative() { assert u[i].NonNegative(); } }
    if KeysDiffer(u) { forall i, j | 0 <= i < j < |s| ensures s[i].key != s[j].key { assert u[i].key != u[j].key; } }
  }

  lemma {:induction false} RetainLifted(nodes: seq<LabelNode>, alphabet: nat, s: seq<SearchPoint<int>>, best: real,
      factor: real)
    requires IsForest(nodes, alphabet) && InTree(nodes, s)
    ensures |Retain(Lift(nodes, alphabet, s), AboveCutoff(best, factor))| == |Retain(s, AboveCutoff(best, factor))|
    decreases |s|
  {
    if s != [] {
      var fewer := s[..|s| - 1];
      RetainLifted(nodes, alphabet, fewer, best, factor);
      assert Lift(nodes, alphabet, s)[..|s| - 1] == Lift(nodes, alphabet, fewer);
    }
  }

  /** Pruning looks only at masses, so it commutes with naming by labellings. */
  lemma PrunedLifted(nodes: seq<LabelNode>, alphabet: nat, s: seq<SearchPoint<int>>, opts: BeamOpts)
    requires IsForest(nodes, alphabet) && InTree(nodes, s) && Ranked(s)
    ensures InTree(nodes, Pruned(s, opts.beamThreshold, opts.beamSize))
    ensures Lift(nodes, alphabet, Pruned(s, opts.beamThreshold, opts.beamSize))
      == Pruned(Lift(nodes, alphabet, s), opts.beamThreshold, opts.beamSize)
  {
    var u := Lift(nodes, alphabet, s);
    LiftRanked(nodes, alphabet, s);
    PrunedLength(nodes, alphabet, s, opts);
    PrunedIsPrefix(s, opts.beamThreshold, opts.beamSize);
    PrunedIsPrefix(u, opts.beamThreshold, opts.beamSize);
    LiftPrefix(nodes, alphabet, s, |Pruned(s, opts.beamThreshold, opts.beamSize)|);
  }

  lemma PrunedLength(nodes: seq<LabelNode>, alphabet: nat, s: seq<SearchPoint<int>>, opts: BeamOpts)
    requires IsForest(nodes, alphabet) && InTree(nodes, s)
    ensures |Pruned(s, opts.beamThreshold, opts.beamSize)|
      == |Pruned(Lift(nodes, alphabet, s), opts.beamThreshold, opts.beamSize)|
  {
    var u := Lift(nodes, alphabet, s);
    if opts.beamThreshold.Factor? && s != [] {
      var best, factor := s[0].Total(), opts.beamThreshold.factor;
      assert u[0].Total() == best;
      RetainLifted(nodes, alphabet, s, best, factor);
    }
  }

  lemma LiftPrefix(nodes: seq<LabelNode>, alphabet: nat, s: seq<SearchPoint<int>>, n: nat)
    requires IsForest(nodes, alphabet) && InTree(nodes, s) && n <= |s|
    ensures InTree(nodes, s[..n]) && Lift(nodes, alphabet, s[..n]) == Lift(nodes, alphabet, s)[..n]
  {
  }

  lemma GrowAllNext(was: seq<SearchPoint<seq<nat>>>, h: SearchPoint<seq<nat>>, tokens: seq<nat>, j: nat,
      frame: seq<real>, blank: nat)
    requires j < |tokens| && forall i :: 0 <= i < |tokens| ==> tokens[i] < |frame|
    ensures was + GrowAll(h, tokens[..j + 1], frame, blank)
      == was + GrowAll(h, tokens[..j], frame, blank) + Grow(h, tokens[j], frame[tokens[j]], blank)
  {
    assert tokens[..j + 1][..j] == tokens[..j];
  }

  /** `after` extends `before` by nodes added at frame t. */
  ghost predicate GrewAt(before: seq<LabelNode>, after: seq<LabelNode>, t: nat) {
    before <= after && forall i :: |before| <= i < |after| ==> after[i].frame == t
  }

  predicate OlderThan(nodes: seq<LabelNode>, t: nat) {
    forall i :: 0 <= i < |nodes| ==> nodes[i].frame < t
  }

  /** Nodes from `before` on hang below `node` by one of the tokens. */
  predicate ChildrenOf(before: nat, after: seq<LabelNode>, node: int, tokens: seq<nat>) {
    forall x :: before <= x < |after| ==> after[x].parent == node && after[x].tip in tokens
  }

  /** Nodes from `before` on hang below a node of the beam by one of the tokens. */
  predicate BeamChildren(before: nat, after: seq<LabelNode>, beam: seq<SearchPoint<int>>, tokens: seq<nat>) {
    forall x :: before <= x < |after| ==> HasKey(beam, after[x].parent) && after[x].tip in tokens
  }

  /** Every node from `before` on is a hypothesis of the list. */
  predicate Pushed(before: nat, count: nat, next: seq<SearchPoint<int>>) {
    forall x :: before <= x < count ==> HasKey(next, x)
  }

  /** Recorded frame m is the first whose hypotheses, before pruning, include the labelling. */
  predicate FirstSeen(records: seq<FrameRecord>, y: seq<nat>, m: nat) {
    && m < |records| && HasKey(records[m].ranked, y)
    && forall i :: 0 <= i < m ==> !HasKey(records[i].ranked, y)
  }

  ghost predicate Seated(nodes: seq<LabelNode>, alphabet: nat, y: seq<nat>)
    requires IsForest(nodes, alphabet)
  {
    exists node :: IsNode(nodes, node) && PathOf(nodes, alphabet, node) == y
  }

  /** Every recorded hypothesis has its node. */
  ghost predicate AllSeated(nodes: seq<LabelNode>, alphabet: nat, records: seq<FrameRecord>)
    requires IsForest(nodes, alphabet)
  {
    forall i, y :: 0 <= i < |records| && HasKey(records[i].ranked, y) ==> Seated(nodes, alphabet, y)
  }

  /** Node x was added in recorded frame births[x], the first that has its labelling: it is stamped with that frame, its
      label was among the tokens there, and the labelling before it was in the beam. */
  ghost predicate Born(nodes: seq<LabelNode>, alphabet: nat, records: seq<FrameRecord>, opts: BeamOpts,
    births: seq<nat>, at: seq<nat>, x: nat)
    requires IsForest(nodes, alphabet) && x < |nodes| == |births|
  {
    var m := births[x];
    assert Grown(nodes, alphabet, x);
    && m < |records| == |at| && nodes[x].frame == at[m] && nodes[x].tip in records[m].tokens
    && HasKey(Left(records[..m], opts), PathOf(nodes, alphabet, nodes[x].parent))
    && FirstSeen(records, PathOf(nodes, alphabet, x), m)
  }

  ghost predicate AllBorn(nodes: seq<LabelNode>, alphabet: nat, records: seq<FrameRecord>, opts: BeamOpts,
    births: seq<nat>, at: seq<nat>)
    requires IsForest(nodes, alphabet)
  {
    && |births| == |nodes| && (forall x :: 0 <= x < |nodes| ==> Born(nodes, alphabet, records, opts, births, at, x))
    && AllSeated(nodes, alphabet, records)
  }

  lemma LiftHasKey(nodes: seq<LabelNode>, alphabet: nat, beam: seq<SearchPoint<int>>, node: int)
    requires IsForest(nodes, alphabet) && InTree(nodes, beam) && HasKey(beam, node)
    ensures IsNode(nodes, node) && HasKey(Lift(nodes, alphabet, beam), PathOf(nodes, alphabet, node))
  {
    var j :| 0 <= j < |beam| && beam[j].key == node;
    assert Lift(nodes, alphabet, beam)[j].key == PathOf(nodes, alphabet, node);
  }

  lemma StillBorn(was: seq<LabelNode>, nodes: seq<LabelNode>, alphabet: nat, records: seq<FrameRecord>,
    opts: BeamOpts, births: seq<nat>, at: seq<nat>, r: FrameRecord, more: seq<nat>, t: nat, x: nat)
    requires IsForest(was, alphabet) && IsForest(nodes, alphabet) && was <= nodes && x < |was| == |births| <= |more|
    requires |more| == |nodes| && births <= more && |records| == |at|
    requires Born(was, alphabet, records, opts, births, at, x)
    ensures Born(nodes, alphabet, records + [r], opts, more, at + [t], x)
  {
    assert Grown(was, alphabet, x);
    PathStays(was, nodes, alphabet, was[x].parent);
    PathStays(was, nodes, alphabet, x);
    assert (records + [r])[..births[x]] == records[..births[x]];
  }

  /** A node that is new stands for a labelling that no earlier frame had. */
  lemma NotSeenBefore(was: seq<LabelNode>, nodes: seq<LabelNode>, alphabet: nat, records: seq<FrameRecord>, x: nat,
      i: nat)
    requires IsForest(was, alphabet) && IsForest(nodes, alphabet) && was <= nodes && NoTwins(nodes)
    requires AllSeated(was, alphabet, records) && |was| <= x < |nodes| && i < |records|
    ensures !HasKey(records[i].ranked, PathOf(nodes, alphabet, x))
  {
    var y := PathOf(nodes, alphabet, x);
    if HasKey(records[i].ranked, y) {
      assert Seated(was, alphabet, y);
      var node :| IsNode(was, node) && PathOf(was, alphabet, node) == y;
      PathStays(was, nodes, alphabet, node);
      PathsDiffer(nodes, alphabet, node, x);
      assert false;
    }
  }

  lemma SeatedStays(was: seq<LabelNode>, nodes: seq<LabelNode>, alphabet: nat, records: seq<FrameRecord>,
    ranked: seq<SearchPoint<int>>, r: FrameRecord)
    requires IsForest(was, alphabet) && IsForest(nodes, alphabet) && was <= nodes && AllSeated(was, alphabet, records)
    requires InTree(nodes, ranked) && r.ranked == Lift(nodes, alphabet, ranked)
    ensures AllSeated(nodes, alphabet, records + [r])
  {
    forall i, y | 0 <= i < |records + [r]| && HasKey((records + [r])[i].ranked, y) ensures Seated(nodes, alphabet, y) {
      if i < |records| {
        assert Seated(was, alphabet, y);
        var node :| IsNode(was, node) && PathOf(was, alphabet, node) == y;
        PathStays(was, nodes, alphabet, node);
      } else {
        var j :| 0 <= j < |r.ranked| && r.ranked[j].key == y;
        assert PathOf(nodes, alphabet, ranked[j].key) == y;
      }
    }
  }

  lemma NewlyBorn(was: seq<LabelNode>, nodes: seq<LabelNode>, alphabet: nat, records: seq<FrameRecord>,
    opts: BeamOpts, beam: seq<SearchPoint<int>>, at: seq<nat>, r: FrameRecord, more: seq<nat>, t: nat, x: nat)
    requires IsForest(was, alphabet) && IsForest(nodes, alphabet) && GrewAt(was, nodes, t) && InTree(was, beam)
    requires BeamChildren(|was|, nodes, beam, r.tokens) && Lift(was, alphabet, beam) == Left(records, opts)
    requires |was| <= x < |nodes| == |more| && more[x] == |records| == |at|
    requires NoTwins(nodes) && AllSeated(was, alphabet, records) && HasKey(r.ranked, PathOf(nodes, alphabet, x))
    ensures Born(nodes, alphabet, records + [r], opts, more, at + [t], x)
  {
    assert Grown(nodes, alphabet, x);
    LiftHasKey(was, alphabet, beam, nodes[x].parent);
    PathStays(was, nodes, alphabet, nodes[x].parent);
    assert (records + [r])[..|records|] == records;
    forall i | 0 <= i < |records| ensures !HasKey((records + [r])[i].ranked, PathOf(nodes, alphabet, x)) {
      NotSeenBefore(was, nodes, alphabet, records, x, i);
    }
  }

  /** The birth of label k of a node's labelling. */
  lemma {:induction false} BirthOfLabel(nodes: seq<LabelNode>, alphabet: nat, records: seq<FrameRecord>,
    opts: BeamOpts, births: seq<nat>, at: seq<nat>, node: int, k: nat) returns (m: nat)
    requires IsForest(nodes, alphabet) && IsNode(nodes, node) && k < |PathOf(nodes, alphabet, node)|
    requires AllBorn(nodes, alphabet, records, opts, births, at)
    ensures var y, f := PathOf(nodes, alphabet, node), FramesOf(nodes, alphabet, node);
      && k < |f| && m < |records| == |at| && f[k] == at[m] && y[k] in records[m].tokens
      && HasKey(Left(records[..m], opts), y[..k]) && FirstSeen(records, y[..k + 1], m)
    decreases node
  {
    assert Grown(nodes, alphabet, node);
    var parent := nodes[node].parent;
    FramesIncrease(nodes, alphabet, parent);
    var front := PathOf(nodes, alphabet, parent);
    if k < |front| {
      m := BirthOfLabel(nodes, alphabet, records, opts, births, at, parent, k);
      assert PathOf(nodes, alphabet, node)[..k] == front[..k];
      assert PathOf(nodes, alphabet, node)[..k + 1] == front[..k + 1];
    } else {
      assert Born(nodes, alphabet, records, opts, births, at, node);
      m := births[node];
      assert PathOf(nodes, alphabet, node)[..k] == front;
      assert PathOf(nodes, alphabet, node)[..k + 1] == PathOf(nodes, alphabet, node);
    }
  }

  /** A frame's new nodes are born in it, and the others stay where they were. */
  lemma OneMoreBirth(was: seq<LabelNode>, nodes: seq<LabelNode>, alphabet: nat, records: seq<FrameRecord>,
    opts: BeamOpts, beam: seq<SearchPoint<int>>, births: seq<nat>, at: seq<nat>, ranked: seq<SearchPoint<int>>,
    r: FrameRecord, t: nat)
    returns (more: seq<nat>)
    requires IsForest(was, alphabet) && IsForest(nodes, alphabet) && GrewAt(was, nodes, t) && InTree(was, beam)
    requires BeamChildren(|was|, nodes, beam, r.tokens) && Lift(was, alphabet, beam) == Left(records, opts)
    requires |records| == |at| && AllBorn(was, alphabet, records, opts, births, at) && NoTwins(nodes)
    requires InTree(nodes, ranked) && r.ranked == Lift(nodes, alphabet, ranked) && Pushed(|was|, |nodes|, ranked)
    ensures AllBorn(nodes, alphabet, records + [r], opts, more, at + [t])
  {
    more := births + seq(|nodes| - |was|, i => |records|);
    forall x | 0 <= x < |nodes| ensures Born(nodes, alphabet, records + [r], opts, more, at + [t], x) {
      if x < |was| {
        StillBorn(was, nodes, alphabet, records, opts, births, at, r, more, t, x);
      } else {
        LiftHasKey(nodes, alphabet, ranked, x);
        NewlyBorn(was, nodes, alphabet, records, opts, beam, at, r, more, t, x);
      }
    }
    SeatedStays(was, nodes, alphabet, records, ranked, r);
  }

  class BeamDecoder {
    const vocabulary: seq<string>
    var opts: BeamOpts
    const tree: SuffixTree
    var beam: seq<SearchPoint<int>>
    var next: seq<SearchPoint<int>>
    /** What each frame taken since the search began did. */
    ghost var records: seq<FrameRecord>
    ghost var births: seq<nat>
    ghost var at: seq<nat>

    constructor (vocabulary: seq<string>, opts: BeamOpts)
      ensures tree.Valid() && fresh(tree) && this.vocabulary == vocabulary && this.opts == opts
    {
      this.vocabulary, this.opts := vocabulary, opts;
      tree := new SuffixTree();
      beam, next, records, births, at := [], [], [], [], [];
    }

    function Alphabet(): nat {
      |vocabulary|
    }

    ghost predicate Ready()
      reads tree
    {
      tree.Valid() && tree.alphabetSize == Alphabet()
    }

    /** The child of `node` by label c, added now if the tree has none. */
    method ChildOf(node: int, c: nat, t: nat) returns (child: int)
      requires Ready() && IsNode(tree.nodes, node) && c < Alphabet()
      requires node >= 0 ==> tree.nodes[node].frame < t
      modifies tree
      ensures Ready() && GrewAt(old(tree.nodes), tree.nodes, t)
      ensures IsNode(tree.nodes, child)
      ensures PathOf(tree.nodes, Alphabet(), child) == old(PathOf(tree.nodes, Alphabet(), node)) + [c]
      ensures ChildrenOf(|old(tree.nodes)|, tree.nodes, node, [c])
      ensures |tree.nodes| > |old(tree.nodes)| ==> |tree.nodes| == child + 1 == |old(tree.nodes)| + 1
    {
      var found := tree.GetChild(node, c);
      match found
      case Some(x) => child := x;
      case None => child := tree.AddNode(node, c, t);
    }

    /** The inner loop's body: what token c of mass `mass` makes of one hypothesis. */
    method Extend(p: SearchPoint<int>, c: nat, mass: real, t: nat)
      requires Ready() && IsNode(tree.nodes, p.key) && c <= Alphabet() && InTree(tree.nodes, next)
      requires p.key >= 0 ==> tree.nodes[p.key].frame < t
      modifies tree, this`next
      ensures Ready() && GrewAt(old(tree.nodes), tree.nodes, t) && InTree(tree.nodes, next)
      ensures Lift(tree.nodes, Alphabet(), next)
        == old(Lift(tree.nodes, Alphabet(), next))
          + old(Grow(LiftPoint(tree.nodes, Alphabet(), p), c, mass, Alphabet()))
      ensures ChildrenOf(|old(tree.nodes)|, tree.nodes, p.key, [c])
      ensures old(next) <= next && Pushed(|old(tree.nodes)|, |tree.nodes|, next)
    {
      ghost var before, h := tree.nodes, LiftPoint(tree.nodes, Alphabet(), p);
      ghost var was := Lift(tree.nodes, Alphabet(), next);
      var tip := tree.TipOf(p.key);
      if c == Alphabet() {
        next := next + [SearchPoint(p.key, Times(p.Total(), mass), 0.0)];
      } else if Some(c) == tip {
        next := next + [SearchPoint(p.key, 0.0, Times(p.nb, mass))];
        if p.b > 0.0 {
          assert Lift(before, Alphabet(), next) == was + [SearchPoint(h.key, 0.0, Times(h.nb, mass))];
          var child := ChildOf(p.key, c, t);
          LiftStays(before, tree.nodes, Alphabet(), next);
          next := next + [SearchPoint(child, 0.0, Times(p.b, mass))];
          assert next[|next| - 1].key == child;
        }
      } else {
        var child := ChildOf(p.key, c, t);
        LiftStays(before, tree.nodes, Alphabet(), next);
        next := next + [SearchPoint(child, 0.0, Times(p.Total(), mass))];
        assert next[|next| - 1].key == child;
      }
      assert Lift(tree.nodes, Alphabet(), next) == was + Grow(h, c, mass, Alphabet());
    }

    /** Extends one hypothesis by every token. */
    method ExtendAll(p: SearchPoint<int>, tokens: seq<nat>, frame: seq<real>, t: nat)
      requires Ready() && IsNode(tree.nodes, p.key) && InTree(tree.nodes, next)
      requires p.key >= 0 ==> tree.nodes[p.key].frame < t
      requires |frame| == Alphabet() + 1 && forall i :: 0 <= i < |tokens| ==> tokens[i] <= Alphabet()
      modifies tree, this`next
      ensures Ready() && GrewAt(old(tree.nodes), tree.nodes, t) && InTree(tree.nodes, next)
      ensures Lift(tree.nodes, Alphabet(), next)
        == old(Lift(tree.nodes, Alphabet(), next))
          + GrowAll(old(LiftPoint(tree.nodes, Alphabet(), p)), tokens, frame, Alphabet())
      ensures ChildrenOf(|old(tree.nodes)|, tree.nodes, p.key, tokens)
      ensures old(next) <= next && Pushed(|old(tree.nodes)|, |tree.nodes|, next)
    {
      ghost var before, h := tree.nodes, LiftPoint(tree.nodes, Alphabet(), p);
      ghost var was := Lift(tree.nodes, Alphabet(), next);
      for j := 0 to |tokens|
        invariant Ready() && GrewAt(before, tree.nodes, t) && InTree(tree.nodes, next)
        invariant Lift(tree.nodes, Alphabet(), next) == was + GrowAll(h, tokens[..j], frame, Alphabet())
        invariant ChildrenOf(|before|, tree.nodes, p.key, tokens)
        invariant old(next) <= next && Pushed(|before|, |tree.nodes|, next)
      {
        GrowAllNext(was, h, tokens, j, frame, Alphabet());
        PathStays(before, tree.nodes, Alphabet(), p.key);
        ghost var shorter, count := next, |tree.nodes|;
        Extend(p, tokens[j], frame[tokens[j]], t);
        PushedStays(|before|, count, |tree.nodes|, shorter, next);
      }
      assert tokens[..|tokens|] == tokens;
    }

    /** Extends every hypothesis by every token. */
    method Expand(tokens: seq<nat>, frame: seq<real>, t: nat)
      requires Ready() && InTree(tree.nodes, beam) && OlderThan(tree.nodes, t)
      requires |frame| == Alphabet() + 1 && forall i :: 0 <= i < |tokens| ==> tokens[i] <= Alphabet()
      modifies tree, this`next
      ensures Ready() && GrewAt(old(tree.nodes), tree.nodes, t) && InTree(tree.nodes, next)
      ensures Lift(tree.nodes, Alphabet(), next)
        == Spread(old(Lift(tree.nodes, Alphabet(), beam)), tokens, frame, Alphabet())
      ensures BeamChildren(|old(tree.nodes)|, tree.nodes, beam, tokens)
      ensures Pushed(|old(tree.nodes)|, |tree.nodes|, next)
    {
      ghost var before := tree.nodes;
      ghost var hs := Lift(tree.nodes, Alphabet(), beam);
      next := [];
      for i := 0 to |beam|
        invariant Ready() && GrewAt(before, tree.nodes, t) && InTree(tree.nodes, next)
        invariant Lift(tree.nodes, Alphabet(), next) == Spread(hs[..i], tokens, frame, Alphabet())
        invariant BeamChildren(|before|, tree.nodes, beam, tokens)
        invariant Pushed(|before|, |tree.nodes|, next)
      {
        assert hs[..i + 1][..i] == hs[..i] && hs[i] == LiftPoint(before, Alphabet(), beam[i]);
        PathStays(before, tree.nodes, Alphabet(), beam[i].key);
        ghost var shorter, count := next, |tree.nodes|;
        ExtendAll(beam[i], tokens, frame, t);
        PushedStays(|before|, count, |tree.nodes|, shorter, next);
        assert HasKey(beam, beam[i].key);
      }
      assert hs[..|beam|] == hs;
    }

    /** Sorts by node, merges, and ranks by total mass. */
    method Settle(extended: seq<SearchPoint<int>>) returns (ranked: seq<SearchPoint<int>>)
      requires Named(extended) && NonNegativeAll(extended)
      ensures SameMasses(ranked, extended) && KeysDiffer(ranked) && NonNegativeAll(ranked) && Ranked(ranked)
      ensures KeysFrom(ranked, extended) && KeysFrom(extended, ranked)
    {
      var sorted := SortBy(extended, (p: SearchPoint<int>) => p.key as real);
      SortedLike(extended, sorted);
      assert ByNode(sorted) by {
        forall i, j | 0 <= i < j < |sorted| ensures sorted[i].key <= sorted[j].key {
          assert sorted[i].key as real <= sorted[j].key as real;
        }
      }
      var merged := MergeSameNodes(sorted);
      ranked := SortBy(merged, (p: SearchPoint<int>) => -p.Total());
      SortedLike(merged, ranked);
      KeysStayDistinct(merged, ranked);
      assert Ranked(ranked) by {
        forall i, j | 0 <= i < j < |ranked| ensures ranked[i].Total() >= ranked[j].Total() {
          assert -ranked[i].Total() <= -ranked[j].Total();
        }
      }
    }

    /** Between frames: the beam is what the recorded run left, named by tree nodes. */
    ghost predicate Searching(frames: seq<seq<real>>, n: nat, t: nat)
      reads this, tree
    {
      && Ready() && InTree(tree.nodes, beam) && OlderThan(tree.nodes, t)
      && |records| == n && IsRun(records, frames, Alphabet(), opts)
      && Lift(tree.nodes, Alphabet(), beam) == Left(records, opts)
      && |at| == n && AllBorn(tree.nodes, Alphabet(), records, opts, births, at)
    }

    /** One frame before pruning. */
    method Rescore(tokens: seq<nat>, frame: seq<real>, t: nat) returns (ranked: seq<SearchPoint<int>>)
      requires IsTokenChoice(frame, opts.beamSizeToken, Alphabet(), tokens) && IsFrame(frame, Alphabet())
      requires Ready() && InTree(tree.nodes, beam) && OlderThan(tree.nodes, t) && NonNegativeAll(beam)
      modifies tree, this`next
      ensures Ready() && GrewAt(old(tree.nodes), tree.nodes, t) && InTree(tree.nodes, ranked) && Ranked(ranked)
      ensures BeamChildren(|old(tree.nodes)|, tree.nodes, beam, tokens)
      ensures Pushed(|old(tree.nodes)|, |tree.nodes|, ranked)
      ensures IsFrameRecord(old(Lift(tree.nodes, Alphabet(), beam)),
        FrameRecord(tokens, Lift(tree.nodes, Alphabet(), ranked)), frame, Alphabet(), opts)
    {
      ghost var hs := Lift(tree.nodes, Alphabet(), beam);
      LiftRanked(tree.nodes, Alphabet(), beam);
      Expand(tokens, frame, t);
      SpreadNonNegative(hs, tokens, frame, Alphabet());
      LiftRanked(tree.nodes, Alphabet(), next);
      ranked := Settle(next);
      tree.Twinless();
      RankedInTree(tree.nodes, ranked, next);
      PushedRanked(|old(tree.nodes)|, |tree.nodes|, next, ranked);
      LiftSame(tree.nodes, Alphabet(), ranked, next);
      LiftKeysDiffer(tree.nodes, Alphabet(), ranked);
      LiftRanked(tree.nodes, Alphabet(), ranked);
    }

    /** One frame of the search. */
    method Advance(frame: seq<real>, t: nat, ghost frames: seq<seq<real>>, ghost n: nat)
      requires Searching(frames, n, t) && n < |frames| && frames[n] == frame && IsFrame(frame, Alphabet())
      modifies tree, this`beam, this`next, this`records, this`births, this`at
      ensures Searching(frames, n + 1, t + 1) && records[..n] == old(records) && at == old(at) + [t]
    {
      ghost var was := tree.nodes;
      RunWellFormed(records, frames, Alphabet(), opts);
      LiftRanked(tree.nodes, Alphabet(), beam);
      var tokens := TopKTokens(frame, opts.beamSizeToken, Alphabet());
      var ranked := Rescore(tokens, frame, t);
      ghost var r := FrameRecord(tokens, Lift(tree.nodes, Alphabet(), ranked));
      OneMoreFrame(records, r, frames, Alphabet(), opts);
      PrunedLifted(tree.nodes, Alphabet(), ranked, opts);
      tree.Twinless();
      births := OneMoreBirth(was, tree.nodes, Alphabet(), records, opts, beam, births, at, ranked, r, t);
      at := at + [t];
      beam, records := Pruned(ranked, opts.beamThreshold, opts.beamSize), records + [r];
    }

    predicate Searches(validFrames: nat)
      reads this
    {
      vocabulary != [] && validFrames > 0 && opts.beamSize > 0
    }

    ghost predicate AtKept(logProbs: seq<Score>, t: nat)
      reads this
    {
      AreKeptFrames(at, logProbs, |vocabulary| + 1, t)
    }

    /** The state of the frame loop after t of n frames. */
    ghost predicate SearchedTo(logProbs: seq<Score>, n: nat, t: nat)
      requires Holds(logProbs, |vocabulary| + 1, n) && Holds(logProbs, |vocabulary| + 1, t)
      reads this, tree
    {
      Searching(Kept(logProbs, |vocabulary| + 1, n), |Kept(logProbs, |vocabulary| + 1, t)|, t) && AtKept(logProbs, t)
    }

    method Begin(logProbs: seq<Score>, n: nat)
      requires Holds(logProbs, |vocabulary| + 1, n) && Holds(logProbs, |vocabulary| + 1, 0)
      modifies this`beam, this`next, this`records, this`births, this`at, tree
      ensures SearchedTo(logProbs, n, 0)
    {
      tree.Reset(|vocabulary|);
      beam, next, records, births, at := [SearchPoint(ROOT_NODE, 1.0, 0.0)], [], [], [], [];
      assert Lift(tree.nodes, Alphabet(), beam) == START;
    }

    method TakeFrame(logProbs: seq<Score>, n: nat, t: nat)
      requires AreScores(logProbs) && Holds(logProbs, |vocabulary| + 1, n) && t < n
      requires Holds(logProbs, |vocabulary| + 1, t) && Holds(logProbs, |vocabulary| + 1, t + 1)
      requires SearchedTo(logProbs, n, t) && !HasNan(FrameAt(logProbs, |vocabulary| + 1, t))
      modifies this`beam, this`next, this`records, this`births, this`at, tree
      ensures SearchedTo(logProbs, n, t + 1)
    {
      ghost var kept, m := Kept(logProbs, |vocabulary| + 1, n), |Kept(logProbs, |vocabulary| + 1, t)|;
      NextKept(logProbs, |vocabulary|, n, t);
      OneMoreKept(at, logProbs, |vocabulary| + 1, t);
      Advance(Masses(FrameAt(logProbs, |vocabulary| + 1, t)), t, kept, m);
      assert AtKept(logProbs, t + 1);
    }

    /** The frame loop; names the first NaN frame when that is an error. */
    method Search(logProbs: seq<Score>, n: nat) returns (nan: Option<nat>)
      requires tree.Valid() && AreScores(logProbs) && Holds(logProbs, |vocabulary| + 1, n)
      modifies this`beam, this`next, this`records, this`births, this`at, tree
      ensures tree.Valid()
      ensures nan.Some? ==> opts.onNan.Error? && nan.value < n
      ensures nan.Some? ==>
        NanFrame(logProbs, |vocabulary| + 1, nan.value)
        && NanFree(logProbs, |vocabulary| + 1, nan.value)
      ensures nan.None? ==> (opts.onNan.Skip? || NanFree(logProbs, |vocabulary| + 1, n)) && SearchedTo(logProbs, n, n)
    {
      var width := |vocabulary| + 1;
      Begin(logProbs, n);
      for t := 0 to n
        invariant Underway(logProbs, n, t)
      {
        FewerFrames(logProbs, width, n, t + 1);
        if HasNan(FrameAt(logProbs, width, t)) && opts.onNan.Error? { return Some(t); }
        StepFrame(logProbs, n, t);
      }
      nan := None;
    }

    ghost predicate Underway(logProbs: seq<Score>, n: nat, t: nat)
      requires Holds(logProbs, |vocabulary| + 1, n)
      reads this, tree
    {
      && Holds(logProbs, |vocabulary| + 1, t) && (opts.onNan.Skip? || NanFree(logProbs, |vocabulary| + 1, t))
      && tree.Valid() && SearchedTo(logProbs, n, t)
    }

    /** A frame is taken, or skipped for its NaN. */
    method StepFrame(logProbs: seq<Score>, n: nat, t: nat)
      requires AreScores(logProbs) && Holds(logProbs, |vocabulary| + 1, n) && t < n
      requires Holds(logProbs, |vocabulary| + 1, t + 1) && Underway(logProbs, n, t)
      requires opts.onNan.Skip? || !HasNan(FrameAt(logProbs, |vocabulary| + 1, t))
      modifies this`beam, this`next, this`records, this`births, this`at, tree
      ensures Underway(logProbs, n, t + 1)
    {
      if HasNan(FrameAt(logProbs, |vocabulary| + 1, t)) {
        SkipFrame(logProbs, n, t);
      } else {
        TakeFrame(logProbs, n, t);
        OneMoreNanFree(logProbs, |vocabulary| + 1, t);
      }
    }

    /** A skipped frame changes nothing. */
    lemma SkipFrame(logProbs: seq<Score>, n: nat, t: nat)
      requires AreScores(logProbs) && Holds(logProbs, |vocabulary| + 1, n) && t < n
      requires Holds(logProbs, |vocabulary| + 1, t) && Holds(logProbs, |vocabulary| + 1, t + 1)
      requires SearchedTo(logProbs, n, t) && HasNan(FrameAt(logProbs, |vocabulary| + 1, t))
      ensures SearchedTo(logProbs, n, t + 1)
    {
      NextKept(logProbs, |vocabulary|, n, t);
    }

    /** Decoding fails at frame t: the first NaN in a search that reports NaN. */
    predicate FailedAt(logProbs: seq<Score>, n: nat, validFrames: nat, t: nat)
      reads this
    {
      && Searches(validFrames) && opts.onNan.Error? && t < n
      && NanFrame(logProbs, |vocabulary| + 1, t) && NanFree(logProbs, |vocabulary| + 1, t)
    }

    /** Decoding ends in `best`: the front of the beam that a run over all kept frames left, or the root where
        there is nothing to search. */
    ghost predicate DecodedTo(logProbs: seq<Score>, n: nat, validFrames: nat, best: int)
      requires Holds(logProbs, |vocabulary| + 1, n)
      reads this, tree
    {
      && tree.Valid() && IsNode(tree.nodes, best)
      && (if Searches(validFrames) then
            && (opts.onNan.Skip? || NanFree(logProbs, |vocabulary| + 1, n))
            && Searching(Kept(logProbs, |vocabulary| + 1, n), |Kept(logProbs, |vocabulary| + 1, n)|, n)
            && AtKept(logProbs, n)
            && best == (if beam == [] then ROOT_NODE else beam[0].key)
          else best == ROOT_NODE)
    }

    /** Runs the search; the result names the best hypothesis' node. */
    method DecodeToBestNode(logProbs: seq<Score>, strideFrames: nat, validFrames: nat) returns (r: DecodeResult<int>)
      requires tree.Valid() && AreScores(logProbs)
        && Holds(logProbs, |vocabulary| + 1, FrameCount(strideFrames, validFrames))
      modifies this`beam, this`next, this`records, this`births, this`at, tree
      ensures tree.Valid()
      ensures r.NanInLogits? ==> FailedAt(logProbs, FrameCount(strideFrames, validFrames), validFrames, r.frame)
      ensures r.Decoded? ==> DecodedTo(logProbs, FrameCount(strideFrames, validFrames), validFrames, r.value)
    {
      var n := FrameCount(strideFrames, validFrames);
      if vocabulary == [] || validFrames == 0 || opts.beamSize == 0 { return Decoded(ROOT_NODE); }
      var nan := Search(logProbs, n);
      if nan.Some? { return NanInLogits(nan.value); }
      r := Decoded(if beam == [] then ROOT_NODE else beam[0].key);
    }

    /** For any options: one ranked entry per labelling, at most beamSize of them, none above its alignment sum;
        and no threshold, or one of at least zero, leaves at least one. */
    lemma BeamWithinSums(logProbs: seq<Score>, n: nat, validFrames: nat, best: int)
      requires Holds(logProbs, |vocabulary| + 1, n)
      requires DecodedTo(logProbs, n, validFrames, best) && Searches(validFrames)
      ensures Within(Lift(tree.nodes, Alphabet(), beam), Kept(logProbs, |vocabulary| + 1, n), Alphabet(),
        |Kept(logProbs, |vocabulary| + 1, n)|)
      ensures KeysDiffer(beam) && Ranked(beam) && NonNegativeAll(beam) && |beam| <= opts.beamSize
      ensures MildThreshold(opts) ==> beam != []
    {
      var kept := Kept(logProbs, |vocabulary| + 1, n);
      RunWithin(records, kept, Alphabet(), opts);
      RunWellFormed(records, kept, Alphabet(), opts);
      RunSize(records, kept, Alphabet(), opts);
      LiftRanked(tree.nodes, Alphabet(), beam);
      if MildThreshold(opts) { RunKeepsOne(records, kept, Alphabet(), opts); }
    }

    /** Whenever nothing was cut, and so whenever the options can cut nothing, the decoded labelling is a most
        likely one. */
    lemma BestIsMostLikely(logProbs: seq<Score>, n: nat, validFrames: nat, best: int)
      requires Holds(logProbs, |vocabulary| + 1, n) && n <= validFrames && DecodedTo(logProbs, n, validFrames, best)
      requires KeepsAll(opts, |vocabulary|, n) || (Searches(validFrames) && Uncut(records, |vocabulary|, opts))
      ensures IsMostLikely(Kept(logProbs, |vocabulary| + 1, n), |vocabulary|, |Kept(logProbs, |vocabulary| + 1, n)|,
        PathOf(tree.nodes, tree.alphabetSize, best))
    {
      var kept := Kept(logProbs, |vocabulary| + 1, n);
      if Searches(validFrames) {
        if KeepsAll(opts, |vocabulary|, n) { KeepsAllIsUncut(records, kept, |vocabulary|, opts, n); }
        PathLabels(tree.nodes, Alphabet(), best);
        assert Front(Left(records, opts)) == PathOf(tree.nodes, Alphabet(), best);
        FrontIsMostLikely(records, kept, |vocabulary|, opts);
      } else {
        EmptyIsMostLikely(kept, |vocabulary|, |kept|);
      }
    }

    /** Decodes to text and the frames its tokens were emitted at. */
    method DecodeWithTimestamps(logProbs: seq<Score>, strideFrames: nat, validFrames: nat)
      returns (r: DecodeResult<Transcript>, ghost best: int)
      requires tree.Valid() && AreScores(logProbs)
        && Holds(logProbs, |vocabulary| + 1, FrameCount(strideFrames, validFrames))
      modifies this`beam, this`next, this`records, this`births, this`at, tree
      ensures tree.Valid()
      ensures r.NanInLogits? ==> FailedAt(logProbs, FrameCount(strideFrames, validFrames), validFrames, r.frame)
      ensures r.Decoded? ==> DecodedTo(logProbs, FrameCount(strideFrames, validFrames), validFrames, best)
      ensures r.Decoded? ==>
        && Labels(PathOf(tree.nodes, tree.alphabetSize, best), |vocabulary|)
        && r.value.text == Spell(vocabulary, PathOf(tree.nodes, tree.alphabetSize, best))
        && r.value.frames == FramesOf(tree.nodes, tree.alphabetSize, best)
    {
      var node := DecodeToBestNode(logProbs, strideFrames, validFrames);
      if node.NanInLogits? { return NanInLogits(node.frame), ROOT_NODE; }
      best := node.value;
      var tips, stamps := tree.Walk(node.value);
      PathLabels(tree.nodes, tree.alphabetSize, best);
      FramesIncrease(tree.nodes, tree.alphabetSize, best);
      var text := SpellOut(vocabulary, tips, stamps);
      r := Decoded(text);
    }

    /** What the frames of a transcript mean: label k is stamped with the first kept frame whose hypotheses, before
        pruning, include the labels up to it; it was among that frame's tokens, and the labels in front of it were a
        hypothesis of the beam. */
    lemma StampMeaning(logProbs: seq<Score>, n: nat, validFrames: nat, best: int, k: nat) returns (m: nat)
      requires Holds(logProbs, |vocabulary| + 1, n) && DecodedTo(logProbs, n, validFrames, best)
      requires k < |PathOf(tree.nodes, tree.alphabetSize, best)|
      ensures var y, f := PathOf(tree.nodes, tree.alphabetSize, best), FramesOf(tree.nodes, tree.alphabetSize, best);
        && k < |f| && f[k] < n && m < |records| && IsKeptFrame(logProbs, |vocabulary| + 1, f[k], m)
        && y[k] in records[m].tokens && HasKey(Left(records[..m], opts), y[..k])
        && FirstSeen(records, y[..k + 1], m)
    {
      FramesIncrease(tree.nodes, tree.alphabetSize, best);
      m := BirthOfLabel(tree.nodes, tree.alphabetSize, records, opts, births, at, best, k);
    }

    /** In every run, pruned or not, the frames strictly increase, lie below n, and there is one per label. */
    lemma TimestampsIncrease(logProbs: seq<Score>, n: nat, validFrames: nat, best: int)
      requires Holds(logProbs, |vocabulary| + 1, n) && DecodedTo(logProbs, n, validFrames, best)
      ensures var frames := FramesOf(tree.nodes, tree.alphabetSize, best);
        && StrictlyIncreasing(frames) && |frames| == |PathOf(tree.nodes, tree.alphabetSize, best)|
        && forall i :: 0 <= i < |frames| ==> frames[i] < n
    {
      FramesIncrease(tree.nodes, tree.alphabetSize, best);
      if best >= 0 { FramesBelow(tree.nodes, tree.alphabetSize, best, n); }
    }
  }

  lemma PushedStays(before: nat, count: nat, more: nat, shorter: seq<SearchPoint<int>>, longer: seq<SearchPoint<int>>)
    requires Pushed(before, count, shorter) && Pushed(count, more, longer) && shorter <= longer
    ensures Pushed(before, more, longer)
  {
    forall x | before <= x < more ensures HasKey(longer, x) {
      if x < count {
        assert HasKey(shorter, x);
        var j :| 0 <= j < |shorter| && shorter[j].key == x;
        assert longer[j].key == x;
      }
    }
  }

  lemma PushedRanked(before: nat, count: nat, next: seq<SearchPoint<int>>, ranked: seq<SearchPoint<int>>)
    requires Pushed(before, count, next) && KeysFrom(next, ranked)
    ensures Pushed(before, count, ranked)
  {
    forall x | before <= x < count ensures HasKey(ranked, x) {
      assert HasKey(next, x);
      var j :| 0 <= j < |next| && next[j].key == x;
    }
  }

  lemma SortedLike(s: seq<SearchPoint<int>>, t: seq<SearchPoint<int>>)
    requires multiset(s) == multiset(t)
    ensures SameMasses(t, s) && KeysFrom(t, s) && KeysFrom(s, t)
    ensures NonNegativeAll(s) ==> NonNegativeAll(t)
    ensures Named(s) ==> Named(t)
  {
    forall key, endBlank | key != DELETED
      ensures Held(t, key, endBlank) == Held(s, key, endBlank)
    {
      HeldPermuted(t, s, key, endBlank);
    }
    forall i | 0 <= i < |t|
      ensures HasKey(s, t[i].key)
      ensures NonNegativeAll(s) ==> t[i].NonNegative()
      ensures Named(s) ==> t[i].key > DELETED
    {
      assert t[i] in multiset(s);
      var j :| 0 <= j < |s| && t[i] == s[j];
    }
    forall i | 0 <= i < |s| ensures HasKey(t, s[i].key) {
      assert s[i] in multiset(t);
      var j :| 0 <= j < |t| && s[i] == t[j];
    }
  }

  lemma SameWithout<T>(s: seq<T>, a: nat, t: seq<T>, b: nat)
    requires multiset(s) == multiset(t) && a < |s| && b < |t| && s[a] == t[b]
    ensures multiset(s[..a] + s[a + 1..]) == multiset(t[..b] + t[b + 1..])
  {
    Without(s, a);
    Without(t, b);
    assert multiset(s[..a] + s[a + 1..]) == multiset(s) - multiset{s[a]};
    assert multiset(t[..b] + t[b + 1..]) == multiset(t) - multiset{t[b]};
  }

  lemma KeysStayDistinct<K>(s: seq<SearchPoint<K>>, t: seq<SearchPoint<K>>)
    requires multiset(s) == multiset(t) && KeysDiffer(s)
    ensures KeysDiffer(t)
  {
    forall i, j | 0 <= i < j < |t| ensures t[i].key != t[j].key {
      assert t[j] in multiset(s);
      var a :| 0 <= a < |s| && s[a] == t[j];
      var others, rest := t[..j] + t[j + 1..], s[..a] + s[a + 1..];
      SameWithout(s, a, t, j);
      assert t[i] == others[i];
      assert t[i] in multiset(rest);
      var b :| 0 <= b < |rest| && rest[b] == t[i];
      assert rest[b] == s[if b < a then b else b + 1];
    }
  }

  lemma RankedInTree(nodes: seq<LabelNode>, ranked: seq<SearchPoint<int>>, next: seq<SearchPoint<int>>)
    requires KeysFrom(ranked, next) && InTree(nodes, next)
    ensures InTree(nodes, ranked)
  {
    forall i | 0 <= i < |ranked| ensures IsNode(nodes, ranked[i].key) {
      assert HasKey(next, ranked[i].key);
    }
  }

  datatype Transcript = Transcript(text: string, frames: seq<nat>)

  /** Collects the text and the frames of a walk, token by token. */
  method SpellOut(vocabulary: seq<string>, tips: seq<nat>, stamps: seq<nat>) returns (r: Transcript)
    requires Labels(tips, |vocabulary|) && |stamps| == |tips|
    ensures r == Transcript(Spell(vocabulary, tips), stamps)
  {
    var text, frames := "", [];
    for i := 0 to |tips|
      invariant Labels(tips[..i], |vocabulary|) && text == Spell(vocabulary, tips[..i]) && frames == stamps[..i]
    {
      assert tips[..i + 1][..i] == tips[..i];
      text := text + vocabulary[tips[i]];
      frames := frames + [stamps[i]];
    }
    assert tips[..|tips|] == tips;
    r := Transcript(text, frames);
  }

  function Spell(vocabulary: seq<string>, labels: seq<nat>): string
    requires Labels(labels, |vocabulary|)
  {
    if labels == [] then "" else Spell(vocabulary, labels[..|labels| - 1]) + vocabulary[labels[|labels| - 1]]
  }

  /** A text is spelled label by label, in order. */
  lemma {:induction false} SpellsInOrder(vocabulary: seq<string>, a: seq<nat>, b: seq<nat>)
    requires Labels(a, |vocabulary|) && Labels(b, |vocabulary|)
    ensures Labels(a + b, |vocabulary|) && Spell(vocabulary, a + b) == Spell(vocabulary, a) + Spell(vocabulary, b)
    ensures forall c :: 0 <= c < |vocabulary| ==> Labels([c], |vocabulary|) && Spell(vocabulary, [c]) == vocabulary[c]
  {
    forall c | 0 <= c < |vocabulary| ensures Labels([c], |vocabulary|) && Spell(vocabulary, [c]) == vocabulary[c] {
      SpellsOne(vocabulary, c);
    }
    if b == [] {
      assert a + b == a;
    } else {
      var init := b[..|b| - 1];
      SpellsInOrder(vocabulary, a, init);
      assert (a + b)[..|a + b| - 1] == a + init;
      Regroup(Spell(vocabulary, a), Spell(vocabulary, init), vocabulary[b[|b| - 1]]);
    }
  }

  lemma SpellsOne(vocabulary: seq<string>, c: nat)
    requires c < |vocabulary|
    ensures Labels([c], |vocabulary|) && Spell(vocabulary, [c]) == vocabulary[c]
  {
    assert [c][..0] == [];
  }

  /** The smaller of the two counts. */
  function FrameCount(strideFrames: nat, validFrames: nat): (r: nat)
    ensures r <= strideFrames && r <= validFrames && (r == strideFrames || r == validFrames)
  {
    if strideFrames < validFrames then strideFrames else validFrames
  }

  predicate NanFrame(logProbs: seq<Score>, width: nat, t: nat) {
    Holds(logProbs, width, t + 1) && HasNan(FrameAt(logProbs, width, t))
  }

  /** No frame below t holds a NaN. */
  predicate NanFree(logProbs: seq<Score>, width: nat, t: nat) {
    forall i: nat :: i < t ==> !NanFrame(logProbs, width, i)
  }

  lemma {:induction false} FramesBelow(nodes: seq<LabelNode>, alphabet: nat, node: int, t: nat)
    requires IsForest(nodes, alphabet) && IsNode(nodes, node) && OlderThan(nodes, t)
    ensures forall i :: 0 <= i < |FramesOf(nodes, alphabet, node)| ==> FramesOf(nodes, alphabet, node)[i] < t
    decreases node
  {
    if node >= 0 {
      assert Grown(nodes, alphabet, node);
      FramesBelow(nodes, alphabet, nodes[node].parent, t);
    }
  }
}
