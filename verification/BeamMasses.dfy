/** Lists of scored hypotheses: what a list says about each key, however often the key occurs. */
module BeamMasses {
  import opened CtcAlignments

  /** A hypothesis with the mass of its alignments that end in a blank, and of the others. */
  datatype SearchPoint<K> = SearchPoint(key: K, b: real, nb: real) {
    function Total(): real { b + nb }
    function Part(endBlank: bool): real { if endBlank then b else nb }
    predicate NonNegative() { b >= 0.0 && nb >= 0.0 }
  }

  function Share<K(==)>(p: SearchPoint<K>, key: K, endBlank: bool): real {
    if p.key == key then p.Part(endBlank) else 0.0
  }

  /** All the mass that a list holds for one key. */
  function Held<K(==)>(s: seq<SearchPoint<K>>, key: K, endBlank: bool): real {
    if s == [] then 0.0 else Held(s[..|s| - 1], key, endBlank) + Share(s[|s| - 1], key, endBlank)
  }

  predicate NonNegativeAll<K>(s: seq<SearchPoint<K>>) {
    forall i :: 0 <= i < |s| ==> s[i].NonNegative()
  }

  predicate KeysDiffer<K(==)>(s: seq<SearchPoint<K>>) {
    forall i, j :: 0 <= i < j < |s| ==> s[i].key != s[j].key
  }

  predicate HasKey<K(==)>(s: seq<SearchPoint<K>>, key: K) {
    exists j :: 0 <= j < |s| && s[j].key == key
  }

  predicate KeysFrom<K(==)>(s: seq<SearchPoint<K>>, t: seq<SearchPoint<K>>) {
    forall i :: 0 <= i < |s| ==> HasKey(t, s[i].key)
  }

  lemma HeldAppend<K>(s: seq<SearchPoint<K>>, p: SearchPoint<K>, key: K, endBlank: bool)
    ensures Held(s + [p], key, endBlank) == Held(s, key, endBlank) + Share(p, key, endBlank)
  {
    assert (s + [p])[..|s|] == s;
  }

  lemma {:induction false} HeldConcat<K>(s: seq<SearchPoint<K>>, t: seq<SearchPoint<K>>, key: K, endBlank: bool)
    ensures Held(s + t, key, endBlank) == Held(s, key, endBlank) + Held(t, key, endBlank)
    decreases |t|
  {
    if t == [] {
      assert s + t == s;
    } else {
      var u := t[..|t| - 1];
      HeldConcat(s, u, key, endBlank);
      assert s + t == (s + u) + [t[|t| - 1]];
      HeldAppend(s + u, t[|t| - 1], key, endBlank);
    }
  }

  lemma HeldSplit<K>(s: seq<SearchPoint<K>>, i: nat, key: K, endBlank: bool)
    requires i < |s|
    ensures Held(s, key, endBlank) == Held(s[..i] + s[i + 1..], key, endBlank) + Share(s[i], key, endBlank)
  {
    assert s == s[..i] + [s[i]] + s[i + 1..];
    HeldConcat(s[..i] + [s[i]], s[i + 1..], key, endBlank);
    HeldAppend(s[..i], s[i], key, endBlank);
    HeldConcat(s[..i], s[i + 1..], key, endBlank);
  }

  lemma HeldUpdate<K>(s: seq<SearchPoint<K>>, i: nat, p: SearchPoint<K>, key: K, endBlank: bool)
    requires i < |s|
    ensures Held(s[i := p], key, endBlank) == Held(s, key, endBlank) - Share(s[i], key, endBlank)
      + Share(p, key, endBlank)
  {
    HeldSplit(s, i, key, endBlank);
    HeldSplit(s[i := p], i, key, endBlank);
    assert s[i := p][..i] == s[..i] && s[i := p][i + 1..] == s[i + 1..];
  }

  lemma Without<T>(s: seq<T>, i: nat)
    requires i < |s|
    ensures multiset(s) == multiset(s[..i] + s[i + 1..]) + multiset{s[i]}
  {
    assert s == s[..i] + [s[i]] + s[i + 1..];
  }

  lemma {:induction false} HeldPermuted<K>(s: seq<SearchPoint<K>>, t: seq<SearchPoint<K>>, key: K, endBlank: bool)
    requires multiset(s) == multiset(t)
    ensures Held(s, key, endBlank) == Held(t, key, endBlank)
    decreases |s|
  {
    if s == [] {
      assert |t| == |multiset(t)| == 0;
    } else {
      var p := s[|s| - 1];
      assert p in multiset(t);
      var i :| 0 <= i < |t| && t[i] == p;
      assert s == s[..|s| - 1] + [p];
      Without(t, i);
      var u := t[..i] + t[i + 1..];
      assert multiset(s) == multiset(s[..|s| - 1]) + multiset{p};
      assert multiset(s[..|s| - 1]) == multiset(s) - multiset{p};
      assert multiset(u) == multiset(t) - multiset{p};
      HeldPermuted(s[..|s| - 1], u, key, endBlank);
      HeldSplit(t, i, key, endBlank);
    }
  }

  lemma {:induction false} HeldNonNegative<K>(s: seq<SearchPoint<K>>, key: K, endBlank: bool)
    requires NonNegativeAll(s)
    ensures Held(s, key, endBlank) >= 0.0
  {
    if s != [] { HeldNonNegative(s[..|s| - 1], key, endBlank); }
  }

  lemma {:induction false} HeldAbsent<K>(s: seq<SearchPoint<K>>, key: K, endBlank: bool)
    requires forall i :: 0 <= i < |s| ==> s[i].key != key
    ensures Held(s, key, endBlank) == 0.0
  {
    if s != [] { HeldAbsent(s[..|s| - 1], key, endBlank); }
  }

  /** Where keys do not repeat, an entry holds all the mass of its key. */
  lemma HeldAlone<K>(s: seq<SearchPoint<K>>, i: nat, endBlank: bool)
    requires KeysDiffer(s) && i < |s|
    ensures Held(s, s[i].key, endBlank) == s[i].Part(endBlank)
  {
    HeldSplit(s, i, s[i].key, endBlank);
    HeldAbsent(s[..i] + s[i + 1..], s[i].key, endBlank);
  }

  /** Dropping the tail of a list only loses mass. */
  lemma HeldPrefix<K>(s: seq<SearchPoint<K>>, n: nat, key: K, endBlank: bool)
    requires n <= |s| && NonNegativeAll(s)
    ensures Held(s[..n], key, endBlank) <= Held(s, key, endBlank)
  {
    assert s == s[..n] + s[n..];
    HeldConcat(s[..n], s[n..], key, endBlank);
    HeldNonNegative(s[n..], key, endBlank);
  }

  // ----- one frame, on labellings -----

  /** What token c makes of one hypothesis: it stays, grows, or both. */
  function Grow(h: SearchPoint<seq<nat>>, c: nat, mass: real, blank: nat): (r: seq<SearchPoint<seq<nat>>>) {
    if c == blank then [SearchPoint(h.key, Times(h.Total(), mass), 0.0)]
    else if h.key != [] && Last(h.key) == c then
      [SearchPoint(h.key, 0.0, Times(h.nb, mass))]
      + if h.b > 0.0 then [SearchPoint(h.key + [c], 0.0, Times(h.b, mass))] else []
    else [SearchPoint(h.key + [c], 0.0, Times(h.Total(), mass))]
  }

  function GrowAll(h: SearchPoint<seq<nat>>, tokens: seq<nat>, frame: seq<real>, blank: nat): seq<SearchPoint<seq<nat>>>
    requires forall i :: 0 <= i < |tokens| ==> tokens[i] < |frame|
  {
    if tokens == [] then [] else
    var c := tokens[|tokens| - 1];
    GrowAll(h, tokens[..|tokens| - 1], frame, blank) + Grow(h, c, frame[c], blank)
  }

  function Spread(hs: seq<SearchPoint<seq<nat>>>, tokens: seq<nat>, frame: seq<real>, blank: nat):
      seq<SearchPoint<seq<nat>>>
    requires forall i :: 0 <= i < |tokens| ==> tokens[i] < |frame|
  {
    if hs == [] then [] else Spread(hs[..|hs| - 1], tokens, frame, blank) + GrowAll(hs[|hs| - 1], tokens, frame, blank)
  }

  predicate Distinct(tokens: seq<nat>) {
    forall i, j :: 0 <= i < j < |tokens| ==> tokens[i] != tokens[j]
  }

  /** What a token list may be: distinct labels of the frame, the blank among them. */
  predicate AreTokens(tokens: seq<nat>, blank: nat) {
    Distinct(tokens) && blank in tokens && forall i :: 0 <= i < |tokens| ==> tokens[i] <= blank
  }

  /** One hypothesis' part in the mass that reaches y by a label. */
  function Feeds(h: SearchPoint<seq<nat>>, y: seq<nat>): real
    requires y != []
  {
    ReachedMass(Share(h, y, true), Share(h, y, false), Share(h, Init(y), true), Share(h, Init(y), false), y)
  }

  lemma GrowBlank(h: SearchPoint<seq<nat>>, c: nat, mass: real, blank: nat, y: seq<nat>)
    ensures Held(Grow(h, c, mass, blank), y, true) == if c == blank then Times(BothShares(h, y), mass) else 0.0
  {
    var g := Grow(h, c, mass, blank);
    if |g| == 2 { HeldPair(g[0], g[1], y, true); } else { HeldOne(g[0], y, true); }
  }

  lemma HeldOne<K>(p: SearchPoint<K>, key: K, endBlank: bool)
    ensures Held([p], key, endBlank) == Share(p, key, endBlank)
  {
  }

  lemma HeldPair<K>(p: SearchPoint<K>, q: SearchPoint<K>, key: K, endBlank: bool)
    ensures Held([p] + [q], key, endBlank) == Share(p, key, endBlank) + Share(q, key, endBlank)
  {
    HeldAppend([p], q, key, endBlank);
  }

  lemma GrowLabel(h: SearchPoint<seq<nat>>, c: nat, mass: real, blank: nat, y: seq<nat>)
    requires h.NonNegative()
    ensures Held(Grow(h, c, mass, blank), y, false)
      == if c != blank && y != [] && Last(y) == c then Times(Feeds(h, y), mass) else 0.0
  {
    var g := Grow(h, c, mass, blank);
    if |g| == 2 { HeldPair(g[0], g[1], y, false); } else { HeldOne(g[0], y, false); }
    if y != [] {
      assert y == Init(y) + [Last(y)];
      assert h.key + [c] == y <==> (h.key == Init(y) && c == Last(y));
      assert |Init(y)| < |y|;
    }
  }

  lemma GrowAllLast(h: SearchPoint<seq<nat>>, tokens: seq<nat>, frame: seq<real>, blank: nat, y: seq<nat>,
      endBlank: bool)
    requires tokens != [] && forall i :: 0 <= i < |tokens| ==> tokens[i] < |frame|
    ensures Held(GrowAll(h, tokens, frame, blank), y, endBlank)
      == Held(GrowAll(h, tokens[..|tokens| - 1], frame, blank), y, endBlank)
      + Held(Grow(h, tokens[|tokens| - 1], frame[tokens[|tokens| - 1]], blank), y, endBlank)
  {
    var c := tokens[|tokens| - 1];
    HeldConcat(GrowAll(h, tokens[..|tokens| - 1], frame, blank), Grow(h, c, frame[c], blank), y, endBlank);
  }

  /** A token is the last of distinct tokens or among the others, not both. */
  lemma LastToken(tokens: seq<nat>, x: nat)
    requires tokens != [] && Distinct(tokens)
    ensures x in tokens <==> x in tokens[..|tokens| - 1] || x == tokens[|tokens| - 1]
    ensures !(x in tokens[..|tokens| - 1] && x == tokens[|tokens| - 1])
  {
    assert tokens == tokens[..|tokens| - 1] + [tokens[|tokens| - 1]];
  }

  lemma {:induction false} GrowAllBlank(h: SearchPoint<seq<nat>>, tokens: seq<nat>, frame: seq<real>, blank: nat,
      y: seq<nat>)
    requires Distinct(tokens) && blank < |frame| && forall i :: 0 <= i < |tokens| ==> tokens[i] < |frame|
    ensures Held(GrowAll(h, tokens, frame, blank), y, true)
      == if blank in tokens then Times(BothShares(h, y), frame[blank]) else 0.0
    decreases |tokens|
  {
    if tokens != [] {
      var c, fewer := tokens[|tokens| - 1], tokens[..|tokens| - 1];
      GrowAllBlank(h, fewer, frame, blank, y);
      GrowAllLast(h, tokens, frame, blank, y, true);
      GrowBlank(h, c, frame[c], blank, y);
      LastToken(tokens, blank);
    }
  }

  lemma {:induction false} GrowAllLabel(h: SearchPoint<seq<nat>>, tokens: seq<nat>, frame: seq<real>, blank: nat,
      y: seq<nat>)
    requires Distinct(tokens) && forall i :: 0 <= i < |tokens| ==> tokens[i] < |frame|
    requires h.NonNegative() && Labels(y, blank)
    ensures Held(GrowAll(h, tokens, frame, blank), y, false)
      == if y != [] && Last(y) in tokens then Times(Feeds(h, y), frame[Last(y)]) else 0.0
    decreases |tokens|
  {
    if y != [] { assert Last(y) < blank; }
    if tokens != [] {
      var c, fewer := tokens[|tokens| - 1], tokens[..|tokens| - 1];
      GrowAllLabel(h, fewer, frame, blank, y);
      GrowAllLast(h, tokens, frame, blank, y, false);
      GrowLabel(h, c, frame[c], blank, y);
      if y != [] { LastToken(tokens, Last(y)); }
    }
  }

  /** The mass of a list that reaches y by a label. */
  function Feed(hs: seq<SearchPoint<seq<nat>>>, y: seq<nat>): real
    requires y != []
  {
    ReachedMass(Held(hs, y, true), Held(hs, y, false), Held(hs, Init(y), true), Held(hs, Init(y), false), y)
  }

  lemma TimesZero(x: real)
    ensures Times(0.0, x) == 0.0
  {
  }

  lemma SpreadLast(hs: seq<SearchPoint<seq<nat>>>, tokens: seq<nat>, frame: seq<real>, blank: nat, y: seq<nat>,
      endBlank: bool)
    requires hs != [] && forall i :: 0 <= i < |tokens| ==> tokens[i] < |frame|
    ensures Held(Spread(hs, tokens, frame, blank), y, endBlank)
      == Held(Spread(hs[..|hs| - 1], tokens, frame, blank), y, endBlank)
        + Held(GrowAll(hs[|hs| - 1], tokens, frame, blank), y, endBlank)
  {
    HeldConcat(Spread(hs[..|hs| - 1], tokens, frame, blank), GrowAll(hs[|hs| - 1], tokens, frame, blank), y, endBlank);
  }

  function BothShares(h: SearchPoint<seq<nat>>, y: seq<nat>): real {
    Share(h, y, true) + Share(h, y, false)
  }

  /** All the mass that a list holds for y, however its alignments end. */
  function Both(hs: seq<SearchPoint<seq<nat>>>, y: seq<nat>): real {
    if hs == [] then 0.0 else Both(hs[..|hs| - 1], y) + BothShares(hs[|hs| - 1], y)
  }

  lemma {:induction false} BothHeld(hs: seq<SearchPoint<seq<nat>>>, y: seq<nat>)
    ensures Both(hs, y) == Held(hs, y, true) + Held(hs, y, false)
  {
    if hs != [] { BothHeld(hs[..|hs| - 1], y); }
  }

  lemma TimesSum(total: real, a: real, b: real, x: real)
    requires total == a + b
    ensures Times(total, x) == Times(a, x) + Times(b, x)
  {
    Distribute(a, b, x);
  }

  lemma BothTimes(hs: seq<SearchPoint<seq<nat>>>, y: seq<nat>, x: real)
    requires hs != []
    ensures Times(Both(hs, y), x)
      == Times(Both(hs[..|hs| - 1], y), x) + Times(BothShares(hs[|hs| - 1], y), x)
  {
    TimesSum(Both(hs, y), Both(hs[..|hs| - 1], y), BothShares(hs[|hs| - 1], y), x);
  }

  /** One frame is linear in the masses: ending in a blank ... */
  lemma {:induction false} SpreadBlank(hs: seq<SearchPoint<seq<nat>>>, tokens: seq<nat>, frame: seq<real>, blank: nat,
      y: seq<nat>)
    requires AreTokens(tokens, blank) && |frame| == blank + 1
    ensures Held(Spread(hs, tokens, frame, blank), y, true) == Times(Both(hs, y), frame[blank])
    decreases |hs|
  {
    if hs == [] {
      TimesZero(frame[blank]);
    } else {
      var h, fewer := hs[|hs| - 1], hs[..|hs| - 1];
      SpreadBlank(fewer, tokens, frame, blank, y);
      SpreadLast(hs, tokens, frame, blank, y, true);
      GrowAllBlank(h, tokens, frame, blank, y);
      BothTimes(hs, y, frame[blank]);
    }
  }

  /** ... and ending in a label, where tokens that were cut bring nothing. */
  lemma {:induction false} SpreadLabel(hs: seq<SearchPoint<seq<nat>>>, tokens: seq<nat>, frame: seq<real>, blank: nat,
      y: seq<nat>)
    requires AreTokens(tokens, blank) && |frame| == blank + 1
    requires NonNegativeAll(hs) && Labels(y, blank)
    ensures Held(Spread(hs, tokens, frame, blank), y, false)
      == if y != [] && Last(y) in tokens then Times(Feed(hs, y), frame[Last(y)]) else 0.0
    decreases |hs|
  {
    if y != [] && Last(y) in tokens { TimesZero(frame[Last(y)]); }
    if hs != [] {
      var h, fewer := hs[|hs| - 1], hs[..|hs| - 1];
      SpreadLabel(fewer, tokens, frame, blank, y);
      SpreadLast(hs, tokens, frame, blank, y, false);
      GrowAllLabel(h, tokens, frame, blank, y);
      if y != [] && Last(y) in tokens {
        FeedSplits(hs, y);
        TimesSum(Feed(hs, y), Feed(fewer, y), Feeds(h, y), frame[Last(y)]);
      }
    }
  }

  lemma FeedSplits(hs: seq<SearchPoint<seq<nat>>>, y: seq<nat>)
    requires hs != [] && y != []
    ensures Feed(hs, y) == Feed(hs[..|hs| - 1], y) + Feeds(hs[|hs| - 1], y)
  {
  }

  /** A hypothesis always leaves at least one. */
  lemma SpreadNonEmpty(hs: seq<SearchPoint<seq<nat>>>, tokens: seq<nat>, frame: seq<real>, blank: nat)
    requires hs != [] && AreTokens(tokens, blank) && |frame| == blank + 1
    ensures Spread(hs, tokens, frame, blank) != []
  {
    assert tokens != [];
    var c := tokens[|tokens| - 1];
    assert |Grow(hs[|hs| - 1], c, frame[c], blank)| > 0;
  }

  lemma {:induction false} GrowAllNonNegative(h: SearchPoint<seq<nat>>, tokens: seq<nat>, frame: seq<real>, blank: nat)
    requires h.NonNegative() && IsFrame(frame, blank) && forall i :: 0 <= i < |tokens| ==> tokens[i] < |frame|
    ensures NonNegativeAll(GrowAll(h, tokens, frame, blank))
    decreases |tokens|
  {
    if tokens != [] {
      GrowAllNonNegative(h, tokens[..|tokens| - 1], frame, blank);
      var mass := frame[tokens[|tokens| - 1]];
      TimesZero(mass);
      TimesGrows(0.0, h.b, mass);
      TimesGrows(0.0, h.nb, mass);
      TimesGrows(0.0, h.Total(), mass);
    }
  }

  lemma {:induction false} SpreadNonNegative(hs: seq<SearchPoint<seq<nat>>>, tokens: seq<nat>, frame: seq<real>,
      blank: nat)
    requires NonNegativeAll(hs) && IsFrame(frame, blank) && forall i :: 0 <= i < |tokens| ==> tokens[i] < |frame|
    ensures NonNegativeAll(Spread(hs, tokens, frame, blank))
    decreases |hs|
  {
    if hs != [] {
      SpreadNonNegative(hs[..|hs| - 1], tokens, frame, blank);
      GrowAllNonNegative(hs[|hs| - 1], tokens, frame, blank);
    }
  }

  // ----- against the alignment sums -----

  /** For every labelling the list holds no more than the alignments bring, or exactly that. */
  ghost predicate Within(hs: seq<SearchPoint<seq<nat>>>, frames: seq<seq<real>>, blank: nat, n: nat) {
    forall y, endBlank :: Labels(y, blank) ==> Held(hs, y, endBlank) <= PathSum(frames, blank, n, y, endBlank)
  }

  ghost predicate Exact(hs: seq<SearchPoint<seq<nat>>>, frames: seq<seq<real>>, blank: nat, n: nat) {
    forall y, endBlank :: Labels(y, blank) ==> Held(hs, y, endBlank) == PathSum(frames, blank, n, y, endBlank)
  }

  /** With every token, one frame turns exact masses into exact masses. */
  lemma SpreadExact(hs: seq<SearchPoint<seq<nat>>>, tokens: seq<nat>, frames: seq<seq<real>>, blank: nat, n: nat)
    requires n < |frames| && |frames[n]| == blank + 1
    requires AreTokens(tokens, blank) && (forall c: nat :: c <= blank ==> c in tokens)
    requires NonNegativeAll(hs) && Exact(hs, frames, blank, n)
    ensures Exact(Spread(hs, tokens, frames[n], blank), frames, blank, n + 1)
  {
    forall y, endBlank | Labels(y, blank)
      ensures Held(Spread(hs, tokens, frames[n], blank), y, endBlank) == PathSum(frames, blank, n + 1, y, endBlank)
    {
      if endBlank {
        SpreadExactBlank(hs, tokens, frames, blank, n, y);
      } else {
        SpreadExactLabel(hs, tokens, frames, blank, n, y);
      }
    }
  }

  lemma SpreadExactBlank(hs: seq<SearchPoint<seq<nat>>>, tokens: seq<nat>, frames: seq<seq<real>>, blank: nat, n: nat,
      y: seq<nat>)
    requires n < |frames| && |frames[n]| == blank + 1 && AreTokens(tokens, blank)
    requires Exact(hs, frames, blank, n) && Labels(y, blank)
    ensures Held(Spread(hs, tokens, frames[n], blank), y, true) == PathSum(frames, blank, n + 1, y, true)
  {
    PathSumStep(frames, blank, n, y);
    SpreadBlank(hs, tokens, frames[n], blank, y);
    BothHeld(hs, y);
    assert Both(hs, y) == Total(frames, blank, n, y);
  }

  lemma SpreadExactLabel(hs: seq<SearchPoint<seq<nat>>>, tokens: seq<nat>, frames: seq<seq<real>>, blank: nat, n: nat,
      y: seq<nat>)
    requires n < |frames| && |frames[n]| == blank + 1
    requires AreTokens(tokens, blank) && (forall c: nat :: c <= blank ==> c in tokens)
    requires NonNegativeAll(hs) && Exact(hs, frames, blank, n) && Labels(y, blank)
    ensures Held(Spread(hs, tokens, frames[n], blank), y, false) == PathSum(frames, blank, n + 1, y, false)
  {
    PathSumStep(frames, blank, n, y);
    SpreadLabel(hs, tokens, frames[n], blank, y);
    if y != [] {
      assert Last(y) < blank;
      assert Labels(Init(y), blank);
      assert Feed(hs, y) == ReachedMass(PathSum(frames, blank, n, y, true), PathSum(frames, blank, n, y, false),
        PathSum(frames, blank, n, Init(y), true), PathSum(frames, blank, n, Init(y), false), y);
    }
  }

  lemma TimesGrows(a: real, b: real, x: real)
    requires a <= b && x >= 0.0
    ensures Times(a, x) <= Times(b, x)
  {
  }

  /** With any tokens, one frame keeps every mass within its alignment sum. */
  lemma SpreadWithin(hs: seq<SearchPoint<seq<nat>>>, tokens: seq<nat>, frames: seq<seq<real>>, blank: nat, n: nat)
    requires n < |frames| && IsFrame(frames[n], blank) && AreTokens(tokens, blank)
    requires NonNegativeAll(hs) && Within(hs, frames, blank, n)
    ensures Within(Spread(hs, tokens, frames[n], blank), frames, blank, n + 1)
  {
    forall y, endBlank | Labels(y, blank)
      ensures Held(Spread(hs, tokens, frames[n], blank), y, endBlank) <= PathSum(frames, blank, n + 1, y, endBlank)
    {
      PathSumStep(frames, blank, n, y);
      if endBlank {
        SpreadBlank(hs, tokens, frames[n], blank, y);
        BothHeld(hs, y);
        TimesGrows(Both(hs, y), Total(frames, blank, n, y), frames[n][blank]);
      } else {
        SpreadLabel(hs, tokens, frames[n], blank, y);
        if y != [] { LabelWithin(hs, frames, blank, n, y); }
      }
    }
  }

  lemma LabelWithin(hs: seq<SearchPoint<seq<nat>>>, frames: seq<seq<real>>, blank: nat, n: nat, y: seq<nat>)
    requires n < |frames| && IsFrame(frames[n], blank) && y != [] && Labels(y, blank)
    requires NonNegativeAll(hs) && Within(hs, frames, blank, n)
    ensures Last(y) < blank
    ensures 0.0 <= Times(Feed(hs, y), frames[n][Last(y)]) <= PathSum(frames, blank, n + 1, y, false)
  {
    PathSumStep(frames, blank, n, y);
    assert Last(y) < blank;
    assert Labels(Init(y), blank);
    HeldNonNegative(hs, y, false);
    HeldNonNegative(hs, Init(y), true);
    HeldNonNegative(hs, Init(y), false);
    TimesZero(frames[n][Last(y)]);
    TimesGrows(0.0, Feed(hs, y), frames[n][Last(y)]);
    TimesGrows(Feed(hs, y),
      ReachedMass(PathSum(frames, blank, n, y, true), PathSum(frames, blank, n, y, false),
        PathSum(frames, blank, n, Init(y), true), PathSum(frames, blank, n, Init(y), false), y), frames[n][Last(y)]);
  }

  /** Where the masses are exact, an entry of greatest total is a labelling of greatest probability. */
  lemma BestOfExact(hs: seq<SearchPoint<seq<nat>>>, frames: seq<seq<real>>, blank: nat, n: nat, z: seq<nat>)
    requires KeysDiffer(hs) && Exact(hs, frames, blank, n) && Labels(z, blank)
    requires hs != [] && Labels(hs[0].key, blank) && hs[0].Total() >= 0.0
    requires forall i :: 0 <= i < |hs| ==> hs[i].Total() <= hs[0].Total()
    ensures Total(frames, blank, n, z) <= Total(frames, blank, n, hs[0].key) == hs[0].Total()
  {
    HeldAlone(hs, 0, true);
    HeldAlone(hs, 0, false);
    assert Held(hs, z, true) == PathSum(frames, blank, n, z, true);
    assert Held(hs, z, false) == PathSum(frames, blank, n, z, false);
    if i :| 0 <= i < |hs| && hs[i].key == z {
      HeldAlone(hs, i, true);
      HeldAlone(hs, i, false);
    } else {
      HeldAbsent(hs, z, true);
      HeldAbsent(hs, z, false);
    }
  }
}
