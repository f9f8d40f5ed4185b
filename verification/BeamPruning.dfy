/** What one frame of the beam search does to a list of scored hypotheses besides extending them:
    sorting, merging entries of one node, and pruning. */
module BeamPruning {
  import opened Topology
  import opened CtcAlignments
  import opened BeamMasses

  // ----- library calls -----

  function Retain<T>(s: seq<T>, keep: T -> bool): seq<T> {
    if s == [] then [] else Retain(s[..|s| - 1], keep) + if keep(s[|s| - 1]) then [s[|s| - 1]] else []
  }

  lemma {:induction false} RetainMembers<T>(s: seq<T>, keep: T -> bool)
    ensures forall x :: x in Retain(s, keep) <==> x in s && keep(x)
  {
    if s != [] {
      RetainMembers(s[..|s| - 1], keep);
      assert s == s[..|s| - 1] + [s[|s| - 1]];
    }
  }

  predicate Ascending<T(!new)>(s: seq<T>, rank: T -> real) {
    forall i, j :: 0 <= i < j < |s| ==> rank(s[i]) <= rank(s[j])
  }

  function Insert<T(!new)>(s: seq<T>, x: T, rank: T -> real): (r: seq<T>)
    requires Ascending(s, rank)
    ensures multiset(r) == multiset(s) + multiset{x} && Ascending(r, rank)
  {
    if s == [] || rank(s[|s| - 1]) <= rank(x) then s + [x] else
    var last, fewer := s[|s| - 1], s[..|s| - 1];
    var r := Insert(fewer, x, rank);
    assert s == fewer + [last];
    AllBelow(r, fewer, x, last, rank);
    r + [last]
  }

  lemma AllBelow<T(!new)>(r: seq<T>, fewer: seq<T>, x: T, last: T, rank: T -> real)
    requires multiset(r) == multiset(fewer) + multiset{x} && rank(x) <= rank(last)
    requires forall i :: 0 <= i < |fewer| ==> rank(fewer[i]) <= rank(last)
    ensures forall i :: 0 <= i < |r| ==> rank(r[i]) <= rank(last)
  {
    forall i | 0 <= i < |r| ensures rank(r[i]) <= rank(last) {
      assert r[i] in multiset(r);
      assert r[i] == x || r[i] in fewer;
    }
  }

  function SortBy<T(!new)>(s: seq<T>, rank: T -> real): (r: seq<T>)
    ensures multiset(r) == multiset(s) && |r| == |s| && Ascending(r, rank)
  {
    if s == [] then [] else
    assert s == s[..|s| - 1] + [s[|s| - 1]];
    var r := Insert(SortBy(s[..|s| - 1], rank), s[|s| - 1], rank);
    assert |r| == |multiset(r)| == |multiset(s)|;
    r
  }

  // ----- one entry per node -----

  const DELETED: int := -0x8000_0000

  predicate Named(s: seq<SearchPoint<int>>) {
    forall i :: 0 <= i < |s| ==> s[i].key > DELETED
  }

  predicate ByNode(s: seq<SearchPoint<int>>) {
    forall i, j :: 0 <= i < j < |s| ==> s[i].key <= s[j].key
  }

  ghost predicate SameMasses(s: seq<SearchPoint<int>>, t: seq<SearchPoint<int>>) {
    forall key, endBlank :: key != DELETED ==> Held(s, key, endBlank) == Held(t, key, endBlank)
  }

  function Merged(p: SearchPoint<int>, q: SearchPoint<int>): SearchPoint<int> {
    SearchPoint(p.key, p.b + q.b, p.nb + q.nb)
  }

  lemma MergeStep(s: seq<SearchPoint<int>>, a: nat, b: nat)
    requires a < b < |s| && s[a].key == s[b].key != DELETED
    ensures SameMasses(s[a := Merged(s[a], s[b])][b := s[b].(key := DELETED)], s)
  {
    var m, d := Merged(s[a], s[b]), s[b].(key := DELETED);
    forall key, endBlank | key != DELETED ensures Held(s[a := m][b := d], key, endBlank) == Held(s, key, endBlank) {
      HeldUpdate(s, a, m, key, endBlank);
      HeldUpdate(s[a := m], b, d, key, endBlank);
    }
  }

  lemma {:induction false} RetainNamed(s: seq<SearchPoint<int>>)
    requires forall i, j :: 0 <= i < j < |s| && s[i].key != DELETED && s[j].key != DELETED ==> s[i].key < s[j].key
    ensures var r := Retain(s, (p: SearchPoint<int>) => p.key != DELETED); KeysDiffer(r) && SameMasses(r, s)
  {
    var keep := (p: SearchPoint<int>) => p.key != DELETED;
    if s != [] {
      var fewer, p := s[..|s| - 1], s[|s| - 1];
      RetainNamed(fewer);
      RetainMembers(fewer, keep);
      if keep(p) {
        forall key, endBlank | key != DELETED ensures Held(Retain(s, keep), key, endBlank) == Held(s, key, endBlank) {
          HeldAppend(Retain(fewer, keep), p, key, endBlank);
        }
        forall i | 0 <= i < |Retain(fewer, keep)| ensures Retain(fewer, keep)[i].key != p.key {
          assert Retain(fewer, keep)[i] in fewer;
        }
      } else {
        assert Retain(s, keep) == Retain(fewer, keep);
      }
    }
  }

  /** The sweep after i entries: lastPos holds the last key met, deleted entries hold none, and home says where
      each key met so far now is. */
  ghost predicate Sweeping(
    sorted: seq<SearchPoint<int>>, s: seq<SearchPoint<int>>, i: nat, lastKey: int, lastPos: nat, home: seq<nat>)
  {
    && |s| == |sorted| && i <= |s| && NonNegativeAll(s) && SameMasses(s, sorted)
    && (forall j :: i <= j < |s| ==> s[j] == sorted[j])
    && (if i == 0 then lastKey == DELETED else lastPos < i && lastKey == sorted[i - 1].key == s[lastPos].key)
    && (forall j :: lastPos < j < i ==> s[j].key == DELETED)
    && (forall a, b :: 0 <= a < b < i && s[a].key != DELETED && s[b].key != DELETED ==> s[a].key < s[b].key)
    && (forall j :: 0 <= j < i ==> s[j].key == DELETED || s[j].key == sorted[j].key)
    && |home| == i && (forall j :: 0 <= j < i ==> KeyAt(sorted, s, i, j, home[j]))
  }

  predicate KeyAt(sorted: seq<SearchPoint<int>>, s: seq<SearchPoint<int>>, i: nat, j: int, at: nat)
    requires 0 <= j < |sorted| && i <= |s|
  {
    at < i && s[at].key == sorted[j].key
  }

  lemma SweepMerges(sorted: seq<SearchPoint<int>>, s: seq<SearchPoint<int>>, i: nat, lastKey: int, lastPos: nat,
      home: seq<nat>)
    requires ByNode(sorted) && Named(sorted) && Sweeping(sorted, s, i, lastKey, lastPos, home)
    requires i < |s| && s[i].key == lastKey
    ensures lastPos < i
    ensures var next := s[lastPos := Merged(s[lastPos], s[i])][i := s[i].(key := DELETED)];
      Sweeping(sorted, next, i + 1, lastKey, lastPos, home + [lastPos])
  {
    MergeStep(s, lastPos, i);
    var next := s[lastPos := Merged(s[lastPos], s[i])][i := s[i].(key := DELETED)];
    forall j | 0 <= j < i + 1 ensures KeyAt(sorted, next, i + 1, j, (home + [lastPos])[j]) {
      if j < i { assert KeyAt(sorted, s, i, j, home[j]); }
    }
  }

  lemma SweepMoves(sorted: seq<SearchPoint<int>>, s: seq<SearchPoint<int>>, i: nat, lastKey: int, lastPos: nat,
      home: seq<nat>)
    requires ByNode(sorted) && Named(sorted) && Sweeping(sorted, s, i, lastKey, lastPos, home)
    requires i < |s| && s[i].key != lastKey
    ensures Sweeping(sorted, s, i + 1, s[i].key, i, home + [i])
  {
    forall j | 0 <= j < i + 1 ensures KeyAt(sorted, s, i + 1, j, (home + [i])[j]) {
      if j < i { assert KeyAt(sorted, s, i, j, home[j]); }
    }
  }

  /** The in-place sweep over entries sorted by node: it keeps every node and its masses and leaves one entry per
      node. */
  method MergeSameNodes(sorted: seq<SearchPoint<int>>) returns (beam: seq<SearchPoint<int>>)
    requires ByNode(sorted) && Named(sorted) && NonNegativeAll(sorted)
    ensures KeysDiffer(beam) && SameMasses(beam, sorted) && NonNegativeAll(beam)
    ensures KeysFrom(beam, sorted) && KeysFrom(sorted, beam)
  {
    beam := sorted;
    var lastKey, lastPos := DELETED, 0;
    ghost var home: seq<nat> := [];
    for i := 0 to |beam|
      invariant Sweeping(sorted, beam, i, lastKey, lastPos, home)
    {
      if beam[i].key == lastKey {
        SweepMerges(sorted, beam, i, lastKey, lastPos, home);
        beam := beam[lastPos := Merged(beam[lastPos], beam[i])][i := beam[i].(key := DELETED)];
        home := home + [lastPos];
      } else {
        SweepMoves(sorted, beam, i, lastKey, lastPos, home);
        lastPos, lastKey, home := i, beam[i].key, home + [i];
      }
    }
    RetainSwept(sorted, beam, lastKey, lastPos, home);
    beam := Retain(beam, (p: SearchPoint<int>) => p.key != DELETED);
  }

  lemma RetainSwept(sorted: seq<SearchPoint<int>>, s: seq<SearchPoint<int>>, lastKey: int, lastPos: nat, home: seq<nat>)
    requires Named(sorted) && Sweeping(sorted, s, |s|, lastKey, lastPos, home)
    ensures var r := Retain(s, (p: SearchPoint<int>) => p.key != DELETED);
      KeysDiffer(r) && SameMasses(r, sorted) && NonNegativeAll(r) && KeysFrom(r, sorted) && KeysFrom(sorted, r)
  {
    RetainNamed(s);
    RetainedCome(sorted, s);
    forall i | 0 <= i < |sorted|
      ensures HasKey(Retain(s, (p: SearchPoint<int>) => p.key != DELETED), sorted[i].key)
    {
      assert KeyAt(sorted, s, |s|, i, home[i]);
      RetainedStay(s, home[i]);
    }
  }

  lemma RetainedStay(s: seq<SearchPoint<int>>, at: nat)
    requires at < |s| && s[at].key != DELETED
    ensures HasKey(Retain(s, (p: SearchPoint<int>) => p.key != DELETED), s[at].key)
  {
    var r := Retain(s, (p: SearchPoint<int>) => p.key != DELETED);
    RetainMembers(s, (p: SearchPoint<int>) => p.key != DELETED);
    assert s[at] in r;
  }

  lemma RetainedCome(sorted: seq<SearchPoint<int>>, s: seq<SearchPoint<int>>)
    requires |s| == |sorted| && NonNegativeAll(s)
    requires forall j :: 0 <= j < |s| ==> s[j].key == DELETED || s[j].key == sorted[j].key
    ensures var r := Retain(s, (p: SearchPoint<int>) => p.key != DELETED); NonNegativeAll(r) && KeysFrom(r, sorted)
  {
    var r := Retain(s, (p: SearchPoint<int>) => p.key != DELETED);
    RetainMembers(s, (p: SearchPoint<int>) => p.key != DELETED);
    forall i | 0 <= i < |r| ensures r[i].NonNegative() && HasKey(sorted, r[i].key) {
      assert r[i] in s;
      var j :| 0 <= j < |s| && s[j] == r[i];
      assert sorted[j].key == r[i].key;
    }
  }

  // ----- pruning -----

  predicate Ranked<K(!new)>(s: seq<SearchPoint<K>>) {
    forall i, j :: 0 <= i < j < |s| ==> s[i].Total() >= s[j].Total()
  }

  /** The threshold as a factor: e to the power of minus the log-domain threshold. NaN and minus infinity give a
      cutoff that no total meets, not even the best. */
  datatype Threshold = Off | Factor(factor: real) | Unmeetable

  function AboveCutoff<K>(best: real, factor: real): SearchPoint<K> -> bool {
    (p: SearchPoint<K>) => p.Total() >= Times(best, factor)
  }

  function Pruned<K>(ranked: seq<SearchPoint<K>>, threshold: Threshold, beamSize: nat): seq<SearchPoint<K>> {
    var kept :=
      if threshold.Off? || ranked == [] then ranked
      else if threshold.Unmeetable? then []
      else Retain(ranked, AboveCutoff(ranked[0].Total(), threshold.factor));
    if |kept| > beamSize then kept[..beamSize] else kept
  }

  lemma {:induction false} RetainIsPrefix<K(!new)>(s: seq<SearchPoint<K>>, best: real, factor: real)
    requires Ranked(s)
    ensures var r := Retain(s, AboveCutoff(best, factor)); |r| <= |s| && r == s[..|r|]
    ensures |Retain(s, AboveCutoff(best, factor))| == |s| <==> s == [] || s[|s| - 1].Total() >= Times(best, factor)
    ensures Retain(s, AboveCutoff(best, factor)) == [] <==> s == [] || s[0].Total() < Times(best, factor)
  {
    if s != [] { RetainIsPrefix(s[..|s| - 1], best, factor); }
  }

  /** Pruning keeps the front of the ranked list. */
  lemma PrunedIsPrefix<K(!new)>(ranked: seq<SearchPoint<K>>, threshold: Threshold, beamSize: nat)
    requires Ranked(ranked)
    ensures var r := Pruned(ranked, threshold, beamSize); |r| <= |ranked| && r == ranked[..|r|] && |r| <= beamSize
    ensures (threshold.Off? || (threshold == Factor(0.0) && NonNegativeAll(ranked))) && |ranked| <= beamSize
      ==> Pruned(ranked, threshold, beamSize) == ranked
  {
    if threshold.Factor? && ranked != [] {
      RetainIsPrefix(ranked, ranked[0].Total(), threshold.factor);
      if threshold.factor == 0.0 { assert Times(ranked[0].Total(), 0.0) == 0.0; }
    }
  }

  lemma {:induction false} RetainExactly<K(!new)>(s: seq<SearchPoint<K>>, best: real, factor: real, i: nat)
    requires Ranked(s) && i < |s|
    ensures i < |Retain(s, AboveCutoff(best, factor))| <==> s[i].Total() >= Times(best, factor)
  {
    var init := s[..|s| - 1];
    RetainIsPrefix(s, best, factor);
    RetainIsPrefix(init, best, factor);
    if i < |init| {
      RetainExactly(init, best, factor, i);
      assert init[i] == s[i];
      assert s[i].Total() >= s[|s| - 1].Total();
    }
  }

  /** Which hypotheses survive: those among the first beamSize whose mass is at least the best one's times the
      factor. */
  lemma PrunedExactly<K(!new)>(ranked: seq<SearchPoint<K>>, threshold: Threshold, beamSize: nat, i: nat)
    requires Ranked(ranked) && i < |ranked|
    ensures i < |Pruned(ranked, threshold, beamSize)| <==>
      && i < beamSize && !threshold.Unmeetable?
      && (threshold.Factor? ==> ranked[i].Total() >= Times(ranked[0].Total(), threshold.factor))
    ensures i < |Pruned(ranked, threshold, beamSize)| ==> Pruned(ranked, threshold, beamSize)[i] == ranked[i]
  {
    PrunedIsPrefix(ranked, threshold, beamSize);
    if threshold.Factor? { RetainExactly(ranked, ranked[0].Total(), threshold.factor, i); }
  }

  /** The best hypothesis survives pruning exactly when the threshold is at least zero, a factor of at most one, or
      finite on a beam without mass. Any other threshold, negative or NaN, empties the beam. */
  lemma BestSurvives<K(!new)>(ranked: seq<SearchPoint<K>>, threshold: Threshold, beamSize: nat)
    requires Ranked(ranked) && NonNegativeAll(ranked) && ranked != [] && beamSize > 0
    ensures Pruned(ranked, threshold, beamSize) != []
      <==> threshold.Off? || (threshold.Factor? && (threshold.factor <= 1.0 || ranked[0].Total() == 0.0))
    ensures Pruned(ranked, threshold, beamSize) != [] ==> Pruned(ranked, threshold, beamSize)[0] == ranked[0]
  {
    PrunedIsPrefix(ranked, threshold, beamSize);
    if threshold.Factor? {
      RetainIsPrefix(ranked, ranked[0].Total(), threshold.factor);
      FactorKeeps(ranked[0].Total(), threshold.factor);
    }
  }

  /** A factor of two, a log-domain threshold of minus log 2, drops the only hypothesis. */
  lemma NegativeThresholdEmptiesBeam()
    ensures Pruned([SearchPoint(-1, 1.0, 0.0)], Factor(2.0), 100) == []
  {
    var beam := [SearchPoint(-1, 1.0, 0.0)];
    assert beam[0].Total() == 1.0;
    BestSurvives(beam, Factor(2.0), 100);
  }

  /** A NaN threshold, which is not negative, drops every hypothesis too. */
  lemma NanThresholdEmptiesBeam<K(!new)>(ranked: seq<SearchPoint<K>>, beamSize: nat)
    ensures Pruned(ranked, Unmeetable, beamSize) == []
  {
  }

  lemma FactorKeeps(best: real, factor: real)
    requires best >= 0.0
    ensures best >= Times(best, factor) <==> factor <= 1.0 || best == 0.0
  {
    Distribute(best, -best, factor);
    if best > 0.0 && factor > 1.0 { assert best * (factor - 1.0) > 0.0; }
    if factor <= 1.0 { assert best * (1.0 - factor) >= 0.0; }
  }

  /** Dropping hypotheses never adds mass. */
  lemma PrunedHolds<K(!new)>(ranked: seq<SearchPoint<K>>, threshold: Threshold, beamSize: nat, key: K,
      endBlank: bool)
    requires Ranked(ranked) && NonNegativeAll(ranked)
    ensures Held(Pruned(ranked, threshold, beamSize), key, endBlank) <= Held(ranked, key, endBlank)
  {
    PrunedIsPrefix(ranked, threshold, beamSize);
    HeldPrefix(ranked, |Pruned(ranked, threshold, beamSize)|, key, endBlank);
  }

  // ----- the tokens of a frame -----

  lemma {:induction false} CountOfDistinct(s: seq<nat>, x: nat)
    requires Distinct(s)
    ensures multiset(s)[x] <= 1
  {
    if s != [] {
      CountOfDistinct(s[..|s| - 1], x);
      assert s == s[..|s| - 1] + [s[|s| - 1]];
      if x == s[|s| - 1] { assert x !in s[..|s| - 1]; }
    }
  }

  lemma DistinctPermuted(s: seq<nat>, t: seq<nat>)
    requires Distinct(s) && multiset(s) == multiset(t)
    ensures Distinct(t)
  {
    forall i, j | 0 <= i < j < |t| ensures t[i] != t[j] {
      CountOfDistinct(s, t[j]);
      Without(t, j);
      assert t[j] !in multiset(t[..j] + t[j + 1..]);
      assert t[i] == (t[..j] + t[j + 1..])[i];
    }
  }

  /** `top` lists k labels whose masses no other label beats. */
  predicate IsTop(frame: seq<real>, top: seq<nat>, k: nat) {
    && |top| == k && Distinct(top) && (forall i :: 0 <= i < k ==> top[i] < |frame|)
    && (forall c: nat, i :: 0 <= c < |frame| && 0 <= i < k && c !in top ==> frame[c] <= frame[top[i]])
  }

  function AllTokens(n: nat): seq<nat> {
    seq(n, i => i)
  }

  lemma SortedTop(frame: seq<real>, sorted: seq<nat>, k: nat)
    requires multiset(sorted) == multiset(AllTokens(|frame|)) && k <= |sorted|
    requires Ascending(sorted, (c: nat) => if c < |frame| then -frame[c] else 0.0)
    ensures IsTop(frame, sorted[..k], k)
  {
    var rank := (c: nat) => if c < |frame| then -frame[c] else 0.0;
    var all, top := AllTokens(|frame|), sorted[..k];
    DistinctPermuted(all, sorted);
    forall i | 0 <= i < |sorted| ensures sorted[i] < |frame| { assert sorted[i] in multiset(all); }
    forall c: nat, i | 0 <= c < |frame| && 0 <= i < k && c !in top ensures frame[c] <= frame[top[i]] {
      var j := OutsideTop(frame, sorted, k, c);
      assert rank(sorted[i]) <= rank(sorted[j]);
    }
  }

  /** A label that is not among the first k stands behind them. */
  lemma OutsideTop(frame: seq<real>, sorted: seq<nat>, k: nat, c: nat) returns (j: nat)
    requires multiset(sorted) == multiset(AllTokens(|frame|)) && k <= |sorted| && c < |frame| && c !in sorted[..k]
    ensures k <= j < |sorted| && sorted[j] == c
  {
    assert AllTokens(|frame|)[c] == c;
    assert c in multiset(sorted);
    j :| 0 <= j < |sorted| && sorted[j] == c;
    assert sorted == sorted[..k] + sorted[k..];
    assert forall x :: 0 <= x < k ==> sorted[x] in sorted[..k];
  }

  /** The tokens a frame may be searched with: all of them, just the blank, or k best ones and the blank. */
  predicate IsTokenChoice(frame: seq<real>, k: Option<nat>, blank: nat, out: seq<nat>) {
    && AreTokens(out, blank)
    && (k.None? || k.value >= |frame| ==> out == AllTokens(|frame|))
    && (k == Some(0) ==> out == [blank])
    && (k.Some? && 0 < k.value < |frame| ==>
          && k.value <= |out| && IsTop(frame, out[..k.value], k.value)
          && out == out[..k.value] + if blank in out[..k.value] then [] else [blank])
  }

  method TopKTokens(frame: seq<real>, k: Option<nat>, blank: nat) returns (out: seq<nat>)
    requires |frame| == blank + 1
    ensures IsTokenChoice(frame, k, blank, out)
  {
    var all := AllTokens(|frame|);
    assert blank == all[blank];
    if k.None? { return all; }
    if k.value == 0 { return [blank]; }
    if k.value >= |frame| { return all; }
    var sorted := SortBy<nat>(all, (c: nat) => if c < |frame| then -frame[c] else 0.0);
    SortedTop(frame, sorted, k.value);
    out := sorted[..k.value];
    if blank !in out {
      ghost var top := out;
      out := out + [blank];
      assert out[..k.value] == top;
    }
  }
}
