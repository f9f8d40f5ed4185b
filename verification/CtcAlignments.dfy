/** What CTC decoding sums over: every alignment, one label or the blank per frame, with
    runs collapsed and blanks dropped. The blank is the label just past the alphabet. */
module CtcAlignments {

  /** An alignment, growing at its end. */
  datatype Path = Start | Then(init: Path, tip: nat)

  function Length(path: Path): nat {
    match path
    case Start => 0
    case Then(init, _) => Length(init) + 1
  }

  /** The greedy collapse: keep a label that is neither the blank nor the label before it. */
  function Collapse(path: Path, blank: nat): seq<nat> {
    match path
    case Start => []
    case Then(init, c) => if c < blank && (init.Start? || init.tip != c) then Collapse(init, blank) + [c]
      else Collapse(init, blank)
  }

  predicate EndsBlank(path: Path, blank: nat) {
    path.Start? || path.tip >= blank
  }

  /** A frame gives a mass to every label and to the blank. */
  predicate IsFrame(frame: seq<real>, blank: nat) {
    |frame| == blank + 1 && forall c :: 0 <= c < |frame| ==> frame[c] >= 0.0
  }

  predicate AreFrames(frames: seq<seq<real>>, blank: nat) {
    forall t :: 0 <= t < |frames| ==> IsFrame(frames[t], blank)
  }

  function At(frames: seq<seq<real>>, t: nat, c: nat): real {
    if t < |frames| && c < |frames[t]| then frames[t][c] else 0.0
  }

  function Times(a: real, x: real): real {
    a * x
  }

  function Mass(frames: seq<seq<real>>, path: Path): real {
    match path
    case Start => 1.0
    case Then(init, c) => Times(Mass(frames, init), At(frames, Length(init), c))
  }

  /** What one alignment adds to labelling y, counting those that do, or do not, end in a blank. */
  function Term(frames: seq<seq<real>>, blank: nat, path: Path, y: seq<nat>, endBlank: bool): real {
    if Collapse(path, blank) == y && EndsBlank(path, blank) == endBlank then Mass(frames, path) else 0.0
  }

  /** The sum over all ways to extend `path` to n frames. */
  function SumFrom(frames: seq<seq<real>>, blank: nat, n: nat, path: Path, y: seq<nat>, endBlank: bool): real
    decreases n - Length(path), blank + 2
  {
    if Length(path) >= n then Term(frames, blank, path, y, endBlank)
    else SumLabels(frames, blank, n, path, blank + 1, y, endBlank)
  }

  /** The part of that sum whose next label is below k. */
  function SumLabels(frames: seq<seq<real>>, blank: nat, n: nat, path: Path, k: nat, y: seq<nat>, endBlank: bool): real
    requires Length(path) < n && k <= blank + 1
    decreases n - Length(path), k
  {
    if k == 0 then 0.0
    else
      SumLabels(frames, blank, n, path, k - 1, y, endBlank)
      + SumFrom(frames, blank, n, Then(path, k - 1), y, endBlank)
  }

  /** The sum over all (blank + 1)^n alignments of n frames. */
  function PathSum(frames: seq<seq<real>>, blank: nat, n: nat, y: seq<nat>, endBlank: bool): real {
    SumFrom(frames, blank, n, Start, y, endBlank)
  }

  /** The probability of labelling y after n frames. */
  function Total(frames: seq<seq<real>>, blank: nat, n: nat, y: seq<nat>): real {
    PathSum(frames, blank, n, y, true) + PathSum(frames, blank, n, y, false)
  }

  // ----- one more label -----

  predicate Labels(y: seq<nat>, blank: nat) {
    forall i :: 0 <= i < |y| ==> y[i] < blank
  }

  function Last(y: seq<nat>): nat
    requires y != []
  {
    y[|y| - 1]
  }

  function Init(y: seq<nat>): seq<nat>
    requires y != []
  {
    y[..|y| - 1]
  }

  /** A path that ends in a label collapses to a labelling ending in it. */
  lemma {:induction false} CollapseEnd(path: Path, blank: nat)
    ensures !EndsBlank(path, blank) ==> Collapse(path, blank) != [] && Last(Collapse(path, blank)) == path.tip
  {
    if path.Then? { CollapseEnd(path.init, blank); }
  }

  /** The ways `path` can reach y by one label: repeating the last one, or adding it. */
  predicate ReachesByLabel(path: Path, blank: nat, y: seq<nat>)
    requires y != []
  {
    || (Collapse(path, blank) == y && !EndsBlank(path, blank))
    || (Collapse(path, blank) == Init(y) && (EndsBlank(path, blank) || Init(y) == [] || Last(Init(y)) != Last(y)))
  }

  lemma LabelStep(path: Path, c: nat, blank: nat, y: seq<nat>)
    requires c < blank && y != []
    ensures Collapse(Then(path, c), blank) == y <==> c == Last(y) && ReachesByLabel(path, blank, y)
  {
    CollapseEnd(path, blank);
    var z := Collapse(path, blank);
    assert y == Init(y) + [Last(y)];
    if z + [c] == y { assert Init(y) == z; }
  }

  /** The mass that reaches y by a label, from the masses one frame earlier. */
  function ReachedMass(b: real, nb: real, parentB: real, parentNb: real, y: seq<nat>): real
    requires y != []
  {
    nb + parentB + if Init(y) != [] && Last(Init(y)) == Last(y) then 0.0 else parentNb
  }

  function ReachedTerm(frames: seq<seq<real>>, blank: nat, path: Path, y: seq<nat>): real
    requires y != []
  {
    ReachedMass(Term(frames, blank, path, y, true), Term(frames, blank, path, y, false),
      Term(frames, blank, path, Init(y), true), Term(frames, blank, path, Init(y), false), y)
  }

  lemma ReachedTermMeaning(frames: seq<seq<real>>, blank: nat, path: Path, y: seq<nat>)
    requires y != []
    ensures ReachedTerm(frames, blank, path, y) == if ReachesByLabel(path, blank, y) then Mass(frames, path) else 0.0
  {
    assert |Init(y)| < |y|;
    CollapseEnd(path, blank);
  }

  /** The mass `path` brings to y by one more blank, and by one more label. */
  function LastBlank(frames: seq<seq<real>>, blank: nat, path: Path, y: seq<nat>): real {
    if Collapse(path, blank) == y then Mass(frames, Then(path, blank)) else 0.0
  }

  function LastLabel(frames: seq<seq<real>>, blank: nat, path: Path, y: seq<nat>): real
    requires y != []
  {
    if ReachesByLabel(path, blank, y) then Mass(frames, Then(path, Last(y))) else 0.0
  }

  lemma LastBlankProduct(frames: seq<seq<real>>, blank: nat, path: Path, y: seq<nat>)
    ensures LastBlank(frames, blank, path, y)
      == Times(Term(frames, blank, path, y, true) + Term(frames, blank, path, y, false),
        At(frames, Length(path), blank))
  {
  }

  lemma LastLabelProduct(frames: seq<seq<real>>, blank: nat, path: Path, y: seq<nat>)
    requires y != []
    ensures LastLabel(frames, blank, path, y)
      == Times(ReachedTerm(frames, blank, path, y), At(frames, Length(path), Last(y)))
  {
    ReachedTermMeaning(frames, blank, path, y);
  }

  lemma TermByLabel(frames: seq<seq<real>>, blank: nat, path: Path, c: nat, y: seq<nat>)
    requires c <= blank
    ensures Term(frames, blank, Then(path, c), y, false)
      == if y != [] && c == Last(y) && c < blank then LastLabel(frames, blank, path, y) else 0.0
  {
    CollapseEnd(Then(path, c), blank);
    if y != [] && c < blank { LabelStep(path, c, blank, y); }
  }

  // ----- the recurrence -----

  lemma {:induction false} LastBlankSum(frames: seq<seq<real>>, blank: nat, n: nat, path: Path, k: nat, y: seq<nat>)
    requires Length(path) == n && k <= blank + 1
    ensures SumLabels(frames, blank, n + 1, path, k, y, true) == if k == blank + 1
      then LastBlank(frames, blank, path, y) else 0.0
  {
    if k > 0 {
      LastBlankSum(frames, blank, n, path, k - 1, y);
      assert SumFrom(frames, blank, n + 1, Then(path, k - 1), y, true)
        == Term(frames, blank, Then(path, k - 1), y, true);
    }
  }

  lemma {:induction false} LastLabelSum(frames: seq<seq<real>>, blank: nat, n: nat, path: Path, k: nat, y: seq<nat>)
    requires Length(path) == n && k <= blank + 1
    ensures SumLabels(frames, blank, n + 1, path, k, y, false)
      == if y != [] && Last(y) < k && Last(y) < blank then LastLabel(frames, blank, path, y) else 0.0
  {
    if k > 0 {
      LastLabelSum(frames, blank, n, path, k - 1, y);
      TermByLabel(frames, blank, path, k - 1, y);
    }
  }

  function ReachedSum(frames: seq<seq<real>>, blank: nat, n: nat, path: Path, y: seq<nat>): real
    requires y != []
  {
    ReachedMass(SumFrom(frames, blank, n, path, y, true), SumFrom(frames, blank, n, path, y, false),
      SumFrom(frames, blank, n, path, Init(y), true), SumFrom(frames, blank, n, path, Init(y), false), y)
  }

  function ReachedLabels(frames: seq<seq<real>>, blank: nat, n: nat, path: Path, k: nat, y: seq<nat>): real
    requires y != [] && Length(path) < n && k <= blank + 1
  {
    ReachedMass(SumLabels(frames, blank, n, path, k, y, true), SumLabels(frames, blank, n, path, k, y, false),
      SumLabels(frames, blank, n, path, k, Init(y), true), SumLabels(frames, blank, n, path, k, Init(y), false), y)
  }

  lemma Distribute(a: real, b: real, x: real)
    ensures Times(a + b, x) == Times(a, x) + Times(b, x)
  {
  }

  /** Ending in a blank after one more frame: any way to have y already, then the blank. */
  lemma {:induction false} BlankStep(frames: seq<seq<real>>, blank: nat, n: nat, path: Path, y: seq<nat>)
    requires Length(path) <= n
    ensures SumFrom(frames, blank, n + 1, path, y, true)
      == Times(SumFrom(frames, blank, n, path, y, true) + SumFrom(frames, blank, n, path, y, false),
        At(frames, n, blank))
    decreases n - Length(path), blank + 2
  {
    if Length(path) == n {
      LastBlankSum(frames, blank, n, path, blank + 1, y);
      LastBlankProduct(frames, blank, path, y);
    } else {
      BlankLabels(frames, blank, n, path, blank + 1, y);
    }
  }

  lemma {:induction false} BlankLabels(frames: seq<seq<real>>, blank: nat, n: nat, path: Path, k: nat, y: seq<nat>)
    requires Length(path) < n && k <= blank + 1
    ensures SumLabels(frames, blank, n + 1, path, k, y, true)
      == Times(SumLabels(frames, blank, n, path, k, y, true) + SumLabels(frames, blank, n, path, k, y, false),
        At(frames, n, blank))
    decreases n - Length(path), k
  {
    if k > 0 {
      BlankLabels(frames, blank, n, path, k - 1, y);
      BlankStep(frames, blank, n, Then(path, k - 1), y);
      Distribute(
        SumLabels(frames, blank, n, path, k - 1, y, true) + SumLabels(frames, blank, n, path, k - 1, y, false),
        SumFrom(frames, blank, n, Then(path, k - 1), y, true) + SumFrom(frames, blank, n, Then(path, k - 1), y, false),
        At(frames, n, blank));
    }
  }

  /** Ending in a label after one more frame: the ways to reach y by its last label. */
  lemma {:induction false} NonBlankStep(frames: seq<seq<real>>, blank: nat, n: nat, path: Path, y: seq<nat>)
    requires Length(path) <= n && Labels(y, blank)
    ensures SumFrom(frames, blank, n + 1, path, y, false)
      == if y == [] then 0.0 else Times(ReachedSum(frames, blank, n, path, y), At(frames, n, Last(y)))
    decreases n - Length(path), blank + 2
  {
    if Length(path) == n {
      LastLabelSum(frames, blank, n, path, blank + 1, y);
      if y != [] {
        assert Last(y) < blank;
        LastLabelProduct(frames, blank, path, y);
      }
    } else {
      NonBlankLabels(frames, blank, n, path, blank + 1, y);
    }
  }

  lemma ReachedLabelsStep(frames: seq<seq<real>>, blank: nat, n: nat, path: Path, k: nat, y: seq<nat>)
    requires y != [] && Length(path) < n && 0 < k <= blank + 1
    ensures ReachedLabels(frames, blank, n, path, k, y)
      == ReachedLabels(frames, blank, n, path, k - 1, y) + ReachedSum(frames, blank, n, Then(path, k - 1), y)
  {
  }

  lemma {:induction false} NonBlankLabels(frames: seq<seq<real>>, blank: nat, n: nat, path: Path, k: nat, y: seq<nat>)
    requires Length(path) < n && k <= blank + 1 && Labels(y, blank)
    ensures SumLabels(frames, blank, n + 1, path, k, y, false)
      == if y == [] then 0.0 else Times(ReachedLabels(frames, blank, n, path, k, y), At(frames, n, Last(y)))
    decreases n - Length(path), k
  {
    if k > 0 {
      NonBlankLabels(frames, blank, n, path, k - 1, y);
      NonBlankStep(frames, blank, n, Then(path, k - 1), y);
      if y != [] {
        ReachedLabelsStep(frames, blank, n, path, k, y);
        Distribute(ReachedLabels(frames, blank, n, path, k - 1, y), ReachedSum(frames, blank, n, Then(path, k - 1), y),
          At(frames, n, Last(y)));
      }
    }
  }

  /** The prefix recurrence that beam search relies on. */
  lemma PathSumStep(frames: seq<seq<real>>, blank: nat, n: nat, y: seq<nat>)
    requires Labels(y, blank)
    ensures PathSum(frames, blank, n + 1, y, true) == Times(Total(frames, blank, n, y), At(frames, n, blank))
    ensures PathSum(frames, blank, n + 1, y, false) ==
      if y == [] then 0.0 else
      Times(ReachedMass(PathSum(frames, blank, n, y, true), PathSum(frames, blank, n, y, false),
        PathSum(frames, blank, n, Init(y), true), PathSum(frames, blank, n, Init(y), false), y), At(frames, n, Last(y)))
  {
    assert Length(Start) == 0;
    BlankStep(frames, blank, n, Start, y);
    NonBlankStep(frames, blank, n, Start, y);
  }

  lemma PathSumStart(frames: seq<seq<real>>, blank: nat, y: seq<nat>)
    ensures PathSum(frames, blank, 0, y, true) == if y == [] then 1.0 else 0.0
    ensures PathSum(frames, blank, 0, y, false) == 0.0
  {
    assert Length(Start) == 0;
  }
}
