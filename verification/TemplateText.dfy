/** Templates from the writer's side: pieces written out, read back and filled in. */
module TemplateText {
  import opened Topology
  import opened Sequences
  import opened Words
  import opened CustomTemplate

  // ----- numbers -----

  function Digit(d: nat): (c: char)
    requires d < 10
    ensures IsDigit(c) && (c - '0') as nat == d
  {
    ['0', '1', '2', '3', '4', '5', '6', '7', '8', '9'][d]
  }

  function Decimal(n: nat): (r: string)
    ensures r != [] && forall i :: 0 <= i < |r| ==> IsDigit(r[i])
  {
    if n < 10 then [Digit(n)] else Decimal(n / 10) + [Digit(n % 10)]
  }

  lemma {:induction false} DecimalValue(n: nat)
    ensures DigitsValue(Decimal(n)) == Some(n)
  {
    var d := Decimal(n);
    if n >= 10 {
      DecimalValue(n / 10);
      assert d[..|d| - 1] == Decimal(n / 10);
    } else {
      assert d[..|d| - 1] == [];
    }
  }

  /** A number written in decimal is read as that number. */
  lemma DecimalParses(n: nat)
    requires n < RANGE_USIZE
    ensures ParseUsize(Decimal(n)) == Some(n)
  {
    DecimalValue(n);
    assert IsDigit(Decimal(n)[0]);
  }

  predicate AllZeros(s: string) {
    forall i :: 0 <= i < |s| ==> s[i] == '0'
  }

  lemma ZerosInFront(zeros: string, token: string)
    requires AllZeros(zeros)
    ensures DigitsValue(zeros + token) == DigitsValue(token)
    decreases |zeros| + |token|
  {
    var s := zeros + token;
    if token != [] {
      assert s[..|s| - 1] == zeros + token[..|token| - 1];
      ZerosInFront(zeros, token[..|token| - 1]);
    } else if zeros != [] {
      assert s[..|s| - 1] == zeros[..|zeros| - 1] + [];
      ZerosInFront(zeros[..|zeros| - 1], []);
    }
  }

  /** A digit string is the decimal of its value behind zeros. */
  lemma {:induction false} DigitsAreDecimal(s: string) returns (zeros: string)
    requires s != [] && DigitsValue(s).Some?
    ensures AllZeros(zeros) && s == zeros + Decimal(DigitsValue(s).value)
    decreases |s|
  {
    var front, last := s[..|s| - 1], s[|s| - 1];
    var d := (last - '0') as nat;
    assert Digit(d) == last;
    assert s == front + [last];
    if front == [] {
      zeros := [];
    } else {
      zeros := DigitsAreDecimal(front);
      zeros := OneMoreDigit(zeros, DigitsValue(front).value, d);
    }
  }

  lemma OneMoreDigit(zeros: string, v: nat, d: nat) returns (more: string)
    requires AllZeros(zeros) && d < 10
    ensures AllZeros(more) && zeros + Decimal(v) + [Digit(d)] == more + Decimal(v * 10 + d)
  {
    if v == 0 {
      more := zeros + "0";
      assert Decimal(0) == "0";
    } else {
      more := zeros;
      assert (v * 10 + d) / 10 == v && (v * 10 + d) % 10 == d;
      Regroup(zeros, Decimal(v), [Digit(d)]);
    }
  }

  /** What a token that is read as n looks like. */
  ghost predicate Names(token: string, n: nat) {
    exists sign, zeros :: Spells(token, sign, zeros, n)
  }

  predicate Spells(token: string, sign: string, zeros: string, n: nat) {
    (sign == "" || sign == "+") && AllZeros(zeros) && token == sign + (zeros + Decimal(n))
  }

  /** A token is read as n exactly if it is n in decimal, behind at most one plus and any zeros, and n fits. */
  lemma ParsesExactly(token: string, n: nat)
    ensures ParseUsize(token) == Some(n) <==> Names(token, n) && n < 0x1_0000_0000_0000_0000
  {
    if ParseUsize(token) == Some(n) {
      var plus := |token| > 1 && token[0] == '+';
      var zeros := DigitsAreDecimal(if plus then token[1..] else token);
      assert plus ==> token == "+" + token[1..];
      assert Spells(token, if plus then "+" else "", zeros, n);
    }
    if n < RANGE_USIZE {
      forall sign, zeros | Spells(token, sign, zeros, n) ensures ParseUsize(token) == Some(n) {
        SpelledParses(token, sign, zeros, n);
      }
    }
  }

  lemma SpelledParses(token: string, sign: string, zeros: string, n: nat)
    requires n < RANGE_USIZE && Spells(token, sign, zeros, n)
    ensures ParseUsize(token) == Some(n)
  {
    var digits := zeros + Decimal(n);
    ZerosInFront(zeros, Decimal(n));
    DecimalValue(n);
    assert digits != [] && digits[0] != '+' by { assert digits[0] == if zeros == [] then Decimal(n)[0] else zeros[0]; }
    if sign == "+" { assert token[0] == '+' && token[1..] == digits; } else { assert token == digits; }
  }

  // ----- templates -----

  function WrittenPiece(piece: Piece): string {
    match piece
    case Literal(c) => if c == '{' || c == '}' then [c, c] else [c]
    case Auto => "{}"
    case Numbered(n) => "{" + Decimal(n) + "}"
  }

  function Written(pieces: seq<Piece>): string {
    if pieces == [] then "" else WrittenPiece(pieces[0]) + Written(pieces[1..])
  }

  predicate Writable(pieces: seq<Piece>) {
    forall i :: 0 <= i < |pieces| && pieces[i].Numbered? ==> pieces[i].index < RANGE_USIZE
  }

  lemma ReadsPiece(front: string, piece: Piece, rest: string)
    requires piece.Numbered? ==> piece.index < RANGE_USIZE
    ensures |front + WrittenPiece(piece) + rest| > |front|
    ensures StepAt(front + WrittenPiece(piece) + rest, |front|) == Some(Step(piece, |front + WrittenPiece(piece)|))
  {
    match piece
    case Literal(c) => ReadsLiteral(front, c, rest);
    case Auto => ReadsAuto(front, rest);
    case Numbered(n) => ReadsNumbered(front, n, rest);
  }

  lemma ReadsLiteral(front: string, c: char, rest: string)
    ensures StepAt(front + WrittenPiece(Literal(c)) + rest, |front|)
      == Some(Step(Literal(c), |front + WrittenPiece(Literal(c))|))
  {
    var s, i := front + WrittenPiece(Literal(c)) + rest, |front|;
    assert s[i] == c && (c == '{' || c == '}' ==> s[i + 1] == c);
  }

  lemma ReadsAuto(front: string, rest: string)
    ensures StepAt(front + "{}" + rest, |front|) == Some(Step(Auto, |front + "{}"|))
  {
    var s, i := front + "{}" + rest, |front|;
    assert s[i] == '{' && s[i + 1] == '}';
    assert CloseAt(s, i + 1) == i + 1;
  }

  lemma ReadsNumbered(front: string, n: nat, rest: string)
    requires n < RANGE_USIZE
    ensures StepAt(front + WrittenPiece(Numbered(n)) + rest, |front|)
      == Some(Step(Numbered(n), |front + WrittenPiece(Numbered(n))|))
  {
    var piece := WrittenPiece(Numbered(n));
    Braced(front, piece, Decimal(n), rest);
    StepNumbered(front + piece + rest, |front|, n);
  }

  lemma Braced(front: string, piece: string, d: string, rest: string)
    requires piece == "{" + d + "}"
    ensures |front + piece| == |front| + 2 + |d|
    ensures var s, i := front + piece + rest, |front|;
      && |s| == i + 2 + |d| + |rest| && s[i] == '{' && s[i + 1 + |d|] == '}'
      && s[i + 1..i + 1 + |d|] == d
  {
    var s, i := front + piece + rest, |front|;
    assert piece[0] == '{' && piece[1 + |d|] == '}';
    forall k | 0 <= k < |d| ensures s[i + 1 + k] == d[k] { assert s[i + 1 + k] == piece[1 + k]; }
  }

  lemma StepNumbered(s: string, i: nat, n: nat)
    requires n < RANGE_USIZE && i + 1 + |Decimal(n)| < |s| && s[i] == '{' && s[i + 1 + |Decimal(n)|] == '}'
    requires s[i + 1..i + 1 + |Decimal(n)|] == Decimal(n)
    ensures StepAt(s, i) == Some(Step(Numbered(n), i + 2 + |Decimal(n)|))
  {
    assert s[i + 1] == Decimal(n)[0];
    Closes(s, i + 1, Decimal(n));
    DecimalParses(n);
  }

  lemma Closes(s: string, i: nat, d: string)
    requires i + |d| < |s| && s[i..i + |d|] == d && s[i + |d|] == '}' && forall k :: 0 <= k < |d| ==> IsDigit(d[k])
    ensures CloseAt(s, i) == i + |d|
  {
    forall k | i <= k < i + |d| ensures s[k] != '}' { assert s[k] == s[i..i + |d|][k - i]; }
  }

  lemma {:induction false} ReadsWritten(front: string, pieces: seq<Piece>)
    requires Writable(pieces)
    ensures PiecesFrom(front + Written(pieces), |front|) == Some(pieces)
    decreases |pieces|
  {
    if pieces == [] {
      assert front + "" == front;
    } else {
      var head, rest := WrittenPiece(pieces[0]), Written(pieces[1..]);
      Regroup(front, head, rest);
      ReadsPiece(front, pieces[0], rest);
      ReadsWritten(front + head, pieces[1..]);
      assert pieces == [pieces[0]] + pieces[1..];
    }
  }

  // ----- what a template renders to -----

  /** Automatic placeholders among the first k pieces. */
  function Autos(pieces: seq<Piece>, k: nat): (r: nat)
    requires k <= |pieces|
    ensures r <= k
  {
    if k == 0 then 0 else Autos(pieces, k - 1) + if pieces[k - 1].Auto? then 1 else 0
  }

  /** The argument or character that piece k stands for. */
  function Filled(pieces: seq<Piece>, k: nat, args: seq<string>): string
    requires k < |pieces|
  {
    match pieces[k]
    case Literal(c) => [c]
    case Auto => if Autos(pieces, k) < |args| then args[Autos(pieces, k)] else ""
    case Numbered(n) => if n < |args| then args[n] else ""
  }

  function FilledFrom(pieces: seq<Piece>, k: nat, args: seq<string>): string
    requires k <= |pieces|
    decreases |pieces| - k
  {
    if k == |pieces| then "" else Filled(pieces, k, args) + FilledFrom(pieces, k + 1, args)
  }

  lemma {:induction false} RenderFills(
    pieces: seq<Piece>, k: nat, sawAuto: bool, sawManual: bool, args: seq<string>)
    requires k <= |pieces| && Resolvable(pieces[k..], Autos(pieces, k), sawAuto, sawManual, |args|)
    ensures Render(pieces[k..], Autos(pieces, k), sawAuto, sawManual, args) == FilledFrom(pieces, k, args)
    decreases |pieces| - k
  {
    if k < |pieces| {
      RenderOne(pieces, k, sawAuto, sawManual, args);
      RenderFills(pieces, k + 1, sawAuto || pieces[k].Auto?, sawManual || pieces[k].Numbered?, args);
    }
  }

  lemma RenderOne(pieces: seq<Piece>, k: nat, sawAuto: bool, sawManual: bool, args: seq<string>)
    requires k < |pieces| && Resolvable(pieces[k..], Autos(pieces, k), sawAuto, sawManual, |args|)
    ensures var auto, manual := sawAuto || pieces[k].Auto?, sawManual || pieces[k].Numbered?;
      && Resolvable(pieces[k + 1..], Autos(pieces, k + 1), auto, manual, |args|)
      && Render(pieces[k..], Autos(pieces, k), sawAuto, sawManual, args)
        == Filled(pieces, k, args) + Render(pieces[k + 1..], Autos(pieces, k + 1), auto, manual, args)
  {
    assert pieces[k..][0] == pieces[k] && pieces[k..][1..] == pieces[k + 1..];
    assert Autos(pieces, k + 1) == Autos(pieces, k) + if pieces[k].Auto? then 1 else 0;
  }

  predicate OneKind(pieces: seq<Piece>) {
    !((exists i :: 0 <= i < |pieces| && pieces[i].Auto?) && (exists i :: 0 <= i < |pieces| && pieces[i].Numbered?))
  }

  predicate InRange(pieces: seq<Piece>, argCount: nat) {
    && Autos(pieces, |pieces|) <= argCount
    && forall i :: 0 <= i < |pieces| && pieces[i].Numbered? ==> pieces[i].index < argCount
  }

  /** Pieces k on, after some that showed these kinds. */
  ghost predicate Sound(pieces: seq<Piece>, k: nat, sawAuto: bool, sawManual: bool, argCount: nat)
    requires k <= |pieces|
  {
    && (forall i :: k <= i < |pieces| && pieces[i].Auto? ==> !sawManual)
    && (forall i :: k <= i < |pieces| && pieces[i].Numbered? ==> !sawAuto && pieces[i].index < argCount)
    && (forall i, j :: k <= i < |pieces| && k <= j < |pieces| && pieces[i].Auto? ==> !pieces[j].Numbered?)
    && (forall i :: k <= i < |pieces| && pieces[i].Auto? ==> Autos(pieces, i) < argCount)
  }

  lemma {:induction false} ResolvableSound(
    pieces: seq<Piece>, k: nat, sawAuto: bool, sawManual: bool, argCount: nat)
    requires k <= |pieces|
    ensures Resolvable(pieces[k..], Autos(pieces, k), sawAuto, sawManual, argCount)
      <==> Sound(pieces, k, sawAuto, sawManual, argCount)
    decreases |pieces| - k
  {
    if k < |pieces| {
      assert pieces[k..][0] == pieces[k] && pieces[k..][1..] == pieces[k + 1..];
      match pieces[k]
      case Literal(_) => ResolvableSound(pieces, k + 1, sawAuto, sawManual, argCount);
      case Auto => ResolvableSound(pieces, k + 1, true, sawManual, argCount);
      case Numbered(_) => ResolvableSound(pieces, k + 1, sawAuto, true, argCount);
    }
  }

  lemma {:induction false} AutosGrow(pieces: seq<Piece>, i: nat, j: nat)
    requires i <= j <= |pieces|
    ensures Autos(pieces, i) <= Autos(pieces, j)
    decreases j
  {
    if i < j { AutosGrow(pieces, i, j - 1); }
  }

  lemma {:induction false} LastAuto(pieces: seq<Piece>, n: nat, argCount: nat)
    requires n <= |pieces|
    ensures Autos(pieces, n) <= argCount <==> forall i :: 0 <= i < n && pieces[i].Auto? ==> Autos(pieces, i) < argCount
  {
    if n > 0 {
      LastAuto(pieces, n - 1, argCount);
      if Autos(pieces, n) <= argCount {
        forall i | 0 <= i < n && pieces[i].Auto? ensures Autos(pieces, i) < argCount { AutosGrow(pieces, i + 1, n); }
      }
    }
  }

  /** Written-out pieces are accepted exactly if they use one kind of placeholder and every one has an argument. */
  lemma WrittenAccepted(pieces: seq<Piece>, argCount: nat)
    requires Writable(pieces)
    ensures Accepts(Written(pieces), argCount) <==> OneKind(pieces) && InRange(pieces, argCount)
  {
    assert [] + Written(pieces) == Written(pieces);
    ReadsWritten([], pieces);
    assert pieces[0..] == pieces;
    ResolvableSound(pieces, 0, false, false, argCount);
    LastAuto(pieces, |pieces|, argCount);
  }

  /** And they format to their characters and arguments in order: the k-th automatic placeholder takes argument k, a
      numbered one the argument of its number. */
  lemma WrittenFormats(pieces: seq<Piece>, args: seq<string>)
    requires Writable(pieces) && OneKind(pieces) && InRange(pieces, |args|)
    ensures Accepts(Written(pieces), |args|)
    ensures Render(PiecesFrom(Written(pieces), 0).value, 0, false, false, args) == FilledFrom(pieces, 0, args)
  {
    WrittenAccepted(pieces, |args|);
    assert [] + Written(pieces) == Written(pieces);
    ReadsWritten([], pieces);
    assert pieces[0..] == pieces;
    RenderFills(pieces, 0, false, false, args);
  }
}
