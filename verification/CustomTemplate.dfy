/** Custom-code templates: the strict validator and the formatter that trusts it. */
module CustomTemplate {
  import opened Topology
  import opened Sequences
  import opened Words

  datatype Piece = Literal(c: char) | Auto | Numbered(index: nat)

  // ----- reading a template -----

  predicate IsDigit(c: char) {
    '0' <= c <= '9'
  }

  function DigitsValue(token: string): (r: Option<nat>)
  {
    if token == [] then Some(0) else
    var front, last := DigitsValue(token[..|token| - 1]), token[|token| - 1];
    if front.None? || !IsDigit(last) then None else Some(front.value * 10 + (last - '0') as nat)
  }

  /** An unsigned 64-bit number: digits, with one plus sign allowed in front. */
  function ParseUsize(token: string): Option<nat> {
    var digits := if |token| > 1 && token[0] == '+' then token[1..] else token;
    var value := DigitsValue(digits);
    if digits == [] || value.None? || value.value >= RANGE_USIZE then None else value
  }

  /** The place of the next closing brace, or the end. */
  function CloseAt(s: string, i: nat): (r: nat)
    requires i <= |s|
    ensures i <= r <= |s| && (r < |s| ==> s[r] == '}') && forall k :: i <= k < r ==> s[k] != '}'
    decreases |s| - i
  {
    if i == |s| || s[i] == '}' then i else CloseAt(s, i + 1)
  }

  /** One piece and the place behind it. */
  datatype Step = Step(piece: Piece, next: nat)

  function StepAt(s: string, i: nat): (r: Option<Step>)
    requires i < |s|
    ensures r.Some? ==> i < r.value.next <= |s|
  {
    if s[i] == '{' then
      if i + 1 < |s| && s[i + 1] == '{' then Some(Step(Literal('{'), i + 2))
      else
        var close := CloseAt(s, i + 1);
        if close == |s| then None
        else if close == i + 1 then Some(Step(Auto, close + 1))
        else
          var index := ParseUsize(s[i + 1..close]);
          if index.None? then None else Some(Step(Numbered(index.value), close + 1))
    else if s[i] == '}' then
      if i + 1 < |s| && s[i + 1] == '}' then Some(Step(Literal('}'), i + 2)) else None
    else Some(Step(Literal(s[i]), i + 1))
  }

  /** The pieces from place i on; None where the syntax is wrong. */
  function PiecesFrom(s: string, i: nat): Option<seq<Piece>>
    requires i <= |s|
    decreases |s| - i
  {
    if i == |s| then Some([]) else
    var step := StepAt(s, i);
    if step.None? then None else
    var rest := PiecesFrom(s, step.value.next);
    if rest.None? then None else Some([step.value.piece] + rest.value)
  }

  /** Placeholders after `auto` automatic ones name existing arguments, and do not mix the two kinds. */
  predicate Resolvable(pieces: seq<Piece>, auto: nat, sawAuto: bool, sawManual: bool, argCount: nat) {
    pieces == [] ||
    match pieces[0]
    case Literal(_) => Resolvable(pieces[1..], auto, sawAuto, sawManual, argCount)
    case Auto => !sawManual && auto < argCount && Resolvable(pieces[1..], auto + 1, true, sawManual, argCount)
    case Numbered(n) => !sawAuto && n < argCount && Resolvable(pieces[1..], auto, sawAuto, true, argCount)
  }

  predicate Accepts(template: string, argCount: nat) {
    PiecesFrom(template, 0).Some? && Resolvable(PiecesFrom(template, 0).value, 0, false, false, argCount)
  }

  /** What is still to be decided at place i. */
  predicate AcceptsFrom(s: string, i: nat, auto: nat, sawAuto: bool, sawManual: bool, argCount: nat)
    requires i <= |s|
  {
    PiecesFrom(s, i).Some? && Resolvable(PiecesFrom(s, i).value, auto, sawAuto, sawManual, argCount)
  }

  lemma AcceptsStep(s: string, i: nat, auto: nat, sawAuto: bool, sawManual: bool, argCount: nat)
    requires i < |s|
    ensures AcceptsFrom(s, i, auto, sawAuto, sawManual, argCount) <==>
      StepAt(s, i).Some? &&
      var next := StepAt(s, i).value.next;
      match StepAt(s, i).value.piece
      case Literal(_) => AcceptsFrom(s, next, auto, sawAuto, sawManual, argCount)
      case Auto => !sawManual && auto < argCount && AcceptsFrom(s, next, auto + 1, true, sawManual, argCount)
      case Numbered(n) => !sawAuto && n < argCount && AcceptsFrom(s, next, auto, sawAuto, true, argCount)
  {
    var step := StepAt(s, i);
    if step.Some? && PiecesFrom(s, step.value.next).Some? {
      var rest := PiecesFrom(s, step.value.next).value;
      assert ([step.value.piece] + rest)[1..] == rest;
    }
  }

  method ValidateCustomTemplateStrict(template: string, argCount: nat) returns (ok: bool)
    ensures ok <==> Accepts(template, argCount)
  {
    var i, auto, sawAuto, sawManual := 0, 0, false, false;
    while i < |template|
      invariant i <= |template|
      invariant Accepts(template, argCount) <==> AcceptsFrom(template, i, auto, sawAuto, sawManual, argCount)
      decreases |template| - i
    {
      AcceptsStep(template, i, auto, sawAuto, sawManual, argCount);
      if template[i] == '{' {
        if i + 1 < |template| && template[i + 1] == '{' {
          i := i + 2;
        } else {
          var close := CloseAt(template, i + 1);
          if close == |template| { return false; }
          var token := template[i + 1..close];
          var index;
          if token == [] {
            sawAuto, index, auto := true, auto, auto + 1;
          } else {
            sawManual := true;
            var parsed := ParseUsize(token);
            if parsed.None? { return false; }
            index := parsed.value;
          }
          if (sawAuto && sawManual) || index >= argCount { return false; }
          i := close + 1;
        }
      } else if template[i] == '}' {
        if i + 1 < |template| && template[i + 1] == '}' { i := i + 2; } else { return false; }
      } else {
        i := i + 1;
      }
    }
    ok := true;
  }

  // ----- formatting -----

  /** The text of accepted pieces: automatic placeholders take the arguments in turn. */
  function Render(pieces: seq<Piece>, auto: nat, sawAuto: bool, sawManual: bool, args: seq<string>): string
    requires Resolvable(pieces, auto, sawAuto, sawManual, |args|)
  {
    if pieces == [] then "" else
    match pieces[0]
    case Literal(c) => [c] + Render(pieces[1..], auto, sawAuto, sawManual, args)
    case Auto => args[auto] + Render(pieces[1..], auto + 1, true, sawManual, args)
    case Numbered(n) => args[n] + Render(pieces[1..], auto, sawAuto, true, args)
  }

  function RenderFrom(s: string, i: nat, auto: nat, sawAuto: bool, sawManual: bool, args: seq<string>): string
    requires i <= |s| && AcceptsFrom(s, i, auto, sawAuto, sawManual, |args|)
  {
    Render(PiecesFrom(s, i).value, auto, sawAuto, sawManual, args)
  }

  lemma RenderStep(s: string, i: nat, auto: nat, sawAuto: bool, sawManual: bool, args: seq<string>)
    requires i < |s| && AcceptsFrom(s, i, auto, sawAuto, sawManual, |args|)
    ensures StepAt(s, i).Some?
    ensures var next := StepAt(s, i).value.next;
      match StepAt(s, i).value.piece
      case Literal(c) => (AcceptsFrom(s, next, auto, sawAuto, sawManual, |args|)
        && RenderFrom(s, i, auto, sawAuto, sawManual, args)
          == [c] + RenderFrom(s, next, auto, sawAuto, sawManual, args))
      case Auto => (auto < |args| && AcceptsFrom(s, next, auto + 1, true, sawManual, |args|)
        && RenderFrom(s, i, auto, sawAuto, sawManual, args)
          == args[auto] + RenderFrom(s, next, auto + 1, true, sawManual, args))
      case Numbered(n) => (n < |args| && AcceptsFrom(s, next, auto, sawAuto, true, |args|)
        && RenderFrom(s, i, auto, sawAuto, sawManual, args) == args[n] + RenderFrom(s, next, auto, sawAuto, true, args))
  {
    AcceptsStep(s, i, auto, sawAuto, sawManual, |args|);
    var step := StepAt(s, i).value;
    var rest := PiecesFrom(s, step.next).value;
    assert ([step.piece] + rest)[1..] == rest;
  }

  /** The formatter checks nothing itself beyond validating: no index it uses is out of bounds and no token fails to
      parse. */
  method FormatCustomTemplateStrict(template: string, args: seq<string>) returns (r: Option<string>)
    ensures r.Some? <==> Accepts(template, |args|)
    ensures r.Some? ==> r.value == Render(PiecesFrom(template, 0).value, 0, false, false, args)
  {
    var ok := ValidateCustomTemplateStrict(template, |args|);
    if !ok { return None; }
    var out, i, auto := "", 0, 0;
    ghost var sawAuto, sawManual := false, false;
    ghost var all := RenderFrom(template, 0, 0, false, false, args);
    while i < |template|
      invariant i <= |template| && AcceptsFrom(template, i, auto, sawAuto, sawManual, |args|)
      invariant all == out + RenderFrom(template, i, auto, sawAuto, sawManual, args)
      decreases |template| - i
    {
      var text;
      text, i, auto, sawAuto, sawManual := FormatPiece(template, args, out, all, i, auto, sawAuto, sawManual);
      out := out + text;
    }
    r := Some(out);
  }

  /** One turn of the formatter's loop. */
  method FormatPiece(template: string, args: seq<string>, ghost out: string, ghost all: string,
    i: nat, auto: nat, ghost sawAuto: bool, ghost sawManual: bool)
    returns (text: string, next: nat, nextAuto: nat, ghost nowAuto: bool, ghost nowManual: bool)
    requires i < |template| && AcceptsFrom(template, i, auto, sawAuto, sawManual, |args|)
    requires all == out + RenderFrom(template, i, auto, sawAuto, sawManual, args)
    ensures i < next <= |template| && AcceptsFrom(template, next, nextAuto, nowAuto, nowManual, |args|)
    ensures all == out + text + RenderFrom(template, next, nextAuto, nowAuto, nowManual, args)
  {
    RenderStep(template, i, auto, sawAuto, sawManual, args);
    nextAuto, nowAuto, nowManual := auto, sawAuto, sawManual;
    if template[i] == '{' {
      if i + 1 < |template| && template[i + 1] == '{' {
        text, next := "{", i + 2;
      } else {
        var close := CloseAt(template, i + 1);
        var token := template[i + 1..close];
        if token == [] {
          text, nextAuto, nowAuto := args[auto], auto + 1, true;
        } else {
          text, nowManual := args[ParseUsize(token).value], true;
        }
        next := close + 1;
      }
    } else if template[i] == '}' {
      text, next := "}", i + 2;
    } else {
      text, next := [template[i]], i + 1;
    }
    Regroup(out, text, RenderFrom(template, next, nextAuto, nowAuto, nowManual, args));
  }

  // ----- escaping -----

  function Doubled(text: string): string {
    if text == [] then "" else
    (if text[0] == '{' || text[0] == '}' then [text[0], text[0]] else [text[0]]) + Doubled(text[1..])
  }

  function Literals(text: string): (r: seq<Piece>)
    ensures |r| == |text| && forall i :: 0 <= i < |r| ==> r[i] == Literal(text[i])
  {
    seq(|text|, i requires 0 <= i < |text| => Literal(text[i]))
  }

  lemma {:induction false} DoubledPieces(front: string, text: string)
    ensures PiecesFrom(front + Doubled(text), |front|) == Some(Literals(text))
    decreases |text|
  {
    var s, i := front + Doubled(text), |front|;
    if text != [] {
      var head := if text[0] == '{' || text[0] == '}' then [text[0], text[0]] else [text[0]];
      assert s == (front + head) + Doubled(text[1..]);
      DoubledPieces(front + head, text[1..]);
      assert s[i] == text[0] && (|head| == 2 ==> s[i + 1] == text[0]);
      assert StepAt(s, i) == Some(Step(Literal(text[0]), |front + head|));
      assert Literals(text) == [Literal(text[0])] + Literals(text[1..]);
    } else {
      assert s == front;
    }
  }

  lemma {:induction false} LiteralsRender(text: string, args: seq<string>)
    ensures Resolvable(Literals(text), 0, false, false, |args|)
    ensures Render(Literals(text), 0, false, false, args) == text
    decreases |text|
  {
    if text != [] {
      assert Literals(text)[1..] == Literals(text[1..]);
      LiteralsRender(text[1..], args);
      assert text == [text[0]] + text[1..];
    }
  }

  /** Any text with its braces doubled is accepted, whatever the arguments, and formats to itself. */
  lemma DoubledFormatsToItself(text: string, args: seq<string>)
    ensures Accepts(Doubled(text), |args|)
    ensures Render(PiecesFrom(Doubled(text), 0).value, 0, false, false, args) == text
  {
    assert [] + Doubled(text) == Doubled(text);
    DoubledPieces([], text);
    LiteralsRender(text, args);
  }
}
