/** Maximal munch as a property of a split of the text, and the algebra of joining texts. */
module Munch {
  import opened Lex

  predicate AllIn(s: string, cls: CharClass) { forall c :: c in s ==> In(c, cls) }

  predicate IsName(t: string) { t != "" && IsNameStart(t[0]) && AllIn(t, NameParts) }

  predicate IsWhole(t: string) { t != "" && AllIn(t, Digits) }

  function Unsigned(t: string): string { if t != "" && t[0] == '-' then t[1..] else t }

  /** `t` is a whole part, a dot at `k` and a fraction. */
  predicate DottedAt(t: string, k: nat) {
    0 < k < |t| - 1 && t[k] == '.' && AllIn(t[..k], Digits) && AllIn(t[k + 1..], Digits)
  }

  predicate IsDecimal(t: string) { exists k :: 0 <= k < |t| && DottedAt(t, k) }

  /** `-?[0-9]+(\.[0-9]+)?` */
  predicate IsNumber(t: string) { IsWhole(Unsigned(t)) || IsDecimal(Unsigned(t)) }

  predicate IsString(t: string) { t != "" && t[0] == '"' && StringEnd(t, 1) == Some(|t|) }

  predicate IsPunct(t: string) {
    (|t| == 1 && t[0] in "(){},:.=<>") || (|t| == 2 && t[0] in "!<>" && t[1] == '=')
  }

  predicate Valid(p: Piece) {
    match p
    case Blank(c) => IsBlank(c)
    case Comment(text) => text != "" && text[0] == '#' && AllIn(text, CommentChars)
    case Tok(StringLit, text) => IsString(text)
    case Tok(Number, text) => IsNumber(text)
    case Tok(Bool, text) => text == "true" || text == "false"
    case Tok(Name, text) => IsName(text) && text != "true" && text != "false"
    case Tok(Punct, text) => IsPunct(text)
    case Tok(Eof, _) => false
  }

  predicate HeadIn(s: string, cls: CharClass) { s != "" && In(s[0], cls) }

  /** The piece does not go on into `rest`. */
  predicate Stops(p: Piece, rest: string) {
    match p
    case Blank(_) => true
    case Comment(_) => !HeadIn(rest, CommentChars)
    case Tok(StringLit, _) => true
    case Tok(Number, text) =>
      && !HeadIn(rest, Digits)
      && (rest != "" && rest[0] == '.' && DigitAt(rest, 1) ==> IsDecimal(Unsigned(text)))
    case Tok(Bool, _) => !HeadIn(rest, NameParts)
    case Tok(Name, _) => !HeadIn(rest, NameParts)
    case Tok(_, text) => (text == "<" || text == ">") ==> (rest == "" || rest[0] != '=')
  }

  predicate Munched(ps: seq<Piece>) {
    ps == [] || (Valid(ps[0]) && Stops(ps[0], Flat(ps[1..])) && Munched(ps[1..]))
  }

  // ----- The lexer is exactly maximal munch -----

  lemma RunEndIs(cls: CharClass, s: string, i: nat, j: nat)
    requires i <= j <= |s|
    requires AllIn(s[i..j], cls) && !HeadIn(s[j..], cls)
    ensures RunEnd(cls, s, i) == j
  {
    var e := RunEnd(cls, s, i);
    assert forall k :: i <= k < j ==> s[k] in s[i..j];
  }

  lemma RunIn(cls: CharClass, s: string, i: nat)
    requires i <= |s|
    ensures AllIn(s[i..RunEnd(cls, s, i)], cls) && !HeadIn(s[RunEnd(cls, s, i)..], cls)
  {
  }

  /** A string body is scanned the same way inside a longer text. */
  lemma {:induction false} StringEndShift(s: string, i: nat, t: string, j: nat)
    requires i <= |s| && j <= |t| && |s| - i <= |t| - j
    requires forall k :: i <= k < |s| ==> s[k] == t[k - i + j]
    requires StringEnd(s, i).Some?
    ensures StringEnd(t, j) == Some(StringEnd(s, i).value - i + j)
    decreases |s| - i
  {
    if s[i] == '\\' {
      StringEndShift(s, i + 2, t, j + 2);
    } else if s[i] != '"' {
      StringEndShift(s, i + 1, t, j + 1);
    }
  }

  /** The scan of a string body never looks past the quote that closes it. */
  lemma {:induction false} StringEndCut(s: string, i: nat, e: nat)
    requires i <= |s| && StringEnd(s, i) == Some(e)
    ensures i < e <= |s| && StringEnd(s[..e], i) == Some(e)
    decreases |s| - i
  {
    if s[i] == '\\' {
      StringEndCut(s, i + 2, e);
    } else if s[i] != '"' {
      StringEndCut(s, i + 1, e);
    }
  }

  lemma StringPiece(s: string, i: nat)
    requires i < |s| && s[i] == '"' && StringEnd(s, i + 1).Some?
    ensures IsString(s[i..StringEnd(s, i + 1).value])
  {
    hide StringEnd;
    var e := StringEnd(s, i + 1).value;
    StringEndCut(s, i + 1, e);
    StringCut(s[..e], i);
    assert s[..e][i..] == s[i..e];
  }

  lemma StringCut(s: string, i: nat)
    requires i < |s| && StringEnd(s, i + 1) == Some(|s|)
    ensures StringEnd(s[i..], 1) == Some(|s| - i)
  {
    hide StringEnd;
    StringEndShift(s, i + 1, s[i..], 1);
  }

  lemma NumberPiece(s: string, i: nat)
    requires i < |s| && (IsDigit(s[i]) || (s[i] == '-' && DigitAt(s, i + 1)))
    ensures var e := NumberEnd(s, i);
            Valid(Tok(Number, s[i..e])) && Stops(Tok(Number, s[i..e]), s[e..])
  {
    var e := NumberEnd(s, i);
    var b := if s[i] == '-' then i + 1 else i;
    var w := RunEnd(Digits, s, i + 1);
    hide Lex.RunEnd;
    assert Unsigned(s[i..e]) == s[b..e];
    assert forall k :: b <= k < w ==> IsDigit(s[k]);
    assert e < |s| ==> s[e..][0] == s[e] && !IsDigit(s[e]);
    if w < e {
      DottedPiece(s, b, w, e);
      assert IsDecimal(s[b..e]);
    } else {
      assert IsWhole(s[b..e]);
      assert e + 1 < |s| ==> s[e..][1] == s[e + 1];
    }
  }

  lemma DottedPiece(s: string, b: nat, w: nat, e: nat)
    requires b < w < e - 1 < |s| && s[w] == '.'
    requires forall k :: b <= k < w || w < k < e ==> IsDigit(s[k])
    ensures DottedAt(s[b..e], w - b)
  {
    var u, d := s[b..e], w - b;
    assert u[..d] == s[b..w];
    assert u[d + 1..] == s[w + 1..e];
  }

  lemma CommentPiece(s: string, i: nat)
    requires i < |s| && s[i] == '#'
    ensures var e := RunEnd(CommentChars, s, i);
            i < e && Valid(Comment(s[i..e])) && Stops(Comment(s[i..e]), s[e..])
  {
    RunIn(CommentChars, s, i);
    hide Lex.RunEnd;
    var e := RunEnd(CommentChars, s, i);
    assert s[i..e][0] == s[i];
  }

  lemma NamePiece(s: string, i: nat)
    requires i < |s| && IsNameStart(s[i])
    ensures var e := RunEnd(NameParts, s, i + 1);
            var p := Tok(NameKind(s[i..e]), s[i..e]);
            Valid(p) && Stops(p, s[e..])
  {
    RunIn(NameParts, s, i + 1);
    hide Lex.RunEnd;
    var e := RunEnd(NameParts, s, i + 1);
    assert s[i..e] == [s[i]] + s[i + 1..e];
  }

  /** Every piece the lexer takes is valid, is the text it stands on, and stops where it says. */
  lemma StepSound(s: string, i: nat)
    requires i < |s| && Step(s, i).Took?
    ensures var Took(p, e) := Step(s, i);
            Text(p) == s[i..e] && Valid(p) && Stops(p, s[e..])
  {
    hide Lex.RunEnd, StringEnd, NumberEnd, PunctLength, IsString, IsNumber, IsName, IsPunct;
    var c := s[i];
    if IsBlank(c) {
    } else if c == '#' {
      CommentPiece(s, i);
    } else if c == '"' {
      StringPiece(s, i);
    } else if IsDigit(c) || (c == '-' && DigitAt(s, i + 1)) {
      NumberPiece(s, i);
    } else if IsNameStart(c) {
      NamePiece(s, i);
    } else {
      PunctStops(s, i);
    }
  }

  lemma PunctStops(s: string, i: nat)
    requires i < |s| && PunctLength(s, i) != 0
    ensures var n := PunctLength(s, i);
            IsPunct(s[i..i + n]) && Stops(Tok(Punct, s[i..i + n]), s[i + n..])
  {
  }

  /** Conversely, a valid piece that stops before the rest of the text is what the lexer takes. */
  lemma StepComplete(s: string, i: nat, p: Piece)
    requires i < |s| && Text(p) <= s[i..] && Valid(p) && Stops(p, s[i + |Text(p)|..])
    ensures Step(s, i) == Took(p, i + |Text(p)|)
  {
    hide *;
    TextOfPiece(p);
    match p
    case Blank(c) => BlankComplete(s, i, c);
    case Comment(t) => CommentComplete(s, i, t);
    case Tok(StringLit, t) => StringComplete(s, i, t);
    case Tok(Number, t) => NumberComplete(s, i, t);
    case Tok(Bool, t) => NameComplete(s, i, t);
    case Tok(Name, t) => NameComplete(s, i, t);
    case Tok(Punct, t) => PunctComplete(s, i, t);
    case Tok(Eof, t) =>
  }

  lemma TextOfPiece(p: Piece)
    ensures Text(p) == if p.Blank? then [p.c] else if p.Comment? then p.comment else p.text
    ensures forall rest :: Stops(p, rest) ==>
              && (p.Comment? ==> !HeadIn(rest, CommentChars))
              && (p.Tok? && (p.kind == Bool || p.kind == Name) ==> !HeadIn(rest, NameParts))
    ensures Valid(p) ==>
              && (p.Comment? ==> p.comment != "" && p.comment[0] == '#' && AllIn(p.comment, CommentChars))
              && (p.Blank? ==> IsBlank(p.c))
              && (p.Tok? ==>
                    && p.kind != Eof && (p.kind == StringLit ==> IsString(p.text)) && (p.kind == Number ==> IsNumber(p.text))
                    && (p.kind == Punct ==> IsPunct(p.text))
                    && (p.kind == Bool || p.kind == Name ==> IsName(p.text) && NameKind(p.text) == p.kind))
  {
  }

  lemma BlankComplete(s: string, i: nat, c: char)
    requires i < |s| && [c] <= s[i..] && IsBlank(c)
    ensures Step(s, i) == Took(Blank(c), i + 1)
  {
    hide NumberEnd, Lex.RunEnd, StringEnd, PunctLength;
    assert s[i..][0] == c;
  }

  lemma CommentComplete(s: string, i: nat, t: string)
    requires i < |s| && t <= s[i..] && t != "" && t[0] == '#' && AllIn(t, CommentChars) && !HeadIn(s[i + |t|..], CommentChars)
    ensures Step(s, i) == Took(Comment(t), i + |t|)
  {
    hide NumberEnd, StringEnd, PunctLength;
    assert s[i..i + |t|] == t && s[i] == t[0];
    RunEndIs(CommentChars, s, i, i + |t|);
  }

  lemma StepString(s: string, i: nat, e: nat)
    requires i < |s| && s[i] == '"' && StringEnd(s, i + 1) == Some(e)
    ensures Step(s, i) == Took(Tok(StringLit, s[i..e]), e)
  {
    hide StringEnd, Lex.RunEnd, NumberEnd, PunctLength;
  }

  lemma StringComplete(s: string, i: nat, t: string)
    requires i < |s| && t <= s[i..] && IsString(t)
    ensures Step(s, i) == Took(Tok(StringLit, t), i + |t|)
  {
    hide Step, StringEnd;
    assert s[i..i + |t|] == t && s[i] == t[0];
    StringEndShift(t, 1, s, i + 1);
    StepString(s, i, i + |t|);
  }

  lemma NameComplete(s: string, i: nat, t: string)
    requires i < |s| && t <= s[i..] && IsName(t) && !HeadIn(s[i + |t|..], NameParts)
    ensures Step(s, i) == Took(Tok(NameKind(t), t), i + |t|)
  {
    assert s[i..i + |t|] == t && s[i] == t[0];
    assert s[i + 1..i + |t|] == t[1..];
    RunEndIs(NameParts, s, i + 1, i + |t|);
  }

  lemma NumberComplete(s: string, i: nat, t: string)
    requires i < |s| && t <= s[i..] && IsNumber(t) && Stops(Tok(Number, t), s[i + |t|..])
    ensures Step(s, i) == Took(Tok(Number, t), i + |t|)
  {
    assert s[i..i + |t|] == t && s[i] == t[0];
    if IsWhole(Unsigned(t)) {
      WholeComplete(s, i, t);
    } else {
      DecimalComplete(s, i, t);
    }
    NumberStart(t);
    assert |t| > 1 ==> s[i + 1] == t[1];
  }

  lemma NumberStart(t: string)
    requires IsNumber(t)
    ensures t != "" && (IsDigit(t[0]) || (t[0] == '-' && DigitAt(t, 1)))
  {
    var u := Unsigned(t);
    if IsWhole(u) {
      assert u[0] in u;
    } else {
      var k :| 0 <= k < |u| && DottedAt(u, k);
      assert u[0] in u[..k];
    }
  }

  lemma WholeComplete(s: string, i: nat, t: string)
    requires i < |s| && t <= s[i..] && IsWhole(Unsigned(t)) && Stops(Tok(Number, t), s[i + |t|..])
    ensures NumberEnd(s, i) == i + |t|
  {
    assert s[i + 1..i + |t|] == t[1..];
    assert AllIn(t[1..], Digits);
    RunEndIs(Digits, s, i + 1, i + |t|);
    DecimalIsNotWhole(Unsigned(t));
  }

  lemma DecimalComplete(s: string, i: nat, t: string)
    requires i < |s| && t <= s[i..] && IsDecimal(Unsigned(t)) && Stops(Tok(Number, t), s[i + |t|..])
    ensures NumberEnd(s, i) == i + |t|
  {
    var u := Unsigned(t);
    var k :| 0 <= k < |u| && DottedAt(u, k);
    var dot := |t| - |u| + k;
    assert u[k] == t[dot] && t[dot + 1..] == u[k + 1..];
    DigitsBefore(t, dot, k);
    FractionComplete(s, i, t, dot);
  }

  lemma FractionComplete(s: string, i: nat, t: string, dot: nat)
    requires i < |s| && t <= s[i..] && 0 < dot < |t| - 1 && t[dot] == '.'
    requires AllIn(t[1..dot], Digits) && AllIn(t[dot + 1..], Digits) && !HeadIn(s[i + |t|..], Digits)
    ensures NumberEnd(s, i) == i + |t|
  {
    assert s[i..i + |t|] == t;
    assert t[dot] == s[i + dot] && s[i + 1..i + dot] == t[1..dot];
    RunEndIs(Digits, s, i + 1, i + dot);
    assert s[i + dot + 1..i + |t|] == t[dot + 1..];
    assert s[i + dot + 1] == t[dot + 1..][0];
    assert t[dot + 1..][0] in t[dot + 1..];
    RunEndIs(Digits, s, i + dot + 1, i + |t|);
  }

  lemma DigitsBefore(t: string, dot: nat, k: nat)
    requires DottedAt(Unsigned(t), k) && dot == |t| - |Unsigned(t)| + k
    ensures AllIn(t[1..dot], Digits)
  {
    var u := Unsigned(t);
    assert t[1..dot] == u[1 - (|t| - |u|)..k];
    assert forall c :: c in u[1 - (|t| - |u|)..k] ==> c in u[..k];
  }

  lemma DecimalIsNotWhole(u: string)
    requires IsWhole(u)
    ensures !IsDecimal(u)
  {
    assert forall k :: 0 <= k < |u| ==> u[k] in u;
  }

  lemma PunctComplete(s: string, i: nat, t: string)
    requires i < |s| && t <= s[i..] && IsPunct(t) && Stops(Tok(Punct, t), s[i + |t|..])
    ensures Step(s, i) == Took(Tok(Punct, t), i + |t|)
  {
    assert s[i..i + |t|] == t;
    assert s[i] == t[0];
    if |t| == 2 {
      assert s[i + 1] == t[1];
    } else if i + 1 < |s| {
      assert s[i + 1] == s[i + 1..][0];
    }
    assert PunctLength(s, i) == |t|;
    PunctHead(t);
  }

  lemma PunctHead(t: string)
    requires IsPunct(t)
    ensures var c := t[0];
            !IsBlank(c) && c != '#' && c != '"' && !IsDigit(c) && c != '-' && !IsNameStart(c)
  {
  }

  lemma MunchedCons(p: Piece, rest: seq<Piece>)
    requires Valid(p) && Stops(p, Flat(rest)) && Munched(rest)
    ensures Munched([p] + rest) && Flat([p] + rest) == Text(p) + Flat(rest)
  {
    assert ([p] + rest)[1..] == rest;
  }

  lemma {:induction false} ChopSound(s: string, i: nat)
    requires i <= |s| && Chop(s, i).Pieces?
    ensures Flat(Chop(s, i).pieces) == s[i..] && Munched(Chop(s, i).pieces)
    decreases |s| - i
  {
    if i < |s| {
      hide Step, Valid, Stops, Munched, Flat;
      var Took(p, e) := Step(s, i);
      StepSound(s, i);
      ChopSound(s, e);
      MunchedCons(p, Chop(s, e).pieces);
      assert s[i..] == s[i..e] + s[e..];
    }
  }

  lemma MunchedHead(ps: seq<Piece>)
    requires Munched(ps) && ps != []
    ensures Valid(ps[0]) && Stops(ps[0], Flat(ps[1..])) && Munched(ps[1..])
    ensures Flat(ps) == Text(ps[0]) + Flat(ps[1..]) && Text(ps[0]) != ""
  {
  }

  lemma ChopCons(s: string, i: nat, p: Piece, e: nat, rest: seq<Piece>)
    requires i < |s| && Step(s, i) == Took(p, e) && Chop(s, e) == Pieces(rest)
    ensures Chop(s, i) == Pieces([p] + rest)
  {
    hide Step;
  }

  lemma {:induction false} ChopComplete(s: string, i: nat, ps: seq<Piece>)
    requires i <= |s| && Flat(ps) == s[i..] && Munched(ps)
    ensures Chop(s, i) == Pieces(ps)
    decreases |ps|
  {
    hide Valid, Stops, Step, Munched, Flat, Chop;
    if ps == [] {
      ChopEnd(s, i);
    } else {
      var p, e := ps[0], i + |Text(ps[0])|;
      MunchedHead(ps);
      SuffixAfter(s, i, Text(p), Flat(ps[1..]));
      StepComplete(s, i, p);
      ChopComplete(s, e, ps[1..]);
      ChopCons(s, i, p, e, ps[1..]);
      assert [p] + ps[1..] == ps;
    }
  }

  lemma ChopEnd(s: string, i: nat)
    requires i <= |s| && s[i..] == Flat([])
    ensures Chop(s, i) == Pieces([])
  {
  }

  lemma SuffixAfter(s: string, i: nat, a: string, b: string)
    requires i <= |s| && s[i..] == a + b
    ensures a <= s[i..] && i + |a| <= |s| && s[i + |a|..] == b
  {
    assert s[i + |a|..] == s[i..][|a|..];
  }

  /** The lexer succeeds exactly on the texts that have a maximal-munch split, and returns it:
      in particular there is at most one. */
  lemma LexIsMaximalMunch(s: string, ps: seq<Piece>)
    ensures Chop(s, 0) == Pieces(ps) <==> Flat(ps) == s && Munched(ps)
  {
    assert s[0..] == s;
    if Chop(s, 0) == Pieces(ps) {
      ChopSound(s, 0);
    }
    if Flat(ps) == s && Munched(ps) {
      ChopComplete(s, 0, ps);
    }
  }

  // ----- Where the lexer gives up -----

  /** No blank, comment or token of the language is what the text starts with. */
  ghost predicate NothingStarts(rest: string) { forall p :: Valid(p) ==> !(Text(p) <= rest) }

  lemma StuckThere(s: string, i: nat)
    requires i < |s| && Step(s, i).Stuck?
    ensures NothingStarts(s[i..])
    ensures Step(s, i) == Stuck(if s[i] == '"' then UnterminatedString else UnexpectedCharacter(s[i]))
  {
    hide NumberEnd, Lex.RunEnd;
    forall p | Valid(p)
      ensures !(Text(p) <= s[i..])
    {
      if Text(p) <= s[i..] {
        NotStuck(s, i, p);
      }
    }
  }

  lemma NotStuck(s: string, i: nat, p: Piece)
    requires i < |s| && Valid(p) && Text(p) <= s[i..]
    ensures Step(s, i).Took?
  {
    hide NumberEnd, Lex.RunEnd, StringEnd;
    var t := Text(p);
    match p
    case Blank(c) => assert s[i..][0] == c;
    case Comment(text) => assert s[i..][0] == '#';
    case Tok(StringLit, text) => StringComplete(s, i, text);
    case Tok(Number, text) =>
      NumberStart(text);
      assert s[i..][0] == text[0] && (|text| > 1 ==> s[i..][1] == text[1]);
    case Tok(Punct, text) =>
      PunctHead(text);
      assert s[i..][0] == text[0] && (|text| > 1 ==> s[i..][1] == text[1]);
    case Tok(Bool, text) => assert s[i..][0] == text[0];
    case Tok(Name, text) => assert s[i..][0] == text[0];
    case Tok(Eof, _) =>
  }

  /** A split of the text up to `rest`, each piece of it as long as it gets. */
  predicate MunchedBefore(ps: seq<Piece>, rest: string) {
    ps == [] || (Valid(ps[0]) && Stops(ps[0], Flat(ps[1..]) + rest) && MunchedBefore(ps[1..], rest))
  }

  /** The text splits up to `at`, where nothing of the language starts: not even a string, if a quotation mark
      stands there. */
  ghost predicate GivesUp(s: string, from: nat, problem: Problem, at: nat) {
    && from <= at < |s| && NothingStarts(s[at..])
    && problem == (if s[at] == '"' then UnterminatedString else UnexpectedCharacter(s[at]))
    && exists ps :: MunchedBefore(ps, s[at..]) && Flat(ps) == s[from..at]
  }

  lemma {:induction false} StoppedIs(s: string, i: nat)
    requires i <= |s| && Chop(s, i).Stopped?
    ensures GivesUp(s, i, Chop(s, i).problem, Chop(s, i).at)
    decreases |s| - i
  {
    hide Valid, Stops, Step, NothingStarts, Flat, MunchedBefore, Chop, GivesUp;
    ChopOfNone(s);
    StoppedOn(s, i);
    if Step(s, i).Stuck? {
      GivesUpHere(s, i);
    } else {
      ChopOn(s, i);
      var e := Step(s, i).end;
      StoppedIs(s, e);
      StepOn(s, i, Chop(s, e).problem, Chop(s, e).at);
    }
  }

  lemma GivesUpHere(s: string, i: nat)
    requires i < |s| && Step(s, i).Stuck?
    ensures GivesUp(s, i, Step(s, i).problem, i)
  {
    hide Step, NothingStarts, MunchedBefore, Flat;
    StuckThere(s, i);
    NoneBefore(s[i..]);
    assert s[i..i] == "";
  }

  lemma ChopOfNone(s: string)
    ensures Chop(s, |s|).Pieces?
  {
  }

  lemma NoneBefore(rest: string)
    ensures Flat([]) == "" && MunchedBefore([], rest)
  {
  }

  lemma ChopOn(s: string, i: nat)
    requires i < |s| && Step(s, i).Took?
    ensures Chop(s, i).Stopped? ==> Chop(s, Step(s, i).end).Stopped?
  {
    hide Step;
  }

  lemma StepOn(s: string, i: nat, problem: Problem, at: nat)
    requires i < |s| && Step(s, i).Took? && GivesUp(s, Step(s, i).end, problem, at)
    ensures GivesUp(s, i, problem, at)
  {
    hide Valid, Stops, Step, NothingStarts, Flat, MunchedBefore;
    var Took(p, e) := Step(s, i);
    StepSound(s, i);
    var ps :| MunchedBefore(ps, s[at..]) && Flat(ps) == s[e..at];
    assert s[e..] == s[e..at] + s[at..];
    BeforeCons(p, ps, s[at..]);
    assert s[i..at] == s[i..e] + s[e..at];
  }

  lemma BeforeCons(p: Piece, ps: seq<Piece>, rest: string)
    requires Valid(p) && Stops(p, Flat(ps) + rest) && MunchedBefore(ps, rest)
    ensures MunchedBefore([p] + ps, rest) && Flat([p] + ps) == Text(p) + Flat(ps)
  {
    assert ([p] + ps)[1..] == ps;
  }

  lemma BeforeHead(ps: seq<Piece>, rest: string)
    requires MunchedBefore(ps, rest) && ps != []
    ensures Valid(ps[0]) && Stops(ps[0], Flat(ps[1..]) + rest) && MunchedBefore(ps[1..], rest)
    ensures Flat(ps) == Text(ps[0]) + Flat(ps[1..])
  {
  }

  lemma StoppedOn(s: string, i: nat)
    requires i < |s|
    ensures Step(s, i).Stuck? ==> Chop(s, i) == Stopped(Step(s, i).problem, i)
    ensures Step(s, i).Took? && Chop(s, Step(s, i).end).Stopped? ==> Chop(s, i) == Chop(s, Step(s, i).end)
  {
    hide Step;
  }

  lemma {:induction false} GivesUpStops(s: string, i: nat, ps: seq<Piece>, at: nat)
    requires i <= at < |s| && NothingStarts(s[at..]) && MunchedBefore(ps, s[at..]) && Flat(ps) == s[i..at]
    ensures Chop(s, i).Stopped? && Chop(s, i).at == at
    decreases |ps|
  {
    hide *;
    if ps == [] {
      NoneBefore(s[at..]);
      assert i == at;
      StoppedOn(s, i);
      if Step(s, i).Took? {
        TookStarts(s, i);
      }
    } else {
      var p, tail := ps[0], Flat(ps[1..]);
      var e := i + |Text(p)|;
      BeforeHead(ps, s[at..]);
      SplitAt(s, i, at, Text(p), tail);
      StepComplete(s, i, p);
      StoppedOn(s, i);
      GivesUpStops(s, e, ps[1..], at);
    }
  }

  lemma SplitAt(s: string, i: nat, at: nat, a: string, b: string)
    requires i <= at < |s| && s[i..at] == a + b
    ensures i + |a| <= at && a <= s[i..] && s[i + |a|..] == b + s[at..] && b == s[i + |a|..at]
  {
    assert s[i..] == s[i..at] + s[at..];
    assert s[i..at][|a|..] == s[i + |a|..at] == b;
  }

  lemma TookStarts(s: string, i: nat)
    requires i < |s| && Step(s, i).Took?
    ensures !NothingStarts(s[i..])
  {
    hide Step, Valid;
    StepSound(s, i);
    var Took(p, e) := Step(s, i);
    assert Text(p) <= s[i..];
  }

  /** The lexer gives up on a text, with a problem and at an offset, exactly if it splits up to there and
      nothing of the language starts there. */
  lemma StoppedExact(s: string, problem: Problem, at: nat)
    ensures Chop(s, 0) == Stopped(problem, at) <==> GivesUp(s, 0, problem, at)
  {
    hide Chop, NothingStarts, MunchedBefore, Flat;
    if Chop(s, 0).Stopped? {
      StoppedIs(s, 0);
    }
    if GivesUp(s, 0, problem, at) {
      var ps :| MunchedBefore(ps, s[at..]) && Flat(ps) == s[0..at];
      GivesUpStops(s, 0, ps, at);
      StoppedIs(s, 0);
    }
  }
}
