/** The `.bart` tokenizer (app/frontend/src/lib/bart/lex.ts).

    `Lex` is the loop of the source over an index; `Chop` is the function it computes; and
    `Munched` is an independent, declarative reading of maximal munch, with no scanning in it.
    Everything the other modules prove about text goes through `Munched`. */
module Lex {

  datatype Option<+T> = None | Some(value: T)

  datatype Kind = StringLit | Number | Bool | Name | Punct | Eof

  /** `text` is verbatim source; `start` and `end` are character offsets. */
  datatype Token = Token(kind: Kind, text: string, start: nat, end: nat)

  datatype Problem = UnterminatedString | UnexpectedCharacter(c: char)

  datatype LexResult = Lexed(tokens: seq<Token>) | LexError(problem: Problem, at: nat)

  /** Longest first, as `find` tries them in this order. */
  const PUNCTUATION: seq<string> :=
    ["!=", "<=", ">=", "(", ")", "{", "}", ",", ":", ".", "=", "<", ">"]

  predicate IsDigit(c: char) { '0' <= c <= '9' }

  predicate IsNameStart(c: char) { 'a' <= c <= 'z' || 'A' <= c <= 'Z' || c == '_' }

  predicate IsNamePart(c: char) { IsNameStart(c) || IsDigit(c) }

  predicate IsBlank(c: char) { c == ' ' || c == '\t' || c == '\r' || c == '\n' }

  datatype CharClass = Digits | NameParts | CommentChars

  predicate In(c: char, cls: CharClass) {
    match cls
    case Digits => IsDigit(c)
    case NameParts => IsNamePart(c)
    case CommentChars => c != '\n'
  }

  // ----- Scanning -----

  /** The end of the run of `cls` characters of `s` starting at `i`. */
  function RunEnd(cls: CharClass, s: string, i: nat): (j: nat)
    requires i <= |s|
    ensures i <= j <= |s|
    ensures forall k :: i <= k < j ==> In(s[k], cls)
    ensures j < |s| ==> !In(s[j], cls)
    decreases |s| - i
  {
    if i < |s| && In(s[i], cls) then RunEnd(cls, s, i + 1) else i
  }

  predicate DigitAt(s: string, i: nat) { i < |s| && IsDigit(s[i]) }

  /** One past the closing quote, scanning a string body from `i`; an escape takes the next
      character with it, whatever it is. */
  function StringEnd(s: string, i: nat): (r: Option<nat>)
    requires i <= |s|
    ensures r.Some? ==> i < r.value <= |s| && s[r.value - 1] == '"'
    decreases |s| - i
  {
    if i == |s| then None
    else if s[i] == '\\' then StringEnd(s, if i + 1 == |s| then i + 1 else i + 2)
    else if s[i] == '"' then Some(i + 1)
    else StringEnd(s, i + 1)
  }

  function NumberEnd(s: string, i: nat): (j: nat)
    requires i < |s|
    ensures i < j <= |s|
  {
    var j := RunEnd(Digits, s, i + 1);
    if j < |s| && s[j] == '.' && DigitAt(s, j + 1) then RunEnd(Digits, s, j + 1) else j
  }

  predicate StartsWith(s: string, p: string, i: nat) { i + |p| <= |s| && s[i..i + |p|] == p }

  /** The first entry of `table` that `s` has at `i`. */
  function FindPunct(table: seq<string>, s: string, i: nat): (r: Option<string>)
    ensures r.Some? ==> r.value in table && StartsWith(s, r.value, i)
    ensures r.None? ==> forall p :: p in table ==> !StartsWith(s, p, i)
  {
    if table == [] then None
    else if StartsWith(s, table[0], i) then Some(table[0])
    else FindPunct(table[1..], s, i)
  }

  /** How much punctuation `s` has at `i`: two characters, one, or none. */
  function PunctLength(s: string, i: nat): (n: nat)
    requires i < |s|
    ensures n <= 2 && i + n <= |s|
  {
    if s[i] in "!<>" && i + 1 < |s| && s[i + 1] == '=' then 2
    else if s[i] in "(){},:.=<>" then 1
    else 0
  }

  lemma {:induction false} FindAmongSingles(table: seq<string>, s: string, i: nat)
    requires i < |s| && forall p :: p in table ==> |p| == 1
    ensures FindPunct(table, s, i) == if [s[i]] in table then Some([s[i]]) else None
  {
    if table == [] {
    } else {
      assert s[i..i + 1] == [s[i]];
      FindAmongSingles(table[1..], s, i);
      assert table == [table[0]] + table[1..];
    }
  }

  lemma PairAt(s: string, i: nat, p: string)
    requires i < |s| && |p| == 2
    ensures StartsWith(s, p, i) <==> s[i] == p[0] && i + 1 < |s| && s[i + 1] == p[1]
  {
    if i + 1 < |s| {
      assert s[i..i + 2] == [s[i], s[i + 1]];
    }
  }

  lemma FoundLength(s: string, i: nat)
    requires i < |s|
    ensures var n := PunctLength(s, i);
            FindPunct(PUNCTUATION, s, i) == if n == 0 then None else Some(s[i..i + n])
  {
    hide FindPunct, StartsWith;
    FindPairs(s, i);
    PairAt(s, i, "!=");
    PairAt(s, i, "<=");
    PairAt(s, i, ">=");
    assert s[i] in "!<>" <==> s[i] in ['!', '<', '>'];
    FindSingles(s, i);
    if i + 1 < |s| {
      assert s[i..i + 2] == [s[i], s[i + 1]];
    }
    assert s[i..i + 1] == [s[i]];
  }

  lemma NoneLonger(s: string, i: nat)
    requires i < |s|
    ensures forall p :: p in PUNCTUATION && StartsWith(s, p, i) ==> |p| <= PunctLength(s, i)
  {
    forall p | p in PUNCTUATION && StartsWith(s, p, i)
      ensures |p| <= PunctLength(s, i)
    {
      var k :| 0 <= k < |PUNCTUATION| && PUNCTUATION[k] == p;
      assert p[0] == s[i..i + |p|][0] && p[|p| - 1] == s[i..i + |p|][|p| - 1];
    }
  }

  /** Trying the pairs before the singles finds the longest entry that the text has there. */
  lemma LongestFirst(s: string, i: nat)
    requires i < |s|
    ensures var found := FindPunct(PUNCTUATION, s, i);
            if found.None? then forall p :: p in PUNCTUATION ==> !StartsWith(s, p, i)
            else
              && found.value in PUNCTUATION && StartsWith(s, found.value, i)
              && forall p :: p in PUNCTUATION && StartsWith(s, p, i) ==> |p| <= |found.value|
  {
    hide FindPunct, StartsWith, PunctLength;
    FoundLength(s, i);
    NoneLonger(s, i);
  }

  lemma FindSingles(s: string, i: nat)
    requires i < |s|
    ensures FindPunct(PUNCTUATION[3..], s, i) == if s[i] in "(){},:.=<>" then Some([s[i]]) else None
  {
    hide FindPunct;
    var singles := PUNCTUATION[3..];
    assert singles == ["(", ")", "{", "}", ",", ":", ".", "=", "<", ">"];
    FindAmongSingles(singles, s, i);
    SingleIn(singles, s[i]);
  }

  lemma SingleIn(singles: seq<string>, c: char)
    requires singles == ["(", ")", "{", "}", ",", ":", ".", "=", "<", ">"]
    ensures [c] in singles <==> c in "(){},:.=<>"
  {
    assert forall k :: 0 <= k < |singles| ==> (singles[k] == [c] <==> singles[k][0] == c);
  }

  lemma FindPairs(s: string, i: nat)
    ensures FindPunct(PUNCTUATION, s, i) ==
      if StartsWith(s, "!=", i) then Some("!=")
      else if StartsWith(s, "<=", i) then Some("<=")
      else if StartsWith(s, ">=", i) then Some(">=")
      else FindPunct(PUNCTUATION[3..], s, i)
  {
    assert PUNCTUATION[1..][1..] == PUNCTUATION[2..] && PUNCTUATION[2..][1..] == PUNCTUATION[3..];
    assert PUNCTUATION[1..][0] == "<=" && PUNCTUATION[2..][0] == ">=";
    assert FindPunct(PUNCTUATION, s, i) == if StartsWith(s, "!=", i) then Some("!=") else FindPunct(PUNCTUATION[1..], s, i);
    assert FindPunct(PUNCTUATION[1..], s, i) == if StartsWith(s, "<=", i) then Some("<=") else FindPunct(PUNCTUATION[2..], s, i);
  }

  // ----- Pieces: what one turn of the lexer's loop takes -----

  datatype Piece =
    | Blank(c: char)
    | Comment(comment: string)
    | Tok(kind: Kind, text: string)

  datatype Turn = Took(piece: Piece, end: nat) | Stuck(problem: Problem)

  function NameKind(text: string): Kind {
    if text == "true" || text == "false" then Bool else Name
  }

  function Step(s: string, i: nat): (t: Turn)
    requires i < |s|
    ensures t.Took? ==> i < t.end <= |s|
  {
    var c := s[i];
    if IsBlank(c) then Took(Blank(c), i + 1)
    else if c == '#' then
      var j := RunEnd(CommentChars, s, i);
      Took(Comment(s[i..j]), j)
    else if c == '"' then
      match StringEnd(s, i + 1)
      case None => Stuck(UnterminatedString)
      case Some(j) => Took(Tok(StringLit, s[i..j]), j)
    else if IsDigit(c) || (c == '-' && DigitAt(s, i + 1)) then
      var j := NumberEnd(s, i);
      Took(Tok(Number, s[i..j]), j)
    else if IsNameStart(c) then
      var j := RunEnd(NameParts, s, i + 1);
      Took(Tok(NameKind(s[i..j]), s[i..j]), j)
    else
      var n := PunctLength(s, i);
      if n == 0 then Stuck(UnexpectedCharacter(c)) else Took(Tok(Punct, s[i..i + n]), i + n)
  }

  datatype Chopped = Pieces(pieces: seq<Piece>) | Stopped(problem: Problem, at: nat)

  function Chop(s: string, i: nat): Chopped
    requires i <= |s|
    decreases |s| - i
  {
    if i == |s| then Pieces([])
    else
      match Step(s, i)
      case Stuck(problem) => Stopped(problem, i)
      case Took(piece, end) =>
        match Chop(s, end)
        case Stopped(problem, at) => Stopped(problem, at)
        case Pieces(rest) => Pieces([piece] + rest)
  }

  function Text(p: Piece): string {
    match p
    case Blank(c) => [c]
    case Comment(text) => text
    case Tok(_, text) => text
  }

  function Flat(ps: seq<Piece>): string {
    if ps == [] then "" else Text(ps[0]) + Flat(ps[1..])
  }

  /** The tokens among the pieces, the first piece starting at offset `base`. */
  function Tokens(ps: seq<Piece>, base: nat): seq<Token> {
    if ps == [] then []
    else
      var rest := Tokens(ps[1..], base + |Text(ps[0])|);
      match ps[0]
      case Tok(kind, text) => [Token(kind, text, base, base + |text|)] + rest
      case _ => rest
  }

  function EofToken(at: nat): Token { Token(Eof, "", at, at) }

  function LexSpec(s: string): LexResult {
    match Chop(s, 0)
    case Stopped(problem, at) => LexError(problem, at)
    case Pieces(ps) => Lexed(Tokens(ps, 0) + [EofToken(|s|)])
  }

  // ----- The loop of the source -----

  /** The inner loops `while (i < source.length && ...) advance(1)`. */
  method SkipRun(cls: CharClass, source: string, start: nat) returns (i: nat)
    requires start <= |source|
    ensures i == RunEnd(cls, source, start)
  {
    i := start;
    while i < |source| && In(source[i], cls)
      invariant start <= i <= |source|
      invariant RunEnd(cls, source, i) == RunEnd(cls, source, start)
    {
      i := i + 1;
    }
  }

  method SkipString(source: string, start: nat) returns (closed: bool, i: nat)
    requires start <= |source|
    ensures StringEnd(source, start) == if closed then Some(i) else None
  {
    i := start;
    closed := false;
    while i < |source| && !closed
      invariant start <= i <= |source|
      invariant StringEnd(source, start) == if closed then Some(i) else StringEnd(source, i)
      decreases |source| - i, !closed
    {
      if source[i] == '\\' {
        i := i + (if i + 1 == |source| then 1 else 2);
      } else {
        closed := source[i] == '"';
        i := i + 1;
      }
    }
  }

  method SkipNumber(source: string, start: nat) returns (i: nat)
    requires start < |source|
    ensures i == NumberEnd(source, start)
  {
    i := SkipRun(Digits, source, start + 1);
    if i < |source| && source[i] == '.' && DigitAt(source, i + 1) {
      i := SkipRun(Digits, source, i + 1);
    }
  }

  /** What the loop still has to produce once it stands at `i` with `tokens` pushed. */
  ghost function Resume(s: string, tokens: seq<Token>, i: nat): LexResult
    requires i <= |s|
  {
    match Chop(s, i)
    case Stopped(problem, at) => LexError(problem, at)
    case Pieces(ps) => Lexed(tokens + Tokens(ps, i) + [EofToken(|s|)])
  }

  function Pushed(tokens: seq<Token>, piece: Piece, start: nat): seq<Token> {
    match piece
    case Tok(kind, text) => tokens + [Token(kind, text, start, start + |text|)]
    case _ => tokens
  }

  lemma ResumeStep(s: string, tokens: seq<Token>, start: nat)
    requires start < |s|
    ensures var turn := Step(s, start);
            Resume(s, tokens, start) ==
              if turn.Stuck? then LexError(turn.problem, start)
              else Resume(s, Pushed(tokens, turn.piece, start), turn.end)
  {
    hide Step, Chop, Tokens;
    StepLength(s, start);
    ChopUnfold(s, start);
    var turn := Step(s, start);
    if turn.Took? && Chop(s, turn.end).Pieces? {
      var rest := Chop(s, turn.end).pieces;
      TokensCons(tokens, turn.piece, rest, start);
    }
  }

  lemma ChopUnfold(s: string, i: nat)
    requires i < |s|
    ensures Chop(s, i) ==
              var turn := Step(s, i);
              if turn.Stuck? then Stopped(turn.problem, i)
              else if Chop(s, turn.end).Stopped? then Chop(s, turn.end)
              else Pieces([turn.piece] + Chop(s, turn.end).pieces)
  {
    hide Step;
  }

  lemma TokensCons(tokens: seq<Token>, p: Piece, rest: seq<Piece>, base: nat)
    ensures tokens + Tokens([p] + rest, base) == Pushed(tokens, p, base) + Tokens(rest, base + |Text(p)|)
  {
    var ps := [p] + rest;
    assert ps[0] == p && ps[1..] == rest;
    var later := Tokens(rest, base + |Text(p)|);
    assert Tokens(ps, base) == Pushed([], p, base) + later;
    hide Tokens;
    assert tokens + (Pushed([], p, base) + later) == Pushed(tokens, p, base) + later;
  }

  lemma StepLength(s: string, i: nat)
    requires i < |s|
    ensures Step(s, i).Took? ==> Text(Step(s, i).piece) == s[i..Step(s, i).end]
  {
  }

  /** The body of the loop: what stands at `start`, read with the loops above. */
  method Read(source: string, start: nat) returns (turn: Turn)
    requires start < |source|
    ensures turn == Step(source, start)
  {
    var c := source[start];
    var i;
    if IsBlank(c) {
      return Took(Blank(c), start + 1);
    }
    if c == '#' {
      i := SkipRun(CommentChars, source, start);
      return Took(Comment(source[start..i]), i);
    }
    if c == '"' {
      var closed;
      closed, i := SkipString(source, start + 1);
      return if closed then Took(Tok(StringLit, source[start..i]), i) else Stuck(UnterminatedString);
    }
    if IsDigit(c) || (c == '-' && DigitAt(source, start + 1)) {
      i := SkipNumber(source, start);
      return Took(Tok(Number, source[start..i]), i);
    }
    if IsNameStart(c) {
      i := SkipRun(NameParts, source, start + 1);
      return Took(Tok(NameKind(source[start..i]), source[start..i]), i);
    }
    var punct := FindPunct(PUNCTUATION, source, start);
    FoundLength(source, start);
    return if punct.Some? then Took(Tok(Punct, punct.value), start + |punct.value|) else Stuck(UnexpectedCharacter(c));
  }

  method Lex(source: string) returns (r: LexResult)
    ensures r == LexSpec(source)
  {
    var tokens: seq<Token> := [];
    var i := 0;
    while i < |source|
      invariant i <= |source|
      invariant Resume(source, tokens, i) == LexSpec(source)
    {
      ResumeStep(source, tokens, i);
      StepLength(source, i);
      var turn := Read(source, i);
      match turn
      case Stuck(problem) =>
        return LexError(problem, i);
      case Took(piece, end) =>
        tokens := Pushed(tokens, piece, i);
        i := end;
    }
    tokens := tokens + [EofToken(i)];
    return Lexed(tokens);
  }
}
