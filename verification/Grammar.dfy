/** The engine's own reading of a policy (evaluator/bart-parser/src/main/antlr4/com/thesis/bartparser/Bart.g4),
    whose comments end at a carriage return as well as at a line feed, and what the backend's stripping
    (app/backend/src/bart/emitter.ts) is to it. Everything else it reads as `Lex` does. */
module Grammar {
  import opened Lex
  import opened Munch
  import opened Spelling
  import opened Attrs
  import opened Parse
  import opened Positions
  import opened Emitter

  predicate EndsLine(c: char) { c == '\n' || c == '\r' }

  function LineEnd(s: string, i: nat): (j: nat)
    requires i <= |s|
    ensures i <= j <= |s|
    ensures forall k :: i <= k < j ==> !EndsLine(s[k])
    ensures j < |s| ==> EndsLine(s[j])
    decreases |s| - i
  {
    if i < |s| && !EndsLine(s[i]) then LineEnd(s, i + 1) else i
  }

  function GrammarStep(s: string, i: nat): (t: Turn)
    requires i < |s|
    ensures t.Took? ==> i < t.end <= |s|
  {
    if s[i] == '#' then Took(Comment(s[i..LineEnd(s, i)]), LineEnd(s, i)) else Step(s, i)
  }

  function GrammarChop(s: string, i: nat): Chopped
    requires i <= |s|
    decreases |s| - i
  {
    if i == |s| then Pieces([])
    else
      match GrammarStep(s, i)
      case Stuck(problem) => Stopped(problem, i)
      case Took(piece, end) =>
        match GrammarChop(s, end)
        case Stopped(problem, at) => Stopped(problem, at)
        case Pieces(rest) => Pieces([piece] + rest)
  }

  /** The tokens the grammar reads, or nothing if it cannot. */
  function GrammarLex(s: string): Option<seq<Lexeme>> {
    if GrammarChop(s, 0).Pieces? then Some(Lexemes(GrammarChop(s, 0).pieces)) else None
  }

  /** The grammar reads no token in the comment: after each carriage return there are only blanks, and then
      nothing or a comment again. */
  predicate Silent(comment: string)
    decreases |comment|
  {
    || comment == ""
    || (IsBlank(comment[0]) && Silent(comment[1..]))
    || (comment[0] == '#' && Silent(comment[LineEnd(comment, 0)..]))
  }

  predicate AllSilent(ps: seq<Piece>) { forall p :: p in ps && p.Comment? ==> Silent(p.comment) }

  // ----- One step -----

  lemma ChopUnfold(s: string, i: nat)
    requires i < |s|
    ensures var turn := GrammarStep(s, i);
            GrammarChop(s, i) ==
              if turn.Stuck? then Stopped(turn.problem, i)
              else if GrammarChop(s, turn.end).Stopped? then GrammarChop(s, turn.end)
              else Pieces([turn.piece] + GrammarChop(s, turn.end).pieces)
  {
    hide GrammarStep;
  }

  function TokenOf(p: Piece, base: nat): seq<Token> {
    if p.Tok? then [Token(p.kind, p.text, base, base + |p.text|)] else []
  }

  lemma TokensHead(p: Piece, rest: seq<Piece>, base: nat)
    ensures Tokens([p] + rest, base) == TokenOf(p, base) + Tokens(rest, base + |Text(p)|)
  {
    assert ([p] + rest)[1..] == rest;
  }

  /** The tokens from `i` on, once the text can be read from there. */
  function GrammarTokens(s: string, i: nat): seq<Token>
    requires i <= |s| && GrammarChop(s, i).Pieces?
  {
    Tokens(GrammarChop(s, i).pieces, i)
  }

  lemma GrammarTurn(s: string, i: nat)
    requires i < |s|
    ensures var turn := GrammarStep(s, i);
            && (GrammarChop(s, i).Pieces? <==> turn.Took? && GrammarChop(s, turn.end).Pieces?)
            && (GrammarChop(s, i).Pieces? ==> GrammarTokens(s, i) == TokenOf(turn.piece, i) + GrammarTokens(s, turn.end))
  {
    hide GrammarChop, Tokens;
    ChopUnfold(s, i);
    var turn := GrammarStep(s, i);
    StepLength(s, i);
    if GrammarChop(s, i).Pieces? {
      TokensHead(turn.piece, GrammarChop(s, turn.end).pieces, i);
    }
  }

  lemma LexTurn(s: string, i: nat)
    requires i < |s| && Chop(s, i).Pieces?
    ensures var turn := Step(s, i);
            && turn.Took? && Chop(s, turn.end).Pieces? && Chop(s, i).pieces == [turn.piece] + Chop(s, turn.end).pieces
            && Tokens(Chop(s, i).pieces, i) == TokenOf(turn.piece, i) + Tokens(Chop(s, turn.end).pieces, turn.end)
  {
    hide Step, Tokens;
    StepLength(s, i);
    var turn := Step(s, i);
    if turn.Took? && Chop(s, turn.end).Pieces? {
      TokensHead(turn.piece, Chop(s, turn.end).pieces, i);
    }
  }

  /** What is read at a character that starts neither a blank nor a comment. */
  lemma TokenStep(s: string, i: nat)
    requires i < |s| && !IsBlank(s[i]) && s[i] != '#'
    ensures Step(s, i).Took? ==> Step(s, i).piece.Tok?
  {
  }

  /** What is read at one that starts a comment. */
  lemma CommentStep(s: string, i: nat)
    requires i < |s|
    ensures var turn := Step(s, i);
            turn.Took? && turn.piece.Comment? <==> s[i] == '#'
    ensures s[i] == '#' ==>
              var e := Step(s, i).end;
              && Step(s, i).piece.comment == s[i..e] && (e < |s| ==> s[e] == '\n')
              && forall k :: i <= k < e ==> s[k] != '\n'
  {
    hide StringEnd, NumberEnd, PunctLength;
  }

  // ----- Through a comment -----

  lemma {:induction false} LineEndSlice(s: string, p: nat, i: nat, e: nat)
    requires p <= i <= e <= |s| && (e < |s| ==> s[e] == '\n')
    ensures LineEnd(s, i) <= e && LineEnd(s[p..e], i - p) == LineEnd(s, i) - p
    decreases e - i
  {
    if i == e {
    } else {
      assert s[p..e][i - p] == s[i];
      if !EndsLine(s[i]) {
        LineEndSlice(s, p, i + 1, e);
      }
    }
  }

  /** The grammar comes out of a silent comment as it went in; in any other it reads a token, or fails. */
  lemma {:induction false} ThroughComment(s: string, p: nat, e: nat)
    requires p <= e <= |s| && (e < |s| ==> s[e] == '\n')
    ensures Silent(s[p..e]) ==>
              && (GrammarChop(s, p).Pieces? <==> GrammarChop(s, e).Pieces?)
              && (GrammarChop(s, p).Pieces? ==> GrammarTokens(s, p) == GrammarTokens(s, e))
    ensures !Silent(s[p..e]) && GrammarChop(s, p).Pieces? ==>
              GrammarTokens(s, p) != [] && GrammarTokens(s, p)[0].start < e
    decreases e - p
  {
    hide GrammarChop, GrammarTokens, Step, LineEnd;
    if p == e {
      assert s[p..e] == "";
    } else {
      GrammarTurn(s, p);
      assert s[p..e][0] == s[p];
      if IsBlank(s[p]) {
        BlankStep(s, p);
        ThroughComment(s, p + 1, e);
        assert s[p..e][1..] == s[p + 1..e];
      } else if s[p] == '#' {
        LineEndSlice(s, p, p, e);
        AfterHash(s, p);
        var q := LineEnd(s, p);
        ThroughComment(s, q, e);
        assert s[p..e][q - p..] == s[q..e];
      } else {
        TokenStep(s, p);
      }
    }
  }

  lemma AfterHash(s: string, p: nat)
    requires p < |s| && s[p] == '#'
    ensures LineEnd(s, p) > p
  {
  }

  lemma BlankStep(s: string, i: nat)
    requires i < |s| && IsBlank(s[i])
    ensures GrammarStep(s, i) == Took(Blank(s[i]), i + 1)
  {
  }

  lemma {:induction false} TokensFrom(ps: seq<Piece>, base: nat)
    ensures Tokens(ps, base) != [] ==> Tokens(ps, base)[0].start >= base
    decreases |ps|
  {
    if ps == [] {
    } else {
      TokensFrom(ps[1..], base + |Text(ps[0])|);
    }
  }

  // ----- Where the two readers agree -----

  lemma {:induction false} AgreeFrom(s: string, i: nat)
    requires i <= |s| && Chop(s, i).Pieces?
    ensures GrammarChop(s, i).Pieces? && GrammarTokens(s, i) == Tokens(Chop(s, i).pieces, i) <==> AllSilent(Chop(s, i).pieces)
    decreases |s| - i
  {
    hide GrammarChop, GrammarTokens, Chop, Step, Tokens, Silent, LineEnd;
    if i == |s| {
      AgreeAtEnd(s);
    } else {
      LexTurn(s, i);
      var turn := Step(s, i);
      var rest := Chop(s, turn.end).pieces;
      AgreeFrom(s, turn.end);
      CommentStep(s, i);
      if turn.piece.Comment? {
        ThroughComment(s, i, turn.end);
        TokensFrom(rest, turn.end);
        AllSilentHead(turn.piece, rest);
      } else {
        GrammarTurn(s, i);
        AllSilentHead(turn.piece, rest);
        SameHead(TokenOf(turn.piece, i), Tokens(rest, turn.end), if GrammarChop(s, turn.end).Pieces? then GrammarTokens(s, turn.end) else []);
      }
    }
  }

  lemma SameHead(a: seq<Token>, x: seq<Token>, y: seq<Token>)
    ensures a + x == a + y <==> x == y
  {
    if a + x == a + y {
      assert x == (a + x)[|a|..] && y == (a + y)[|a|..];
    }
  }

  lemma AgreeAtEnd(s: string)
    ensures GrammarChop(s, |s|) == Pieces([]) && Chop(s, |s|) == Pieces([])
    ensures GrammarTokens(s, |s|) == [] && Tokens([], |s|) == []
  {
  }

  lemma AllSilentHead(p: Piece, rest: seq<Piece>)
    ensures AllSilent([p] + rest) <==> (p.Comment? ==> Silent(p.comment)) && AllSilent(rest)
  {
    hide Silent;
    assert p in [p] + rest;
    assert forall q :: q in rest ==> q in [p] + rest;
  }

  /** The two readers find the same tokens at the same places, if and only if every comment is silent. */
  lemma ReadersAgree(s: string)
    requires Chop(s, 0).Pieces?
    ensures GrammarChop(s, 0).Pieces? && GrammarTokens(s, 0) == Tokens(PiecesOf(s), 0) <==> AllSilent(PiecesOf(s))
  {
    AgreeFrom(s, 0);
  }

  /** Then they read the same words. */
  lemma SameWords(s: string)
    requires Chop(s, 0).Pieces? && AllSilent(PiecesOf(s))
    ensures GrammarLex(s) == Some(Lexemes(PiecesOf(s)))
  {
    hide GrammarChop, Chop, Tokens, Lexemes, AllSilent, PiecesOf;
    ReadersAgree(s);
    TokensLexemes(PiecesOf(s), 0);
    TokensLexemes(GrammarChop(s, 0).pieces, 0);
    var a, b := Lexemes(PiecesOf(s)), Lexemes(GrammarChop(s, 0).pieces);
    assert GrammarTokens(s, 0) == Tokens(GrammarChop(s, 0).pieces, 0);
    assert forall k :: 0 <= k < |a| ==> a[k] == Bare(Tokens(PiecesOf(s), 0)[k]);
    assert a == b;
  }

  // ----- Stripping, to the grammar -----

  /** What the grammar reads in a stripped rule is always what the frontend reads in the rule. */
  lemma StrippedReads(rule: string)
    requires Chop(rule, 0).Pieces?
    ensures GrammarLex(Stripped(rule)) == Some(Lexemes(PiecesOf(rule)))
  {
    hide Chop, GrammarLex, Lexemes, Munched, StripFrom, Flat, Silent, NoComments;
    var ps := PiecesOf(rule);
    StripPieces(ps);
    LexIsMaximalMunch(Stripped(rule), NoComments(ps));
    SameWords(Stripped(rule));
  }

  /** So stripping is invisible to the grammar whenever every comment is silent. */
  lemma StripInvisibleToGrammar(rule: string)
    requires Chop(rule, 0).Pieces? && AllSilent(PiecesOf(rule))
    ensures GrammarLex(Stripped(rule)) == GrammarLex(rule)
  {
    StrippedReads(rule);
    SameWords(rule);
  }

  /** As it is in particular when no comment holds a carriage return. */
  lemma NoReturnIsSilent(comment: string)
    requires comment != "" && comment[0] == '#' && forall c :: c in comment ==> !EndsLine(c)
    ensures Silent(comment)
  {
    assert forall k :: 0 <= k < |comment| ==> comment[k] in comment;
    assert comment[LineEnd(comment, 0)..] == "";
  }

  // ----- When it is visible -----

  predicate NoQuote(comment: string) { '"' !in comment }

  /** A step that starts inside a comment without quotes ends inside it. */
  lemma StepStaysInside(s: string, p: nat, e: nat)
    requires p < e <= |s| && (e < |s| ==> s[e] == '\n') && s[p] != '"' && s[p] != '#'
    ensures Step(s, p).Took? ==> Step(s, p).end <= e
  {
    hide StringEnd;
  }

  /** The grammar comes out of any comment without quotes, and reads a token in it unless it is silent. */
  lemma {:induction false} ThroughPlainComment(s: string, p: nat, e: nat)
    requires p <= e <= |s| && (e < |s| ==> s[e] == '\n') && forall k :: p <= k < e ==> s[k] != '"'
    requires GrammarChop(s, p).Pieces?
    ensures GrammarChop(s, e).Pieces? && |GrammarTokens(s, p)| >= |GrammarTokens(s, e)| + (if Silent(s[p..e]) then 0 else 1)
    decreases e - p
  {
    hide GrammarChop, GrammarTokens, Step, LineEnd;
    if p == e {
      assert s[p..e] == "";
    } else {
      GrammarTurn(s, p);
      assert s[p..e][0] == s[p];
      if IsBlank(s[p]) {
        BlankStep(s, p);
        ThroughPlainComment(s, p + 1, e);
        assert s[p..e][1..] == s[p + 1..e];
      } else if s[p] == '#' {
        LineEndSlice(s, p, p, e);
        AfterHash(s, p);
        var q := LineEnd(s, p);
        ThroughPlainComment(s, q, e);
        assert s[p..e][q - p..] == s[q..e];
      } else {
        TokenStep(s, p);
        StepStaysInside(s, p, e);
        ThroughPlainComment(s, Step(s, p).end, e);
      }
    }
  }

  predicate NoQuotes(ps: seq<Piece>) { forall p :: p in ps && p.Comment? ==> NoQuote(p.comment) }

  lemma NoQuotesHead(p: Piece, rest: seq<Piece>)
    ensures NoQuotes([p] + rest) <==> (p.Comment? ==> NoQuote(p.comment)) && NoQuotes(rest)
  {
    hide NoQuote;
    assert p in [p] + rest;
    assert forall q :: q in rest ==> q in [p] + rest;
  }

  lemma {:induction false} MoreFrom(s: string, i: nat)
    requires i <= |s| && Chop(s, i).Pieces? && NoQuotes(Chop(s, i).pieces) && GrammarChop(s, i).Pieces?
    ensures |GrammarTokens(s, i)| >= |Tokens(Chop(s, i).pieces, i)| + (if AllSilent(Chop(s, i).pieces) then 0 else 1)
    decreases |s| - i
  {
    hide GrammarChop, GrammarTokens, Chop, Step, Tokens, Silent, LineEnd, AllSilent, NoQuotes;
    if i == |s| {
      AgreeAtEnd(s);
      NothingLoud();
    } else {
      LexTurn(s, i);
      var turn := Step(s, i);
      var rest := Chop(s, turn.end).pieces;
      CommentStep(s, i);
      AllSilentHead(turn.piece, rest);
      NoQuotesHead(turn.piece, rest);
      if turn.piece.Comment? {
        assert forall k :: i <= k < turn.end ==> s[k] == s[i..turn.end][k - i] && s[k] in s[i..turn.end];
        ThroughPlainComment(s, i, turn.end);
        MoreFrom(s, turn.end);
      } else {
        GrammarTurn(s, i);
        MoreFrom(s, turn.end);
      }
    }
  }

  lemma NothingLoud()
    ensures AllSilent([])
  {
  }

  /** For rules whose comments hold no quotation mark, exactly: stripping is invisible to the grammar if and
      only if every comment is silent. */
  lemma StripInvisibleExactly(rule: string)
    requires Chop(rule, 0).Pieces? && NoQuotes(PiecesOf(rule))
    ensures GrammarLex(Stripped(rule)) == GrammarLex(rule) <==> AllSilent(PiecesOf(rule))
  {
    hide GrammarLex, Chop, Lexemes, AllSilent, NoQuotes, StripFrom;
    StrippedReads(rule);
    if AllSilent(PiecesOf(rule)) {
      SameWords(rule);
    } else {
      MoreWords(rule);
    }
  }

  lemma MoreWords(rule: string)
    requires Chop(rule, 0).Pieces? && NoQuotes(PiecesOf(rule)) && !AllSilent(PiecesOf(rule))
    ensures GrammarLex(rule) != Some(Lexemes(PiecesOf(rule)))
  {
    hide GrammarChop, Chop, Lexemes, AllSilent, NoQuotes, Tokens;
    if GrammarChop(rule, 0).Pieces? {
      MoreFrom(rule, 0);
      TokensLexemes(PiecesOf(rule), 0);
      TokensLexemes(GrammarChop(rule, 0).pieces, 0);
    }
  }

  /** A comment, a carriage return, a parenthesis: the frontend reads nothing, the grammar the parenthesis,
      and stripping takes it away. */
  const LOUD := "#\r)"

  lemma LoudIsStripped()
    ensures Chop(LOUD, 0) == Pieces([Comment(LOUD)]) && Stripped(LOUD) == ""
    ensures GrammarLex(LOUD) == Some([P(")")]) && GrammarLex(Stripped(LOUD)) == Some([])
  {
    assert RunEnd(CommentChars, LOUD, 0) == 3;
    assert LOUD[0..3] == LOUD;
    LoudPieces();
    LoudWords();
    assert GrammarChop("", 0) == Pieces([]) && Lexemes([]) == [];
  }

  lemma LoudPieces()
    ensures GrammarChop(LOUD, 0) == Pieces([Comment("#"), Blank('\r'), Tok(Punct, ")")])
  {
    assert LineEnd(LOUD, 0) == 1;
    assert LOUD[0..1] == "#" && LOUD[2..3] == ")";
    assert GrammarStep(LOUD, 2) == Took(Tok(Punct, ")"), 3);
    hide GrammarStep;
    assert GrammarChop(LOUD, 3) == Pieces([]);
    assert GrammarChop(LOUD, 2) == Pieces([Tok(Punct, ")")]);
    assert GrammarChop(LOUD, 1) == Pieces([Blank('\r'), Tok(Punct, ")")]);
  }

  lemma LoudWords()
    ensures Lexemes([Comment("#"), Blank('\r'), Tok(Punct, ")")]) == [P(")")]
  {
    assert [Comment("#"), Blank('\r'), Tok(Punct, ")")][1..] == [Blank('\r'), Tok(Punct, ")")];
    assert [Blank('\r'), Tok(Punct, ")")][1..] == [Tok(Punct, ")")];
    assert Lexemes([Tok(Punct, ")")]) == [P(")")];
  }

  // ----- Whole policies -----

  predicate PassesBefore(t: string, rest: string) { StripFrom(t + rest, false) == t + StripFrom(rest, false) }

  /** Stripping passes the text over, and stands outside strings after it. */
  ghost predicate Passes(t: string) { forall rest: string :: PassesBefore(t, rest) }

  lemma PassesAppend(a: string, b: string)
    requires Passes(a) && Passes(b)
    ensures Passes(a + b)
  {
    hide StripFrom;
    forall rest: string
      ensures PassesBefore(a + b, rest)
    {
      assert PassesBefore(a, b + rest) && PassesBefore(b, rest);
      assert a + b + rest == a + (b + rest);
      assert a + (b + StripFrom(rest, false)) == a + b + StripFrom(rest, false);
    }
  }

  lemma PassesPlain(t: string)
    requires forall c :: c in t ==> c != '"' && c != '#'
    ensures Passes(t)
  {
    forall rest: string
      ensures PassesBefore(t, rest)
    {
      StripPlain(t, rest);
    }
  }

  lemma PassesPiece(p: Piece)
    requires Valid(p) && !p.Comment?
    ensures Passes(Text(p))
  {
    hide Valid, StripFrom;
    forall rest: string
      ensures PassesBefore(Text(p), rest)
    {
      StripPiece(p, rest);
    }
  }

  lemma {:induction false} PassesPieces(ps: seq<Piece>)
    requires Munched(ps) && forall p :: p in ps ==> !p.Comment?
    ensures Passes(Flat(ps))
  {
    hide Valid, Stops, Munched, Passes;
    if ps == [] {
      PassesPlain("");
      assert Flat(ps) == "";
    } else {
      MunchedHead(ps);
      assert ps[0] in ps && forall p :: p in ps[1..] ==> p in ps;
      PassesPiece(ps[0]);
      PassesPieces(ps[1..]);
      PassesAppend(Text(ps[0]), Flat(ps[1..]));
    }
  }

  lemma PassesRule(rule: string)
    requires Chop(rule, 0).Pieces?
    ensures Passes(Stripped(rule))
  {
    hide Chop, Munched, Passes, NoComments, StripFrom, Flat, Lexemes;
    StripPieces(PiecesOf(rule));
    PassesPieces(NoComments(PiecesOf(rule)));
  }

  lemma {:induction false} PassesJoin(parts: seq<string>, sep: string)
    requires Passes(sep) && forall part :: part in parts ==> Passes(part)
    ensures Passes(Join(parts, sep))
  {
    hide Passes;
    PassesPlain("");
    if |parts| > 1 {
      assert forall part :: part in parts[1..] ==> part in parts;
      PassesJoin(parts[1..], sep);
      PassesAppend(parts[0], sep);
      PassesAppend(parts[0] + sep, Join(parts[1..], sep));
    }
  }

  lemma PassesClause(key: string, text: string)
    requires (forall c :: c in key ==> c != '"' && c != '#') && Passes(text)
    ensures Passes(Clause(key, text))
  {
    hide Passes;
    assert forall c :: c in key + ":" ==> c in key || c == ':';
    PassesPlain(key + ":");
    PassesAppend(key + ":", text);
    assert key + ":" + text == Clause(key, text);
  }

  lemma PassesWrapped(left: string, text: string, right: string)
    requires (forall c :: c in left + right ==> c != '"' && c != '#') && Passes(text)
    ensures Passes(left + text + right)
  {
    hide Passes;
    assert forall c :: c in left || c in right ==> c in left + right;
    PassesPlain(left);
    PassesPlain(right);
    PassesAppend(left, text);
    PassesAppend(left + text, right);
  }

  lemma PassesScalar(v: Scalar)
    requires WritableScalar(v)
    ensures FormatScalar(v).Ok? && Passes(FormatScalar(v).value)
  {
    hide Passes;
    SpellsScalar(v);
    match v
    case Str(s) =>
      QuoteIsString(s);
      PassesPiece(Tok(StringLit, Quote(s)));
    case Num(text) => PassesPiece(Tok(Number, text));
    case Boolean(b) => PassesPlain(BoolText(b));
  }

  lemma {:induction false} PassesScalars(items: seq<Scalar>)
    requires forall x :: x in items ==> WritableScalar(x)
    ensures FormatAll(items).Ok? && forall part :: part in FormatAll(items).value ==> Passes(part)
  {
    hide Passes, FormatScalar;
    if items == [] {
    } else {
      assert items[0] in items && forall x :: x in items[1..] ==> x in items;
      PassesScalar(items[0]);
      PassesScalars(items[1..]);
    }
  }

  lemma PassesValue(v: Value)
    requires WritableValue(v)
    ensures FormatValue(v).Ok? && Passes(FormatValue(v).value)
  {
    hide Passes, FormatScalar, FormatAll;
    match v
    case One(scalar) => PassesScalar(scalar);
    case Many(items) =>
      PassesScalars(items);
      PassesPlain(",");
      PassesJoin(FormatAll(items).value, ",");
      PassesWrapped("{", Join(FormatAll(items).value, ","), "}");
  }

  lemma NameChars(key: string)
    requires IsName(key)
    ensures forall c :: c in key ==> c != '"' && c != '#'
  {
  }

  lemma PassesAttr(a: Attr)
    requires WritableKey(a.key) && WritableValue(a.value)
    ensures FormatAttr(a).Ok? && Passes(FormatAttr(a).value)
  {
    hide Passes, FormatValue, WritableValue;
    PassesValue(a.value);
    NameChars(a.key);
    var value := FormatValue(a.value).value;
    PassesClause(a.key, value);
    PassesWrapped("(", Clause(a.key, value), ")");
  }

  lemma {:induction false} PassesAttrs(attrs: Attrs)
    requires Writable(attrs)
    ensures EmitAttrs(attrs).Ok? && Passes(EmitAttrs(attrs).value)
  {
    hide Passes, FormatAttr, WritableKey, WritableValue;
    if attrs == [] {
      PassesPlain("");
    } else {
      PassesAttr(attrs[0]);
      PassesAttrs(attrs[1..]);
      PassesAppend(FormatAttr(attrs[0]).value, EmitAttrs(attrs[1..]).value);
    }
  }

  lemma {:induction false} PassesRules(rules: seq<string>)
    requires forall r :: r in rules ==> Chop(r, 0).Pieces?
    ensures forall rule :: rule in Cleaned(rules) ==> Passes(rule)
  {
    hide Passes, Chop, StripFrom, Trim, Stripped;
    if rules == [] {
    } else {
      assert rules[0] in rules && forall r :: r in rules[1..] ==> r in rules;
      PassesRule(rules[0]);
      PassesRules(rules[1..]);
    }
  }

  lemma PassesPolicy(user: User)
    requires EmitPolicy(user).Ok? && forall r :: r in user.rules ==> Chop(r, 0).Pieces?
    ensures Passes(EmitPolicy(user).value)
  {
    hide Passes, Chop, Emit, EmitAttrs, Emittable, Writable, Cleaned, Join, PartyAttrsOf;
    var attrs := PartyAttrsOf(user);
    EmitExact(attrs);
    EmittableIsWritable(attrs);
    PassesAttrs(attrs);
    PassesRules(user.rules);
    var cleaned := Cleaned(user.rules);
    PassesPlain("\n");
    PassesPlain("()");
    PassesPlain(", ");
    PassesJoin(cleaned, "\n");
    var rules := if cleaned == [] then "()" else Join(cleaned, "\n");
    var party := Emit(attrs).value;
    PassesClause("party", party);
    PassesClause("rules", rules);
    var parts := [Clause("party", party), Clause("rules", rules)];
    PassesJoin(parts, ", ");
    PassesWrapped("(", Join(parts, ", "), ")");
  }

  /** The grammar reads a policy of rules that each lex, whatever their comments hold, as the header, each
      rule's own tokens in order, and the closing parenthesis: the words the frontend reads in it. */
  lemma PolicyRead(user: User)
    requires EmitPolicy(user).Ok? && forall r :: r in user.rules ==> Chop(r, 0).Pieces?
    ensures exists attrs :: Carries(user, attrs) && GrammarLex(EmitPolicy(user).value) == Some(PolicyLex(attrs, RulesLex(user.rules)))
  {
    hide GrammarLex, Chop, StripFrom, Stripped, PolicyLex, EmitPolicy, Lexemes, Carries, RulesLex;
    var text := EmitPolicy(user).value;
    PolicySpells(user);
    PassesPolicy(user);
    assert PassesBefore(text, "");
    PassedIsStripped(text);
    StrippedReads(text);
  }

  lemma PassedIsStripped(text: string)
    requires PassesBefore(text, "")
    ensures Stripped(text) == text
  {
    assert text + "" == text;
    StripNothing(false);
  }
}
