/** Which conditions survive `condition:(...)`: the printer's parentheses and the span scan that
    reads them back (app/frontend/src/lib/bart/parse.ts, `parseConditionSpan`, `stripOuterParens`). */
module Condition {
  import opened Lex
  import opened Munch
  import opened Spelling
  import opened Parse
  import opened Positions
  import opened RoundTrip

  /** Read from depth `depth`, the tokens never end the span early, and leave it at depth zero. */
  predicate StaysOpen(lx: seq<Lexeme>, depth: int) {
    if lx == [] then depth == 0
    else !(depth == 0 && EndsSpan(lx[0])) && StaysOpen(lx[1..], DepthAfter(lx[0], depth))
  }

  function ParensAfter(l: Lexeme, parens: int): int {
    if l == P("(") then parens + 1 else if l == P(")") then parens - 1 else parens
  }

  /** No `)` among the tokens closes the parenthesis that encloses them; braces do not count. */
  predicate StaysWrapped(lx: seq<Lexeme>, parens: int) {
    lx == [] || (!(lx[0] == P(")") && parens == 1) && StaysWrapped(lx[1..], ParensAfter(lx[0], parens)))
  }

  /** What a caller can check before writing the condition `s`. */
  predicate GoodCondition(s: string) {
    && s != "" && Trim(s) == s
    && Chop(s, 0).Pieces? && Closed(Chop(s, 0).pieces)
    && var lx := Lexemes(Chop(s, 0).pieces);
       StaysOpen(WrapLex(lx), 0) && StaysWrapped(lx, 1)
  }

  function Wrapped(s: string): string { "(" + s + ")" }

  // ----- Trimming -----

  lemma TrimNothing(s: string)
    requires s != "" && !IsSpace(s[0]) && !IsSpace(s[|s| - 1])
    ensures Trim(s) == s
  {
  }

  lemma {:induction false} TrimEndShape(s: string)
    ensures var t := TrimEnd(s);
            t <= s && (t == "" || !IsSpace(t[|t| - 1])) && forall k :: |t| <= k < |s| ==> IsSpace(s[k])
    decreases |s|
  {
    hide IsSpace;
    if s != "" && IsSpace(s[|s| - 1]) {
      TrimEndShape(s[..|s| - 1]);
    }
  }

  lemma {:induction false} TrimStartShape(s: string)
    ensures var t := TrimStart(s); t == "" || !IsSpace(t[0])
    decreases |s|
  {
    if s != "" && IsSpace(s[0]) {
      TrimStartShape(s[1..]);
    }
  }

  lemma TrimShape(s: string)
    ensures var t := Trim(s); t == "" || (!IsSpace(t[0]) && !IsSpace(t[|t| - 1]))
  {
    TrimStartShape(s);
    TrimEndShape(TrimStart(s));
  }

  /** White space is all that trimming can take off a text that starts with a trimmed one. */
  lemma TrimPrefix(x: string, s: string)
    requires s != "" && s <= x && Trim(x) == s
    ensures forall k :: |s| <= k < |x| ==> IsSpace(x[k])
  {
    TrimShape(x);
    assert x[0] == s[0];
    assert TrimStart(x) == x;
    TrimEndShape(x);
  }

  lemma TokenEnds(p: Piece)
    requires Valid(p) && p.Tok?
    ensures p.text != "" && !IsSpace(p.text[0]) && !IsSpace(p.text[|p.text| - 1])
  {
    var t := p.text;
    assert t[|t| - 1] in t;
    if p.kind == Number {
      NumberStart(t);
      NumberLast(t);
    }
    SoftIsNoSpace();
  }

  lemma SoftIsNoSpace()
    ensures forall c :: IsNamePart(c) || c in "(){},:.=<>!-\"" ==> !IsSpace(c)
  {
  }

  // ----- The scans, on the tokens alone -----

  lemma {:induction false} SpanIff(ts: seq<Token>, i: nat, lx: seq<Lexeme>, depth: int)
    requires Tape(ts) && Has(ts, i, lx) && i + |lx| < |ts| && EndsSpan(Bare(ts[i + |lx|]))
    ensures SpanEnd(ts, i, depth) == Some(i + |lx|) <==> StaysOpen(lx, depth)
    decreases |lx|
  {
    if lx == [] {
    } else {
      assert lx == [lx[0]] + lx[1..];
      HasSplit(ts, i, [lx[0]], lx[1..]);
      assert [lx[0]][0] == lx[0] && Bare(ts[i]) == lx[0];
      SpanIff(ts, i + 1, lx[1..], DepthAfter(lx[0], depth));
    }
  }

  lemma {:induction false} WrapsIff(ts: seq<Token>, k: nat, lx: seq<Lexeme>, parens: int, length: nat)
    requires Tape(ts) && Has(ts, k, lx) && |ts| == k + |lx| + 2
    requires forall m :: k <= m < k + |lx| ==> ts[m].end != length
    requires Bare(ts[k + |lx|]) == P(")") && ts[k + |lx|].end == length
    ensures Wraps(ts, k, parens, length) <==> StaysWrapped(lx, parens)
    decreases |lx|
  {
    if lx == [] {
    } else {
      assert lx == [lx[0]] + lx[1..];
      HasSplit(ts, k, [lx[0]], lx[1..]);
      assert [lx[0]][0] == lx[0] && Bare(ts[k]) == lx[0];
      WrapsIff(ts, k + 1, lx[1..], ParensAfter(lx[0], parens), length);
    }
  }

  function WrapPieces(ws: seq<Piece>): seq<Piece> { [Tok(Punct, "(")] + ws + [Tok(Punct, ")")] }

  function WrapLex(lx: seq<Lexeme>): seq<Lexeme> { [P("(")] + lx + [P(")")] }

  /** The tokens of a parenthesised text. */
  lemma WrappedPieces(s: string, ws: seq<Piece>)
    requires Munched(ws) && Closed(ws) && Flat(ws) == s
    ensures Munched(WrapPieces(ws)) && Flat(WrapPieces(ws)) == Wrapped(s)
    ensures Lexemes(WrapPieces(ws)) == WrapLex(Lexemes(ws))
  {
    var open, close := Tok(Punct, "("), Tok(Punct, ")");
    LoneBracket(open);
    LoneBracket(close);
    hide Munched, Flat, Lexemes, Valid;
    MunchedAppend([open], ws);
    FlatAppend([open], ws);
    LexemesAppend([open], ws);
    MunchedAppend([open] + ws, [close]);
    FlatAppend([open] + ws, [close]);
    LexemesAppend([open] + ws, [close]);
  }

  lemma LoneBracket(p: Piece)
    requires p in {Tok(Punct, "("), Tok(Punct, ")")}
    ensures Munched([p]) && Flat([p]) == p.text && Lexemes([p]) == [P(p.text)]
  {
    assert [p][1..] == [];
    assert p.text + "" == p.text;
  }

  lemma LoneTokens(p: Piece, base: nat)
    requires p.Tok?
    ensures Tokens([p], base) == [Token(p.kind, p.text, base, base + |p.text|)] && |Flat([p])| == |p.text|
  {
    assert [p][1..] == [];
  }

  lemma WrappedTokens(ws: seq<Piece>, base: nat)
    ensures Tokens(WrapPieces(ws), base) ==
      [Token(Punct, "(", base, base + 1)] + Tokens(ws, base + 1)
      + [Token(Punct, ")", base + 1 + |Flat(ws)|, base + 2 + |Flat(ws)|)]
  {
    var open, close := Tok(Punct, "("), Tok(Punct, ")");
    assert WrapPieces(ws) == [open] + ws + [close];
    hide *;
    LoneTokens(open, base);
    TokensAppend([open], ws, base);
    FlatAppend([open], ws);
    TokensAppend([open] + ws, [close], base);
    LoneTokens(close, base + |Flat([open] + ws)|);
  }

  lemma StripIff(s: string, ws: seq<Piece>)
    requires Munched(ws) && Closed(ws) && Flat(ws) == s && Trim(s) == s
    ensures StripOuterParens(Wrapped(s)) == s <==> StaysWrapped(Lexemes(ws), 1)
  {
    var t := Wrapped(s);
    assert t[1..|t| - 1] == s;
    WrappedLexed(s, ws);
    var ts := LexSpec(t).tokens;
    hide LexSpec, Lexemes, Munched, Flat, Closed, Has;
    WrapsIff(ts, 1, Lexemes(ws), 1, |t|);
    assert Wraps(ts, 0, 0, |t|) == Wraps(ts, 1, 1, |t|);
  }

  lemma WrappedLexed(s: string, ws: seq<Piece>)
    requires Munched(ws) && Closed(ws) && Flat(ws) == s
    ensures LexSpec(Wrapped(s)).Lexed?
    ensures var ts := LexSpec(Wrapped(s)).tokens;
            && Tape(ts) && Bare(ts[0]) == P("(") && Has(ts, 1, Lexemes(ws)) && |ts| == |Lexemes(ws)| + 3
            && (forall m :: 1 <= m < 1 + |Lexemes(ws)| ==> ts[m].end != |Wrapped(s)|)
            && Bare(ts[1 + |Lexemes(ws)|]) == P(")") && ts[1 + |Lexemes(ws)|].end == |Wrapped(s)|
  {
    hide Munched, Flat, Lexemes, LexSpec, Closed, Tokens, Has, Tape, WrapPieces, Bare;
    var n, t := |s|, Wrapped(s);
    WrappedPieces(s, ws);
    LexSpecOf(t, WrapPieces(ws));
    LexedIsTape(t);
    var open, close := Token(Punct, "(", 0, 1), Token(Punct, ")", 1 + n, 2 + n);
    WrappedTokens(ws, 0);
    var body := Tokens(ws, 1);
    assert LexSpec(t).tokens == [open] + body + [close] + [EofToken(n + 2)];
    TokensLexemes(ws, 1);
    BodyEnds(s, ws);
    ThreeParts(LexSpec(t).tokens, body, Lexemes(ws), open, close, EofToken(n + 2));
  }

  lemma LexSpecOf(text: string, ps: seq<Piece>)
    requires Munched(ps) && Flat(ps) == text
    ensures LexSpec(text) == Lexed(Tokens(ps, 0) + [EofToken(|text|)])
  {
    LexIsMaximalMunch(text, ps);
  }

  lemma BodyEnds(s: string, ws: seq<Piece>)
    requires Munched(ws) && Flat(ws) == s
    ensures forall m :: 0 <= m < |Tokens(ws, 1)| ==> Tokens(ws, 1)[m].end != |s| + 2
  {
    TokensPlaced(ws, 1);
  }

  lemma ThreeParts(ts: seq<Token>, body: seq<Token>, lx: seq<Lexeme>, open: Token, close: Token, eof: Token)
    requires ts == [open] + body + [close] + [eof]
    requires |body| == |lx| && forall k :: 0 <= k < |lx| ==> Bare(body[k]) == lx[k]
    requires forall m :: 0 <= m < |body| ==> body[m].end != close.end
    requires open.kind == Punct && open.text == "("
    ensures Bare(ts[0]) == P("(") && Has(ts, 1, lx) && |ts| == |lx| + 3
    ensures (forall m :: 1 <= m < 1 + |lx| ==> ts[m].end != close.end) && ts[1 + |lx|] == close
    ensures close.kind == Punct && close.text == ")" ==> Bare(ts[1 + |lx|]) == P(")")
  {
    assert forall m :: 1 <= m < 1 + |lx| ==> ts[m] == body[m - 1];
  }

  // ----- Forward: a good condition is read back -----

  /** The pieces of a source that has a parenthesised text between two others. */
  lemma SourcePieces(pre: string, s: string, post: string, lp: seq<Lexeme>, lpost: seq<Lexeme>)
    requires Spells(pre, lp) && pre != "" && Hard(pre[|pre| - 1])
    requires Chop(s, 0).Pieces? && Closed(PiecesOf(s))
    requires Spells(post, lpost) && post != "" && Hard(post[0])
    ensures var ps := PiecesOf(pre) + WrapPieces(PiecesOf(s)) + PiecesOf(post);
            Munched(ps) && Flat(ps) == pre + Wrapped(s) + post
  {
    WrappedPieces(s, PiecesOf(s));
    var a, w, c := PiecesOf(pre), WrapPieces(PiecesOf(s)), PiecesOf(post);
    assert Closed(w) && Closed(a) && Closed(a + w);
    hide Munched, Flat, Valid, Chop, WrapPieces, Closed;
    MunchedAppend(a, w);
    FlatAppend(a, w);
    MunchedAppend(a + w, c);
    FlatAppend(a + w, c);
  }

  lemma {:induction false} SlicedBetween(pre: string, t: string, post: string)
    ensures Slice(pre + t + post, |pre|, |pre| + |t|) == t
  {
    assert (pre + t + post)[|pre|..|pre| + |t|] == t;
  }

  /** Three runs of tokens and `eof`, the middle run standing at `from` to `to` in the source. */
  predicate InThree(ts: seq<Token>, lp: seq<Lexeme>, lx: seq<Lexeme>, lpost: seq<Lexeme>, from: nat, to: nat) {
    && Tape(ts) && |ts| == |lp| + |lx| + |lpost| + 1 && lx != []
    && Has(ts, 0, lp) && Has(ts, |lp|, lx) && Has(ts, |lp| + |lx|, lpost)
    && ts[|lp|].start == from && ts[|lp| + |lx| - 1].end == to
  }

  /** The tokens around the parenthesised text, and the offsets of its two parentheses. */
  lemma SourceTokens(pre: string, s: string, post: string, lp: seq<Lexeme>, lpost: seq<Lexeme>)
    requires Spells(pre, lp) && pre != "" && Hard(pre[|pre| - 1])
    requires Chop(s, 0).Pieces? && Closed(PiecesOf(s))
    requires Spells(post, lpost) && post != "" && Hard(post[0])
    ensures LexSpec(pre + Wrapped(s) + post).Lexed?
    ensures InThree(LexSpec(pre + Wrapped(s) + post).tokens, lp, WrapLex(Lexemes(PiecesOf(s))), lpost, |pre|, |pre| + |Wrapped(s)|)
  {
    hide *;
    SpellsChops(pre, lp);
    SpellsChops(post, lpost);
    var a, w, c := PiecesOf(pre), WrapPieces(PiecesOf(s)), PiecesOf(post);
    var source := pre + Wrapped(s) + post;
    SourceTokenParts(pre, s, post, lp, lpost);
    LexedIsTape(source);
    WrappedPieces(s, PiecesOf(s));
    SpellsLexed(pre, lp);
    SpellsLexed(post, lpost);
    TokensLexemes(a, 0);
    TokensLexemes(w, |pre|);
    TokensLexemes(c, |pre| + |Wrapped(s)|);
    WrappedStartEnd(s, PiecesOf(s), |pre|);
    InThreeParts(LexSpec(source).tokens, Tokens(a, 0), Tokens(w, |pre|), Tokens(c, |pre| + |Wrapped(s)|), EofToken(|source|), lp, Lexemes(w), lpost);
  }

  lemma SpellsChops(text: string, lx: seq<Lexeme>)
    requires Spells(text, lx)
    ensures Chop(text, 0).Pieces? && Closed(PiecesOf(text)) && Lexemes(PiecesOf(text)) == lx
  {
  }

  lemma SourceTokenParts(pre: string, s: string, post: string, lp: seq<Lexeme>, lpost: seq<Lexeme>)
    requires Spells(pre, lp) && pre != "" && Hard(pre[|pre| - 1])
    requires Chop(s, 0).Pieces? && Closed(PiecesOf(s))
    requires Spells(post, lpost) && post != "" && Hard(post[0])
    ensures LexSpec(pre + Wrapped(s) + post) ==
      Lexed(Tokens(PiecesOf(pre), 0) + Tokens(WrapPieces(PiecesOf(s)), |pre|) + Tokens(PiecesOf(post), |pre| + |Wrapped(s)|)
            + [EofToken(|pre + Wrapped(s) + post|)])
  {
    hide *;
    SpellsChops(pre, lp);
    SpellsChops(post, lpost);
    var a, w, c := PiecesOf(pre), WrapPieces(PiecesOf(s)), PiecesOf(post);
    SourcePieces(pre, s, post, lp, lpost);
    WrappedPieces(s, PiecesOf(s));
    LexSpecOf(pre + Wrapped(s) + post, a + w + c);
    TokensThree(a, w, c);
  }

  lemma TokensThree(a: seq<Piece>, w: seq<Piece>, c: seq<Piece>)
    ensures Tokens(a + w + c, 0) == Tokens(a, 0) + Tokens(w, |Flat(a)|) + Tokens(c, |Flat(a)| + |Flat(w)|)
  {
    hide *;
    var aw := a + w;
    TokensAppend(aw, c, 0);
    TokensAppend(a, w, 0);
    FlatAppend(a, w);
  }

  lemma WrappedStartEnd(s: string, ws: seq<Piece>, base: nat)
    requires Flat(ws) == s
    ensures var y := Tokens(WrapPieces(ws), base);
            |y| >= 2 && y[0].start == base && y[|y| - 1].end == base + |Wrapped(s)|
  {
    assert |Wrapped(s)| == |s| + 2;
    hide *;
    WrappedTokens(ws, base);
  }

  lemma InThreeParts(ts: seq<Token>, x: seq<Token>, y: seq<Token>, z: seq<Token>, eof: Token, lx: seq<Lexeme>, ly: seq<Lexeme>, lz: seq<Lexeme>)
    requires |x| == |lx| && |y| == |ly| && |z| == |lz| && ly != []
    requires forall k :: 0 <= k < |lx| ==> Bare(x[k]) == lx[k]
    requires forall k :: 0 <= k < |ly| ==> Bare(y[k]) == ly[k]
    requires forall k :: 0 <= k < |lz| ==> Bare(z[k]) == lz[k]
    requires Tape(ts) && ts == x + y + z + [eof]
    ensures InThree(ts, lx, ly, lz, y[0].start, y[|y| - 1].end)
  {
    hide Tape;
    assert ts[|lx|] == y[0] && ts[|lx| + |ly| - 1] == y[|y| - 1];
  }

  lemma ConditionBack(pre: string, s: string, post: string, lp: seq<Lexeme>, lpost: seq<Lexeme>)
    requires Spells(pre, lp) && pre != "" && Hard(pre[|pre| - 1])
    requires GoodCondition(s)
    requires Spells(post, lpost) && post != "" && Hard(post[0]) && lpost != [] && EndsSpan(lpost[0])
    ensures var source := pre + Wrapped(s) + post;
            && LexSpec(source).Lexed?
            && var ts := LexSpec(source).tokens;
               && InThree(ts, lp, WrapLex(Lexemes(PiecesOf(s))), lpost, |pre|, |pre| + |Wrapped(s)|)
               && ParseConditionSpan(ts, |lp|, source) == Done(s, |lp| + |Lexemes(PiecesOf(s))| + 2)
  {
    hide *;
    var source := pre + Wrapped(s) + post;
    GoodParts(s);
    var lx := WrapLex(Lexemes(PiecesOf(s)));
    SourceTokens(pre, s, post, lp, lpost);
    SlicedBetween(pre, Wrapped(s), post);
    SpanBack(LexSpec(source).tokens, lp, lx, lpost, source, |pre|, Wrapped(s), s);
  }

  lemma GoodParts(s: string)
    requires GoodCondition(s)
    ensures Chop(s, 0).Pieces? && Closed(PiecesOf(s))
    ensures StaysOpen(WrapLex(Lexemes(PiecesOf(s))), 0) && StripOuterParens(Wrapped(s)) == s
    ensures |WrapLex(Lexemes(PiecesOf(s)))| == |Lexemes(PiecesOf(s))| + 2
    ensures Wrapped(s) != "" && Trim(Wrapped(s)) == Wrapped(s)
  {
    hide Chop, Lexemes, StaysOpen, StaysWrapped, Closed, StripOuterParens, Munched, Flat, Trim;
    StripIff(s, PiecesOf(s));
    TrimNothing(Wrapped(s));
  }

  /** What `parseConditionSpan` makes of a span that spells `text`. */
  lemma SpanBack(ts: seq<Token>, lp: seq<Lexeme>, lx: seq<Lexeme>, lpost: seq<Lexeme>, source: string, from: nat, text: string, s: string)
    requires InThree(ts, lp, lx, lpost, from, from + |text|) && lpost != [] && EndsSpan(lpost[0]) && StaysOpen(lx, 0)
    requires Slice(source, from, from + |text|) == text
    requires text != "" && Trim(text) == text && StripOuterParens(text) == s
    ensures ParseConditionSpan(ts, |lp|, source) == Done(s, |lp| + |lx|)
  {
    hide SpanEnd, Slice, Trim, StripOuterParens, Tape, Has, StaysOpen;
    HasFirst(ts, |lp| + |lx|, lpost);
    SpanIff(ts, |lp|, lx, 0);
    assert SpanEnd(ts, |lp|, 0) == Some(|lp| + |lx|);
  }

  lemma HasFirst(ts: seq<Token>, i: nat, lx: seq<Lexeme>)
    requires Has(ts, i, lx) && lx != []
    ensures i < |ts| && Bare(ts[i]) == lx[0]
  {
    assert ts[i + 0] == ts[i];
  }
}
