/** The converse: a condition that is read back is a good one, so `GoodCondition` is exact. */
module Exact {
  import opened Lex
  import opened Munch
  import opened Spelling
  import opened Parse
  import opened Positions
  import opened RoundTrip
  import opened Condition

  // ----- Cutting a lexed text -----

  lemma StopsTruncate(p: Piece, x: string, y: string)
    requires Stops(p, x + y)
    ensures Stops(p, x)
  {
    if |x| > 1 {
      assert (x + y)[1] == x[1];
    }
  }

  /** A front of a munched split is munched, and the rest is too. */
  lemma {:induction false} MunchedSplit(p: seq<Piece>, q: seq<Piece>)
    requires Munched(p + q)
    ensures Munched(p) && Munched(q)
    decreases |p|
  {
    hide Munched, Stops, Valid, Flat;
    if p == [] {
      MunchedNil();
      assert p + q == q;
    } else {
      assert (p + q)[1..] == p[1..] + q && (p + q)[0] == p[0];
      MunchedHead(p + q);
      FlatAppend(p[1..], q);
      StopsTruncate(p[0], Flat(p[1..]), Flat(q));
      MunchedSplit(p[1..], q);
      MunchedCons(p[0], p[1..]);
      assert [p[0]] + p[1..] == p;
    }
  }

  lemma MunchedNil()
    ensures Munched([]) && Flat([]) == ""
  {
  }

  /** A comment cannot be left open in front of a parenthesis that is a token. */
  lemma ClosedBefore(ws: seq<Piece>)
    requires Munched(ws + [Tok(Punct, ")")])
    ensures Closed(ws)
  {
    if ws != [] {
      var front, last := ws[..|ws| - 1], ws[|ws| - 1];
      assert ws + [Tok(Punct, ")")] == front + [last, Tok(Punct, ")")];
      MunchedSplit(front, [last, Tok(Punct, ")")]);
      assert [last, Tok(Punct, ")")][1..] == [Tok(Punct, ")")];
      LoneBracket(Tok(Punct, ")"));
    }
  }

  /** Two splits of texts with the same front agree on it. */
  lemma {:induction false} MunchedPrefix(p: seq<Piece>, q: seq<Piece>, b: string)
    requires Munched(p) && Closed(p) && Munched(q) && Flat(q) == Flat(p) + b && Sep(Flat(p), b)
    ensures p <= q && Munched(q[|p|..]) && Flat(q[|p|..]) == b
    decreases |p|
  {
    hide Munched, Stops, Valid, Flat, Closed, Sep;
    if p == [] {
      MunchedNil();
      assert q[0..] == q;
    } else {
      StopsAppend(p, b);
      MunchedHead(p);
      SamePiece(p[0], Flat(p[1..]) + b, q);
      assert Flat(q[1..]) == Flat(p[1..]) + b;
      MunchedPrefix(p[1..], q[1..], b);
      assert q[1..][|p| - 1..] == q[|p|..];
      assert [p[0]] + p[1..] == p && [q[0]] + q[1..] == q;
    }
  }

  /** The lexer takes one piece at the front of a text, so there is only one it can take. */
  lemma SamePiece(p: Piece, rest: string, q: seq<Piece>)
    requires Valid(p) && Stops(p, rest) && Munched(q) && Flat(q) == Text(p) + rest
    ensures q != [] && q[0] == p && Munched(q[1..]) && Flat(q[1..]) == rest
  {
    hide Munched, Stops, Valid, Step, Flat;
    var s := Text(p) + rest;
    ValidNotEmpty(p);
    if q == [] {
      MunchedNil();
    }
    MunchedHead(q);
    assert s[0..] == s && s[|Text(p)|..] == rest;
    StepComplete(s, 0, p);
    assert s[|Text(q[0])|..] == Flat(q[1..]);
    StepComplete(s, 0, q[0]);
  }

  lemma ValidNotEmpty(p: Piece)
    requires Valid(p)
    ensures Text(p) != ""
  {
  }

  lemma OpenPiece(p: Piece)
    requires Valid(p) && Text(p)[0] == '('
    ensures p == Tok(Punct, "(")
  {
    if p.Tok? && p.kind == Number {
      NumberStart(p.text);
    }
  }

  lemma ClosePiece(p: Piece)
    requires Valid(p) && p.Tok? && p.text[|p.text| - 1] == ')'
    ensures p == Tok(Punct, ")")
  {
    LastCharSoft(p);
    var t := p.text;
    assert t[|t| - 1] in t;
  }

  /** The pieces up to and including the `m`th token. */
  lemma {:induction false} CutAtToken(ps: seq<Piece>, base: nat, m: nat) returns (c: nat)
    requires m < |Tokens(ps, base)|
    ensures 0 < c <= |ps| && ps[c - 1].Tok?
    ensures |Lexemes(ps[..c])| == m + 1
    ensures Tokens(ps, base)[m].end == base + |Flat(ps[..c])|
    decreases |ps|
  {
    var rest := Tokens(ps[1..], base + |Text(ps[0])|);
    if ps[0].Tok? && m == 0 {
      c := 1;
      assert ps[..1] == [ps[0]] && ps[..1][1..] == [];
    } else {
      var k := CutAtToken(ps[1..], base + |Text(ps[0])|, if ps[0].Tok? then m - 1 else m);
      c := k + 1;
      assert ps[..c][1..] == ps[1..][..k] && ps[..c][0] == ps[0];
    }
  }

  // ----- A text that reads as a run of open parentheses is not a condition -----

  lemma {:induction false} AllOpen(ps: seq<Piece>)
    requires Munched(ps) && forall c :: c in Flat(ps) ==> c == '('
    ensures forall l :: l in Lexemes(ps) ==> l == P("(")
    ensures forall p :: p in ps ==> p.Tok?
    decreases |ps|
  {
    hide Munched, Valid, Stops;
    if ps == [] {
    } else {
      MunchedHead(ps);
      assert Text(ps[0])[0] in Flat(ps);
      OpenPiece(ps[0]);
      assert forall c :: c in Flat(ps[1..]) ==> c in Flat(ps);
      AllOpen(ps[1..]);
    }
  }

  lemma {:induction false} OpenNeverCloses(lx: seq<Lexeme>, depth: nat)
    requires forall l :: l in lx ==> l == P("(")
    requires lx != [] || depth > 0
    ensures !StaysOpen(lx, depth)
    decreases |lx|
  {
    if lx == [] {
    } else {
      assert lx[0] in lx && forall l :: l in lx[1..] ==> l in lx;
      OpenNeverCloses(lx[1..], depth + 1);
    }
  }

  /** Every character of a text that is its own shift by one parenthesis is a parenthesis. */
  lemma {:induction false} ShiftedSelf(t: string, s: string, k: nat)
    requires |t| == |s| && t == s && k < |t| && t <= "(" + s
    ensures t[k] == '('
  {
    assert t[k] == ("(" + s)[k];
    if k == 0 {
    } else {
      ShiftedSelf(t, s, k - 1);
      assert t[k] == s[k - 1];
    }
  }

  // ----- What a span that reads back must be -----

  lemma AllOpenIsNoSpan(w: seq<Piece>, s: string, post: string)
    requires Munched(w) && w != [] && Flat(w) <= Wrapped(s) + post && Flat(w) == s
    ensures !StaysOpen(Lexemes(w), 0)
  {
    hide Munched, StaysOpen;
    assert Flat(w) <= "(" + s;
    forall k | 0 <= k < |Flat(w)|
      ensures Flat(w)[k] == '('
    {
      ShiftedSelf(Flat(w), s, k);
    }
    AllOpen(w);
    assert w[0] in w;
    OpenNeverCloses(Lexemes(w), 0);
  }

  /** The text between the parentheses is the condition itself, white space and all. */
  lemma InnerIs(t: string, s: string, post: string)
    requires t <= Wrapped(s) + post && |t| >= 2 && s != "" && Trim(t[1..|t| - 1]) == s
    ensures t == Wrapped(s) && Trim(s) == s
  {
    hide Trim, TrimStart, TrimEnd;
    var x := t[1..|t| - 1];
    var after := s + ")" + post;
    assert Wrapped(s) + post == "(" + after;
    assert x == after[..|x|];
    TrimShape(x);
    TrimNothing(s);
    TrimNoLonger(x);
    assert x[..|s|] == s;
    assert |x| > |s| ==> x[|s|] == ')';
    TrimPrefix(x, s);
    assert t == (Wrapped(s) + post)[..|s| + 2];
  }

  lemma {:induction false} TrimStartNoLonger(x: string)
    ensures |TrimStart(x)| <= |x|
    decreases |x|
  {
    hide IsSpace;
    if x != "" && IsSpace(x[0]) {
      TrimStartNoLonger(x[1..]);
    }
  }

  lemma TrimNoLonger(x: string)
    ensures |Trim(x)| <= |x|
  {
    hide TrimStart, TrimEnd;
    TrimStartNoLonger(x);
    TrimEndShape(TrimStart(x));
  }

  lemma FlatEnds(w: seq<Piece>)
    requires Munched(w) && w != [] && w[|w| - 1].Tok?
    ensures var last := w[|w| - 1];
            Valid(last) && last.text != "" && Flat(w) != "" && Flat(w)[|Flat(w)| - 1] == last.text[|last.text| - 1]
  {
    hide Munched, Flat, Valid, Stops;
    var front, last := w[..|w| - 1], w[|w| - 1];
    assert w == front + [last];
    FlatAppend(front, [last]);
    MunchedSplit(front, [last]);
    MunchedHead([last]);
    assert [last][1..] == [];
    MunchedNil();
    assert Flat([last]) == last.text;
  }

  lemma PeelWrapped(w: seq<Piece>, s: string) returns (ws: seq<Piece>)
    requires Munched(w) && w != [] && w[|w| - 1].Tok? && Flat(w) == Wrapped(s)
    ensures w == WrapPieces(ws) && Munched(ws) && Closed(ws) && Flat(ws) == s
  {
    hide Munched, Flat, Valid, Stops, Closed;
    FlatEnds(w);
    ClosePiece(w[|w| - 1]);
    MunchedHead(w);
    assert Text(w[0])[0] == Flat(w)[0] == '(';
    OpenPiece(w[0]);
    ws := w[1..|w| - 1];
    var open, close := Tok(Punct, "("), Tok(Punct, ")");
    assert w == [open] + (ws + [close]) && w == WrapPieces(ws);
    MunchedSplit([open], ws + [close]);
    MunchedSplit(ws, [close]);
    ClosedBefore(ws);
    FlatAppend([open], ws + [close]);
    FlatAppend(ws, [close]);
    LoneBracket(open);
    LoneBracket(close);
    assert Wrapped(s)[1..|s| + 1] == s;
  }

  lemma GoodFromPieces(s: string, ws: seq<Piece>)
    requires Munched(ws) && Closed(ws) && Flat(ws) == s && s != "" && Trim(s) == s
    requires StaysOpen(WrapLex(Lexemes(ws)), 0) && StaysWrapped(Lexemes(ws), 1)
    ensures GoodCondition(s)
  {
    hide Munched, Flat, Trim, Closed, StaysOpen, StaysWrapped, WrapLex, Lexemes;
    LexIsMaximalMunch(s, ws);
  }

  lemma SpanMustBeGood(w: seq<Piece>, s: string, post: string)
    requires Munched(w) && w != [] && w[|w| - 1].Tok? && Flat(w) <= Wrapped(s) + post && s != ""
    requires StaysOpen(Lexemes(w), 0) && StripOuterParens(Trim(Flat(w))) == s
    ensures GoodCondition(s)
  {
    hide Munched, Valid, Stops, Flat, Trim, StaysOpen, StaysWrapped, Lexemes, LexSpec, Wraps, Closed, GoodCondition, IsSpace;
    var t := Flat(w);
    FlatEnds(w);
    TokenEnds(w[|w| - 1]);
    OpenIsNoSpace(t, s, post);
    TrimNothing(t);
    if t == s {
      AllOpenIsNoSpan(w, s, post);
    }
    InnerIs(t, s, post);
    var ws := PeelWrapped(w, s);
    WrappedPieces(s, ws);
    StripIff(s, ws);
    GoodFromPieces(s, ws);
  }

  lemma OpenIsNoSpace(t: string, s: string, post: string)
    requires t != "" && t <= Wrapped(s) + post
    ensures t[0] == '(' && !IsSpace(t[0])
  {
    assert t[0] == (Wrapped(s) + post)[0];
  }

  // ----- In the source -----

  /** The tokens of a source that starts with a text whose tokens are known. */
  lemma SourceRest(source: string, pre: string, lp: seq<Lexeme>, rest: string) returns (r: seq<Piece>)
    requires source == pre + rest && LexSpec(source).Lexed? && Spells(pre, lp) && pre != "" && Hard(pre[|pre| - 1])
    ensures Munched(r) && Flat(r) == rest
    ensures LexSpec(source).tokens == Tokens(PiecesOf(pre), 0) + Tokens(r, |pre|) + [EofToken(|source|)]
    ensures |Tokens(PiecesOf(pre), 0)| == |lp| && Has(LexSpec(source).tokens, 0, lp)
  {
    hide Chop, Munched, Flat, Closed, Lexemes, Tokens, Valid, Stops;
    SpellsChops(pre, lp);
    var p, q := PiecesOf(pre), PiecesOf(source);
    MunchedPrefix(p, q, rest);
    r := q[|p|..];
    assert q == p + r;
    TokensAppend(p, r, 0);
    TokensLexemes(p, 0);
  }

  /** The pieces of the span that ends at token `j`. */
  lemma SpanPieces(ts: seq<Token>, x: seq<Token>, r: seq<Piece>, eof: Token, base: nat, j: nat) returns (w: seq<Piece>)
    requires Munched(r) && ts == x + Tokens(r, base) + [eof] && Tape(ts) && |x| < j < |ts| - 1
    ensures Munched(w) && w != [] && w[|w| - 1].Tok? && Flat(w) <= Flat(r)
    ensures |Lexemes(w)| == j - |x| && Has(ts, |x|, Lexemes(w)) && ts[j - 1].end == base + |Flat(w)|
  {
    hide Munched, Valid, Stops, Flat, Lexemes, Tokens, Tape;
    var c := CutAtToken(r, base, j - 1 - |x|);
    w := r[..c];
    assert r == w + r[c..];
    MunchedSplit(w, r[c..]);
    FlatAppend(w, r[c..]);
    LexemesAppend(w, r[c..]);
    TokensLexemes(r, base);
    assert ts[j - 1] == Tokens(r, base)[j - 1 - |x|];
    assert forall k :: 0 <= k < |Lexemes(w)| ==> ts[|x| + k] == Tokens(r, base)[k] && Lexemes(r)[k] == Lexemes(w)[k];
  }

  /** A condition that the parser reads back from between the printer's parentheses is good. */
  lemma ConditionExact(pre: string, s: string, post: string, lp: seq<Lexeme>)
    requires Spells(pre, lp) && pre != "" && Hard(pre[|pre| - 1]) && s != ""
    requires LexSpec(pre + Wrapped(s) + post).Lexed?
    requires var ts := LexSpec(pre + Wrapped(s) + post).tokens;
             Tape(ts) && |lp| < |ts| && ParseConditionSpan(ts, |lp|, pre + Wrapped(s) + post).Done?
             && ParseConditionSpan(ts, |lp|, pre + Wrapped(s) + post).value == s
    ensures GoodCondition(s)
  {
    hide LexSpec, Spells, SpanEnd, Trim, StripOuterParens, StaysOpen, GoodCondition, Munched, Valid, Stops, Flat, Tokens, Tape, Chop, PiecesOf, Has, Lexemes;
    var rest := Wrapped(s) + post;
    var source := pre + Wrapped(s) + post;
    assert source == pre + rest;
    var ts := LexSpec(source).tokens;
    SpellsChops(pre, lp);
    var r := SourceRest(source, pre, lp, rest);
    SpanStart(ts, Tokens(PiecesOf(pre), 0), r, |pre|, EofToken(|source|), rest);
    var j := SpanEnd(ts, |lp|, 0).value;
    var w := SpanPieces(ts, Tokens(PiecesOf(pre), 0), r, EofToken(|source|), |pre|, j);
    SpanIff(ts, |lp|, Lexemes(w), 0);
    SlicedFront(pre, rest, |Flat(w)|);
    assert rest[..|Flat(w)|] == Flat(w);
    assert Slice(source, ts[|lp|].start, ts[j - 1].end) == Flat(w);
    SpanMustBeGood(w, s, post);
  }

  lemma SlicedFront(pre: string, rest: string, n: nat)
    requires n <= |rest|
    ensures Slice(pre + rest, |pre|, |pre| + n) == rest[..n]
  {
  }

  lemma SpanStart(ts: seq<Token>, x: seq<Token>, r: seq<Piece>, base: nat, eof: Token, rest: string)
    requires Munched(r) && Flat(r) == rest && rest != "" && rest[0] == '('
    requires ts == x + Tokens(r, base) + [eof] && Tape(ts)
    ensures |x| < |ts| - 1 && ts[|x|].start == base && (SpanEnd(ts, |x|, 0).Some? ==> SpanEnd(ts, |x|, 0).value > |x|)
  {
    hide Munched, Valid, Stops, Flat, Tape, Tokens;
    if r == [] {
      MunchedNil();
    }
    MunchedHead(r);
    assert Text(r[0])[0] == Flat(r)[0];
    OpenPiece(r[0]);
    FirstTokenStart(r, base);
    assert ts[|x|] == Tokens(r, base)[0];
  }
}
