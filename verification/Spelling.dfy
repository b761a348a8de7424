/** When texts may be written next to each other: the tokens of `a + b` are those of `a`
    followed by those of `b`. */
module Spelling {
  import opened Lex
  import opened Munch

  /** A token without its position. */
  datatype Lexeme = Lexeme(kind: Kind, text: string)

  /** A character no token goes on into, and after which any text starts afresh. */
  predicate Hard(c: char) { c in "(){},:\"" || IsBlank(c) }

  predicate Sep(a: string, b: string) {
    a == "" || b == "" || Hard(a[|a| - 1]) || Hard(b[0])
  }

  /** The pieces do not end inside a comment, which would go on into whatever follows. */
  predicate Closed(ps: seq<Piece>) { ps == [] || !ps[|ps| - 1].Comment? }

  function Lexemes(ps: seq<Piece>): seq<Lexeme> {
    if ps == [] then []
    else if ps[0].Tok? then [Lexeme(ps[0].kind, ps[0].text)] + Lexemes(ps[1..])
    else Lexemes(ps[1..])
  }

  /** `text` lexes, closes its last comment, and its tokens are `lx`. */
  predicate Spells(text: string, lx: seq<Lexeme>) {
    var r := Chop(text, 0);
    r.Pieces? && Closed(r.pieces) && Lexemes(r.pieces) == lx
  }

  lemma SpellsPieces(text: string, ps: seq<Piece>)
    requires Munched(ps) && Closed(ps) && Flat(ps) == text
    ensures Spells(text, Lexemes(ps))
  {
    LexIsMaximalMunch(text, ps);
  }

  function PiecesOf(text: string): (ps: seq<Piece>)
    requires Chop(text, 0).Pieces?
    ensures Munched(ps) && Flat(ps) == text
  {
    LexIsMaximalMunch(text, Chop(text, 0).pieces);
    Chop(text, 0).pieces
  }

  // ----- Appending -----

  lemma StopsExtend(p: Piece, x: string, b: string)
    requires Valid(p) && Stops(p, x)
    requires if x == "" then Sep(Text(p), b) else Sep(x, b)
    requires x == "" && p.Comment? ==> !HeadIn(b, CommentChars)
    ensures Stops(p, x + b)
  {
    if x == "" {
      assert x + b == b;
      if p.Tok? && b != "" && !Hard(b[0]) {
        LastCharSoft(p);
      }
    } else if |x| == 1 && b != "" {
      assert (x + b)[1] == b[0];
    }
  }

  /** Only a string literal or a bracket ends in a character that closes it. */
  lemma LastCharSoft(p: Piece)
    requires Valid(p) && p.Tok? && Hard(p.text[|p.text| - 1])
    ensures p.kind == StringLit || (p.kind == Punct && p.text != "<" && p.text != ">")
  {
    var t := p.text;
    assert t[|t| - 1] in t;
    if p.kind == Number {
      NumberLast(t);
    }
  }

  lemma NumberLast(t: string)
    requires IsNumber(t)
    ensures t != "" && IsDigit(t[|t| - 1])
  {
    hide IsDecimal, IsWhole, IsDigit, DottedAt;
    var u := Unsigned(t);
    if IsWhole(u) {
      WholeLast(u);
    } else {
      DecimalLast(u);
    }
  }

  lemma WholeLast(u: string)
    requires IsWhole(u)
    ensures u != "" && IsDigit(u[|u| - 1])
  {
    assert u[|u| - 1] in u;
  }

  lemma DecimalLast(u: string)
    requires IsDecimal(u)
    ensures u != "" && IsDigit(u[|u| - 1])
  {
    var k :| 0 <= k < |u| && DottedAt(u, k);
    var fraction := u[k + 1..];
    assert fraction[|fraction| - 1] in fraction && fraction[|fraction| - 1] == u[|u| - 1];
  }

  lemma FlatEmpty(ps: seq<Piece>)
    requires Munched(ps) && Flat(ps) == ""
    ensures ps == []
  {
  }

  lemma {:induction false} FlatAppend(p: seq<Piece>, q: seq<Piece>)
    ensures Flat(p + q) == Flat(p) + Flat(q)
  {
    if p == [] {
      assert p + q == q;
    } else {
      FlatAppend(p[1..], q);
      assert (p + q)[1..] == p[1..] + q && (p + q)[0] == p[0];
      assert Text(p[0]) + (Flat(p[1..]) + Flat(q)) == (Text(p[0]) + Flat(p[1..])) + Flat(q);
    }
  }

  lemma {:induction false} LexemesAppend(p: seq<Piece>, q: seq<Piece>)
    ensures Lexemes(p + q) == Lexemes(p) + Lexemes(q)
  {
    if p == [] {
      assert p + q == q;
    } else {
      LexemesAppend(p[1..], q);
      assert (p + q)[1..] == p[1..] + q && (p + q)[0] == p[0];
    }
  }

  lemma SepTail(a: string, x: string, b: string)
    requires Sep(a + x, b)
    ensures if x == "" then Sep(a, b) else Sep(x, b)
  {
    if x == "" {
      assert a + x == a;
    } else {
      assert (a + x)[|a + x| - 1] == x[|x| - 1];
    }
  }

  /** One piece in front of an appended text still stops where it did. */
  lemma StopsAppend(ps: seq<Piece>, b: string)
    requires Munched(ps) && ps != [] && Closed(ps) && Sep(Flat(ps), b)
    ensures Valid(ps[0]) && Stops(ps[0], Flat(ps[1..]) + b)
    ensures Munched(ps[1..]) && Closed(ps[1..]) && Sep(Flat(ps[1..]), b)
  {
    MunchedHead(ps);
    var x := Flat(ps[1..]);
    SepTail(Text(ps[0]), x, b);
    if x == "" {
      FlatEmpty(ps[1..]);
    }
    StopsExtend(ps[0], x, b);
  }

  lemma {:induction false} MunchedAppend(p: seq<Piece>, q: seq<Piece>)
    requires Munched(p) && Munched(q) && Closed(p) && Sep(Flat(p), Flat(q))
    ensures Munched(p + q)
    decreases |p|
  {
    hide Valid, Stops, Sep, Munched, Flat, Closed;
    if p == [] {
      assert p + q == q;
    } else {
      StopsAppend(p, Flat(q));
      MunchedAppend(p[1..], q);
      FlatAppend(p[1..], q);
      MunchedCons(p[0], p[1..] + q);
      assert p + q == [p[0]] + (p[1..] + q);
    }
  }

  /** Nothing in the pieces goes on into `b`: not the last one, nor, for a number before a dot, the one
      before it. */
  predicate StopBefore(ps: seq<Piece>, b: string) {
    var n := |ps|;
    && (n > 0 ==> Stops(ps[n - 1], b))
    && (n > 1 ==> Stops(ps[n - 2], Text(ps[n - 1]) + b))
  }

  /** No piece looks at more than the next two characters. */
  lemma StopsAtTwo(p: Piece, x: string, b: string)
    requires |x| > 1
    ensures Stops(p, x + b) == Stops(p, x)
  {
  }

  lemma {:induction false} MunchedAppendExact(p: seq<Piece>, q: seq<Piece>)
    requires Munched(p) && Munched(q)
    ensures Munched(p + q) <==> StopBefore(p, Flat(q))
    decreases |p|
  {
    hide Valid, Stops, Munched, Flat;
    if p == [] {
      assert p + q == q;
    } else {
      var rest := p[1..];
      MunchedHead(p);
      MunchedAppendExact(rest, q);
      FlatAppend(rest, q);
      MunchedUnfold(p[0], rest + q);
      assert p + q == [p[0]] + (rest + q);
      if |p| == 1 {
        FlatOf(rest);
        assert rest + q == q;
        assert "" + Flat(q) == Flat(q);
      } else if |p| == 2 {
        FlatOf(rest);
        assert Text(p[1]) + "" == Text(p[1]);
      } else {
        LongRest(p);
        StopsAtTwo(p[0], Flat(rest), Flat(q));
      }
    }
  }

  lemma MunchedUnfold(p: Piece, rest: seq<Piece>)
    ensures Munched([p] + rest) <==> Valid(p) && Stops(p, Flat(rest)) && Munched(rest)
  {
    assert ([p] + rest)[0] == p && ([p] + rest)[1..] == rest;
  }

  lemma FlatOf(ps: seq<Piece>)
    ensures ps == [] ==> Flat(ps) == ""
    ensures |ps| == 1 ==> Flat(ps) == Text(ps[0]) + ""
  {
  }

  lemma LongRest(p: seq<Piece>)
    requires Munched(p) && |p| > 2
    ensures |Flat(p[1..])| > 1
  {
    MunchedHead(p);
    MunchedHead(p[1..]);
    MunchedHead(p[1..][1..]);
    hide Munched, Stops;
  }

  /** Two texts that each lex, written together, lex to the pieces of the one and then of the other, if and
      only if the first stops before the second. */
  lemma AppendExact(a: string, b: string)
    requires Chop(a, 0).Pieces? && Chop(b, 0).Pieces?
    ensures Chop(a + b, 0) == Pieces(PiecesOf(a) + PiecesOf(b)) <==> StopBefore(PiecesOf(a), b)
  {
    hide Munched, Flat, StopBefore;
    var p, q := PiecesOf(a), PiecesOf(b);
    MunchedAppendExact(p, q);
    FlatAppend(p, q);
    LexIsMaximalMunch(a + b, p + q);
  }

  lemma SpellsAppend(a: string, la: seq<Lexeme>, b: string, lb: seq<Lexeme>)
    requires Spells(a, la) && Spells(b, lb) && Sep(a, b)
    ensures Spells(a + b, la + lb)
  {
    var p, q := PiecesOf(a), PiecesOf(b);
    MunchedAppend(p, q);
    FlatAppend(p, q);
    LexemesAppend(p, q);
    assert Closed(p + q);
    SpellsPieces(a + b, p + q);
  }

  // ----- The smallest texts -----

  lemma SpellsToken(p: Piece)
    requires Valid(p) && p.Tok?
    ensures Spells(p.text, [Lexeme(p.kind, p.text)])
  {
    assert Munched([p]);
    assert Flat([p]) == p.text;
    assert Lexemes([p]) == [Lexeme(p.kind, p.text)];
    SpellsPieces(p.text, [p]);
  }

  lemma {:induction false} SpellsBlanks(s: string)
    requires forall c :: c in s ==> IsBlank(c)
    ensures Spells(s, [])
  {
    if s == "" {
      SpellsPieces("", []);
    } else {
      SpellsBlanks(s[1..]);
      var p := Blank(s[0]);
      assert Munched([p]) && Flat([p]) == [s[0]] && Lexemes([p]) == [];
      SpellsPieces([s[0]], [p]);
      SpellsAppend([s[0]], [], s[1..], []);
      assert s == [s[0]] + s[1..];
    }
  }

  // ----- Brackets, clauses and lists -----

  function P(text: string): Lexeme { Lexeme(Punct, text) }

  function N(text: string): Lexeme { Lexeme(Name, text) }

  function Join(parts: seq<string>, sep: string): string {
    if |parts| == 0 then ""
    else if |parts| == 1 then parts[0]
    else parts[0] + sep + Join(parts[1..], sep)
  }

  function JoinLex(parts: seq<seq<Lexeme>>, sep: seq<Lexeme>): seq<Lexeme> {
    if |parts| == 0 then []
    else if |parts| == 1 then parts[0]
    else parts[0] + sep + JoinLex(parts[1..], sep)
  }

  lemma SpellsHard(c: char)
    requires c in "(){},:"
    ensures Spells([c], [P([c])]) && Hard(c)
  {
    SpellsToken(Tok(Punct, [c]));
  }

  lemma SpellsWrap(open: char, text: string, lx: seq<Lexeme>, close: char)
    requires Spells(text, lx) && open in "({" && close in ")}"
    ensures Spells([open] + text + [close], [P([open])] + lx + [P([close])])
  {
    hide Spells;
    SpellsHard(open);
    SpellsHard(close);
    SpellsAppend([open], [P([open])], text, lx);
    SpellsAppend([open] + text, [P([open])] + lx, [close], [P([close])]);
  }

  lemma SpellsName(name: string)
    requires IsName(name) && name != "true" && name != "false"
    ensures Spells(name, [N(name)])
  {
    SpellsToken(Tok(Name, name));
  }

  function Clause(key: string, text: string): string { key + ":" + text }

  function ClauseLex(key: string, lx: seq<Lexeme>): seq<Lexeme> { [N(key), P(":")] + lx }

  lemma SpellsClause(key: string, text: string, lx: seq<Lexeme>)
    requires IsName(key) && key != "true" && key != "false" && Spells(text, lx)
    ensures Spells(Clause(key, text), ClauseLex(key, lx))
  {
    hide Spells;
    SpellsName(key);
    SpellsHard(':');
    SpellsAppend(key, [N(key)], ":", [P(":")]);
    SpellsAppend(key + ":", [N(key)] + [P(":")], text, lx);
    assert [N(key)] + [P(":")] == [N(key), P(":")];
  }

  /** A separator that starts and ends in a character no token goes on into. */
  predicate Separates(sep: string, lx: seq<Lexeme>) {
    sep != "" && Hard(sep[0]) && Hard(sep[|sep| - 1]) && Spells(sep, lx)
  }

  predicate AllSpell(parts: seq<string>, lx: seq<seq<Lexeme>>) {
    |parts| == |lx| && forall k :: 0 <= k < |parts| ==> Spells(parts[k], lx[k])
  }

  lemma {:induction false} SpellsJoin(parts: seq<string>, lx: seq<seq<Lexeme>>, sep: string, lsep: seq<Lexeme>)
    requires AllSpell(parts, lx) && Separates(sep, lsep)
    ensures Spells(Join(parts, sep), JoinLex(lx, lsep))
  {
    hide Spells;
    if |parts| == 0 {
      SpellsBlanks("");
    } else if |parts| > 1 {
      SpellsJoin(parts[1..], lx[1..], sep, lsep);
      SpellsAppend(parts[0], lx[0], sep, lsep);
      SpellsAppend(parts[0] + sep, lx[0] + lsep, Join(parts[1..], sep), JoinLex(lx[1..], lsep));
    }
  }
}
