/** Where the tokens of a text stand in it. */
module Positions {
  import opened Lex
  import opened Munch
  import opened Spelling
  import opened Parse

  lemma {:induction false} TokensLexemes(ps: seq<Piece>, base: nat)
    ensures |Tokens(ps, base)| == |Lexemes(ps)|
    ensures forall k :: 0 <= k < |Lexemes(ps)| ==> Bare(Tokens(ps, base)[k]) == Lexemes(ps)[k]
  {
    if ps == [] {
    } else {
      TokensLexemes(ps[1..], base + |Text(ps[0])|);
    }
  }

  lemma {:induction false} TokensAppend(p: seq<Piece>, q: seq<Piece>, base: nat)
    ensures Tokens(p + q, base) == Tokens(p, base) + Tokens(q, base + |Flat(p)|)
    decreases |p|
  {
    if p == [] {
      assert p + q == q;
    } else {
      TokensAppend(p[1..], q, base + |Text(p[0])|);
      assert (p + q)[1..] == p[1..] + q && (p + q)[0] == p[0];
    }
  }

  /** The tokens cover the text from left to right: none is empty, none overlaps the next, and each
      is the text between its offsets. */
  predicate Placed(ts: seq<Token>, from: nat, to: nat) {
    && (forall k :: 0 <= k < |ts| ==> from <= ts[k].start < ts[k].end <= to && |ts[k].text| == ts[k].end - ts[k].start)
    && (forall j, k :: 0 <= j < k < |ts| ==> ts[j].end <= ts[k].start)
  }

  lemma TokensUnfold(ps: seq<Piece>, base: nat)
    requires ps != []
    ensures Tokens(ps, base) ==
              (if ps[0].Tok? then [Token(ps[0].kind, ps[0].text, base, base + |Text(ps[0])|)] else [])
              + Tokens(ps[1..], base + |Text(ps[0])|)
  {
  }

  lemma FlatUnfold(ps: seq<Piece>)
    requires ps != []
    ensures Flat(ps) == Text(ps[0]) + Flat(ps[1..])
  {
    hide Text;
  }

  lemma PlacedAfter(ts: seq<Token>, base: nat, mid: nat, to: nat, t: Token)
    requires Placed(ts, mid, to) && base <= mid <= to
    requires t.start == base && t.end == mid && |t.text| == mid - base
    ensures Placed(ts, base, to) && (base < mid ==> Placed([t] + ts, base, to))
  {
    var all := [t] + ts;
    assert forall k :: 0 < k < |all| ==> all[k] == ts[k - 1];
  }

  lemma {:induction false} TokensPlaced(ps: seq<Piece>, base: nat)
    requires Munched(ps)
    ensures Placed(Tokens(ps, base), base, base + |Flat(ps)|)
    decreases |ps|
  {
    if ps == [] {
      assert Tokens(ps, base) == [];
    } else {
      PlacedMore(ps, base);
    }
  }

  lemma {:induction false} PlacedMore(ps: seq<Piece>, base: nat)
    requires Munched(ps) && ps != []
    ensures Placed(Tokens(ps, base), base, base + |Flat(ps)|)
    decreases |ps|, 0
  {
    hide Valid, Stops, Munched, Flat, Tokens, Placed;
    MunchedHead(ps);
    TokensUnfold(ps, base);
    FlatUnfold(ps);
    var mid := base + |Text(ps[0])|;
    TokensPlaced(ps[1..], mid);
    PlacedAfter(Tokens(ps[1..], mid), base, mid, base + |Flat(ps)|, Token(Name, Text(ps[0]), base, mid));
    if ps[0].Tok? {
      PlacedAfter(Tokens(ps[1..], mid), base, mid, base + |Flat(ps)|, Token(ps[0].kind, ps[0].text, base, mid));
    } else {
      assert [] + Tokens(ps[1..], mid) == Tokens(ps[1..], mid);
    }
  }

  /** The text of the first token, when the text starts with one. */
  lemma FirstTokenStart(ps: seq<Piece>, base: nat)
    requires Munched(ps) && ps != [] && ps[0].Tok?
    ensures Tokens(ps, base) != [] && Tokens(ps, base)[0] == Token(ps[0].kind, ps[0].text, base, base + |ps[0].text|)
  {
  }

  lemma SpellsLexed(text: string, lx: seq<Lexeme>)
    requires Spells(text, lx)
    ensures LexSpec(text) == Lexed(Tokens(PiecesOf(text), 0) + [EofToken(|text|)])
    ensures Lexemes(PiecesOf(text)) == lx
  {
  }
}
