/** Which pieces `highlight` (app/frontend/src/lib/bart/highlight.ts) styles, where they stand in the text, and
    which ids it shows a name beside: said of the tokens, without its scanners. */
module Annotations {
  import opened Lex
  import opened Lists
  import opened Highlight
  import Parse

  /** A string that is the value of `userId`, or compared with a qualified name that ends in it. */
  ghost predicate NamesParty(tokens: seq<Token>, k: nat) {
    && k < |tokens| && tokens[k].kind == StringLit
    && (|| (k >= 2 && tokens[k - 1].text == ":" && IsName(tokens, k - 2) && tokens[k - 2].text == "userId")
        || (k >= 2 && IsPunct(tokens, k - 1, "=") && tokens[k - 2].text == "userId" && NameEnds(tokens, k - 2))
        || (IsPunct(tokens, k + 1, "=") && LeadsTo(tokens, k + 2, "userId")))
  }

  ghost predicate NameEnds(tokens: seq<Token>, b: nat) { exists a: nat :: Found(tokens, a, b) }

  /** A string looked for in a qualified name that ends in `groups`. */
  ghost predicate NamesGroup(tokens: seq<Token>, k: nat) {
    && k < |tokens| && tokens[k].kind == StringLit
    && IsName(tokens, k + 1) && tokens[k + 1].text == "in" && LeadsTo(tokens, k + 2, "groups")
  }

  /** The qualified name from `a` on, that no dot prolongs, ends in `tail`. */
  ghost predicate LeadsTo(tokens: seq<Token>, a: nat, tail: string) {
    exists b: nat :: QName(tokens, a, b) && tokens[b].text == tail && !IsPunct(tokens, b + 1, ".")
  }

  /** What is shown beside token `k`: the name of the party whose id it is; or else of the group; and nothing
      for an id that is empty, or has no name. */
  ghost predicate Shows(tokens: seq<Token>, k: nat, names: map<string, string>, groupNames: map<string, string>, shown: Option<string>)
    requires k < |tokens|
  {
    var text := tokens[k].text;
    var known := if NamesParty(tokens, k) then names else groupNames;
    if (NamesParty(tokens, k) || NamesGroup(tokens, k)) && |text| > 2 && text[1..|text| - 1] in known
       && known[text[1..|text| - 1]] != ""
    then shown == Some(known[text[1..|text| - 1]])
    else shown == None
  }

  lemma IdsExact(tokens: seq<Token>, k: nat)
    requires EofLast(tokens) && k < |tokens|
    ensures IdParty(tokens, k) <==> NamesParty(tokens, k)
    ensures IdGroup(tokens, k) <==> NamesGroup(tokens, k)
  {
    hide QualifierTail, QualifierTailEndingAt, QName;
    ForwardExact(tokens, k + 2, "userId");
    ForwardExact(tokens, k + 2, "groups");
    if k >= 2 {
      MirrorAsUsed(tokens, k - 2);
    } else {
      NothingBefore(tokens, k);
    }
  }

  lemma NothingBefore(tokens: seq<Token>, k: nat)
    requires k < 2
    ensures QualifierTailEndingAt(tokens, k - 2) == None
  {
  }

  lemma ShowsExact(tokens: seq<Token>, k: nat, names: map<string, string>, groupNames: map<string, string>)
    requires EofLast(tokens) && k < |tokens|
    ensures Shows(tokens, k, names, groupNames, TokenPiece(tokens, k, names, groupNames).annotation)
  {
    hide IdParty, IdGroup, NamesParty, NamesGroup, ClassOf;
    IdsExact(tokens, k);
  }

  predicate Bare(piece: Styled) { piece.className == None && piece.annotation == None }

  /** Piece `m` is that of token `k`, and starts where the token does. */
  ghost predicate PieceOf(
    source: string, tokens: seq<Token>, k: nat, pieces: seq<Styled>, m: nat, names: map<string, string>, groupNames: map<string, string>)
  {
    && k < |tokens| && m < |pieces| && tokens[k].start <= |source|
    && pieces[m].text == tokens[k].text && pieces[m].className == ClassOf(tokens[k])
    && Shows(tokens, k, names, groupNames, pieces[m].annotation)
    && TextOf(pieces[..m]) == source[..tokens[k].start]
  }

  /** Piece `ms[k]` is that of token `k`, and all the pieces in between are bare. */
  ghost predicate PieceForEach(
    source: string, tokens: seq<Token>, n: nat, ms: seq<nat>, pieces: seq<Styled>, names: map<string, string>, groupNames: map<string, string>)
  {
    && |ms| == n && Ascending(ms)
    && (forall k :: 0 <= k < n ==> ms[k] < |pieces| && PieceOf(source, tokens, k, pieces, ms[k], names, groupNames))
    && forall m: nat :: m < |pieces| && m !in ms ==> Bare(pieces[m])
  }

  lemma PieceStill(
      source: string, tokens: seq<Token>, k: nat, pieces: seq<Styled>, m: nat, names: map<string, string>, groupNames: map<string, string>,
      more: seq<Styled>)
    requires PieceOf(source, tokens, k, pieces, m, names, groupNames)
    ensures PieceOf(source, tokens, k, pieces + more, m, names, groupNames)
  {
    hide Shows, ClassOf, TextOf;
    assert (pieces + more)[m] == pieces[m] && (pieces + more)[..m] == pieces[..m];
  }

  lemma BareMore(
      source: string, tokens: seq<Token>, n: nat, ms: seq<nat>, pieces: seq<Styled>, names: map<string, string>, groupNames: map<string, string>,
      gap: seq<Styled>)
    requires PieceForEach(source, tokens, n, ms, pieces, names, groupNames) && forall m :: 0 <= m < |gap| ==> Bare(gap[m])
    ensures PieceForEach(source, tokens, n, ms, pieces + gap, names, groupNames)
  {
    hide PieceOf, Bare;
    forall k | 0 <= k < n
      ensures PieceOf(source, tokens, k, pieces + gap, ms[k], names, groupNames)
    {
      PieceStill(source, tokens, k, pieces, ms[k], names, groupNames, gap);
    }
    forall m: nat | m < |pieces + gap| && m !in ms
      ensures Bare((pieces + gap)[m])
    {
      assert (pieces + gap)[m] == if m < |pieces| then pieces[m] else gap[m - |pieces|];
    }
  }

  lemma PieceMore(
      source: string, tokens: seq<Token>, n: nat, ms: seq<nat>, pieces: seq<Styled>, names: map<string, string>, groupNames: map<string, string>,
      piece: Styled)
    requires PieceForEach(source, tokens, n, ms, pieces, names, groupNames)
    requires PieceOf(source, tokens, n, pieces + [piece], |pieces|, names, groupNames)
    ensures PieceForEach(source, tokens, n + 1, ms + [|pieces|], pieces + [piece], names, groupNames)
  {
    hide PieceOf, Bare;
    var all, at := pieces + [piece], |pieces|;
    forall k | 0 <= k < n
      ensures PieceOf(source, tokens, k, all, ms[k], names, groupNames)
    {
      PieceStill(source, tokens, k, pieces, ms[k], names, groupNames, [piece]);
    }
    forall m: nat | m < |all| && m !in ms + [at]
      ensures Bare(all[m])
    {
      assert at in ms + [at] && all[m] == pieces[m];
    }
  }

  lemma {:induction false} PieceFor(
      source: string, tokens: seq<Token>, n: nat, names: map<string, string>, groupNames: map<string, string>) returns (ms: seq<nat>)
    requires n <= |tokens| && Laid(tokens, n, source) && EofLast(tokens)
    ensures PieceForEach(source, tokens, n, ms, PiecesTo(source, tokens, n, names, groupNames), names, groupNames)
    decreases n
  {
    hide *;
    NoPieces(source, tokens, names, groupNames);
    if n == 0 {
      ms := [];
      NoneYet(source, tokens, names, groupNames);
    } else {
      var m: nat := n - 1;
      LaidNext(tokens, m, source);
      ms := PieceFor(source, tokens, m, names, groupNames);
      var pieces, gap := PiecesTo(source, tokens, m, names, groupNames), Gap(source, CursorAt(tokens, m), tokens[m].start);
      PiecesNext(source, tokens, m, names, groupNames);
      GapIsBare(source, CursorAt(tokens, m), tokens[m].start);
      BareMore(source, tokens, m, ms, pieces, names, groupNames, gap);
      PieceNext(source, tokens, m, names, groupNames);
      PieceMore(source, tokens, m, ms, pieces + gap, names, groupNames, TokenPiece(tokens, m, names, groupNames));
      ms := ms + [|pieces + gap|];
    }
  }

  lemma GapIsBare(source: string, from: nat, to: nat)
    ensures forall m :: 0 <= m < |Gap(source, from, to)| ==> Bare(Gap(source, from, to)[m])
  {
  }

  lemma PieceNext(source: string, tokens: seq<Token>, n: nat, names: map<string, string>, groupNames: map<string, string>)
    requires Laid(tokens, n + 1, source) && EofLast(tokens)
    ensures CursorAt(tokens, n) <= tokens[n].start
    ensures var before := PiecesTo(source, tokens, n, names, groupNames) + Gap(source, CursorAt(tokens, n), tokens[n].start);
            PieceOf(source, tokens, n, before + [TokenPiece(tokens, n, names, groupNames)], |before|, names, groupNames)
  {
    hide Shows, ClassOf, TextOf, PiecesTo, TokenPiece, Gap, CursorAt;
    LaidNext(tokens, n, source);
    var pieces, gap := PiecesTo(source, tokens, n, names, groupNames), Gap(source, CursorAt(tokens, n), tokens[n].start);
    PiecesNext(source, tokens, n, names, groupNames);
    PiecesText(source, tokens, n, names, groupNames);
    TextGap(pieces, source, CursorAt(tokens, n), tokens[n].start);
    ShowsExact(tokens, n, names, groupNames);
    Styling(tokens, n, names, groupNames);
    assert source[..CursorAt(tokens, n)] + source[CursorAt(tokens, n)..tokens[n].start] == source[..tokens[n].start];
    var all := pieces + gap + [TokenPiece(tokens, n, names, groupNames)];
    assert all[..|pieces + gap|] == pieces + gap;
  }

  lemma Styling(tokens: seq<Token>, k: nat, names: map<string, string>, groupNames: map<string, string>)
    requires k < |tokens|
    ensures TokenPiece(tokens, k, names, groupNames).className == ClassOf(tokens[k])
  {
    hide IdParty, IdGroup, ClassOf;
  }

  lemma NoneYet(source: string, tokens: seq<Token>, names: map<string, string>, groupNames: map<string, string>)
    ensures PieceForEach(source, tokens, 0, [], [], names, groupNames)
  {
  }

  /** Of every text that lexes, each token has its piece, which starts where the token does, is of its colour,
      and shows the name its id stands for; and no other piece is styled. */
  lemma HighlightExact(source: string, names: map<string, string>, groupNames: map<string, string>) returns (ms: seq<nat>)
    requires source != "" && LexSpec(source).Lexed?
    ensures LexSpec(source).tokens != []
    ensures var tokens := LexSpec(source).tokens;
            PieceForEach(source, tokens, |tokens| - 1, ms, Highlight.Pieces(source, names, groupNames), names, groupNames)
  {
    hide LexSpec, Laid, Highlight.Distinct, PieceForEach, PiecesTo, EofLast, Gap, Bare;
    LexedPlaced(source);
    OneEof(source);
    var tokens := LexSpec(source).tokens;
    var n := |tokens| - 1;
    ms := PieceFor(source, tokens, n, names, groupNames);
    GapIsBare(source, CursorAt(tokens, n), |source|);
    BareMore(source, tokens, n, ms, PiecesTo(source, tokens, n, names, groupNames), names, groupNames, Gap(source, CursorAt(tokens, n), |source|));
  }

  lemma OneEof(source: string)
    requires LexSpec(source).Lexed?
    ensures EofLast(LexSpec(source).tokens)
  {
    hide LexSpec;
    Parse.LexedIsTape(source);
  }
}
