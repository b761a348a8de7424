/** `highlight` and its scanners (app/frontend/src/lib/bart/highlight.ts): source text cut into styled
    pieces, with names shown beside the ids of parties and groups. */
module Highlight {
  import opened Lex
  import opened Munch
  import opened Positions
  import Attrs

  // ----- Qualified names, read forwards and backwards -----

  predicate IsPunct(tokens: seq<Token>, i: int, text: string) {
    0 <= i < |tokens| && tokens[i].kind == Punct && tokens[i].text == text
  }

  predicate IsName(tokens: seq<Token>, i: int) { 0 <= i < |tokens| && tokens[i].kind == Name }

  predicate IsRequester(tokens: seq<Token>, i: int) { IsName(tokens, i) && tokens[i].text == "requester" }

  /** One past the parenthesis that brings `depth`, the number open before `j`, back to none. */
  function GroupEnd(tokens: seq<Token>, j: nat, depth: int): (e: Option<nat>)
    ensures e.Some? ==> j < e.value <= |tokens|
    decreases |tokens| - j
  {
    if j >= |tokens| || tokens[j].kind == Eof then None
    else if IsPunct(tokens, j, "(") then GroupEnd(tokens, j + 1, depth + 1)
    else if IsPunct(tokens, j, ")") then if depth == 1 then Some(j + 1) else GroupEnd(tokens, j + 1, depth - 1)
    else GroupEnd(tokens, j + 1, depth)
  }

  /** The same backwards: one before the parenthesis that closes the balance. */
  function GroupStart(tokens: seq<Token>, j: int, depth: int): (e: Option<int>)
    requires j < |tokens|
    ensures e.Some? ==> -1 <= e.value < j
    decreases j + 1
  {
    if j < 0 then None
    else if IsPunct(tokens, j, ")") then GroupStart(tokens, j - 1, depth + 1)
    else if IsPunct(tokens, j, "(") then if depth == 1 then Some(j - 1) else GroupStart(tokens, j - 1, depth - 1)
    else GroupStart(tokens, j - 1, depth)
  }

  function GroupsEnd(tokens: seq<Token>, j: nat): (e: Option<nat>)
    ensures e.Some? ==> j < e.value <= |tokens|
    decreases |tokens| - j
  {
    var e := GroupEnd(tokens, j, 0);
    if e.Some? && IsPunct(tokens, e.value, "(") then GroupsEnd(tokens, e.value) else e
  }

  function GroupsStart(tokens: seq<Token>, j: int): (e: Option<int>)
    requires j < |tokens|
    ensures e.Some? ==> -1 <= e.value < j
    decreases j + 1
  {
    var e := GroupStart(tokens, j, 0);
    if e.Some? && IsPunct(tokens, e.value, ")") then GroupsStart(tokens, e.value) else e
  }

  function TerminalName(tokens: seq<Token>, at: int): Option<string> {
    if IsName(tokens, at) && !IsPunct(tokens, at + 1, ".") then Some(tokens[at].text) else None
  }

  /** The tail of the qualified name that starts at `start`. */
  function QualifierTail(tokens: seq<Token>, start: nat): Option<string> {
    if IsRequester(tokens, start) then
      if IsPunct(tokens, start + 1, ".") then TerminalName(tokens, start + 2) else None
    else if IsPunct(tokens, start, "(") then
      var e := GroupsEnd(tokens, start);
      if e.Some? && IsPunct(tokens, e.value, ".") then TerminalName(tokens, e.value + 1) else None
    else TerminalName(tokens, start)
  }

  /** The tail of the qualified name that ends at `end`. */
  function QualifierTailEndingAt(tokens: seq<Token>, end: int): Option<string> {
    if !IsName(tokens, end) then None
    else if !IsPunct(tokens, end - 1, ".") then Some(tokens[end].text)
    else if IsRequester(tokens, end - 2) then
      if IsPunct(tokens, end - 3, ".") then None else Some(tokens[end].text)
    else if IsPunct(tokens, end - 2, ")") then
      var e := GroupsStart(tokens, end - 2);
      if e.None? || IsPunct(tokens, e.value, ".") then None else Some(tokens[end].text)
    else None
  }

  // ----- The grammar's qualified names -----

  /** Parentheses opened less those closed, on the tokens from `lo` up to `hi`. */
  function Balance(tokens: seq<Token>, lo: nat, hi: nat): int
    requires lo <= hi <= |tokens|
    decreases hi
  {
    if lo == hi then 0
    else Balance(tokens, lo, hi - 1) + if IsPunct(tokens, hi - 1, "(") then 1 else if IsPunct(tokens, hi - 1, ")") then -1 else 0
  }

  /** The tokens from `a` up to `e` are one `(...)`, whatever is in it. */
  ghost predicate Group(tokens: seq<Token>, a: nat, e: nat) {
    && a < e <= |tokens| && IsPunct(tokens, a, "(")
    && (forall k :: a < k < e ==> Balance(tokens, a, k) > 0)
    && Balance(tokens, a, e) == 0
    && (forall k :: a <= k < e ==> tokens[k].kind != Eof)
  }

  /** They are one `(...)` or more. */
  ghost predicate Groups(tokens: seq<Token>, a: nat, e: nat)
    decreases e - a
  {
    Group(tokens, a, e) || exists m :: a < m < e && Group(tokens, a, m) && Groups(tokens, m, e)
  }

  /** The tokens from `a` to `b` are a qualified name: `NAME`, `requester.NAME` or `(...)...(...).NAME`. */
  ghost predicate QName(tokens: seq<Token>, a: nat, b: nat) {
    && a <= b && IsName(tokens, b)
    && if a == b then !IsRequester(tokens, b)
       else IsPunct(tokens, b - 1, ".") && (if a == b - 2 then IsRequester(tokens, a) else a < b - 1 && Groups(tokens, a, b - 1))
  }

  lemma {:induction false} BalanceSum(tokens: seq<Token>, a: nat, k: nat, e: nat)
    requires a <= k <= e <= |tokens|
    ensures Balance(tokens, a, e) == Balance(tokens, a, k) + Balance(tokens, k, e)
    decreases e
  {
    if k < e {
      BalanceSum(tokens, a, k, e - 1);
    }
  }

  /** Scanning on from `j` inside the group that starts at `a`. */
  lemma {:induction false} GroupEndScan(tokens: seq<Token>, a: nat, j: nat, e: nat)
    requires a < j <= |tokens| && Balance(tokens, a, j) > 0
    ensures GroupEnd(tokens, j, Balance(tokens, a, j)) == Some(e) <==>
              && j < e <= |tokens| && Balance(tokens, a, e) == 0
              && (forall k :: j <= k < e ==> Balance(tokens, a, k) > 0)
              && (forall k :: j <= k < e ==> tokens[k].kind != Eof)
    decreases |tokens| - j
  {
    if j < |tokens| && tokens[j].kind != Eof && !(IsPunct(tokens, j, ")") && Balance(tokens, a, j) == 1) {
      GroupEndScan(tokens, a, j + 1, e);
    } else if j < |tokens| && tokens[j].kind != Eof {
      assert Balance(tokens, a, j + 1) == 0;
    }
  }

  lemma GroupEndExact(tokens: seq<Token>, a: nat, e: nat)
    requires IsPunct(tokens, a, "(")
    ensures GroupEnd(tokens, a, 0) == Some(e) <==> Group(tokens, a, e)
  {
    hide GroupEnd, Balance;
    OneOpen(tokens, a);
    GroupEndScan(tokens, a, a + 1, e);
    if GroupEnd(tokens, a, 0) == Some(e) {
      assert forall k :: a < k < e ==> Balance(tokens, a, k) > 0;
      assert Group(tokens, a, e);
    }
    if Group(tokens, a, e) {
      assert e != a + 1;
    }
  }

  lemma OneOpen(tokens: seq<Token>, a: nat)
    requires IsPunct(tokens, a, "(")
    ensures Balance(tokens, a, a + 1) == 1 && GroupEnd(tokens, a, 0) == GroupEnd(tokens, a + 1, 1) && tokens[a].kind != Eof
  {
    assert Balance(tokens, a, a) == 0;
  }

  /** Scanning back from `j` inside the group that ends before `e`. */
  lemma {:induction false} GroupStartScan(tokens: seq<Token>, j: int, e: nat, a: nat)
    requires -1 <= j < e - 1 && e <= |tokens| && Balance(tokens, j + 1, e) < 0
    ensures GroupStart(tokens, j, -Balance(tokens, j + 1, e)) == Some(a - 1) <==>
              a <= j && Balance(tokens, a, e) == 0 && (forall k :: a < k <= j + 1 ==> Balance(tokens, k, e) < 0)
    decreases j + 1
  {
    if j >= 0 {
      BalanceSum(tokens, j, j + 1, e);
      assert Balance(tokens, j, j) == 0;
      if IsPunct(tokens, j, "(") && Balance(tokens, j + 1, e) == -1 {
      } else {
        GroupStartScan(tokens, j - 1, e, a);
      }
    }
  }

  lemma GroupStartExact(tokens: seq<Token>, a: nat, e: nat)
    requires 0 < e <= |tokens| && IsPunct(tokens, e - 1, ")") && forall k :: 0 <= k < e ==> tokens[k].kind != Eof
    ensures GroupStart(tokens, e - 1, 0) == Some(a - 1) <==> Group(tokens, a, e)
  {
    hide GroupStart, Balance;
    OneClose(tokens, e);
    GroupStartScan(tokens, e - 2, e, a);
    if a <= e - 2 {
      forall k | a <= k <= e
        ensures Balance(tokens, a, e) == Balance(tokens, a, k) + Balance(tokens, k, e)
      {
        BalanceSum(tokens, a, k, e);
      }
      FirstIn(tokens, a);
      BalanceSum(tokens, a, a + 1, e);
      if GroupStart(tokens, e - 1, 0) == Some(a - 1) {
        forall k | a < k < e
          ensures Balance(tokens, k, e) < 0 && Balance(tokens, a, k) > 0
        {
          assert Balance(tokens, a, e) == Balance(tokens, a, k) + Balance(tokens, k, e);
        }
      }
    } else if a == e - 1 {
      FirstIn(tokens, a);
    }
  }

  lemma FirstIn(tokens: seq<Token>, a: nat)
    requires a < |tokens|
    ensures Balance(tokens, a, a + 1) == if IsPunct(tokens, a, "(") then 1 else if IsPunct(tokens, a, ")") then -1 else 0
  {
    assert Balance(tokens, a, a) == 0;
  }

  lemma OneClose(tokens: seq<Token>, e: nat)
    requires 0 < e <= |tokens| && IsPunct(tokens, e - 1, ")")
    ensures Balance(tokens, e - 1, e) == -1 && GroupStart(tokens, e - 1, 0) == GroupStart(tokens, e - 2, 1)
  {
    FirstIn(tokens, e - 1);
  }

  lemma GroupEnds(tokens: seq<Token>, a: nat, e: nat)
    requires Group(tokens, a, e)
    ensures a + 1 < e && IsPunct(tokens, a, "(") && IsPunct(tokens, e - 1, ")")
  {
    FirstIn(tokens, a);
    BalanceSum(tokens, a, e - 1, e);
    FirstIn(tokens, e - 1);
  }

  // ----- Several groups -----

  lemma {:induction false} GroupsEnds(tokens: seq<Token>, a: nat, e: nat)
    requires Groups(tokens, a, e)
    ensures a + 1 < e <= |tokens| && IsPunct(tokens, a, "(") && IsPunct(tokens, e - 1, ")")
    decreases e - a
  {
    hide Group;
    if Group(tokens, a, e) {
      GroupEnds(tokens, a, e);
    } else {
      var m :| a < m < e && Group(tokens, a, m) && Groups(tokens, m, e);
      GroupEnds(tokens, a, m);
      GroupsEnds(tokens, m, e);
    }
  }

  lemma {:induction false} GroupsEndExact(tokens: seq<Token>, a: nat, e: nat)
    requires IsPunct(tokens, a, "(")
    ensures GroupsEnd(tokens, a) == Some(e) <==> Groups(tokens, a, e) && !IsPunct(tokens, e, "(")
    decreases |tokens| - a
  {
    hide Group, GroupEnd, Balance;
    var first := GroupEnd(tokens, a, 0);
    if first.Some? {
      var m := first.value;
      GroupEndExact(tokens, a, m);
      if IsPunct(tokens, m, "(") {
        GroupsEndExact(tokens, m, e);
      }
    }
    if Groups(tokens, a, e) {
      FirstGroup(tokens, a, e);
      if first.Some? && first.value < e {
        GroupsEnds(tokens, first.value, e);
      }
    } else if first.Some? && IsPunct(tokens, first.value, "(") && Groups(tokens, first.value, e) {
      GroupsEnds(tokens, first.value, e);
    }
  }

  /** The first of the groups is the one that the scan finds. */
  lemma FirstGroup(tokens: seq<Token>, a: nat, e: nat)
    requires Groups(tokens, a, e)
    ensures IsPunct(tokens, a, "(")
    ensures var m := GroupEnd(tokens, a, 0); m.Some? && m.value <= e && (m.value < e ==> Groups(tokens, m.value, e))
  {
    hide Group, GroupEnd;
    GroupsEnds(tokens, a, e);
    if Group(tokens, a, e) {
      GroupEndExact(tokens, a, e);
    } else {
      var m :| a < m < e && Group(tokens, a, m) && Groups(tokens, m, e);
      GroupEndExact(tokens, a, m);
    }
  }

  lemma {:induction false} GroupsJoin(tokens: seq<Token>, a: nat, m: nat, e: nat)
    requires Groups(tokens, a, m) && Groups(tokens, m, e)
    ensures Groups(tokens, a, e)
    decreases m - a
  {
    hide Group;
    GroupsEnds(tokens, a, m);
    GroupsEnds(tokens, m, e);
    if Group(tokens, a, m) {
    } else {
      var l :| a < l < m && Group(tokens, a, l) && Groups(tokens, l, m);
      GroupsJoin(tokens, l, m, e);
    }
  }

  /** The last of the groups. */
  lemma {:induction false} LastGroup(tokens: seq<Token>, a: nat, e: nat) returns (m: nat)
    requires Groups(tokens, a, e)
    ensures a <= m < e && Group(tokens, m, e) && (a < m ==> Groups(tokens, a, m))
    decreases e - a
  {
    hide Group;
    if Group(tokens, a, e) {
      GroupEnds(tokens, a, e);
      m := a;
    } else {
      var l :| a < l < e && Group(tokens, a, l) && Groups(tokens, l, e);
      m := LastGroup(tokens, l, e);
      if l < m {
        assert Groups(tokens, a, l);
        GroupsJoin(tokens, a, l, m);
      }
    }
  }

  lemma {:induction false} GroupsStartExact(tokens: seq<Token>, a: nat, e: nat)
    requires 0 < e <= |tokens| && IsPunct(tokens, e - 1, ")") && forall k :: 0 <= k < e ==> tokens[k].kind != Eof
    ensures GroupsStart(tokens, e - 1) == Some(a - 1) <==> Groups(tokens, a, e) && !IsPunct(tokens, a - 1, ")")
    decreases e
  {
    hide Group, GroupStart, Balance;
    var last := GroupStart(tokens, e - 1, 0);
    if last.Some? {
      var m: nat := last.value + 1;
      GroupStartExact(tokens, m, e);
      assert Groups(tokens, m, e);
      if IsPunct(tokens, m - 1, ")") {
        GroupsStartExact(tokens, a, m);
        if Groups(tokens, a, m) {
          GroupsJoin(tokens, a, m, e);
        }
      }
    }
    if Groups(tokens, a, e) {
      var m := LastGroup(tokens, a, e);
      GroupStartExact(tokens, m, e);
      if a < m {
        GroupsEnds(tokens, a, m);
      }
    }
  }

  // ----- Both scanners read exactly the grammar's names -----

  /** Forwards: `n` is found from `a` on just when a qualified name with the tail `n` starts there and no dot
      goes on from it. */
  lemma ForwardExact(tokens: seq<Token>, a: nat, n: string)
    ensures QualifierTail(tokens, a) == Some(n) <==>
              exists b: nat :: QName(tokens, a, b) && tokens[b].text == n && !IsPunct(tokens, b + 1, ".")
  {
    hide Groups, GroupsEnd;
    if QualifierTail(tokens, a) == Some(n) {
      if IsRequester(tokens, a) {
        assert QName(tokens, a, a + 2);
      } else if IsPunct(tokens, a, "(") {
        var e := GroupsEnd(tokens, a).value;
        GroupsEndExact(tokens, a, e);
        GroupsEnds(tokens, a, e);
        assert QName(tokens, a, e + 1);
      } else {
        assert QName(tokens, a, a);
      }
    }
    if b: nat :| QName(tokens, a, b) && tokens[b].text == n && !IsPunct(tokens, b + 1, ".") {
      ForwardFinds(tokens, a, b);
    }
  }

  lemma ForwardFinds(tokens: seq<Token>, a: nat, b: nat)
    requires QName(tokens, a, b) && !IsPunct(tokens, b + 1, ".")
    ensures QualifierTail(tokens, a) == Some(tokens[b].text)
  {
    hide Groups, GroupsEnd;
    if a < b && a != b - 2 {
      GroupsEnds(tokens, a, b - 1);
      GroupsEndExact(tokens, a, b - 1);
    }
  }

  /** Only the last token may be the end of the input. */
  predicate EofLast(tokens: seq<Token>) { forall k :: 0 <= k < |tokens| - 1 ==> tokens[k].kind != Eof }

  /** A name `requester` that no dot leads to: by itself it is no qualified name. */
  predicate LoneRequester(tokens: seq<Token>, b: int) { IsRequester(tokens, b) && !IsPunct(tokens, b - 1, ".") }

  /** The qualified name from `a` to `b` is one that the backward scanner takes: no dot leads to it, and if
      it starts with a group, that is the first of its groups. */
  ghost predicate Found(tokens: seq<Token>, a: nat, b: nat) {
    QName(tokens, a, b) && !IsPunct(tokens, a - 1, ".") && (a + 2 < b ==> !IsPunct(tokens, a - 1, ")"))
  }

  /** Backwards: `n` is found at `b` just when a qualified name with the tail `n` ends there, or a lone
      `requester` does. */
  lemma BackwardExact(tokens: seq<Token>, b: nat, n: string)
    requires EofLast(tokens) && b < |tokens|
    ensures QualifierTailEndingAt(tokens, b) == Some(n) <==>
              tokens[b].text == n && (LoneRequester(tokens, b) || exists a: nat :: Found(tokens, a, b))
  {
    hide Groups, GroupsStart;
    if QualifierTailEndingAt(tokens, b) == Some(n) && !LoneRequester(tokens, b) {
      BackwardOnly(tokens, b);
    }
    if a: nat :| Found(tokens, a, b) {
      BackwardTakes(tokens, a, b);
    }
  }

  lemma BackwardOnly(tokens: seq<Token>, b: nat)
    requires EofLast(tokens) && b < |tokens| && QualifierTailEndingAt(tokens, b).Some? && !LoneRequester(tokens, b)
    ensures exists a: nat :: Found(tokens, a, b)
  {
    hide Groups, GroupsStart;
    if !IsPunct(tokens, b - 1, ".") {
      assert Found(tokens, b, b);
    } else if IsRequester(tokens, b - 2) {
      assert Found(tokens, b - 2, b);
    } else {
      var a: nat := GroupsStart(tokens, b - 2).value + 1;
      GroupsStartExact(tokens, a, b - 1);
      GroupsEnds(tokens, a, b - 1);
      assert Found(tokens, a, b);
    }
  }

  lemma BackwardTakes(tokens: seq<Token>, a: nat, b: nat)
    requires EofLast(tokens) && Found(tokens, a, b)
    ensures QualifierTailEndingAt(tokens, b) == Some(tokens[b].text)
  {
    hide Groups, GroupsStart;
    if a < b && a != b - 2 {
      GroupsEnds(tokens, a, b - 1);
      GroupsStartExact(tokens, a, b - 1);
    }
  }

  /** When the scanners mirror each other: what the backward one finds at `b`, where no dot goes on, the
      forward one finds from the start of a qualified name that ends there, if and only if `b` is not a
      lone `requester`. */
  lemma MirrorExact(tokens: seq<Token>, b: nat, n: string)
    requires EofLast(tokens) && b < |tokens| && !IsPunct(tokens, b + 1, ".")
    requires QualifierTailEndingAt(tokens, b) == Some(n)
    ensures (exists a: nat :: Found(tokens, a, b) && QualifierTail(tokens, a) == Some(n)) <==> !LoneRequester(tokens, b)
  {
    hide Groups, GroupsStart, GroupsEnd;
    BackwardExact(tokens, b, n);
    if LoneRequester(tokens, b) {
      NoneAtLoneRequester(tokens, b);
    } else {
      var a: nat :| Found(tokens, a, b);
      ForwardFinds(tokens, a, b);
    }
  }

  lemma NoneAtLoneRequester(tokens: seq<Token>, b: nat)
    requires LoneRequester(tokens, b)
    ensures !exists a: nat :: QName(tokens, a, b)
  {
  }

  /** As the scanners are used, looking for `userId`, the exception never shows: the backward one finds it
      exactly where a qualified name with that tail ends. */
  lemma MirrorAsUsed(tokens: seq<Token>, b: nat)
    requires EofLast(tokens) && b < |tokens|
    ensures QualifierTailEndingAt(tokens, b) == Some("userId") <==>
              tokens[b].text == "userId" && exists a: nat :: Found(tokens, a, b)
  {
    BackwardExact(tokens, b, "userId");
    assert "userId" != "requester" by {
      assert |"userId"| != |"requester"|;
    }
  }

  /** The tokens of `requester = "x"`. */
  const COMPARED: seq<Token> :=
    [Token(Name, "requester", 0, 9), Token(Punct, "=", 10, 11), Token(StringLit, "\"x\"", 12, 15), Token(Eof, "", 15, 15)]

  /** A lone `requester`, left of an `=`: backwards it is taken for a name, forwards it is refused. */
  lemma RequesterCompared()
    ensures QualifierTailEndingAt(COMPARED, 0) == Some("requester") && QualifierTail(COMPARED, 0) == None
    ensures LoneRequester(COMPARED, 0)
  {
  }

  /** The two scanners agree on every qualified name that stands free of what is around it. */
  lemma ScannersAgree(tokens: seq<Token>, a: nat, b: nat)
    requires EofLast(tokens) && Found(tokens, a, b) && !IsPunct(tokens, b + 1, ".")
    ensures QualifierTail(tokens, a) == QualifierTailEndingAt(tokens, b) == Some(tokens[b].text)
  {
    ForwardFinds(tokens, a, b);
    BackwardTakes(tokens, a, b);
  }

  // ----- The scanners as loops -----

  method SkipGroup(tokens: seq<Token>, start: nat) returns (e: Option<nat>)
    ensures e == GroupEnd(tokens, start, 0)
  {
    var depth, j := 0, start;
    while j < |tokens| && tokens[j].kind != Eof
      invariant GroupEnd(tokens, j, depth) == GroupEnd(tokens, start, 0)
      decreases |tokens| - j
    {
      if IsPunct(tokens, j, "(") {
        depth := depth + 1;
      } else if IsPunct(tokens, j, ")") {
        depth := depth - 1;
        if depth == 0 {
          return Some(j + 1);
        }
      }
      j := j + 1;
    }
    return None;
  }

  method SkipGroupBack(tokens: seq<Token>, start: int) returns (e: Option<int>)
    requires start < |tokens|
    ensures e == GroupStart(tokens, start, 0)
  {
    var depth, j := 0, start;
    while j >= 0
      invariant j < |tokens| && GroupStart(tokens, j, depth) == GroupStart(tokens, start, 0)
    {
      if IsPunct(tokens, j, ")") {
        depth := depth + 1;
      } else if IsPunct(tokens, j, "(") {
        depth := depth - 1;
        if depth == 0 {
          return Some(j - 1);
        }
      }
      j := j - 1;
    }
    return None;
  }

  method ReadTail(tokens: seq<Token>, start: nat) returns (tail: Option<string>)
    ensures tail == QualifierTail(tokens, start)
  {
    if IsRequester(tokens, start) {
      return if IsPunct(tokens, start + 1, ".") then TerminalName(tokens, start + 2) else None;
    }
    if IsPunct(tokens, start, "(") {
      var j := start;
      var again := true;
      while again
        invariant again ==> GroupsEnd(tokens, j) == GroupsEnd(tokens, start)
        invariant !again ==> GroupsEnd(tokens, start) == Some(j)
        decreases |tokens| - j, again
      {
        var e := SkipGroup(tokens, j);
        if e.None? {
          return None;
        }
        j := e.value;
        again := IsPunct(tokens, j, "(");
      }
      return if IsPunct(tokens, j, ".") then TerminalName(tokens, j + 1) else None;
    }
    return TerminalName(tokens, start);
  }

  method ReadTailEndingAt(tokens: seq<Token>, end: int) returns (tail: Option<string>)
    ensures tail == QualifierTailEndingAt(tokens, end)
  {
    if !IsName(tokens, end) {
      return None;
    }
    if !IsPunct(tokens, end - 1, ".") {
      return Some(tokens[end].text);
    }
    if IsRequester(tokens, end - 2) {
      return if IsPunct(tokens, end - 3, ".") then None else Some(tokens[end].text);
    }
    if IsPunct(tokens, end - 2, ")") {
      var j := end - 2;
      var again := true;
      while again
        invariant -1 <= j < |tokens|
        invariant again ==> GroupsStart(tokens, j) == GroupsStart(tokens, end - 2)
        invariant !again ==> GroupsStart(tokens, end - 2) == Some(j)
        decreases j + 1, again
      {
        var e := SkipGroupBack(tokens, j);
        if e.None? {
          return None;
        }
        j := e.value;
        again := IsPunct(tokens, j, ")");
      }
      return if IsPunct(tokens, j, ".") then None else Some(tokens[end].text);
    }
    return None;
  }

  // ----- Ids -----

  /** The value of a `userId: "..."` attribute. */
  predicate IdAttribute(tokens: seq<Token>, i: nat) {
    && i < |tokens| && tokens[i].kind == StringLit
    && i >= 2 && tokens[i - 1].text == ":" && IsName(tokens, i - 2) && tokens[i - 2].text == "userId"
  }

  /** Compared with `=` to a name that ends in `userId`. */
  predicate IdEquality(tokens: seq<Token>, i: nat) {
    && i < |tokens| && tokens[i].kind == StringLit
    && ((IsPunct(tokens, i - 1, "=") && QualifierTailEndingAt(tokens, i - 2) == Some("userId"))
        || (IsPunct(tokens, i + 1, "=") && QualifierTail(tokens, i + 2) == Some("userId")))
  }

  /** Looked for `in` a name that ends in `groups`. */
  predicate IdGroup(tokens: seq<Token>, i: nat) {
    && i < |tokens| && tokens[i].kind == StringLit
    && IsName(tokens, i + 1) && tokens[i + 1].text == "in" && QualifierTail(tokens, i + 2) == Some("groups")
  }

  predicate IdParty(tokens: seq<Token>, i: nat) { IdAttribute(tokens, i) || IdEquality(tokens, i) }

  /** The text without its first and last character. */
  function Unquoted(text: string): string { if |text| < 2 then "" else text[1..|text| - 1] }

  method IsEquality(tokens: seq<Token>, i: nat) returns (found: bool)
    requires i < |tokens| && tokens[i].kind == StringLit
    ensures found == IdEquality(tokens, i)
  {
    if IsPunct(tokens, i - 1, "=") {
      var tail := ReadTailEndingAt(tokens, i - 2);
      if tail == Some("userId") {
        return true;
      }
    }
    if IsPunct(tokens, i + 1, "=") {
      var tail := ReadTail(tokens, i + 2);
      return tail == Some("userId");
    }
    return false;
  }

  predicate Carries(tokens: seq<Token>, i: nat, group: bool) { if group then IdGroup(tokens, i) else IdParty(tokens, i) }

  /** Which tokens carry an id of a group, or of a party, by the offset each starts
      at. */
  ghost predicate Marks(ids: map<nat, string>, tokens: seq<Token>, n: nat, group: bool) {
    && n <= |tokens|
    && (forall i :: 0 <= i < n && Carries(tokens, i, group) ==> tokens[i].start in ids && ids[tokens[i].start] == Unquoted(tokens[i].text))
    && (forall at :: at in ids ==> exists i :: 0 <= i < n && Carries(tokens, i, group) && tokens[i].start == at)
  }

  lemma MarkOne(ids: map<nat, string>, tokens: seq<Token>, n: nat, group: bool, found: bool)
    requires Marks(ids, tokens, n, group) && n < |tokens| && found == Carries(tokens, n, group)
    requires forall i :: 0 <= i < n ==> tokens[i].start != tokens[n].start
    ensures Marks(if found then ids[tokens[n].start := Unquoted(tokens[n].text)] else ids, tokens, n + 1, group)
  {
    hide Carries, Unquoted;
    var after := if found then ids[tokens[n].start := Unquoted(tokens[n].text)] else ids;
    forall at | at in after
      ensures exists i :: 0 <= i < n + 1 && Carries(tokens, i, group) && tokens[i].start == at
    {
      if at in ids {
        var i :| 0 <= i < n && Carries(tokens, i, group) && tokens[i].start == at;
      } else {
        assert Carries(tokens, n, group) && tokens[n].start == at;
      }
    }
  }

  ghost predicate Distinct(tokens: seq<Token>) { forall j, k :: 0 <= j < k < |tokens| ==> tokens[j].start != tokens[k].start }

  method FindPartyIds(tokens: seq<Token>) returns (ids: map<nat, string>)
    requires Distinct(tokens)
    ensures Marks(ids, tokens, |tokens|, false)
  {
    ids := map[];
    for i := 0 to |tokens|
      invariant Marks(ids, tokens, i, false)
    {
      var found := IdAttribute(tokens, i);
      if !found && tokens[i].kind == StringLit {
        found := IsEquality(tokens, i);
      }
      MarkOne(ids, tokens, i, false, found);
      if found {
        ids := ids[tokens[i].start := Unquoted(tokens[i].text)];
      }
    }
  }

  method FindGroupIds(tokens: seq<Token>) returns (ids: map<nat, string>)
    requires Distinct(tokens)
    ensures Marks(ids, tokens, |tokens|, true)
  {
    ids := map[];
    for i := 0 to |tokens|
      invariant Marks(ids, tokens, i, true)
    {
      var found := false;
      if tokens[i].kind == StringLit && IsName(tokens, i + 1) && tokens[i + 1].text == "in" {
        var tail := ReadTail(tokens, i + 2);
        found := tail == Some("groups");
      }
      MarkOne(ids, tokens, i, true, found);
      if found {
        ids := ids[tokens[i].start := Unquoted(tokens[i].text)];
      }
    }
  }

  // ----- Pieces -----

  datatype Styled = Styled(text: string, className: Option<string>, annotation: Option<string>)

  function ClassOf(token: Token): Option<string> {
    match token.kind
    case StringLit => Some("text-bart-string")
    case Number => Some("text-bart-number")
    case Bool => Some("text-bart-bool")
    case Name =>
      if token.text in ["me", "requester", "any", "all"] then Some("text-bart-participant")
      else if token.text in ["and", "or", "not", "in"] then Some("text-bart-operator")
      else if token.text in ["party", "rules", "resource", "condition", "exchange", "to", "from"] then Some("text-bart-key")
      else None
    case _ => None
  }

  /** Literals are coloured by their kind, and names just when the language reserves them; no word that a rule
      uses for a participant is coloured as an operator or a key. */
  lemma ClassExact(token: Token)
    ensures token.kind == Name ==> (ClassOf(token).Some? <==> token.text in Attrs.BART_KEYWORDS - {"true", "false"})
    ensures token.kind != Name ==> (ClassOf(token).Some? <==> token.kind == StringLit || token.kind == Number || token.kind == Bool)
    ensures ClassOf(token) == Some("text-bart-string") <==> token.kind == StringLit
    ensures ClassOf(token) == Some("text-bart-number") <==> token.kind == Number
    ensures ClassOf(token) == Some("text-bart-bool") <==> token.kind == Bool
    ensures ClassOf(token) == Some("text-bart-participant") <==> token.kind == Name && token.text in {"me", "requester", "any", "all"}
    ensures ClassOf(token) == Some("text-bart-operator") <==> token.kind == Name && token.text in {"and", "or", "not", "in"}
  {
  }

  function Get(names: map<string, string>, id: string): Option<string> { if id in names then Some(names[id]) else None }

  /** An empty id or an empty name annotates nothing, as in the source neither is truthy. */
  function Annotation(party: Option<string>, group: Option<string>, names: map<string, string>, groupNames: map<string, string>): Option<string> {
    var name :=
      if party.Some? && party.value != "" then Get(names, party.value)
      else if group.Some? && group.value != "" then Get(groupNames, group.value)
      else None;
    if name == Some("") then None else name
  }

  function IdOf(tokens: seq<Token>, k: nat, marked: bool): Option<string>
    requires k < |tokens|
  {
    if marked then Some(Unquoted(tokens[k].text)) else None
  }

  /** The piece of token `k`: its class, and the name of the id that it alone carries. */
  function TokenPiece(tokens: seq<Token>, k: nat, names: map<string, string>, groupNames: map<string, string>): Styled
    requires k < |tokens|
  {
    Styled(tokens[k].text, ClassOf(tokens[k]),
           Annotation(IdOf(tokens, k, IdParty(tokens, k)), IdOf(tokens, k, IdGroup(tokens, k)), names, groupNames))
  }

  function Gap(source: string, from: nat, to: nat): seq<Styled> {
    if from < to <= |source| then [Styled(source[from..to], None, None)] else []
  }

  function CursorAt(tokens: seq<Token>, n: nat): nat
    requires n <= |tokens|
  {
    if n == 0 then 0 else tokens[n - 1].end
  }

  /** The pieces of the first `n` tokens and of what lies before and between them. */
  function PiecesTo(source: string, tokens: seq<Token>, n: nat, names: map<string, string>, groupNames: map<string, string>): seq<Styled>
    requires n <= |tokens|
  {
    if n == 0 then []
    else
      PiecesTo(source, tokens, n - 1, names, groupNames)
      + Gap(source, CursorAt(tokens, n - 1), tokens[n - 1].start) + [TokenPiece(tokens, n - 1, names, groupNames)]
  }

  function Pieces(source: string, names: map<string, string>, groupNames: map<string, string>): seq<Styled> {
    if source == "" then []
    else
      match LexSpec(source)
      case LexError(_, _) => [Styled(source, None, None)]
      case Lexed(tokens) =>
        if tokens == [] then []
        else
          var n := |tokens| - 1;
          PiecesTo(source, tokens, n, names, groupNames) + Gap(source, CursorAt(tokens, n), |source|)
  }

  function TextOf(pieces: seq<Styled>): string {
    if pieces == [] then "" else TextOf(pieces[..|pieces| - 1]) + pieces[|pieces| - 1].text
  }

  lemma TextMore(pieces: seq<Styled>, piece: Styled)
    ensures TextOf(pieces + [piece]) == TextOf(pieces) + piece.text
  {
    assert (pieces + [piece])[..|pieces|] == pieces;
  }

  lemma TextGap(pieces: seq<Styled>, source: string, from: nat, to: nat)
    requires from <= to <= |source|
    ensures TextOf(pieces + Gap(source, from, to)) == TextOf(pieces) + source[from..to]
  {
    if from < to {
      TextMore(pieces, Styled(source[from..to], None, None));
    } else {
      assert pieces + [] == pieces;
    }
  }

  /** Each token is the text between its offsets. */
  predicate Verbatim(tokens: seq<Token>, source: string) {
    forall k :: 0 <= k < |tokens| ==>
      tokens[k].start <= tokens[k].end <= |source| && tokens[k].text == source[tokens[k].start..tokens[k].end]
  }

  lemma {:induction false} TokensVerbatim(ps: seq<Lex.Piece>, before: string)
    ensures Verbatim(Tokens(ps, |before|), before + Flat(ps))
    decreases |ps|
  {
    if ps == [] {
    } else {
      var text := Text(ps[0]);
      TokensVerbatim(ps[1..], before + text);
      assert before + text + Flat(ps[1..]) == before + Flat(ps);
      assert (before + Flat(ps))[|before|..|before| + |text|] == text;
    }
  }

  lemma PiecesNext(source: string, tokens: seq<Token>, n: nat, names: map<string, string>, groupNames: map<string, string>)
    requires n < |tokens|
    ensures PiecesTo(source, tokens, n + 1, names, groupNames) ==
              PiecesTo(source, tokens, n, names, groupNames)
              + Gap(source, CursorAt(tokens, n), tokens[n].start) + [TokenPiece(tokens, n, names, groupNames)]
    ensures TokenPiece(tokens, n, names, groupNames).text == tokens[n].text
    ensures CursorAt(tokens, n + 1) == tokens[n].end
  {
    hide IdParty, IdGroup, Annotation, ClassOf, Gap;
  }

  lemma NoPieces(source: string, tokens: seq<Token>, names: map<string, string>, groupNames: map<string, string>)
    ensures PiecesTo(source, tokens, 0, names, groupNames) == [] && CursorAt(tokens, 0) == 0 && TextOf([]) == ""
  {
  }

  /** The first `n` tokens stand in the text one after another, each as the text has it. */
  ghost predicate Laid(tokens: seq<Token>, n: nat, source: string) {
    && n <= |tokens|
    && (forall k :: 0 <= k < n ==> tokens[k].start <= tokens[k].end <= |source| && tokens[k].text == source[tokens[k].start..tokens[k].end])
    && (forall k :: 0 <= k < n ==> CursorAt(tokens, k) <= tokens[k].start)
  }

  lemma LaidNext(tokens: seq<Token>, n: nat, source: string)
    requires Laid(tokens, n + 1, source)
    ensures Laid(tokens, n, source)
    ensures CursorAt(tokens, n) <= tokens[n].start <= tokens[n].end <= |source| && tokens[n].text == source[tokens[n].start..tokens[n].end]
  {
  }

  lemma {:induction false} PiecesText(source: string, tokens: seq<Token>, n: nat, names: map<string, string>, groupNames: map<string, string>)
    requires Laid(tokens, n, source)
    ensures n <= |tokens| && CursorAt(tokens, n) <= |source|
    ensures TextOf(PiecesTo(source, tokens, n, names, groupNames)) == source[..CursorAt(tokens, n)]
  {
    hide TextOf, PiecesTo, TokenPiece, Gap;
    if n > 0 {
      var m: nat := n - 1;
      LaidNext(tokens, m, source);
      PiecesText(source, tokens, m, names, groupNames);
      PiecesNext(source, tokens, m, names, groupNames);
      var t := tokens[m];
      var pieces := PiecesTo(source, tokens, m, names, groupNames);
      var from := CursorAt(tokens, m);
      TextGap(pieces, source, from, t.start);
      TextMore(pieces + Gap(source, from, t.start), TokenPiece(tokens, m, names, groupNames));
      Joined(source, from, t.start, t.end);
    } else {
      NoPieces(source, tokens, names, groupNames);
    }
  }

  lemma Joined(source: string, a: nat, b: nat, c: nat)
    requires a <= b <= c <= |source|
    ensures source[..a] + source[a..b] + source[b..c] == source[..c]
  {
  }

  lemma LexedPlaced(source: string)
    requires LexSpec(source).Lexed?
    ensures var tokens := LexSpec(source).tokens;
            tokens != [] && Laid(tokens, |tokens| - 1, source) && Distinct(tokens)
  {
    hide Chop, Munched, Tokens, Flat, Laid, Distinct, Placed, Verbatim;
    var ps := Chop(source, 0).pieces;
    LexIsMaximalMunch(source, ps);
    TokensPlaced(ps, 0);
    TokensVerbatim(ps, "");
    assert "" + Flat(ps) == Flat(ps);
    PlacedLaid(Tokens(ps, 0), source);
  }

  lemma PlacedLaid(ts: seq<Token>, source: string)
    requires Placed(ts, 0, |source|) && Verbatim(ts, source)
    ensures var tokens := ts + [EofToken(|source|)]; Laid(tokens, |ts|, source) && Distinct(tokens)
  {
    var tokens := ts + [EofToken(|source|)];
    forall j, k | 0 <= j < k < |tokens|
      ensures tokens[j].start != tokens[k].start
    {
      assert tokens[j] == ts[j];
    }
  }

  /** For every text, the pieces put together are the text. */
  lemma HighlightLosesNothing(source: string, names: map<string, string>, groupNames: map<string, string>)
    ensures TextOf(Pieces(source, names, groupNames)) == source
  {
    hide LexSpec, PiecesTo, TextOf, Laid, Distinct, Gap;
    NoPieces(source, [], names, groupNames);
    if source != "" {
      match LexSpec(source)
      case LexError(_, _) =>
        TextMore([], Styled(source, None, None));
        assert [] + [Styled(source, None, None)] == [Styled(source, None, None)];
      case Lexed(tokens) =>
        LexedPlaced(source);
        var n := |tokens| - 1;
        PiecesText(source, tokens, n, names, groupNames);
        TextGap(PiecesTo(source, tokens, n, names, groupNames), source, CursorAt(tokens, n), |source|);
        assert source[..CursorAt(tokens, n)] + source[CursorAt(tokens, n)..] == source;
    }
  }

  /** Looking an id up by the offset of a token finds the id of that token. */
  lemma LookUp(ids: map<nat, string>, tokens: seq<Token>, k: nat, group: bool)
    requires Marks(ids, tokens, |tokens|, group) && Distinct(tokens) && k < |tokens|
    ensures (if tokens[k].start in ids then Some(ids[tokens[k].start]) else None) == IdOf(tokens, k, Carries(tokens, k, group))
  {
    hide IdParty, IdGroup;
  }

  method Highlight(source: string, names: map<string, string>, groupNames: map<string, string>) returns (pieces: seq<Styled>)
    ensures pieces == Pieces(source, names, groupNames)
  {
    hide LexSpec, PiecesTo, Laid, Distinct, Marks, IdParty, IdGroup, Annotation, ClassOf;
    if source == "" {
      return [];
    }
    var lexed := LexSpec(source);
    match lexed
    case LexError(_, _) =>
      return [Styled(source, None, None)];
    case Lexed(tokens) =>
      LexedPlaced(source);
      var partyIds := FindPartyIds(tokens);
      var groupIds := FindGroupIds(tokens);
      pieces := [];
      var cursor := 0;
      NoPieces(source, tokens, names, groupNames);
      for k := 0 to |tokens| - 1
        invariant cursor == CursorAt(tokens, k) && Laid(tokens, |tokens| - 1, source)
        invariant pieces == PiecesTo(source, tokens, k, names, groupNames)
      {
        var token := tokens[k];
        TokenLaid(tokens, |tokens| - 1, k, source);
        pieces := pieces + (if token.start > cursor then [Styled(source[cursor..token.start], None, None)] else []);
        LookUp(partyIds, tokens, k, false);
        LookUp(groupIds, tokens, k, true);
        var party := if token.start in partyIds then Some(partyIds[token.start]) else None;
        var group := if token.start in groupIds then Some(groupIds[token.start]) else None;
        pieces := pieces + [Styled(token.text, ClassOf(token), Annotation(party, group, names, groupNames))];
        PiecesNext(source, tokens, k, names, groupNames);
        cursor := token.end;
      }
      pieces := pieces + (if cursor < |source| then [Styled(source[cursor..], None, None)] else []);
      assert cursor <= |source| ==> source[cursor..] == source[cursor..|source|];
  }

  lemma TokenLaid(tokens: seq<Token>, n: nat, k: nat, source: string)
    requires Laid(tokens, n, source) && k < n
    ensures tokens[k].start <= |source|
  {
  }
}
