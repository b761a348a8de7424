/** The forms of exchanges, conditions and whole rules, as facts about where their tokens stand, without a
    parser; and the parser of app/frontend/src/lib/bart/parse.ts held to them on every text. */
module RuleForms {
  import opened Lex
  import opened Attrs
  import opened Rule
  import opened Parse
  import opened Meaning
  import opened Trims
  import opened Forms

  // ----- Exchanges -----

  /** The tokens from `i` up to `j` are those of the derivation. */
  ghost predicate Derives(js: string -> bool, ts: seq<Token>, i: nat, e: Expr, j: nat)
    decreases e
  {
    match e
    case Single(term) => TermAt(js, ts, i, term, j) && i + 1 < |ts| && ts[i + 1].kind == Name
    case Paren(inner) => WordAt(ts, i, "(") && j > 0 && Derives(js, ts, i + 1, inner, j - 1) && WordAt(ts, j - 1, ")")
    case AndX(left, right) => exists k: nat :: Derives(js, ts, i, left, k) && WordAt(ts, k, "and") && Derives(js, ts, k + 1, right, j)
    case OrX(left, right) => exists k: nat :: Derives(js, ts, i, left, k) && WordAt(ts, k, "or") && Derives(js, ts, k + 1, right, j)
  }

  /** The longest derivation there, in which `and` binds tighter than `or`, and its tree. */
  ghost predicate ExchangeAt(js: string -> bool, ts: seq<Token>, i: nat, node: Node, j: nat) {
    && !WordAt(ts, j, "and") && !WordAt(ts, j, "or")
    && exists e :: IsOr(e) && Derives(js, ts, i, e, j) && NodeOf(e) == node
  }

  lemma {:induction false} DerivesEnd(js: string -> bool, ts: seq<Token>, i: nat, e: Expr, j: nat)
    requires Tape(ts) && i < |ts|
    ensures End(js, ts, i, e) == Some(j) <==> Derives(js, ts, i, e, j)
    decreases e, 1
  {
    hide TermAt, Tape, ParseTerm;
    match e
    case Single(term) => SingleEnd(js, ts, i, term, j);
    case Paren(inner) =>
      if WordAt(ts, i, "(") {
        WordThen(ts, i, "(");
        var r := End(js, ts, i + 1, inner);
        if r.Some? {
          DerivesEnd(js, ts, i + 1, inner, r.value);
        }
        if j > 0 {
          DerivesEnd(js, ts, i + 1, inner, j - 1);
        }
      }
    case AndX(left, right) => BothEnd(js, ts, i, e, left, "and", right, j);
    case OrX(left, right) => BothEnd(js, ts, i, e, left, "or", right, j);
  }

  lemma SingleEnd(js: string -> bool, ts: seq<Token>, i: nat, term: ExchangeTerm, j: nat)
    requires Tape(ts) && i < |ts|
    ensures End(js, ts, i, Single(term)) == Some(j) <==> Derives(js, ts, i, Single(term), j)
  {
    hide ParseTerm, TermAt;
    if ParseTerm(js, ts, i).Done? {
      TermSound(js, ts, i);
    }
    if TermAt(js, ts, i, term, j) {
      TermComplete(js, ts, i, term, j);
      TermOpens(js, ts, i, term, j);
    }
    if End(js, ts, i, Single(term)) == Some(j) {
      TermOpens(js, ts, i, term, j);
    }
  }

  lemma TermOpens(js: string -> bool, ts: seq<Token>, i: nat, term: ExchangeTerm, j: nat)
    requires TermAt(js, ts, i, term, j)
    ensures WordAt(ts, i, "(") && WordAt(ts, i + 1, "to")
  {
    hide ParticipantAt, AttributesAt;
  }

  lemma BothEnd(js: string -> bool, ts: seq<Token>, i: nat, e: Expr, left: Expr, connector: string, right: Expr, j: nat)
    requires Tape(ts) && i < |ts| && (e == AndX(left, right) || e == OrX(left, right))
    ensures EndBoth(js, ts, End(js, ts, i, left), connector, right) == Some(j) <==>
            exists k: nat :: Derives(js, ts, i, left, k) && WordAt(ts, k, connector) && Derives(js, ts, k + 1, right, j)
    decreases e, 0
  {
    hide End, Derives, Tape;
    var r := End(js, ts, i, left);
    forall k: nat
      ensures r == Some(k) <==> Derives(js, ts, i, left, k)
    {
      DerivesEnd(js, ts, i, left, k);
    }
    if r.Some? && WordAt(ts, r.value, connector) {
      WordThen(ts, r.value, connector);
      DerivesEnd(js, ts, r.value + 1, right, j);
    }
  }

  lemma {:induction false} MoreAndsEnd(js: string -> bool, ts: seq<Token>, i: nat)
    requires Tape(ts) && i < |ts| && MoreAnds(js, ts, i).Done?
    ensures !At(ts, MoreAnds(js, ts, i).next, "and")
    decreases |ts| - i
  {
    hide ParsePrimary, Tape;
    if At(ts, i, "and") {
      MoreAndsEnd(js, ts, ParsePrimary(js, ts, i + 1).next);
    }
  }

  lemma {:induction false} MoreOrsEnd(js: string -> bool, ts: seq<Token>, i: nat)
    requires Tape(ts) && i < |ts| && !At(ts, i, "and") && MoreOrs(js, ts, i).Done?
    ensures Follows(ts, MoreOrs(js, ts, i).next)
    decreases |ts| - i
  {
    hide ParsePrimary, MoreAnds, GroupNode, Tape;
    if At(ts, i, "or") {
      var x := ParseAnd(js, ts, i + 1);
      MoreAndsEnd(js, ts, ParsePrimary(js, ts, i + 1).next);
      MoreOrsEnd(js, ts, x.next);
    }
  }

  lemma OrEnd(js: string -> bool, ts: seq<Token>, i: nat)
    requires Tape(ts) && i < |ts| && ParseOr(js, ts, i).Done?
    ensures Follows(ts, ParseOr(js, ts, i).next)
  {
    hide ParsePrimary, MoreAnds, MoreOrs, GroupNode, Tape;
    MoreAndsEnd(js, ts, ParsePrimary(js, ts, i).next);
    MoreOrsEnd(js, ts, ParseAnd(js, ts, i).next);
  }

  lemma ExchangeExact(js: string -> bool, ts: seq<Token>, i: nat, node: Node, j: nat)
    requires Tape(ts) && i < |ts|
    ensures ParseOr(js, ts, i) == Done(node, j) <==> ExchangeAt(js, ts, i, node, j)
  {
    hide ParseOr, End, Derives, IsOr, NodeOf, Tape, Eval;
    if ParseOr(js, ts, i) == Done(node, j) {
      var e := OrSound(js, ts, i);
      OrEnd(js, ts, i);
      OrParsed(js, ts, i, e);
      DerivesEnd(js, ts, i, e, j);
    }
    if ExchangeAt(js, ts, i, node, j) {
      var e :| IsOr(e) && Derives(js, ts, i, e, j) && NodeOf(e) == node;
      DerivesEnd(js, ts, i, e, j);
      OrParsed(js, ts, i, e);
    }
  }

  // ----- Conditions -----

  predicate IsPunct(t: Token, text: string) { t.kind == Punct && t.text == text }

  /** How many of the parentheses and braces opened from `i` on are still open at `k`. */
  function Balance(ts: seq<Token>, i: nat, k: nat): int
    requires i <= k <= |ts|
  {
    if k == i then 0
    else
      var t := ts[k - 1];
      Balance(ts, i, k - 1) +
      (if IsPunct(t, "(") || IsPunct(t, "{") then 1 else if IsPunct(t, ")") || IsPunct(t, "}") then -1 else 0)
  }

  /** Token `k` is a comma or a closing parenthesis outside all that was opened from `i` on. */
  predicate OuterEnd(ts: seq<Token>, i: nat, k: nat)
    requires i <= k
  {
    k < |ts| && (IsPunct(ts[k], ",") || IsPunct(ts[k], ")")) && Balance(ts, i, k) == 0
  }

  /** A span from `i` ends at the first such token. */
  predicate SpanAt(ts: seq<Token>, i: nat, j: nat) {
    i <= j && OuterEnd(ts, i, j) && forall k :: i <= k < j ==> !OuterEnd(ts, i, k)
  }

  /** How many parentheses are open before token `k`, braces aside. */
  function ParensOpen(ts: seq<Token>, k: nat): int
    requires k <= |ts|
  {
    if k == 0 then 0
    else ParensOpen(ts, k - 1) + (if IsPunct(ts[k - 1], "(") then 1 else if IsPunct(ts[k - 1], ")") then -1 else 0)
  }

  /** One pair of parentheses encloses the whole text: none that closes leaves all closed before the end. */
  ghost predicate Enclosed(text: string) {
    && text != "" && text[0] == '(' && text[|text| - 1] == ')' && LexSpec(text).Lexed?
    && var ts := LexSpec(text).tokens;
       forall k :: 0 <= k < |ts| && IsPunct(ts[k], ")") && ParensOpen(ts, k + 1) == 0 ==> ts[k].end == |text|
  }

  /** The condition is the text of the span, trimmed, which must not be empty; and less one pair of
      parentheses, trimmed again, if one encloses it all. */
  ghost predicate ConditionAt(ts: seq<Token>, i: nat, source: string, condition: string, j: nat) {
    && SpanAt(ts, i, j)
    && exists text ::
         && text != "" && Trimmed(if i == j then "" else Slice(source, ts[i].start, ts[j - 1].end), text)
         && if Enclosed(text) then Trimmed(text[1..|text| - 1], condition) else condition == text
  }

  lemma {:induction false} SpanFrom(ts: seq<Token>, i: nat, k: nat, j: nat)
    requires Tape(ts) && i <= k < |ts| && forall m :: i <= m < k ==> !OuterEnd(ts, i, m)
    ensures SpanEnd(ts, k, Balance(ts, i, k)) == Some(j) <==> SpanAt(ts, i, j)
    decreases |ts| - k
  {
    if ts[k].kind == Eof {
      assert SpanAt(ts, i, j) ==> j == k;
    } else if OuterEnd(ts, i, k) {
      assert SpanAt(ts, i, j) ==> j == k;
    } else {
      assert Balance(ts, i, k + 1) == DepthAfter(Bare(ts[k]), Balance(ts, i, k));
      SpanFrom(ts, i, k + 1, j);
    }
  }

  lemma SpanExact(ts: seq<Token>, i: nat, j: nat)
    requires Tape(ts) && i < |ts|
    ensures SpanEnd(ts, i, 0) == Some(j) <==> SpanAt(ts, i, j)
  {
    SpanFrom(ts, i, i, j);
  }

  lemma {:induction false} WrapsFrom(ts: seq<Token>, k: nat, length: nat)
    requires k <= |ts| && forall m :: 0 <= m < |ts| - 1 ==> ts[m].kind != Eof
    ensures Wraps(ts, k, ParensOpen(ts, k), length) <==>
            forall m :: k <= m < |ts| && IsPunct(ts[m], ")") && ParensOpen(ts, m + 1) == 0 ==> ts[m].end == length
    decreases |ts| - k
  {
    if k < |ts| && ts[k].kind != Eof {
      WrapsFrom(ts, k + 1, length);
    }
  }

  lemma StripExact(text: string, condition: string)
    requires text != ""
    ensures StripOuterParens(text) == condition <==>
            if Enclosed(text) then Trimmed(text[1..|text| - 1], condition) else condition == text
  {
    hide LexSpec, Trimmed, Trim, Wraps;
    if text[0] == '(' && text[|text| - 1] == ')' && LexSpec(text).Lexed? {
      var ts := LexSpec(text).tokens;
      LexedIsTape(text);
      WrapsFrom(ts, 0, |text|);
      TrimExact(text[1..|text| - 1], condition);
    }
  }

  lemma ConditionExact(ts: seq<Token>, i: nat, source: string, condition: string, j: nat)
    requires Tape(ts) && i < |ts|
    ensures ParseConditionSpan(ts, i, source) == Done(condition, j) <==> ConditionAt(ts, i, source, condition, j)
  {
    hide SpanEnd, SpanAt, StripOuterParens, Trim, Trimmed, Enclosed, Tape;
    SpanExact(ts, i, j);
    var end := SpanEnd(ts, i, 0);
    if end == Some(j) {
      var span := if i == j then "" else Slice(source, ts[i].start, ts[j - 1].end);
      EmptySlice(source, ts[i].start);
      var text := Trim(span);
      TrimExact(span, text);
      forall t
        ensures Trimmed(span, t) <==> t == text
      {
        TrimExact(span, t);
      }
      if text != "" {
        StripExact(text, condition);
      }
    }
  }

  lemma EmptySlice(source: string, at: nat)
    ensures Slice(source, at, at) == ""
  {
  }

  // ----- Rules -----

  /** The clause, if there is one, after a comma and its key. */
  ghost predicate ConditionClause(ts: seq<Token>, i: nat, source: string, condition: Option<string>, j: nat) {
    if condition.None? then j == i
    else WordAt(ts, i, ",") && KeyAt(ts, i + 1, "condition") && ConditionAt(ts, i + 3, source, condition.value, j)
  }

  ghost predicate ExchangeClause(js: string -> bool, ts: seq<Token>, i: nat, exchange: Option<Node>, j: nat) {
    if exchange.None? then j == i
    else WordAt(ts, i, ",") && KeyAt(ts, i + 1, "exchange") && ExchangeAt(js, ts, i + 3, exchange.value, j)
  }

  /** The whole tape: the resource ends at `k`, the condition at `l` and the exchange at `m`. */
  ghost predicate RuleParts(js: string -> bool, ts: seq<Token>, source: string, tree: RuleTree, k: nat, l: nat, m: nat) {
    && WordAt(ts, 0, "(") && KeyAt(ts, 1, "resource") && AttributesAt(js, ts, 3, tree.resource, k) && tree.resource != []
    && ConditionClause(ts, k, source, tree.condition, l)
    && ExchangeClause(js, ts, l, tree.exchange, m)
    && WordAt(ts, m, ")") && m + 2 == |ts|
  }

  ghost predicate IsRule(js: string -> bool, ts: seq<Token>, source: string, tree: RuleTree) {
    exists k: nat, l: nat, m: nat :: RuleParts(js, ts, source, tree, k, l, m)
  }

  lemma NoClauseAfterExchange(js: string -> bool, ts: seq<Token>, i: nat, source: string, tail: Tail, t: Tail, j: nat)
    requires Tape(ts) && i < |ts| && tail.1.Some?
    ensures MoreClauses(js, ts, i, source, tail) == Done(t, j) <==> t == tail && j == i && !WordAt(ts, i, ",")
  {
    hide ParseOr, ParseConditionSpan, Tape;
    if At(ts, i, ",") {
      WordThen(ts, i, ",");
    }
  }

  /** What may follow the condition, or the resource. */
  lemma ExchangeClauseExact(js: string -> bool, ts: seq<Token>, i: nat, source: string, tail: Tail, t: Tail, j: nat)
    requires Tape(ts) && i < |ts| && tail.1.None? && (tail.0.Some? || !(At(ts, i, ",") && WordAt(ts, i + 1, "condition")))
    ensures MoreClauses(js, ts, i, source, tail) == Done(t, j) <==>
            t.0 == tail.0 && ExchangeClause(js, ts, i, t.1, j) && !WordAt(ts, j, ",")
  {
    hide ParseOr, ParseConditionSpan, Tape, ExchangeAt, MoreClauses;
    ClausesUnfold(js, ts, i, source, tail);
    if At(ts, i, ",") {
      WordThen(ts, i, ",");
      KeyThen(ts, i + 1, "exchange");
      if KeyAt(ts, i + 1, "exchange") {
        var r := ParseOr(js, ts, i + 3);
        if r.Done? {
          ExchangeExact(js, ts, i + 3, r.value, r.next);
          NoClauseAfterExchange(js, ts, r.next, source, (tail.0, Some(r.value)), t, j);
        }
        if t.1.Some? {
          ExchangeExact(js, ts, i + 3, t.1.value, j);
        }
      }
    }
  }

  lemma ClausesUnfold(js: string -> bool, ts: seq<Token>, i: nat, source: string, tail: Tail)
    requires Tape(ts) && i < |ts| && tail.1.None?
    ensures var r := MoreClauses(js, ts, i, source, tail);
            if !At(ts, i, ",") then r == Done(tail, i)
            else if At(ts, i + 1, "condition") then
              if tail.0.Some? || !KeyAt(ts, i + 1, "condition") then r.Failed?
              else
                var c := ParseConditionSpan(ts, i + 3, source);
                if c.Failed? then r.Failed? else r == MoreClauses(js, ts, c.next, source, (Some(c.value), tail.1))
            else if KeyAt(ts, i + 1, "exchange") then
              var e := ParseOr(js, ts, i + 3);
              if e.Failed? then r.Failed? else r == MoreClauses(js, ts, e.next, source, (tail.0, Some(e.value)))
            else r.Failed?
  {
    hide ParseOr, ParseConditionSpan, Tape;
    if At(ts, i, ",") {
      WordThen(ts, i, ",");
      KeyThen(ts, i + 1, "condition");
      KeyThen(ts, i + 1, "exchange");
    }
  }

  lemma ClausesExact(js: string -> bool, ts: seq<Token>, i: nat, source: string, t: Tail, j: nat)
    requires Tape(ts) && i < |ts|
    ensures MoreClauses(js, ts, i, source, (None, None)) == Done(t, j) <==>
            exists l: nat :: ConditionClause(ts, i, source, t.0, l) && ExchangeClause(js, ts, l, t.1, j) && !WordAt(ts, j, ",")
  {
    hide ParseOr, ParseConditionSpan, Tape, ExchangeClause, ConditionAt, MoreClauses;
    if At(ts, i, ",") && WordAt(ts, i + 1, "condition") {
      ConditionFirst(js, ts, i, source, t, j);
    } else {
      ExchangeClauseExact(js, ts, i, source, (None, None), t, j);
    }
  }

  lemma ConditionFirst(js: string -> bool, ts: seq<Token>, i: nat, source: string, t: Tail, j: nat)
    requires Tape(ts) && i < |ts| && At(ts, i, ",") && WordAt(ts, i + 1, "condition")
    ensures MoreClauses(js, ts, i, source, (None, None)) == Done(t, j) <==>
            exists l: nat :: ConditionClause(ts, i, source, t.0, l) && ExchangeClause(js, ts, l, t.1, j) && !WordAt(ts, j, ",")
  {
    hide ParseOr, ParseConditionSpan, Tape, ExchangeAt, ConditionAt, MoreClauses;
    ClausesUnfold(js, ts, i, source, (None, None));
    KeyThen(ts, i + 1, "condition");
    var clauses := MoreClauses(js, ts, i, source, (None, None));
    if clauses == Done(t, j) {
      var c := ParseConditionSpan(ts, i + 3, source);
      ConditionExact(ts, i + 3, source, c.value, c.next);
      ExchangeClauseExact(js, ts, c.next, source, (Some(c.value), None), t, j);
      assert ConditionClause(ts, i, source, t.0, c.next);
    }
    if l: nat :| ConditionClause(ts, i, source, t.0, l) && ExchangeClause(js, ts, l, t.1, j) && !WordAt(ts, j, ",") {
      assert t.0.Some?;
      ConditionExact(ts, i + 3, source, t.0.value, l);
      ExchangeClauseExact(js, ts, l, source, (t.0, None), t, j);
    }
  }

  /** The parser accepts a tape exactly if it is a rule from end to end, and returns that rule. */
  lemma RuleExact(js: string -> bool, ts: seq<Token>, source: string, tree: RuleTree)
    requires Tape(ts)
    ensures (ParseRuleAt(js, ts, source).Done? && ParseRuleAt(js, ts, source).value == tree) <==> IsRule(js, ts, source, tree)
  {
    hide ParseAttributes, ParseRuleAt, MoreClauses, AttributesAt, ConditionClause, ExchangeClause, Tape;
    RuleUnfold(js, ts, source);
    KeyThen(ts, 1, "resource");
    if ParseRuleAt(js, ts, source).Done? {
      var r := ParseAttributes(js, ts, 3, true);
      AttributesExact(js, ts, 3, true, r.value, r.next);
      var c := MoreClauses(js, ts, r.next, source, (None, None));
      ClausesExact(js, ts, r.next, source, c.value, c.next);
      var l: nat :| ConditionClause(ts, r.next, source, c.value.0, l) && ExchangeClause(js, ts, l, c.value.1, c.next);
      assert RuleParts(js, ts, source, ParseRuleAt(js, ts, source).value, r.next, l, c.next);
    }
    if IsRule(js, ts, source, tree) {
      RuleComplete(js, ts, source, tree);
    }
  }

  lemma RuleComplete(js: string -> bool, ts: seq<Token>, source: string, tree: RuleTree)
    requires Tape(ts) && 3 < |ts| && IsRule(js, ts, source, tree)
    ensures ParseAttributes(js, ts, 3, true).Done? && ParseAttributes(js, ts, 3, true).value == tree.resource
    ensures exists m: nat :: WordAt(ts, m, ")") && m + 2 == |ts| &&
              MoreClauses(js, ts, ParseAttributes(js, ts, 3, true).next, source, (None, None)) == Done((tree.condition, tree.exchange), m)
  {
    hide ParseAttributes, MoreClauses, AttributesAt, ConditionClause, ExchangeClause, Tape;
    var k: nat, l: nat, m: nat :| RuleParts(js, ts, source, tree, k, l, m);
    AttributesExact(js, ts, 3, true, tree.resource, k);
    ClausesExact(js, ts, k, source, (tree.condition, tree.exchange), m);
  }

  lemma RuleUnfold(js: string -> bool, ts: seq<Token>, source: string)
    requires Tape(ts)
    ensures var r := ParseRuleAt(js, ts, source);
            if !(WordAt(ts, 0, "(") && KeyAt(ts, 1, "resource")) then r.Failed?
            else
              var a := ParseAttributes(js, ts, 3, true);
              if a.Failed? then r.Failed?
              else
                var c := MoreClauses(js, ts, a.next, source, (None, None));
                if c.Failed? || !WordAt(ts, c.next, ")") || c.next + 2 != |ts| then r.Failed?
                else r == Done(RuleTree(a.value, c.value.0, c.value.1), c.next + 1)
  {
    hide ParseAttributes, MoreClauses;
    if WordAt(ts, 0, "(") {
      WordThen(ts, 0, "(");
      KeyThen(ts, 1, "resource");
    }
  }

  /** The text lexes, and its tokens are those of the rule. */
  ghost predicate Denotes(js: string -> bool, source: string, tree: RuleTree) {
    && LexSpec(source).Lexed?
    && IsRule(js, LexSpec(source).tokens, source, tree)
  }

  /** The parser accepts exactly the texts of rules, and returns the rule. */
  lemma ParseExact(js: string -> bool, source: string, tree: RuleTree)
    ensures ParseTree(js, source) == Ok(tree) <==> Denotes(js, source, tree)
  {
    hide LexSpec, ParseRuleAt, IsRule, Tape;
    if LexSpec(source).Lexed? {
      LexedIsTape(source);
      RuleExact(js, LexSpec(source).tokens, source, tree);
    }
  }
}
