/** Printing a rule and parsing the text gives the rule back, at every width, exactly when its
    condition is good (parse.ts `parseTreeCore` after rule.ts `printTree`). */
module TreeRoundTrip {
  import opened Lex
  import opened Munch
  import opened Spelling
  import opened Attrs
  import opened Rule
  import opened Parse
  import opened Positions
  import opened RoundTrip
  import opened Condition
  import opened Exact

  /** What the grammar asks of a rule, its condition apart. */
  predicate ReadableTree(js: string -> bool, tree: RuleTree) {
    && tree.resource != [] && Readable(js, tree.resource)
    && (tree.exchange.Some? ==> Normal(tree.exchange.value) && ReadableNode(js, tree.exchange.value))
  }

  lemma {:induction false} ReadableNodeIsWritable(js: string -> bool, node: Node)
    requires Normal(node) && ReadableNode(js, node)
    ensures WritableNode(node)
    decreases node
  {
    match node
    case Term(_) =>
    case Group(_, children) =>
      forall child | child in children
        ensures WritableNode(child)
      {
        ReadableNodeIsWritable(js, child);
      }
  }

  lemma ReadableTreeIsWritable(js: string -> bool, tree: RuleTree)
    requires ReadableTree(js, tree)
    ensures WritableTree(tree)
  {
    hide Readable, Normal, ReadableNode, WritableNode, Writable;
    ReadableIsWritable(js, tree.resource);
    if tree.exchange.Some? {
      ReadableNodeIsWritable(js, tree.exchange.value);
    }
  }

  // ----- The clauses of a text, one by one -----

  function HeadLex(resource: Attrs): seq<Lexeme> { [P("(")] + ClauseLex("resource", AttrsLex(resource)) }

  function ConditionKeyLex(): seq<Lexeme> { [P(",")] + [N("condition"), P(":")] }

  function ExchangeTailLex(exchange: Option<Node>): seq<Lexeme> {
    if exchange.Some? then [P(",")] + ClauseLex("exchange", NodeLex(exchange.value)) else []
  }

  predicate HasCondition(tree: RuleTree) { tree.condition.Some? && tree.condition.value != "" }

  lemma Join1(a: seq<Lexeme>, sep: seq<Lexeme>)
    ensures JoinLex([a], sep) == a
  {
  }

  lemma Join2(a: seq<Lexeme>, b: seq<Lexeme>, sep: seq<Lexeme>)
    ensures JoinLex([a, b], sep) == a + sep + b
  {
    assert [a, b][1..] == [b];
    Join1(b, sep);
  }

  /** The tokens of a text without a condition. */
  lemma TreeLexPlain(tree: RuleTree)
    requires !HasCondition(tree)
    ensures TreeLex(tree, []) == HeadLex(tree.resource) + (ExchangeTailLex(tree.exchange) + [P(")")])
  {
    hide JoinLex, NodeLex, AttrsLex;
    var resource := ClauseLex("resource", AttrsLex(tree.resource));
    if tree.exchange.Some? {
      var exchange := ClauseLex("exchange", NodeLex(tree.exchange.value));
      assert ClausesLex(tree, []) == [resource, exchange];
      Join2(resource, exchange, [P(",")]);
    } else {
      assert ClausesLex(tree, []) == [resource];
      Join1(resource, [P(",")]);
    }
  }

  lemma {:induction false} HeadBack(js: string -> bool, ts: seq<Token>, source: string, resource: Attrs)
    requires Tape(ts) && resource != [] && Readable(js, resource)
    requires Has(ts, 0, HeadLex(resource)) && NotAt(ts, |HeadLex(resource)|, "(")
    ensures var k := |HeadLex(resource)|;
            ParseRuleAt(js, ts, source) == Finish(ts, resource, MoreClauses(js, ts, k, source, (None, None)))
  {
    hide Readable, AttrsLex, ParseAttributes, MoreClauses, Has;
    HasSplit(ts, 0, [P("(")], ClauseLex("resource", AttrsLex(resource)));
    HasOne(ts, 0, P("("));
    KeyBack(ts, 1, "resource", AttrsLex(resource));
    ParseAttributesBack(js, ts, 3, resource, true);
  }

  lemma ExchangeTailBack(js: string -> bool, ts: seq<Token>, i: nat, source: string, condition: Option<string>, exchange: Option<Node>)
    requires Tape(ts) && Has(ts, i, ExchangeTailLex(exchange) + [P(")")])
    requires exchange.Some? ==> Normal(exchange.value) && ReadableNode(js, exchange.value)
    ensures var e := i + |ExchangeTailLex(exchange)|;
            i < |ts| && At(ts, e, ")") && e + 1 < |ts| && MoreClauses(js, ts, i, source, (condition, None)) == Done((condition, exchange), e)
  {
    hide Normal, ReadableNode, NodeLex, ParseOr, Has, ParseConditionSpan;
    HasSplit(ts, i, ExchangeTailLex(exchange), [P(")")]);
    var e := i + |ExchangeTailLex(exchange)|;
    HasOne(ts, e, P(")"));
    if exchange.Some? {
      var node := exchange.value;
      HasSplit(ts, i, [P(",")], ClauseLex("exchange", NodeLex(node)));
      HasOne(ts, i, P(","));
      KeyBack(ts, i + 1, "exchange", NodeLex(node));
      ExchangeBack(js, ts, i + 3, node);
      assert MoreClauses(js, ts, e, source, (condition, Some(node))) == Done((condition, Some(node)), e);
    }
  }

  lemma TailStarts(exchange: Option<Node>)
    ensures var lx := ExchangeTailLex(exchange) + [P(")")];
            EndsSpan(lx[0])
  {
  }

  lemma NotOpenAt(ts: seq<Token>, i: nat, lx: seq<Lexeme>)
    requires Has(ts, i, lx) && lx != [] && EndsSpan(lx[0])
    ensures NotAt(ts, i, "(")
  {
    HasFirst(ts, i, lx);
  }

  lemma EofAfter(ts: seq<Token>, i: nat)
    requires Tape(ts) && i == |ts| - 1
    ensures ts[i].kind == Eof
  {
  }

  // ----- Without a condition -----

  lemma PlainBack(js: string -> bool, source: string, tree: RuleTree)
    requires ReadableTree(js, tree) && !HasCondition(tree) && Spells(source, TreeLex(tree, []))
    ensures ParseTree(js, source) == Ok(tree.(condition := None))
  {
    hide *;
    SpellsTape(source, TreeLex(tree, []));
    var ts := LexSpec(source).tokens;
    PlainBackAt(js, ts, source, tree);
    ParsedTree(js, source);
  }

  /** The tape of a text that spells known tokens. */
  lemma SpellsTape(source: string, lx: seq<Lexeme>)
    requires Spells(source, lx)
    ensures LexSpec(source).Lexed?
    ensures var ts := LexSpec(source).tokens; Tape(ts) && |ts| == |lx| + 1 && Has(ts, 0, lx)
  {
    hide Chop, Munched, Flat, Lexemes, Tokens, Tape;
    LexedIsTape(source);
    SpellsLexed(source, lx);
    TokensLexemes(PiecesOf(source), 0);
  }

  lemma ParsedTree(js: string -> bool, source: string)
    requires LexSpec(source).Lexed? && Tape(LexSpec(source).tokens)
    ensures var parsed := ParseRuleAt(js, LexSpec(source).tokens, source);
            ParseTree(js, source) == if parsed.Failed? then Err(parsed.error) else Ok(parsed.value)
  {
    hide LexSpec, ParseRuleAt, Tape;
  }

  lemma PlainBackAt(js: string -> bool, ts: seq<Token>, source: string, tree: RuleTree)
    requires ReadableTree(js, tree) && !HasCondition(tree) && Tape(ts)
    requires |ts| == |TreeLex(tree, [])| + 1 && Has(ts, 0, TreeLex(tree, []))
    ensures ParseRuleAt(js, ts, source).Done? && ParseRuleAt(js, ts, source).value == tree.(condition := None)
  {
    hide Readable, Normal, ReadableNode, HeadLex, ExchangeTailLex, TreeLex, Has, MoreClauses, ParseRuleAt;
    var head, tail := HeadLex(tree.resource), ExchangeTailLex(tree.exchange) + [P(")")];
    TreeLexPlain(tree);
    HasSplit(ts, 0, head, tail);
    TailStarts(tree.exchange);
    NotOpenAt(ts, |head|, tail);
    HeadBack(js, ts, source, tree.resource);
    ExchangeTailBack(js, ts, |head|, source, None, tree.exchange);
    EofAfter(ts, |head| + |tail|);
  }

  // ----- With a condition -----

  /** The text before the printer's parentheses around the condition, and the text after them. */
  function Before(resource: string, sep: string): string { "(" + Clause("resource", resource) + sep + "condition:" }

  function After(exchange: Option<string>, sep: string): string {
    (if exchange.Some? then sep + Clause("exchange", exchange.value) else "") + ")"
  }

  lemma LayoutParts(tree: RuleTree, broken: bool)
    requires HasCondition(tree) && Layout(tree, broken).Ok?
    ensures RequireResource(tree.resource).Ok? && PrintExchange(tree.exchange, broken).Ok?
    ensures var sep := if broken then ",\n " else ", ";
            Layout(tree, broken).value ==
              Before(RequireResource(tree.resource).value, sep) + Wrapped(tree.condition.value)
              + After(PrintExchange(tree.exchange, broken).value, sep)
  {
    hide RequireResource, PrintExchange;
    var resource, exchange := RequireResource(tree.resource).value, PrintExchange(tree.exchange, broken).value;
    var sep := if broken then ",\n " else ", ";
    LayoutJoin(resource, tree.condition.value, exchange, sep);
  }

  lemma JoinText3(a: string, b: string, c: string, sep: string)
    ensures Join([a, b], sep) == a + sep + b && Join([a, b, c], sep) == a + sep + (b + sep + c)
  {
    assert [a, b][1..] == [b] && [a, b, c][1..] == [b, c] && [b, c][1..] == [c];
    assert Join([b], sep) == b && Join([c], sep) == c;
    assert Join([b, c], sep) == b + sep + Join([c], sep);
  }

  lemma LayoutJoin(resource: string, s: string, exchange: Option<string>, sep: string)
    requires s != ""
    ensures "(" + Join(Clauses(resource, Some(s), exchange), sep) + ")" ==
            Before(resource, sep) + Wrapped(s) + After(exchange, sep)
  {
    hide Join;
    var r, c := Clause("resource", resource), Clause("condition", "(" + s + ")");
    assert c == "condition:" + Wrapped(s);
    if exchange.Some? {
      var e := Clause("exchange", exchange.value);
      JoinText3(r, c, e, sep);
      assert Clauses(resource, Some(s), exchange) == [r, c, e];
    } else {
      JoinText3(r, c, "", sep);
      assert Clauses(resource, Some(s), exchange) == [r, c];
    }
  }

  lemma BeforeSpells(attrs: Attrs, sep: string)
    requires attrs != [] && Writable(attrs) && Separates(sep, [P(",")])
    ensures RequireResource(attrs).Ok?
    ensures var pre := Before(RequireResource(attrs).value, sep);
            Spells(pre, HeadLex(attrs) + ConditionKeyLex()) && pre != "" && Hard(pre[|pre| - 1])
  {
    hide Spells, EmitAttrs, AttrsLex, Writable;
    SpellsAttrs(attrs);
    var resource := EmitAttrs(attrs).value;
    var clause := Clause("resource", resource);
    SpellsClause("resource", resource, AttrsLex(attrs));
    SpellsHard('(');
    SpellsAppend("(", [P("(")], clause, ClauseLex("resource", AttrsLex(attrs)));
    SpellsAppend("(" + clause, HeadLex(attrs), sep, [P(",")]);
    ConditionKey();
    SpellsAppend("(" + clause + sep, HeadLex(attrs) + [P(",")], "condition:", [N("condition"), P(":")]);
    assert HeadLex(attrs) + [P(",")] + [N("condition"), P(":")] == HeadLex(attrs) + ConditionKeyLex();
  }

  lemma ConditionKey()
    ensures Spells("condition:", [N("condition"), P(":")])
  {
    hide Spells;
    SpellsName("condition");
    SpellsHard(':');
    SpellsAppend("condition", [N("condition")], ":", [P(":")]);
    assert "condition" + ":" == "condition:";
    assert [N("condition")] + [P(":")] == [N("condition"), P(":")];
  }

  lemma AfterSpells(exchange: Option<Node>, broken: bool, sep: string)
    requires exchange.Some? ==> WritableNode(exchange.value)
    requires Separates(sep, [P(",")])
    ensures PrintExchange(exchange, broken).Ok?
    ensures var post := After(PrintExchange(exchange, broken).value, sep);
            Spells(post, ExchangeTailLex(exchange) + [P(")")]) && post != "" && Hard(post[0])
  {
    hide Spells, WritableNode, NodeLex, ExchangeToBart;
    SpellsHard(')');
    if exchange.Some? {
      SpellsExchange(exchange.value, broken);
      var text := ExchangeToBart(exchange.value, broken).value;
      SpellsClause("exchange", text, NodeLex(exchange.value));
      SpellsAppend(sep, [P(",")], Clause("exchange", text), ClauseLex("exchange", NodeLex(exchange.value)));
      SpellsAppend(sep + Clause("exchange", text), ExchangeTailLex(exchange), ")", [P(")")]);
    } else {
      assert [] + [P(")")] == [P(")")] && "" + ")" == ")";
    }
  }

  /** Up to the condition, every text the printer writes is read the same way. */
  lemma ConditionStep(js: string -> bool, ts: seq<Token>, source: string, resource: Attrs)
    requires Tape(ts) && resource != [] && Readable(js, resource) && Has(ts, 0, HeadLex(resource) + ConditionKeyLex())
    ensures var k := |HeadLex(resource)|;
            && k + 3 < |ts|
            && var span := ParseConditionSpan(ts, k + 3, source);
               ParseRuleAt(js, ts, source) ==
                 if span.Failed? then Failed(span.error)
                 else Finish(ts, resource, MoreClauses(js, ts, span.next, source, (Some(span.value), None)))
  {
    hide Readable, HeadLex, Has, ParseRuleAt, ParseConditionSpan;
    var k := |HeadLex(resource)|;
    HasSplit(ts, 0, HeadLex(resource), ConditionKeyLex());
    HasSplit(ts, k, [P(",")], [N("condition"), P(":")]);
    HasOne(ts, k, P(","));
    HasKey2(ts, k + 1, "condition");
    HeadBack(js, ts, source, resource);
  }

  lemma GoodBack(js: string -> bool, tree: RuleTree, broken: bool)
    requires ReadableTree(js, tree) && HasCondition(tree) && GoodCondition(tree.condition.value)
    ensures Layout(tree, broken).Ok? && ParseTree(js, Layout(tree, broken).value) == Ok(tree)
  {
    hide *;
    var sep := if broken then ",\n " else ", ";
    var s := TreeCondition(tree);
    LayoutText(js, tree, broken, sep);
    var pre, post := Before(RequireResource(tree.resource).value, sep), After(PrintExchange(tree.exchange, broken).value, sep);
    var lp, lpost := HeadLex(tree.resource) + ConditionKeyLex(), ExchangeTailLex(tree.exchange) + [P(")")];
    TailStarts(tree.exchange);
    ConditionBack(pre, s, post, lp, lpost);
    var source := pre + Wrapped(s) + post;
    LexedIsTape(source);
    GoodParts(s);
    GoodBackAt(js, LexSpec(source).tokens, source, tree, WrapLex(Lexemes(PiecesOf(s))), |pre|, |pre| + |Wrapped(s)|);
    ParsedTree(js, source);
  }

  lemma TreeCondition(tree: RuleTree) returns (s: string)
    requires HasCondition(tree)
    ensures tree.condition == Some(s) && s != ""
  {
    s := tree.condition.value;
  }

  lemma LayoutText(js: string -> bool, tree: RuleTree, broken: bool, sep: string)
    requires ReadableTree(js, tree) && HasCondition(tree) && sep == if broken then ",\n " else ", "
    ensures Layout(tree, broken).Ok? && RequireResource(tree.resource).Ok? && PrintExchange(tree.exchange, broken).Ok?
    ensures var pre, post := Before(RequireResource(tree.resource).value, sep), After(PrintExchange(tree.exchange, broken).value, sep);
            && Layout(tree, broken).value == pre + Wrapped(tree.condition.value) + post
            && Spells(pre, HeadLex(tree.resource) + ConditionKeyLex()) && pre != "" && Hard(pre[|pre| - 1])
            && Spells(post, ExchangeTailLex(tree.exchange) + [P(")")]) && post != "" && Hard(post[0])
    ensures tree.resource != [] && Readable(js, tree.resource)
  {
    hide Spells, Separates, Readable, Writable, WritableNode, Normal, ReadableNode, RequireResource, PrintExchange, Join, HeadLex,
         ConditionKeyLex, ExchangeTailLex, Before, After, Hard, Wrapped;
    ReadableTreeIsWritable(js, tree);
    var blanks := if broken then "\n " else " ";
    CommaSeparates(blanks);
    assert "," + blanks == sep;
    BeforeSpells(tree.resource, sep);
    AfterSpells(tree.exchange, broken, sep);
    LayoutParts(tree, broken);
  }

  lemma GoodBackAt(js: string -> bool, ts: seq<Token>, source: string, tree: RuleTree, lx: seq<Lexeme>, from: nat, to: nat)
    requires ReadableTree(js, tree) && HasCondition(tree)
    requires InThree(ts, HeadLex(tree.resource) + ConditionKeyLex(), lx, ExchangeTailLex(tree.exchange) + [P(")")], from, to)
    requires var k := |HeadLex(tree.resource) + ConditionKeyLex()|;
             k < |ts| && ParseConditionSpan(ts, k, source) == Done(tree.condition.value, k + |lx|)
    ensures Tape(ts) && ParseRuleAt(js, ts, source).Done? && ParseRuleAt(js, ts, source).value == tree
  {
    hide Readable, Normal, ReadableNode, HeadLex, ExchangeTailLex, Has, ParseRuleAt, ParseConditionSpan, MoreClauses;
    var lp, lpost := HeadLex(tree.resource) + ConditionKeyLex(), ExchangeTailLex(tree.exchange) + [P(")")];
    ConditionStep(js, ts, source, tree.resource);
    ExchangeTailBack(js, ts, |lp| + |lx|, source, tree.condition, tree.exchange);
    EofAfter(ts, |lp| + |lx| + |lpost|);
  }

  // ----- The theorem -----

  /** Once a condition is read, no later clause replaces it. */
  lemma {:induction false} ConditionKept(js: string -> bool, ts: seq<Token>, i: nat, source: string, tail: Tail)
    requires Tape(ts) && i < |ts| && tail.0.Some? && MoreClauses(js, ts, i, source, tail).Done?
    ensures MoreClauses(js, ts, i, source, tail).value.0 == tail.0
    decreases |ts| - i
  {
    hide ParseOr, ParseConditionSpan, Tape;
    if At(ts, i, ",") && !At(ts, i + 1, "condition") {
      var k := ParseOr(js, ts, i + 3);
      ConditionKept(js, ts, k.next, source, (tail.0, Some(k.value)));
    }
  }

  /** If the parser reads the same condition back, it was a good one. */
  lemma OnlyGoodBack(js: string -> bool, tree: RuleTree, broken: bool)
    requires ReadableTree(js, tree) && HasCondition(tree) && Layout(tree, broken).Ok?
    requires var again := ParseTree(js, Layout(tree, broken).value); again.Ok? && again.value.condition == tree.condition
    ensures GoodCondition(tree.condition.value)
  {
    hide *;
    var sep := if broken then ",\n " else ", ";
    var s := TreeCondition(tree);
    LayoutText(js, tree, broken, sep);
    var pre, post := Before(RequireResource(tree.resource).value, sep), After(PrintExchange(tree.exchange, broken).value, sep);
    var source := pre + Wrapped(s) + post;
    var lp := HeadLex(tree.resource) + ConditionKeyLex();
    ParsedLexed(js, source);
    LexedIsTape(source);
    ParsedTree(js, source);
    var rest := Wrapped(s) + post;
    assert source == pre + rest;
    var r := SourceRest(source, pre, lp, rest);
    var ts := LexSpec(source).tokens;
    ReadCondition(js, ts, source, tree.resource, s);
    ConditionExact(pre, s, post, lp);
  }

  lemma ParsedLexed(js: string -> bool, source: string)
    requires ParseTree(js, source).Ok?
    ensures LexSpec(source).Lexed?
  {
  }

  lemma ReadCondition(js: string -> bool, ts: seq<Token>, source: string, resource: Attrs, s: string)
    requires Tape(ts) && resource != [] && Readable(js, resource)
    requires Has(ts, 0, HeadLex(resource) + ConditionKeyLex())
    requires ParseRuleAt(js, ts, source).Done? && ParseRuleAt(js, ts, source).value.condition == Some(s)
    ensures var k := |HeadLex(resource) + ConditionKeyLex()|;
            k < |ts| && ParseConditionSpan(ts, k, source).Done? && ParseConditionSpan(ts, k, source).value == s
  {
    hide Readable, HeadLex, Has, ParseRuleAt, ParseConditionSpan, MoreClauses, Tape;
    ConditionStep(js, ts, source, resource);
    var k := |HeadLex(resource) + ConditionKeyLex()|;
    var span := ParseConditionSpan(ts, k, source);
    ConditionKept(js, ts, span.next, source, (Some(span.value), None));
  }

  lemma LayoutRoundTrip(js: string -> bool, tree: RuleTree, broken: bool)
    requires ReadableTree(js, tree)
    ensures Layout(tree, broken).Ok?
    ensures ParseTree(js, Layout(tree, broken).value) == Ok(tree)
            <==> tree.condition.None? || GoodCondition(tree.condition.value)
    ensures !HasCondition(tree) ==> ParseTree(js, Layout(tree, broken).value) == Ok(tree.(condition := None))
  {
    hide Layout, ParseTree, ReadableTree, TreeLex, GoodCondition, Spells, WritableTree;
    if HasCondition(tree) {
      LayoutPrints(js, tree, broken);
      if GoodCondition(tree.condition.value) {
        GoodBack(js, tree, broken);
      }
      if ParseTree(js, Layout(tree, broken).value) == Ok(tree) {
        OnlyGoodBack(js, tree, broken);
      }
    } else {
      ReadableTreeIsWritable(js, tree);
      SpellsLayout(tree, broken, []);
      PlainBack(js, Layout(tree, broken).value, tree);
      EmptyIsNoCondition();
    }
  }

  lemma LayoutPrints(js: string -> bool, tree: RuleTree, broken: bool)
    requires ReadableTree(js, tree) && HasCondition(tree)
    ensures Layout(tree, broken).Ok?
  {
    hide *;
    LayoutText(js, tree, broken, if broken then ",\n " else ", ");
  }

  lemma EmptyIsNoCondition()
    ensures !GoodCondition("")
  {
  }

  /** For every rule the grammar can express and every width, the printed text parses back to the
      very same rule if and only if the rule has no condition or a good one. */
  lemma RoundTripExact(js: string -> bool, tree: RuleTree, width: int)
    requires ReadableTree(js, tree)
    ensures PrintTree(tree, width).Ok?
    ensures ParseTree(js, PrintTree(tree, width).value) == Ok(tree)
            <==> tree.condition.None? || GoodCondition(tree.condition.value)
  {
    hide Layout, ParseTree, ReadableTree, GoodCondition;
    LayoutRoundTrip(js, tree, false);
    LayoutRoundTrip(js, tree, true);
  }

  /** A rule on `role: true` under the condition ` a`, which starts with a blank. */
  const PADDED := RuleTree([Attr("role", One(Boolean(true)))], Some(" a"), None)

  /** One that is lost: the blank goes when the rule is read again, so even the rule read back differs. */
  lemma PaddedConditionLost(js: string -> bool, width: int)
    ensures PrintTree(PADDED, width).Ok? && ParseTree(js, PrintTree(PADDED, width).value) != Ok(PADDED)
  {
    hide ParseTree, PrintTree, GoodCondition;
    RoleIsName();
    RoundTripExact(js, PADDED, width);
    BlankIsNotGood();
  }

  lemma RoleIsName()
    ensures WritableKey("role")
  {
  }

  lemma BlankIsNotGood()
    ensures !GoodCondition(" a")
  {
    TrimShape(" a");
    assert Trim(" a") != " a";
  }
}
