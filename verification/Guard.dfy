/** The fixed-point guard of app/frontend/src/lib/bart/parse.ts: what `parseSyntax` accepts. */
module Guard {
  import opened Lex
  import opened Spelling
  import opened Attrs
  import opened Rule
  import opened Parse
  import opened RoundTrip
  import opened Condition
  import opened TreeRoundTrip
  import opened NormalForm

  // ----- Comparing trees -----

  predicate SameAttrs(a: Attrs, b: Attrs) {
    |a| == |b| && forall x :: x in a ==> Lookup(b, x.key) == Some(x.value)
  }

  predicate SameParticipant(a: Participant, b: Participant) {
    match (a, b)
    case (AnyOf(x), AnyOf(y)) => SameAttrs(x, y)
    case (AllOf(x), AllOf(y)) => SameAttrs(x, y)
    case _ => a == b && !a.AnyOf? && !a.AllOf?
  }

  predicate SameNode(a: Node, b: Node) {
    match (a, b)
    case (Term(s), Term(t)) => SameParticipant(s.to, t.to) && SameParticipant(s.from, t.from) && SameAttrs(s.resource, t.resource)
    case (Group(c, xs), Group(d, ys)) => c == d && |xs| == |ys| && forall k :: 0 <= k < |xs| ==> SameNode(xs[k], ys[k])
    case _ => false
  }

  /** `condition ?? ''` */
  function ConditionText(condition: Option<string>): string {
    match condition
    case None => ""
    case Some(s) => s
  }

  predicate SameTree(a: RuleTree, b: RuleTree) {
    && SameAttrs(a.resource, b.resource)
    && ConditionText(a.condition) == ConditionText(b.condition)
    && match (a.exchange, b.exchange)
       case (Some(x), Some(y)) => SameNode(x, y)
       case _ => a.exchange == b.exchange
  }

  lemma SameAttrsSelf(attrs: Attrs)
    requires Distinct(attrs)
    ensures SameAttrs(attrs, attrs)
  {
    forall x | x in attrs
      ensures Lookup(attrs, x.key) == Some(x.value)
    {
      var k :| 0 <= k < |attrs| && attrs[k] == x;
      LookupSelf(attrs, k);
    }
  }

  lemma SameParticipantSelf(js: string -> bool, p: Participant)
    requires KeyedParticipant(js, p)
    ensures SameParticipant(p, p)
  {
    if p.AnyOf? || p.AllOf? {
      SameAttrsSelf(p.attrs);
    }
  }

  lemma {:induction false} SameNodeSelf(js: string -> bool, node: Node)
    requires KeyedNode(js, node)
    ensures SameNode(node, node)
    decreases node
  {
    hide SameAttrs, Keyed;
    match node
    case Term(term) =>
      SameParticipantSelf(js, term.to);
      SameParticipantSelf(js, term.from);
      KeyedDistinct(js, term.resource);
      SameAttrsSelf(term.resource);
    case Group(_, children) =>
      forall k | 0 <= k < |children|
        ensures SameNode(children[k], children[k])
      {
        assert children[k] in children;
        SameNodeSelf(js, children[k]);
      }
  }

  lemma KeyedDistinct(js: string -> bool, attrs: Attrs)
    requires Keyed(js, attrs)
    ensures Distinct(attrs)
  {
  }

  lemma SameTreeSelf(js: string -> bool, a: RuleTree, b: RuleTree)
    requires KeyedTree(js, b) && a == b.(condition := a.condition) && ConditionText(a.condition) == ConditionText(b.condition)
    ensures SameTree(a, b)
  {
    hide SameAttrs, SameNode, Keyed, KeyedNode, Normal;
    KeyedDistinct(js, b.resource);
    SameAttrsSelf(b.resource);
    if b.exchange.Some? {
      SameNodeSelf(js, b.exchange.value);
    }
  }

  // ----- parseSyntax -----

  function ParseSyntax(js: string -> bool, source: string): Result<RuleTree, ParseError> {
    var parsed :- ParseTree(js, source);
    match PrintTree(parsed, 80)
    case Err(_) => Err(Unrepresentable)
    case Ok(text) =>
      match ParseTree(js, text)
      case Err(_) => Err(Unrepresentable)
      case Ok(again) => if SameTree(again, parsed) then Ok(parsed) else Err(Unrepresentable)
  }

  // ----- Keywords as keys: the lexer has no keywords, the printer refuses them -----

  predicate NoKeyword(attrs: Attrs) { forall a :: a in attrs ==> a.key !in BART_KEYWORDS }

  predicate NoKeywordIn(p: Participant) { (p.AnyOf? || p.AllOf?) ==> NoKeyword(p.attrs) }

  predicate NoKeywordNode(node: Node) {
    match node
    case Term(term) => NoKeywordIn(term.to) && NoKeyword(term.resource) && NoKeywordIn(term.from)
    case Group(_, children) => forall child :: child in children ==> NoKeywordNode(child)
  }

  predicate NoKeywordTree(tree: RuleTree) {
    NoKeyword(tree.resource) && (tree.exchange.Some? ==> NoKeywordNode(tree.exchange.value))
  }

  lemma {:induction false} ReadableWithoutKeywords(js: string -> bool, node: Node)
    requires KeyedNode(js, node) && NoKeywordNode(node)
    ensures ReadableNode(js, node)
    decreases node
  {
    match node
    case Term(_) =>
    case Group(_, children) =>
      forall child | child in children
        ensures ReadableNode(js, child)
      {
        ReadableWithoutKeywords(js, child);
      }
  }

  lemma ReadableTreeWithoutKeywords(js: string -> bool, tree: RuleTree)
    requires KeyedTree(js, tree) && NoKeywordTree(tree)
    ensures ReadableTree(js, tree)
  {
    hide KeyedNode, NoKeywordNode, ReadableNode, Normal;
    if tree.exchange.Some? {
      ReadableWithoutKeywords(js, tree.exchange.value);
    }
  }

  lemma PrintedAttrs(attrs: Attrs)
    requires EmitAttrs(attrs).Ok?
    ensures NoKeyword(attrs)
  {
    EmitsExactly(attrs);
  }

  lemma PrintedParticipant(p: Participant)
    requires ParticipantToBart(p).Ok?
    ensures NoKeywordIn(p)
  {
    hide NoKeyword, EmitAttrs;
    if p.AnyOf? || p.AllOf? {
      PrintedAttrs(p.attrs);
    }
  }

  lemma PrintedTerm(term: ExchangeTerm, keySeparator: string)
    requires TermToBart(term, keySeparator).Ok?
    ensures NoKeywordIn(term.to) && NoKeyword(term.resource) && NoKeywordIn(term.from)
  {
    hide NoKeyword, NoKeywordIn, EmitAttrs, ParticipantToBart, Join;
    PrintedParticipant(term.to);
    PrintedParticipant(term.from);
    PrintedAttrs(term.resource);
  }

  lemma {:induction false} PrintedNode(node: Node, keySeparator: string, between: string)
    requires NodeToBart(node, keySeparator, between).Ok?
    ensures NoKeywordNode(node)
    decreases node, 0
  {
    hide TermToBart, Join, NoKeyword, NoKeywordIn;
    match node
    case Term(term) => PrintedTerm(term, keySeparator);
    case Group(_, children) => PrintedNodes(children, keySeparator, between);
  }

  lemma {:induction false} PrintedNodes(nodes: seq<Node>, keySeparator: string, between: string)
    requires NodesToBart(nodes, keySeparator, between).Ok?
    ensures forall x :: x in nodes ==> NoKeywordNode(x)
    decreases nodes, 1
  {
    hide NodeToBart, NoKeywordNode;
    if nodes == [] {
    } else {
      PrintedNode(nodes[0], keySeparator, between);
      PrintedNodes(nodes[1..], keySeparator, between);
    }
  }

  lemma PrintedTree(tree: RuleTree, width: int)
    requires PrintTree(tree, width).Ok?
    ensures NoKeywordTree(tree)
  {
    hide NodeToBart, EmitAttrs, Join, NoKeyword, NoKeywordNode;
    PrintedAttrs(tree.resource);
    if tree.exchange.Some? {
      var node := tree.exchange.value;
      PrintedNode(node, " ", " ");
    }
  }

  // ----- The theorem -----

  predicate GoodOrNone(condition: Option<string>) { ConditionText(condition) == "" || GoodCondition(condition.value) }

  lemma PrintTreeLayout(tree: RuleTree, width: int) returns (broken: bool)
    requires Layout(tree, false).Ok?
    ensures PrintTree(tree, width) == Layout(tree, broken)
  {
    hide Layout;
    broken := |Layout(tree, false).value| > width;
  }

  /** What the guard sees when it reprints and reparses a tree, at any width. */
  lemma Reprint(js: string -> bool, tree: RuleTree, width: int)
    requires KeyedTree(js, tree)
    ensures PrintTree(tree, width).Ok? <==> NoKeywordTree(tree)
    ensures NoKeywordTree(tree) ==>
      var again := ParseTree(js, PrintTree(tree, width).value);
      && (again.Ok? && SameTree(again.value, tree) <==> GoodOrNone(tree.condition))
      && (GoodOrNone(tree.condition) ==>
            again == Ok(if ConditionText(tree.condition) == "" then tree.(condition := None) else tree))
  {
    hide PrintTree, ParseTree, KeyedTree, NoKeywordTree, GoodCondition, SameTree, ReadableTree, Layout;
    if PrintTree(tree, width).Ok? {
      PrintedTree(tree, width);
    }
    if NoKeywordTree(tree) {
      ReadableTreeWithoutKeywords(js, tree);
      LayoutRoundTrip(js, tree, false);
      var broken := PrintTreeLayout(tree, width);
      LayoutRoundTrip(js, tree, broken);
      ReprintLayout(js, tree, broken);
    }
  }

  lemma ReprintLayout(js: string -> bool, tree: RuleTree, broken: bool)
    requires KeyedTree(js, tree) && ReadableTree(js, tree) && Layout(tree, broken).Ok?
    ensures var again := ParseTree(js, Layout(tree, broken).value);
            && (again.Ok? && SameTree(again.value, tree) <==> GoodOrNone(tree.condition))
            && (GoodOrNone(tree.condition) ==>
                  again == Ok(if ConditionText(tree.condition) == "" then tree.(condition := None) else tree))
  {
    hide ParseTree, KeyedTree, GoodCondition, SameTree, ReadableTree, Layout;
    LayoutRoundTrip(js, tree, broken);
    var again := ParseTree(js, Layout(tree, broken).value);
    if GoodOrNone(tree.condition) {
      SameTreeSelf(js, again.value, tree);
    } else if again.Ok? && SameTree(again.value, tree) {
      SameCondition(again.value, tree);
      OnlyGoodBack(js, tree, broken);
    }
  }

  lemma SameCondition(a: RuleTree, b: RuleTree)
    requires SameTree(a, b) && HasCondition(b)
    ensures a.condition == b.condition
  {
    hide SameAttrs, SameNode;
  }

  /** The guard refuses exactly a keyword used as a key and a condition that is not good; everything
      else the grammar accepts, it returns as parsed. */
  lemma GuardExact(js: string -> bool, source: string)
    ensures ParseSyntax(js, source) ==
      if ParseTree(js, source).Err? then ParseTree(js, source)
      else
        var tree := ParseTree(js, source).value;
        if NoKeywordTree(tree) && GoodOrNone(tree.condition) then Ok(tree) else Err(Unrepresentable)
  {
    hide PrintTree, ParseTree, KeyedTree, NoKeywordTree, GoodOrNone, SameTree;
    if ParseTree(js, source).Ok? {
      ParseTreeNormal(js, source);
      Reprint(js, ParseTree(js, source).value, 80);
    }
  }

  /** Formatting keeps the rule, at any width, but for an empty condition; and formatting what was just
      formatted changes nothing. */
  lemma FormatIdempotent(js: string -> bool, source: string, width: int)
    requires ParseSyntax(js, source).Ok?
    ensures var tree := ParseSyntax(js, source).value;
            var printed := PrintTree(tree, width);
            && printed.Ok?
            && ParseSyntax(js, printed.value) == Ok(if ConditionText(tree.condition) == "" then tree.(condition := None) else tree)
            && PrintTree(ParseSyntax(js, printed.value).value, width) == printed
  {
    hide ParseSyntax, ParseTree, PrintTree, KeyedTree, NoKeywordTree, SameTree, GoodCondition;
    GuardExact(js, source);
    var tree := ParseTree(js, source).value;
    ParseTreeNormal(js, source);
    Reprint(js, tree, width);
    var printed := PrintTree(tree, width).value;
    GuardExact(js, printed);
    NormalizedCondition(tree);
    PrintsSame(tree, width);
  }

  lemma NormalizedCondition(tree: RuleTree)
    ensures NoKeywordTree(tree.(condition := None)) == NoKeywordTree(tree)
  {
    hide NoKeywordNode, NoKeyword;
  }

  /** An empty condition prints as none. */
  lemma PrintsSame(tree: RuleTree, width: int)
    ensures ConditionText(tree.condition) == "" ==> PrintTree(tree.(condition := None), width) == PrintTree(tree, width)
  {
    hide RequireResource, PrintExchange, Join;
    if ConditionText(tree.condition) == "" {
      assert Layout(tree.(condition := None), false) == Layout(tree, false);
      assert Layout(tree.(condition := None), true) == Layout(tree, true);
    }
  }
}
