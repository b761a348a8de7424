/** The block editor's flat model of a rule, and its own fixed-point guard (rule.ts `toTree`,
    `normalizeExchange`; parse.ts `flattenNode`, `toBlocksCore`, `toBlocks`, `parseRule`). */
module Blocks {
  import opened Lex
  import opened Attrs
  import opened Rule
  import opened Parse
  import opened RoundTrip
  import opened Condition
  import opened TreeRoundTrip
  import opened NormalForm
  import opened Guard

  datatype ExchangeGroup = ExchangeGroup(connector: Connector, terms: seq<ExchangeTerm>)

  datatype RuleAst = RuleAst(resource: Attrs, condition: Option<string>, exchange: Option<ExchangeGroup>)

  function NormalizeExchange(group: ExchangeGroup): ExchangeGroup {
    if |group.terms| == 1 && group.connector != And then group.(connector := And) else group
  }

  function Leaves(terms: seq<ExchangeTerm>): seq<Node> {
    seq(|terms|, i requires 0 <= i < |terms| => Term(terms[i]))
  }

  function ToTree(ast: RuleAst): Result<RuleTree, PrintProblem> {
    if ast.exchange.Some? && ast.exchange.value.terms == [] then Err(NoTerm)
    else
      Ok(RuleTree(ast.resource, ast.condition,
                  if ast.exchange.Some? then Some(GroupNode(ast.exchange.value.connector, Leaves(ast.exchange.value.terms)))
                  else None))
  }

  function TermsOf(children: seq<Node>): Result<seq<ExchangeTerm>, ParseError> {
    if children == [] then Ok([])
    else if !children[0].Term? then Err(Unrepresentable)
    else
      var rest :- TermsOf(children[1..]);
      Ok([children[0].term] + rest)
  }

  function FlattenNode(node: Node): Result<ExchangeGroup, ParseError> {
    match node
    case Term(term) => Ok(ExchangeGroup(And, [term]))
    case Group(connector, children) =>
      var terms :- TermsOf(children);
      Ok(NormalizeExchange(ExchangeGroup(connector, terms)))
  }

  function Onto(front: seq<ExchangeTerm>, rest: Result<seq<ExchangeTerm>, ParseError>): (r: Result<seq<ExchangeTerm>, ParseError>)
    ensures front == [] ==> r == rest
  {
    if rest.Ok? then assert [] + rest.value == rest.value; Ok(front + rest.value) else rest
  }

  /** The loop of `flattenNode`. */
  method Flatten(node: Node) returns (r: Result<ExchangeGroup, ParseError>)
    ensures r == FlattenNode(node)
  {
    match node
    case Term(term) =>
      return Ok(ExchangeGroup(And, [term]));
    case Group(connector, children) =>
      var terms: seq<ExchangeTerm> := [];
      assert children[0..] == children;
      for i := 0 to |children|
        invariant TermsOf(children) == Onto(terms, TermsOf(children[i..]))
      {
        assert children[i..][1..] == children[i + 1..];
        var child := children[i];
        if !child.Term? {
          return Err(Unrepresentable);
        }
        var rest := TermsOf(children[i + 1..]);
        assert rest.Ok? ==> terms + ([child.term] + rest.value) == (terms + [child.term]) + rest.value;
        terms := terms + [child.term];
      }
      assert children[|children|..] == [] && terms + [] == terms;
      return Ok(NormalizeExchange(ExchangeGroup(connector, terms)));
  }

  function ToBlocksCore(tree: RuleTree): Result<RuleAst, ParseError> {
    if tree.exchange.None? then Ok(RuleAst(tree.resource, tree.condition, None))
    else
      var group :- FlattenNode(tree.exchange.value);
      Ok(RuleAst(tree.resource, tree.condition, Some(group)))
  }

  function PrintRule(ast: RuleAst, width: int): Result<string, PrintProblem> {
    var tree :- ToTree(ast);
    PrintTree(tree, width)
  }

  predicate SameTerm(a: ExchangeTerm, b: ExchangeTerm) {
    SameParticipant(a.to, b.to) && SameParticipant(a.from, b.from) && SameAttrs(a.resource, b.resource)
  }

  predicate SameExchange(a: ExchangeGroup, b: ExchangeGroup) {
    a.connector == b.connector && |a.terms| == |b.terms| && forall k :: 0 <= k < |a.terms| ==> SameTerm(a.terms[k], b.terms[k])
  }

  predicate SameRule(a: RuleAst, b: RuleAst) {
    && SameAttrs(a.resource, b.resource)
    && ConditionText(a.condition) == ConditionText(b.condition)
    && match (a.exchange, b.exchange)
       case (Some(x), Some(y)) => SameExchange(x, y)
       case _ => a.exchange == b.exchange
  }

  function ToBlocks(js: string -> bool, tree: RuleTree): Result<RuleAst, ParseError> {
    var projected :- ToBlocksCore(tree);
    match PrintRule(projected, 80)
    case Err(_) => Err(Unrepresentable)
    case Ok(text) =>
      match ParseTree(js, text)
      case Err(_) => Err(Unrepresentable)
      case Ok(again) =>
        match ToBlocksCore(again)
        case Err(_) => Err(Unrepresentable)
        case Ok(reprojected) => if SameRule(reprojected, projected) then Ok(projected) else Err(Unrepresentable)
  }

  function ParseRule(js: string -> bool, source: string): Result<RuleAst, ParseError> {
    var tree :- ParseSyntax(js, source);
    ToBlocks(js, tree)
  }

  /** Widening refuses only an exchange without terms. A lone term stands for itself, whatever its connector;
      more are a group, in order. */
  lemma WidenExact(ast: RuleAst)
    ensures ToTree(ast).Ok? <==> (ast.exchange.Some? ==> ast.exchange.value.terms != [])
    ensures ToTree(ast).Ok? ==>
      var tree := ToTree(ast).value;
      && tree.resource == ast.resource && tree.condition == ast.condition
      && (tree.exchange.Some? <==> ast.exchange.Some?)
      && (ast.exchange.Some? ==>
            var node, terms := tree.exchange.value, ast.exchange.value.terms;
            if |terms| == 1 then node == Term(terms[0])
            else
              && node.Group? && node.connector == ast.exchange.value.connector && |node.children| == |terms|
              && forall k :: 0 <= k < |terms| ==> node.children[k] == Term(terms[k]))
  {
    if ToTree(ast).Ok? && ast.exchange.Some? {
      var group := ast.exchange.value;
      var leaves := Leaves(group.terms);
      assert forall child :: child in leaves ==> child.Term?;
      FlattenedId(group.connector, leaves);
    }
  }

  /** A group of terms is projected to those terms; a lone one under `and`. */
  lemma NarrowExact(connector: Connector, terms: seq<ExchangeTerm>)
    ensures FlattenNode(Group(connector, Leaves(terms))) == Ok(ExchangeGroup(if |terms| == 1 then And else connector, terms))
  {
    var leaves := Leaves(terms);
    assert forall child :: child in leaves ==> child.Term?;
    TermsExact(leaves);
    var back := TermsOf(leaves).value;
    assert |back| == |leaves| by { assert |Leaves(back)| == |back|; }
    forall k | 0 <= k < |terms|
      ensures back[k] == terms[k]
    {
      assert Leaves(back)[k] == Term(back[k]) && leaves[k] == Term(terms[k]);
    }
    assert back == terms;
  }

  // ----- The projection -----

  /** No group inside a group. */
  predicate Shallow(node: Node) { node.Group? ==> forall child :: child in node.children ==> child.Term? }

  lemma {:induction false} TermsExact(children: seq<Node>)
    ensures TermsOf(children).Ok? <==> forall child :: child in children ==> child.Term?
    ensures TermsOf(children).Ok? ==> Leaves(TermsOf(children).value) == children
  {
    if children == [] {
    } else {
      TermsExact(children[1..]);
      assert children == [children[0]] + children[1..];
    }
  }

  /** The flat model holds exactly the exchanges that do not mix connectors. */
  lemma FlattenExact(node: Node)
    ensures FlattenNode(node).Ok? <==> Shallow(node)
  {
    if node.Group? {
      TermsExact(node.children);
    }
  }

  /** `terms` is never empty, and a single term carries `and`. */
  predicate Canonical(ast: RuleAst) {
    ast.exchange.Some? ==>
      ast.exchange.value.terms != [] && (|ast.exchange.value.terms| == 1 ==> ast.exchange.value.connector == And)
  }

  predicate NormalExchange(tree: RuleTree) { tree.exchange.Some? ==> Normal(tree.exchange.value) }

  /** Projecting a tree to blocks loses nothing: widening the blocks gives the tree back. */
  lemma TreeOfBlocks(tree: RuleTree)
    requires NormalExchange(tree) && ToBlocksCore(tree).Ok?
    ensures Canonical(ToBlocksCore(tree).value) && ToTree(ToBlocksCore(tree).value) == Ok(tree)
  {
    if tree.exchange.Some? {
      var node := tree.exchange.value;
      match node
      case Term(term) =>
        assert Leaves([term]) == [node];
        GroupNodeLone(And, node);
      case Group(connector, children) =>
        TermsExact(children);
        GroupNodeId(node);
    }
  }

  lemma LeavesAreTerms(terms: seq<ExchangeTerm>)
    ensures forall x :: x in Leaves(terms) ==> x.Term? && x.term in terms
  {
  }

  lemma LeavesTerms(terms: seq<ExchangeTerm>)
    ensures TermsOf(Leaves(terms)) == Ok(terms)
  {
    LeavesAreTerms(terms);
    TermsExact(Leaves(terms));
    var back := TermsOf(Leaves(terms)).value;
    assert |back| == |Leaves(back)| == |terms|;
    forall k | 0 <= k < |terms|
      ensures back[k] == terms[k]
    {
      assert Leaves(back)[k] == Term(back[k]) && Leaves(terms)[k] == Term(terms[k]);
    }
    assert back == terms;
  }

  /** Widening blocks and projecting again gives the blocks back. */
  lemma BlocksOfTree(ast: RuleAst)
    requires Canonical(ast)
    ensures ToTree(ast).Ok? && NormalExchange(ToTree(ast).value) && ToBlocksCore(ToTree(ast).value) == Ok(ast)
  {
    if ast.exchange.Some? {
      var connector, terms := ast.exchange.value.connector, ast.exchange.value.terms;
      LeavesAreTerms(terms);
      FlattenedId(connector, Leaves(terms));
      LeavesTerms(terms);
      if |terms| == 1 {
        assert Leaves(terms)[0] == Term(terms[0]) && terms == [terms[0]];
      }
    }
  }

  // ----- The guard of `toBlocks` -----

  lemma SameRuleSelf(js: string -> bool, tree: RuleTree, ast: RuleAst, again: RuleAst)
    requires KeyedTree(js, tree) && ToBlocksCore(tree) == Ok(ast)
    requires again == ast.(condition := again.condition) && ConditionText(again.condition) == ConditionText(ast.condition)
    ensures SameRule(again, ast)
  {
    hide SameAttrs, Keyed, Normal, TermsOf;
    KeyedDistinct(js, tree.resource);
    SameAttrsSelf(tree.resource);
    if tree.exchange.Some? {
      SameExchangeSelf(js, tree.exchange.value);
    }
  }

  lemma SameTermSelf(js: string -> bool, term: ExchangeTerm)
    requires KeyedTerm(js, term)
    ensures SameTerm(term, term)
  {
    hide SameAttrs, Keyed, SameParticipant;
    SameParticipantSelf(js, term.to);
    SameParticipantSelf(js, term.from);
    KeyedDistinct(js, term.resource);
    SameAttrsSelf(term.resource);
  }

  lemma SameExchangeSelf(js: string -> bool, node: Node)
    requires KeyedNode(js, node) && FlattenNode(node).Ok?
    ensures SameExchange(FlattenNode(node).value, FlattenNode(node).value)
  {
    hide SameTerm, KeyedTerm, TermsOf;
    match node
    case Term(term) => SameTermSelf(js, term);
    case Group(_, children) =>
      TermsExact(children);
      var terms := TermsOf(children).value;
      forall k | 0 <= k < |terms|
        ensures SameTerm(terms[k], terms[k])
      {
        assert Leaves(terms)[k] == Term(terms[k]) && children[k] in children;
        SameTermSelf(js, terms[k]);
      }
  }

  lemma ProjectCondition(tree: RuleTree, condition: Option<string>)
    requires ToBlocksCore(tree).Ok?
    ensures ToBlocksCore(tree.(condition := condition)) == Ok(ToBlocksCore(tree).value.(condition := condition))
  {
    hide FlattenNode;
  }

  /** On whatever `parseSyntax` accepts, the second guard refuses nothing: a rule opens as blocks
      exactly when its exchange does not nest groups, and as the blocks of its tree. */
  lemma ToBlocksExact(js: string -> bool, source: string)
    requires ParseSyntax(js, source).Ok?
    ensures var tree := ParseSyntax(js, source).value; ToBlocks(js, tree) == ToBlocksCore(tree)
  {
    hide ParseSyntax, ParseTree, PrintTree, KeyedNode, Keyed, Normal, GoodCondition, NoKeywordTree, SameTree, SameRule, FlattenNode;
    GuardExact(js, source);
    ParseTreeNormal(js, source);
    var tree := ParseSyntax(js, source).value;
    if ToBlocksCore(tree).Ok? {
      TreeOfBlocks(tree);
      Reprint(js, tree, 80);
      ProjectCondition(tree, None);
      var ast := ToBlocksCore(tree).value;
      SameRuleSelf(js, tree, ast, if ConditionText(tree.condition) == "" then ast.(condition := None) else ast);
    }
  }

  lemma ParseRuleExact(js: string -> bool, source: string)
    ensures ParseRule(js, source).Ok? <==>
      ParseSyntax(js, source).Ok? && (ParseSyntax(js, source).value.exchange.Some? ==> Shallow(ParseSyntax(js, source).value.exchange.value))
    ensures ParseRule(js, source).Ok? ==> ToTree(ParseRule(js, source).value) == Ok(ParseSyntax(js, source).value)
  {
    hide ParseSyntax, ParseTree, KeyedNode, Keyed, Normal, ToBlocks, ToTree, FlattenNode, NoKeywordTree, GoodOrNone, Shallow;
    if ParseSyntax(js, source).Ok? {
      ToBlocksExact(js, source);
      GuardExact(js, source);
      ParseTreeNormal(js, source);
      var tree := ParseSyntax(js, source).value;
      if tree.exchange.Some? {
        FlattenExact(tree.exchange.value);
      }
      if ToBlocksCore(tree).Ok? {
        TreeOfBlocks(tree);
      }
    }
  }

  // ----- The law of the editor -----

  predicate ReadableAst(js: string -> bool, ast: RuleAst) {
    && Canonical(ast) && ast.resource != [] && Readable(js, ast.resource)
    && (ast.exchange.Some? ==> forall term :: term in ast.exchange.value.terms ==> ReadableTerm(js, term))
  }

  lemma ReadableAstTree(js: string -> bool, ast: RuleAst)
    requires ReadableAst(js, ast)
    ensures ToTree(ast).Ok? && ReadableTree(js, ToTree(ast).value)
  {
    hide Readable, Canonical, Normal, ToBlocksCore;
    AstCanonical(js, ast);
    BlocksOfTree(ast);
    if ast.exchange.Some? {
      GroupReadable(js, ast.exchange.value.connector, ast.exchange.value.terms);
    }
  }

  lemma GroupReadable(js: string -> bool, connector: Connector, terms: seq<ExchangeTerm>)
    requires terms != [] && forall term :: term in terms ==> ReadableTerm(js, term)
    ensures ReadableNode(js, GroupNode(connector, Leaves(terms)))
  {
    hide ReadableTerm;
    LeavesAreTerms(terms);
    FlattenedId(connector, Leaves(terms));
  }

  lemma {:induction false} ReadableHasNoKeyword(js: string -> bool, node: Node)
    requires ReadableNode(js, node)
    ensures NoKeywordNode(node)
    decreases node
  {
    match node
    case Term(_) =>
    case Group(_, children) =>
      forall child | child in children
        ensures NoKeywordNode(child)
      {
        ReadableHasNoKeyword(js, child);
      }
  }

  lemma ReadableTreeNoKeyword(js: string -> bool, tree: RuleTree)
    requires ReadableTree(js, tree)
    ensures NoKeywordTree(tree)
  {
    hide ReadableNode, NoKeywordNode, Normal;
    if tree.exchange.Some? {
      ReadableHasNoKeyword(js, tree.exchange.value);
    }
  }

  /** Blocks printed at any width parse back to the same blocks, if and only if their condition is
      absent or good. */
  lemma BlocksRoundTrip(js: string -> bool, ast: RuleAst, width: int)
    requires ReadableAst(js, ast)
    ensures PrintRule(ast, width).Ok?
    ensures ParseRule(js, PrintRule(ast, width).value) == Ok(ast) <==> ast.condition.None? || GoodCondition(ast.condition.value)
  {
    hide ReadableAst, ReadableTree, ParseTree, PrintTree, GoodCondition, NoKeywordTree, ToTree, ToBlocksCore, ParseRule, Canonical, ParseSyntax;
    ReadableAstTree(js, ast);
    AstCanonical(js, ast);
    BlocksOfTree(ast);
    var tree := ToTree(ast).value;
    ToTreeCondition(ast);
    RoundTripExact(js, tree, width);
    PrintRuleTree(ast, width);
    ReadableTreeNoKeyword(js, tree);
    var text := PrintTree(tree, width).value;
    GuardExact(js, text);
    ParseRuleExact(js, text);
    ParseRuleIs(js, text);
    if ParseSyntax(js, text).Ok? {
      ToBlocksExact(js, text);
    }
  }

  lemma AstCanonical(js: string -> bool, ast: RuleAst)
    requires ReadableAst(js, ast)
    ensures Canonical(ast)
  {
  }

  lemma ToTreeCondition(ast: RuleAst)
    ensures ToTree(ast).Ok? ==> ToTree(ast).value.condition == ast.condition
  {
  }

  lemma PrintRuleTree(ast: RuleAst, width: int)
    requires ToTree(ast).Ok?
    ensures PrintRule(ast, width) == PrintTree(ToTree(ast).value, width)
  {
    hide ToTree, PrintTree;
  }

  lemma ParseRuleIs(js: string -> bool, source: string)
    ensures ParseSyntax(js, source).Ok? ==> ParseRule(js, source) == ToBlocks(js, ParseSyntax(js, source).value)
  {
    hide ParseSyntax, ToBlocks;
  }
}
