/** Rules as trees, and the one canonical printer (app/frontend/src/lib/bart/rule.ts). */
module Rule {
  import opened Lex
  import opened Spelling
  import opened Attrs

  datatype Participant = Me | Requester | AnyOf(attrs: Attrs) | AllOf(attrs: Attrs)

  datatype ExchangeTerm = ExchangeTerm(to: Participant, resource: Attrs, from: Participant)

  datatype Connector = And | Or

  datatype Node = Term(term: ExchangeTerm) | Group(connector: Connector, children: seq<Node>)

  datatype RuleTree = RuleTree(resource: Attrs, condition: Option<string>, exchange: Option<Node>)

  // ----- The normal form -----

  predicate IsGroupOf(connector: Connector, node: Node) { node.Group? && node.connector == connector }

  /** At least two children, none of which carries the connector of its parent. */
  predicate Normal(node: Node) {
    node.Group? ==>
      && |node.children| >= 2
      && forall child :: child in node.children ==> Normal(child) && !IsGroupOf(node.connector, child)
  }

  function Opened(connector: Connector, child: Node): seq<Node> {
    if IsGroupOf(connector, child) then child.children else [child]
  }

  function Flattened(connector: Connector, children: seq<Node>): seq<Node> {
    if children == [] then [] else Opened(connector, children[0]) + Flattened(connector, children[1..])
  }

  /** The only way to build a group. */
  function GroupNode(connector: Connector, children: seq<Node>): Node {
    var flat := Flattened(connector, children);
    if |flat| == 1 then flat[0] else Group(connector, flat)
  }

  /** The loop of `groupNode`. */
  method BuildGroup(connector: Connector, children: seq<Node>) returns (node: Node)
    ensures node == GroupNode(connector, children)
  {
    var flat: seq<Node> := [];
    assert children[0..] == children;
    for i := 0 to |children|
      invariant flat + Flattened(connector, children[i..]) == Flattened(connector, children)
    {
      var child := children[i];
      FlattenedStep(connector, flat, children, i);
      if IsGroupOf(connector, child) {
        flat := flat + child.children;
      } else {
        flat := flat + [child];
      }
    }
    assert children[|children|..] == [] && flat + [] == flat;
    node := if |flat| == 1 then flat[0] else Group(connector, flat);
  }

  lemma FlattenedStep(connector: Connector, flat: seq<Node>, children: seq<Node>, i: nat)
    requires i < |children|
    ensures flat + Flattened(connector, children[i..]) ==
            flat + Opened(connector, children[i]) + Flattened(connector, children[i + 1..])
  {
    assert children[i..][1..] == children[i + 1..];
    assert Flattened(connector, children[i..]) == Opened(connector, children[i]) + Flattened(connector, children[i + 1..]);
    hide Flattened, Opened;
  }

  lemma {:induction false} FlattenedNormal(connector: Connector, children: seq<Node>)
    requires forall child :: child in children ==> Normal(child)
    ensures var flat := Flattened(connector, children);
            |flat| >= |children| &&
            forall child :: child in flat ==> Normal(child) && !IsGroupOf(connector, child)
  {
    if children == [] {
    } else {
      assert children[0] in children;
      FlattenedNormal(connector, children[1..]);
    }
  }

  /** Collapsing as groups are built is enough to stay in normal form, whatever is grouped. */
  lemma GroupNodeNormal(connector: Connector, children: seq<Node>)
    requires children != [] && forall child :: child in children ==> Normal(child)
    ensures Normal(GroupNode(connector, children))
  {
    FlattenedNormal(connector, children);
  }

  /** Regrouping the children of a normal group, or a lone child, changes nothing. */
  lemma {:induction false} FlattenedId(connector: Connector, children: seq<Node>)
    requires forall child :: child in children ==> !IsGroupOf(connector, child)
    ensures Flattened(connector, children) == children
  {
    if children == [] {
    } else {
      FlattenedId(connector, children[1..]);
    }
  }

  lemma GroupNodeLone(connector: Connector, node: Node)
    requires Normal(node)
    ensures GroupNode(connector, [node]) == node
  {
    assert Flattened(connector, []) == [];
    assert Flattened(connector, [node]) == Opened(connector, node) + [];
    assert Flattened(connector, [node]) == Opened(connector, node);
  }

  lemma GroupNodeId(node: Node)
    requires node.Group? && Normal(node)
    ensures GroupNode(node.connector, node.children) == node
  {
    FlattenedId(node.connector, node.children);
  }

  // ----- Printing -----

  function ParticipantToBart(p: Participant): Result<string, PrintProblem> {
    match p
    case Me => Ok("me")
    case Requester => Ok("requester")
    case AnyOf(attrs) =>
      var text :- EmitAttrs(attrs);
      Ok("(" + Clause("any", text) + ")")
    case AllOf(attrs) =>
      var text :- EmitAttrs(attrs);
      Ok("(" + Clause("all", text) + ")")
  }

  function RequireResource(attrs: Attrs): Result<string, PrintProblem> {
    if attrs == [] then Err(NoResource) else EmitAttrs(attrs)
  }

  /** As wide as what stands before the first term of a broken exchange. */
  const TERM_INDENT := "           "

  function TermToBart(term: ExchangeTerm, keySeparator: string): Result<string, PrintProblem> {
    var to :- ParticipantToBart(term.to);
    var from :- ParticipantToBart(term.from);
    var resource :- RequireResource(term.resource);
    Ok("(" + Join([Clause("to", to), Clause("resource", resource), Clause("from", from)], "," + keySeparator) + ")")
  }

  function ConnectorText(connector: Connector): string {
    match connector
    case And => "and"
    case Or => "or"
  }

  function NodeToBart(node: Node, keySeparator: string, between: string): Result<string, PrintProblem>
    decreases node, 0
  {
    match node
    case Term(term) => TermToBart(term, keySeparator)
    case Group(connector, children) =>
      if children == [] then Err(NoTerm)
      else
        var parts :- NodesToBart(children, keySeparator, between);
        Ok("(" + Join(parts, between + ConnectorText(connector) + between) + ")")
  }

  function NodesToBart(nodes: seq<Node>, keySeparator: string, between: string): (r: Result<seq<string>, PrintProblem>)
    ensures r.Ok? ==> |r.value| == |nodes|
    decreases nodes, 1
  {
    if nodes == [] then Ok([])
    else
      var first :- NodeToBart(nodes[0], keySeparator, between);
      var rest :- NodesToBart(nodes[1..], keySeparator, between);
      Ok([first] + rest)
  }

  function ExchangeToBart(node: Node, broken: bool): Result<string, PrintProblem> {
    var keySeparator := if broken then "\n" + TERM_INDENT + (if node.Group? then " " else "") else " ";
    NodeToBart(node, keySeparator, if broken then "\n" + TERM_INDENT else " ")
  }

  /** The clauses of a rule, in order; an empty condition is no condition. */
  function Clauses(resource: string, condition: Option<string>, exchange: Option<string>): seq<string> {
    [Clause("resource", resource)]
    + (if condition.Some? && condition.value != "" then [Clause("condition", "(" + condition.value + ")")] else [])
    + (if exchange.Some? then [Clause("exchange", exchange.value)] else [])
  }

  function PrintExchange(exchange: Option<Node>, broken: bool): Result<Option<string>, PrintProblem> {
    match exchange
    case None => Ok(None)
    case Some(node) =>
      var text :- ExchangeToBart(node, broken);
      Ok(Some(text))
  }

  /** The two layouts of a rule. */
  function Layout(tree: RuleTree, broken: bool): Result<string, PrintProblem> {
    var resource :- RequireResource(tree.resource);
    var exchange :- PrintExchange(tree.exchange, broken);
    Ok("(" + Join(Clauses(resource, tree.condition, exchange), if broken then ",\n " else ", ") + ")")
  }

  function PrintTree(tree: RuleTree, width: int): Result<string, PrintProblem> {
    var oneLine :- Layout(tree, false);
    if |oneLine| <= width then Ok(oneLine) else Layout(tree, true)
  }

  // ----- The tokens a rule is written with -----

  function ParticipantLex(p: Participant): seq<Lexeme> {
    match p
    case Me => [N("me")]
    case Requester => [N("requester")]
    case AnyOf(attrs) => [P("(")] + ClauseLex("any", AttrsLex(attrs)) + [P(")")]
    case AllOf(attrs) => [P("(")] + ClauseLex("all", AttrsLex(attrs)) + [P(")")]
  }

  function TermLex(term: ExchangeTerm): seq<Lexeme> {
    [P("(")]
    + JoinLex([ClauseLex("to", ParticipantLex(term.to)), ClauseLex("resource", AttrsLex(term.resource)),
               ClauseLex("from", ParticipantLex(term.from))], [P(",")])
    + [P(")")]
  }

  function NodeLex(node: Node): seq<Lexeme>
    decreases node, 0
  {
    match node
    case Term(term) => TermLex(term)
    case Group(connector, children) =>
      [P("(")] + JoinLex(NodesLex(children), [N(ConnectorText(connector))]) + [P(")")]
  }

  function NodesLex(nodes: seq<Node>): (r: seq<seq<Lexeme>>)
    ensures |r| == |nodes|
    decreases nodes, 1
  {
    if nodes == [] then [] else [NodeLex(nodes[0])] + NodesLex(nodes[1..])
  }

  /** The tokens of the clauses, given those of the condition. */
  function ClausesLex(tree: RuleTree, condition: seq<Lexeme>): seq<seq<Lexeme>> {
    [ClauseLex("resource", AttrsLex(tree.resource))]
    + (if tree.condition.Some? && tree.condition.value != ""
       then [ClauseLex("condition", [P("(")] + condition + [P(")")])] else [])
    + (if tree.exchange.Some? then [ClauseLex("exchange", NodeLex(tree.exchange.value))] else [])
  }

  function TreeLex(tree: RuleTree, condition: seq<Lexeme>): seq<Lexeme> {
    [P("(")] + JoinLex(ClausesLex(tree, condition), [P(",")]) + [P(")")]
  }

  // ----- What can be written -----

  predicate WritableParticipant(p: Participant) { (p.AnyOf? || p.AllOf?) ==> Writable(p.attrs) }

  predicate WritableTerm(term: ExchangeTerm) {
    WritableParticipant(term.to) && WritableParticipant(term.from) && term.resource != [] && Writable(term.resource)
  }

  predicate WritableNode(node: Node) {
    match node
    case Term(term) => WritableTerm(term)
    case Group(_, children) => children != [] && forall child :: child in children ==> WritableNode(child)
  }

  /** White space only, as the printer puts between clauses. */
  predicate Blanks(s: string) { s != "" && forall c :: c in s ==> IsBlank(c) }

  lemma SpellsParticipant(p: Participant)
    requires WritableParticipant(p)
    ensures ParticipantToBart(p).Ok? && Spells(ParticipantToBart(p).value, ParticipantLex(p))
  {
    hide Spells;
    match p
    case Me => SpellsName("me");
    case Requester => SpellsName("requester");
    case AnyOf(attrs) =>
      SpellsQuantified("any", attrs);
    case AllOf(attrs) =>
      SpellsQuantified("all", attrs);
  }

  lemma SpellsQuantified(quantifier: string, attrs: Attrs)
    requires quantifier in {"any", "all"} && Writable(attrs)
    ensures EmitAttrs(attrs).Ok?
    ensures Spells("(" + Clause(quantifier, EmitAttrs(attrs).value) + ")",
                   [P("(")] + ClauseLex(quantifier, AttrsLex(attrs)) + [P(")")])
  {
    hide Spells;
    SpellsAttrs(attrs);
    SpellsClause(quantifier, EmitAttrs(attrs).value, AttrsLex(attrs));
    SpellsWrap('(', Clause(quantifier, EmitAttrs(attrs).value), ClauseLex(quantifier, AttrsLex(attrs)), ')');
  }

  lemma CommaSeparates(blanks: string)
    requires Blanks(blanks)
    ensures Separates("," + blanks, [P(",")])
  {
    SpellsHard(',');
    SpellsBlanks(blanks);
    SpellsAppend(",", [P(",")], blanks, []);
    assert [P(",")] + [] == [P(",")];
    assert blanks[|blanks| - 1] in blanks;
  }

  lemma ConnectorSeparates(connector: Connector, blanks: string)
    requires Blanks(blanks)
    ensures Separates(blanks + ConnectorText(connector) + blanks, [N(ConnectorText(connector))])
  {
    var t := ConnectorText(connector);
    SpellsName(t);
    SpellsBlanks(blanks);
    assert blanks[|blanks| - 1] in blanks && blanks[0] in blanks;
    SpellsAppend(blanks, [], t, [N(t)]);
    SpellsAppend(blanks + t, [] + [N(t)], blanks, []);
    assert [] + [N(t)] + [] == [N(t)];
  }

  lemma SpellsTerm(term: ExchangeTerm, keySeparator: string)
    requires WritableTerm(term) && Blanks(keySeparator)
    ensures TermToBart(term, keySeparator).Ok? && Spells(TermToBart(term, keySeparator).value, TermLex(term))
  {
    hide Spells, JoinLex, Join, Separates, ParticipantLex, AttrsLex, ParticipantToBart, EmitAttrs;
    SpellsParticipant(term.to);
    SpellsParticipant(term.from);
    SpellsAttrs(term.resource);
    var to, from, resource := ParticipantToBart(term.to).value, ParticipantToBart(term.from).value, EmitAttrs(term.resource).value;
    SpellsClause("to", to, ParticipantLex(term.to));
    SpellsClause("resource", resource, AttrsLex(term.resource));
    SpellsClause("from", from, ParticipantLex(term.from));
    var parts := [Clause("to", to), Clause("resource", resource), Clause("from", from)];
    var lx := [ClauseLex("to", ParticipantLex(term.to)), ClauseLex("resource", AttrsLex(term.resource)),
               ClauseLex("from", ParticipantLex(term.from))];
    CommaSeparates(keySeparator);
    SpellsJoin(parts, lx, "," + keySeparator, [P(",")]);
    SpellsWrap('(', Join(parts, "," + keySeparator), JoinLex(lx, [P(",")]), ')');
  }

  lemma {:induction false} SpellsNode(node: Node, keySeparator: string, between: string)
    requires WritableNode(node) && Blanks(keySeparator) && Blanks(between)
    ensures NodeToBart(node, keySeparator, between).Ok?
    ensures Spells(NodeToBart(node, keySeparator, between).value, NodeLex(node))
    decreases node, 0
  {
    hide Spells, Separates, Join, JoinLex;
    match node
    case Term(term) =>
      SpellsTerm(term, keySeparator);
    case Group(connector, children) =>
      SpellsNodes(children, keySeparator, between);
      var parts := NodesToBart(children, keySeparator, between).value;
      var sep := between + ConnectorText(connector) + between;
      ConnectorSeparates(connector, between);
      SpellsJoin(parts, NodesLex(children), sep, [N(ConnectorText(connector))]);
      SpellsWrap('(', Join(parts, sep), JoinLex(NodesLex(children), [N(ConnectorText(connector))]), ')');
  }

  lemma {:induction false} SpellsNodes(nodes: seq<Node>, keySeparator: string, between: string)
    requires forall node :: node in nodes ==> WritableNode(node)
    requires Blanks(keySeparator) && Blanks(between)
    ensures NodesToBart(nodes, keySeparator, between).Ok?
    ensures AllSpell(NodesToBart(nodes, keySeparator, between).value, NodesLex(nodes))
    decreases nodes, 1
  {
    hide Spells, WritableNode;
    if nodes == [] {
    } else {
      SpellsNode(nodes[0], keySeparator, between);
      SpellsNodes(nodes[1..], keySeparator, between);
    }
  }

  predicate WritableTree(tree: RuleTree) {
    && tree.resource != [] && Writable(tree.resource)
    && (tree.exchange.Some? ==> WritableNode(tree.exchange.value))
  }

  /** Both layouts spell the same tokens, so the width decides nothing but white space. */
  lemma SpellsLayout(tree: RuleTree, broken: bool, condition: seq<Lexeme>)
    requires WritableTree(tree)
    requires tree.condition.Some? && tree.condition.value != "" ==> Spells(tree.condition.value, condition)
    ensures Layout(tree, broken).Ok? && Spells(Layout(tree, broken).value, TreeLex(tree, condition))
  {
    hide Spells, Separates, Join, JoinLex, EmitAttrs, AttrsLex, NodeLex, NodeToBart;
    SpellsAttrs(tree.resource);
    var resource := EmitAttrs(tree.resource).value;
    SpellsClause("resource", resource, AttrsLex(tree.resource));
    if tree.condition.Some? && tree.condition.value != "" {
      SpellsWrap('(', tree.condition.value, condition, ')');
      SpellsClause("condition", "(" + tree.condition.value + ")", [P("(")] + condition + [P(")")]);
    }
    if tree.exchange.Some? {
      SpellsExchange(tree.exchange.value, broken);
      SpellsClause("exchange", ExchangeToBart(tree.exchange.value, broken).value, NodeLex(tree.exchange.value));
    }
    var exchange := PrintExchange(tree.exchange, broken).value;
    var parts, lx := Clauses(resource, tree.condition, exchange), ClausesLex(tree, condition);
    var blanks := if broken then "\n " else " ";
    CommaSeparates(blanks);
    assert "," + blanks == if broken then ",\n " else ", ";
    SpellsJoin(parts, lx, "," + blanks, [P(",")]);
    SpellsWrap('(', Join(parts, "," + blanks), JoinLex(lx, [P(",")]), ')');
  }

  lemma SpellsExchange(node: Node, broken: bool)
    requires WritableNode(node)
    ensures ExchangeToBart(node, broken).Ok? && Spells(ExchangeToBart(node, broken).value, NodeLex(node))
  {
    hide Spells, NodeToBart, NodeLex, WritableNode;
    var keySeparator := if broken then "\n" + TERM_INDENT + (if node.Group? then " " else "") else " ";
    SpellsNode(node, keySeparator, if broken then "\n" + TERM_INDENT else " ");
  }

  lemma SpellsTree(tree: RuleTree, width: int, condition: seq<Lexeme>)
    requires WritableTree(tree)
    requires tree.condition.Some? && tree.condition.value != "" ==> Spells(tree.condition.value, condition)
    ensures PrintTree(tree, width).Ok? && Spells(PrintTree(tree, width).value, TreeLex(tree, condition))
  {
    hide Spells, Layout, TreeLex;
    SpellsLayout(tree, false, condition);
    SpellsLayout(tree, true, condition);
  }
}
