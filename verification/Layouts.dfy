/** Which layout the printer of app/frontend/src/lib/bart/rule.ts chooses: one line where that fits the width,
    and otherwise a line for each clause and each part of a term. */
module Layouts {
  import opened Lex
  import opened Munch
  import opened Spelling
  import opened Attrs
  import opened Rule

  function Spaces(n: nat): string { seq(n, _ => ' ') }

  /** The text is the rule's clauses with `between` between them, those of a term with `inTerm` after each
      comma, and the terms of a group with `inGroup` on both sides of each connector. */
  ghost predicate Written(tree: RuleTree, text: string, between: string, inTerm: string, inGroup: string) {
    exists resource: string, exchange: Option<string> ::
      && tree.resource != [] && EmitAttrs(tree.resource) == Ok(resource)
      && (if tree.exchange.None? then exchange == None
          else exchange.Some? && NodeToBart(tree.exchange.value, inTerm, inGroup) == Ok(exchange.value))
      && text == "(" + Join(Clauses(resource, tree.condition, exchange), between) + ")"
  }

  ghost predicate OnOneLine(tree: RuleTree, text: string) { Written(tree, text, ", ", " ", " ") }

  /** Every clause after the first starts a line. The parts of a lone term line up with its first, just after
      ` exchange:(`; the terms of a group and its connectors do, and so the parts of each one column on. */
  ghost predicate Broken(tree: RuleTree, text: string) {
    var column := |" exchange:("|;
    var group := tree.exchange.Some? && tree.exchange.value.Group?;
    Written(tree, text, ",\n ", "\n" + Spaces(if group then column + 1 else column), "\n" + Spaces(column))
  }

  lemma IndentIs()
    ensures TERM_INDENT == Spaces(11) && TERM_INDENT + " " == Spaces(12) && |" exchange:("| == 11
  {
    assert TERM_INDENT == Spaces(11);
  }

  lemma LayoutIs(tree: RuleTree, broken: bool)
    requires Layout(tree, broken).Ok?
    ensures if broken then Broken(tree, Layout(tree, broken).value) else OnOneLine(tree, Layout(tree, broken).value)
  {
    hide NodeToBart, EmitAttrs, Join, Spaces;
    IndentIs();
    assert "\n" + TERM_INDENT + " " == "\n" + (TERM_INDENT + " ");
    assert "\n" + TERM_INDENT + "" == "\n" + TERM_INDENT;
  }

  lemma WrittenOnce(tree: RuleTree, a: string, b: string, between: string, inTerm: string, inGroup: string)
    requires Written(tree, a, between, inTerm, inGroup) && Written(tree, b, between, inTerm, inGroup)
    ensures a == b
  {
    hide NodeToBart, EmitAttrs, Join;
  }

  // ----- A broken layout is no shorter than one line -----

  lemma {:induction false} JoinLonger(a: seq<string>, b: seq<string>, s: string, t: string)
    requires |a| == |b| && (forall i :: 0 <= i < |a| ==> |a[i]| <= |b[i]|) && |s| <= |t|
    ensures |Join(a, s)| <= |Join(b, t)|
  {
    if |a| <= 1 {
    } else {
      JoinLonger(a[1..], b[1..], s, t);
    }
  }

  lemma TermLonger(term: ExchangeTerm, s: string, t: string)
    requires |s| <= |t|
    ensures TermToBart(term, s).Ok? <==> TermToBart(term, t).Ok?
    ensures TermToBart(term, s).Ok? ==> |TermToBart(term, s).value| <= |TermToBart(term, t).value|
  {
    hide ParticipantToBart, EmitAttrs, Join;
    if TermToBart(term, s).Ok? {
      var parts := [Clause("to", ParticipantToBart(term.to).value), Clause("resource", EmitAttrs(term.resource).value),
                    Clause("from", ParticipantToBart(term.from).value)];
      JoinLonger(parts, parts, "," + s, "," + t);
    }
  }

  lemma {:induction false} NodeLonger(node: Node, s: string, t: string, x: string, y: string)
    requires |s| <= |t| && |x| <= |y|
    ensures NodeToBart(node, s, x).Ok? <==> NodeToBart(node, t, y).Ok?
    ensures NodeToBart(node, s, x).Ok? ==> |NodeToBart(node, s, x).value| <= |NodeToBart(node, t, y).value|
    decreases node, 0
  {
    hide TermToBart, Join;
    match node
    case Term(term) => TermLonger(term, s, t);
    case Group(connector, children) =>
      NodesLonger(children, s, t, x, y);
      if NodesToBart(children, s, x).Ok? {
        var c := ConnectorText(connector);
        JoinLonger(NodesToBart(children, s, x).value, NodesToBart(children, t, y).value, x + c + x, y + c + y);
      }
  }

  lemma {:induction false} NodesLonger(nodes: seq<Node>, s: string, t: string, x: string, y: string)
    requires |s| <= |t| && |x| <= |y|
    ensures NodesToBart(nodes, s, x).Ok? <==> NodesToBart(nodes, t, y).Ok?
    ensures NodesToBart(nodes, s, x).Ok? ==>
              forall i :: 0 <= i < |nodes| ==> |NodesToBart(nodes, s, x).value[i]| <= |NodesToBart(nodes, t, y).value[i]|
    decreases nodes, 1
  {
    hide NodeToBart;
    if nodes == [] {
    } else {
      NodeLonger(nodes[0], s, t, x, y);
      NodesLonger(nodes[1..], s, t, x, y);
    }
  }

  lemma BrokenIsLonger(tree: RuleTree)
    ensures Layout(tree, false).Ok? <==> Layout(tree, true).Ok?
    ensures Layout(tree, false).Ok? ==> |Layout(tree, false).value| <= |Layout(tree, true).value|
  {
    hide NodeToBart, EmitAttrs, Join;
    if tree.exchange.Some? {
      var node := tree.exchange.value;
      NodeLonger(node, " ", "\n" + TERM_INDENT + (if node.Group? then " " else ""), " ", "\n" + TERM_INDENT);
    }
    if Layout(tree, false).Ok? {
      var resource := RequireResource(tree.resource).value;
      var one, broken := PrintExchange(tree.exchange, false).value, PrintExchange(tree.exchange, true).value;
      JoinLonger(Clauses(resource, tree.condition, one), Clauses(resource, tree.condition, broken), ", ", ",\n ");
    }
  }

  // ----- Which rules print -----

  predicate FiniteScalar(v: Scalar) { v.Num? ==> v.text != "NaN" && v.text != "Infinity" && v.text != "-Infinity" }

  predicate FiniteValue(v: Value) {
    match v
    case One(scalar) => FiniteScalar(scalar)
    case Many(items) => forall k :: 0 <= k < |items| ==> FiniteScalar(items[k])
  }

  /** Every key is a name and no word of the language, and every number is finite. */
  predicate PrintableAttrs(attrs: Attrs) {
    forall k :: 0 <= k < |attrs| ==> WritableKey(attrs[k].key) && FiniteValue(attrs[k].value)
  }

  predicate PrintableParticipant(p: Participant) { p.AnyOf? || p.AllOf? ==> PrintableAttrs(p.attrs) }

  /** Besides, every term names a resource and every group holds a term. */
  predicate PrintableNode(node: Node) {
    match node
    case Term(term) =>
      && PrintableParticipant(term.to) && PrintableParticipant(term.from)
      && term.resource != [] && PrintableAttrs(term.resource)
    case Group(_, children) => children != [] && forall k :: 0 <= k < |children| ==> PrintableNode(children[k])
  }

  predicate PrintableTree(tree: RuleTree) {
    && tree.resource != [] && PrintableAttrs(tree.resource)
    && (tree.exchange.Some? ==> PrintableNode(tree.exchange.value))
  }

  lemma {:induction false} AllPrint(items: seq<Scalar>)
    ensures FormatAll(items).Ok? <==> forall k :: 0 <= k < |items| ==> FiniteScalar(items[k])
  {
    if items == [] {
    } else {
      AllPrint(items[1..]);
      assert forall k :: 0 < k < |items| ==> items[k] == items[1..][k - 1];
    }
  }

  lemma AttrPrints(a: Attr)
    ensures FormatAttr(a).Ok? <==> WritableKey(a.key) && FiniteValue(a.value)
  {
    hide IsName, FormatAll, Join;
    match a.value
    case One(_) =>
    case Many(items) => AllPrint(items);
  }

  lemma AttrsPrint(attrs: Attrs)
    ensures EmitAttrs(attrs).Ok? <==> PrintableAttrs(attrs)
  {
    hide FormatAttr, EmitAttrs, FiniteValue, WritableKey;
    EmitsExactly(attrs);
    forall k | 0 <= k < |attrs|
      ensures FormatAttr(attrs[k]).Ok? <==> WritableKey(attrs[k].key) && FiniteValue(attrs[k].value)
    {
      AttrPrints(attrs[k]);
    }
    assert forall k :: 0 <= k < |attrs| ==> attrs[k] in attrs;
  }

  lemma ParticipantPrints(p: Participant)
    ensures ParticipantToBart(p).Ok? <==> PrintableParticipant(p)
  {
    hide EmitAttrs, PrintableAttrs;
    if p.AnyOf? || p.AllOf? {
      AttrsPrint(p.attrs);
    }
  }

  lemma {:induction false} NodePrints(node: Node, s: string, x: string)
    ensures NodeToBart(node, s, x).Ok? <==> PrintableNode(node)
    decreases node, 0
  {
    hide ParticipantToBart, EmitAttrs, Join, PrintableAttrs, PrintableParticipant;
    match node
    case Term(term) =>
      ParticipantPrints(term.to);
      ParticipantPrints(term.from);
      AttrsPrint(term.resource);
    case Group(_, children) => NodesPrint(children, s, x);
  }

  lemma {:induction false} NodesPrint(nodes: seq<Node>, s: string, x: string)
    ensures NodesToBart(nodes, s, x).Ok? <==> forall k :: 0 <= k < |nodes| ==> PrintableNode(nodes[k])
    decreases nodes, 1
  {
    hide NodeToBart, PrintableNode;
    if nodes == [] {
    } else {
      NodePrints(nodes[0], s, x);
      NodesPrint(nodes[1..], s, x);
      assert forall k :: 0 < k < |nodes| ==> nodes[k] == nodes[1..][k - 1];
    }
  }

  lemma LayoutPrints(tree: RuleTree)
    ensures Layout(tree, false).Ok? <==> PrintableTree(tree)
  {
    hide NodeToBart, EmitAttrs, Join, PrintableAttrs, PrintableNode;
    AttrsPrint(tree.resource);
    if tree.exchange.Some? {
      NodePrints(tree.exchange.value, " ", " ");
    }
  }

  // ----- The choice -----

  /** Which rules can be printed does not hang on the width. A text that fits is on one line, and no layout
      of the rule is shorter; one that does not fit is broken, and no layout of the rule fits. */
  lemma WidthExact(tree: RuleTree, width: int)
    ensures PrintTree(tree, width).Ok? <==> PrintableTree(tree)
    ensures PrintTree(tree, width).Ok? ==>
      var text := PrintTree(tree, width).value;
      && (if |text| <= width then OnOneLine(tree, text) else Broken(tree, text))
      && forall other :: OnOneLine(tree, other) || Broken(tree, other) ==>
           (if |text| <= width then |text| <= |other| else |other| > width)
  {
    hide Layout, OnOneLine, Broken, PrintableTree;
    LayoutPrints(tree);
    BrokenIsLonger(tree);
    if PrintTree(tree, width).Ok? {
      LayoutIs(tree, false);
      LayoutIs(tree, true);
      forall other | OnOneLine(tree, other) || Broken(tree, other)
        ensures other == Layout(tree, false).value || other == Layout(tree, true).value
      {
        LayoutOnce(tree, other);
      }
    }
  }

  lemma LayoutOnce(tree: RuleTree, other: string)
    requires Layout(tree, false).Ok? && Layout(tree, true).Ok? && (OnOneLine(tree, other) || Broken(tree, other))
    ensures other == Layout(tree, false).value || other == Layout(tree, true).value
  {
    hide Layout, Written, Spaces;
    LayoutIs(tree, false);
    LayoutIs(tree, true);
    var group := tree.exchange.Some? && tree.exchange.value.Group?;
    if OnOneLine(tree, other) {
      WrittenOnce(tree, other, Layout(tree, false).value, ", ", " ", " ");
    } else {
      var column := |" exchange:("|;
      WrittenOnce(tree, other, Layout(tree, true).value, ",\n ", "\n" + Spaces(if group then column + 1 else column), "\n" + Spaces(column));
    }
  }
}
