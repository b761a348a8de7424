/** What an exchange means: the parser against the precedence grammar of `Bart.g4`, where `and`
    binds tighter than `or` and both associate to the left. */
module Meaning {
  import opened Lex
  import opened Attrs
  import opened Rule
  import opened Parse

  /** Which terms are granted. */
  type Valuation = ExchangeTerm -> bool

  predicate Eval(node: Node, v: Valuation)
    decreases node, 0
  {
    match node
    case Term(term) => v(term)
    case Group(And, children) => EvalAll(children, v)
    case Group(Or, children) => EvalSome(children, v)
  }

  predicate EvalAll(nodes: seq<Node>, v: Valuation)
    decreases nodes, 1
  {
    nodes == [] || (Eval(nodes[0], v) && EvalAll(nodes[1..], v))
  }

  predicate EvalSome(nodes: seq<Node>, v: Valuation)
    decreases nodes, 1
  {
    nodes != [] && (Eval(nodes[0], v) || EvalSome(nodes[1..], v))
  }

  predicate EvalBy(connector: Connector, nodes: seq<Node>, v: Valuation) {
    match connector
    case And => EvalAll(nodes, v)
    case Or => EvalSome(nodes, v)
  }

  lemma {:induction false} EvalAppend(connector: Connector, a: seq<Node>, b: seq<Node>, v: Valuation)
    ensures EvalBy(connector, a + b, v) ==
      if connector == And then EvalAll(a, v) && EvalAll(b, v) else EvalSome(a, v) || EvalSome(b, v)
    decreases |a|
  {
    hide Eval;
    if a == [] {
      assert a + b == b;
    } else {
      EvalAppend(connector, a[1..], b, v);
      assert (a + b)[1..] == a[1..] + b && (a + b)[0] == a[0];
    }
  }

  lemma EvalLone(connector: Connector, node: Node, v: Valuation)
    ensures EvalBy(connector, [node], v) == Eval(node, v)
  {
    assert [node][1..] == [] && [node][0] == node;
    assert EvalAll([], v) && !EvalSome([], v);
  }

  lemma {:induction false} EvalFlattened(connector: Connector, nodes: seq<Node>, v: Valuation)
    ensures EvalBy(connector, Flattened(connector, nodes), v) == EvalBy(connector, nodes, v)
    decreases |nodes|
  {
    hide Eval;
    if nodes == [] {
    } else {
      EvalFlattened(connector, nodes[1..], v);
      EvalAppend(connector, Opened(connector, nodes[0]), Flattened(connector, nodes[1..]), v);
      EvalOpened(connector, nodes[0], v);
    }
  }

  lemma EvalOpened(connector: Connector, node: Node, v: Valuation)
    ensures EvalBy(connector, Opened(connector, node), v) == Eval(node, v)
  {
    if !IsGroupOf(connector, node) {
      EvalLone(connector, node, v);
    }
  }

  /** Collapsing nested groups changes no value. */
  lemma EvalGroupNode(connector: Connector, nodes: seq<Node>, v: Valuation)
    ensures Eval(GroupNode(connector, nodes), v) == EvalBy(connector, nodes, v)
  {
    EvalFlattened(connector, nodes, v);
    var flat := Flattened(connector, nodes);
    if |flat| == 1 {
      EvalLone(connector, flat[0], v);
      assert flat == [flat[0]];
    }
  }

  // ----- The grammar -----

  datatype Expr =
    | Single(term: ExchangeTerm)
    | Paren(inner: Expr)
    | AndX(left: Expr, right: Expr)
    | OrX(left: Expr, right: Expr)

  predicate IsPrimary(e: Expr)
    decreases e, 0
  {
    e.Single? || (e.Paren? && IsOr(e.inner))
  }

  predicate IsAnd(e: Expr)
    decreases e, 1
  {
    IsPrimary(e) || (e.AndX? && IsAnd(e.left) && IsPrimary(e.right))
  }

  predicate IsOr(e: Expr)
    decreases e, 2
  {
    IsAnd(e) || (e.OrX? && IsOr(e.left) && IsAnd(e.right))
  }

  predicate Value(e: Expr, v: Valuation) {
    match e
    case Single(term) => v(term)
    case Paren(inner) => Value(inner, v)
    case AndX(left, right) => Value(left, v) && Value(right, v)
    case OrX(left, right) => Value(left, v) || Value(right, v)
  }

  /** The tree of a derivation. */
  function NodeOf(e: Expr): Node {
    match e
    case Single(term) => Term(term)
    case Paren(inner) => NodeOf(inner)
    case AndX(left, right) => GroupNode(And, [NodeOf(left), NodeOf(right)])
    case OrX(left, right) => GroupNode(Or, [NodeOf(left), NodeOf(right)])
  }

  /** The terms of a derivation, and of a tree, in the order they are written. */
  function TermsOf(e: Expr): seq<ExchangeTerm> {
    match e
    case Single(term) => [term]
    case Paren(inner) => TermsOf(inner)
    case AndX(left, right) => TermsOf(left) + TermsOf(right)
    case OrX(left, right) => TermsOf(left) + TermsOf(right)
  }

  function TermsIn(node: Node): seq<ExchangeTerm>
    decreases node, 0
  {
    match node
    case Term(term) => [term]
    case Group(_, children) => TermsInAll(children)
  }

  function TermsInAll(nodes: seq<Node>): seq<ExchangeTerm>
    decreases nodes, 1
  {
    if nodes == [] then [] else TermsIn(nodes[0]) + TermsInAll(nodes[1..])
  }

  lemma {:induction false} TermsAppend(a: seq<Node>, b: seq<Node>)
    ensures TermsInAll(a + b) == TermsInAll(a) + TermsInAll(b)
    decreases |a|
  {
    hide TermsIn;
    if a == [] {
      assert a + b == b;
    } else {
      TermsAppend(a[1..], b);
      assert (a + b)[1..] == a[1..] + b && (a + b)[0] == a[0];
    }
  }

  lemma TermsLone(node: Node)
    ensures TermsInAll([node]) == TermsIn(node)
  {
    assert [node][1..] == [] && TermsInAll([]) == [];
  }

  lemma {:induction false} TermsFlattened(connector: Connector, nodes: seq<Node>)
    ensures TermsInAll(Flattened(connector, nodes)) == TermsInAll(nodes)
  {
    if nodes == [] {
    } else {
      TermsFlattened(connector, nodes[1..]);
      TermsAppend(Opened(connector, nodes[0]), Flattened(connector, nodes[1..]));
      TermsLone(nodes[0]);
    }
  }

  /** Grouping keeps every term, in its place. */
  lemma TermsGroupNode(connector: Connector, nodes: seq<Node>)
    ensures TermsIn(GroupNode(connector, nodes)) == TermsInAll(nodes)
  {
    TermsFlattened(connector, nodes);
    var flat := Flattened(connector, nodes);
    if |flat| == 1 {
      TermsLone(flat[0]);
      assert flat == [flat[0]];
    }
  }

  lemma TermsPair(a: Node, b: Node)
    ensures TermsInAll([a, b]) == TermsIn(a) + TermsIn(b)
  {
    TermsLone(b);
    assert [a, b][1..] == [b];
  }

  lemma EvalPair(connector: Connector, a: Node, b: Node, v: Valuation)
    ensures EvalBy(connector, [a, b], v) == if connector == And then Eval(a, v) && Eval(b, v) else Eval(a, v) || Eval(b, v)
  {
    EvalAppend(connector, [a], [b], v);
    EvalLone(connector, a, v);
    EvalLone(connector, b, v);
    assert [a] + [b] == [a, b];
  }

  /** The tree of a derivation is in normal form, holds its terms in their order, and means what it means. */
  lemma {:induction false} NodeOfMeans(e: Expr)
    ensures Normal(NodeOf(e)) && TermsIn(NodeOf(e)) == TermsOf(e)
    ensures forall v: Valuation :: Eval(NodeOf(e), v) == Value(e, v)
  {
    hide Normal, GroupNode, Eval, EvalBy, TermsIn, TermsInAll;
    match e
    case Single(term) => LoneTerm(term);
    case Paren(inner) => NodeOfMeans(inner);
    case AndX(left, right) =>
      NodeOfMeans(left);
      NodeOfMeans(right);
      PairMeans(And, NodeOf(left), NodeOf(right));
    case OrX(left, right) =>
      NodeOfMeans(left);
      NodeOfMeans(right);
      PairMeans(Or, NodeOf(left), NodeOf(right));
  }

  lemma LoneTerm(term: ExchangeTerm)
    ensures Normal(Term(term)) && TermsIn(Term(term)) == [term] && forall v: Valuation :: Eval(Term(term), v) == v(term)
  {
  }

  lemma PairMeans(connector: Connector, a: Node, b: Node)
    requires Normal(a) && Normal(b)
    ensures Normal(GroupNode(connector, [a, b])) && TermsIn(GroupNode(connector, [a, b])) == TermsIn(a) + TermsIn(b)
    ensures forall v: Valuation :: Eval(GroupNode(connector, [a, b]), v) ==
              if connector == And then Eval(a, v) && Eval(b, v) else Eval(a, v) || Eval(b, v)
  {
    hide *;
    assert forall x :: x in [a, b] ==> x == a || x == b;
    GroupNodeNormal(connector, [a, b]);
    TermsGroupNode(connector, [a, b]);
    TermsPair(a, b);
    forall v: Valuation
      ensures Eval(GroupNode(connector, [a, b]), v) ==
                if connector == And then Eval(a, v) && Eval(b, v) else Eval(a, v) || Eval(b, v)
    {
      EvalGroupNode(connector, [a, b], v);
      EvalPair(connector, a, b, v);
    }
  }

  lemma {:induction false} FlattenedAppend(connector: Connector, a: seq<Node>, b: seq<Node>)
    ensures Flattened(connector, a + b) == Flattened(connector, a) + Flattened(connector, b)
    decreases |a|
  {
    hide Opened;
    if a == [] {
      assert a + b == b;
    } else {
      FlattenedAppend(connector, a[1..], b);
      assert (a + b)[1..] == a[1..] + b && (a + b)[0] == a[0];
    }
  }

  lemma FlattenedLone(connector: Connector, node: Node)
    ensures Flattened(connector, [node]) == Opened(connector, node)
  {
    assert [node][1..] == [] && Flattened(connector, []) == [];
  }

  /** A group built first, and then one node more, is the group of them all. */
  lemma GroupNodeMore(connector: Connector, nodes: seq<Node>, node: Node)
    requires nodes != [] && forall x :: x in nodes ==> Normal(x)
    ensures GroupNode(connector, [GroupNode(connector, nodes), node]) == GroupNode(connector, nodes + [node])
  {
    hide Normal;
    var first := GroupNode(connector, nodes);
    FlattenedNormal(connector, nodes);
    FlattenedAppend(connector, nodes, [node]);
    FlattenedAppend(connector, [first], [node]);
    FlattenedLone(connector, first);
    assert [first] + [node] == [first, node];
    var flat := Flattened(connector, nodes);
    assert Opened(connector, first) == flat by {
      if |flat| == 1 {
        assert flat[0] in flat && flat == [flat[0]];
      }
    }
  }

  /** Where the tokens at `i` end, if they spell `e`. */
  function End(js: string -> bool, ts: seq<Token>, i: nat, e: Expr): (r: Option<nat>)
    requires Tape(ts) && i < |ts|
    ensures r.Some? ==> i < r.value < |ts|
    decreases e, 0
  {
    match e
    case Single(term) =>
      if At(ts, i, "(") && OpensTerm(ts, i) && ParseTerm(js, ts, i).Done? && ParseTerm(js, ts, i).value == Term(term)
      then Some(ParseTerm(js, ts, i).next) else None
    case Paren(inner) =>
      if !At(ts, i, "(") then None
      else
        var j := End(js, ts, i + 1, inner);
        if j.Some? && At(ts, j.value, ")") then Some(j.value + 1) else None
    case AndX(left, right) => EndBoth(js, ts, End(js, ts, i, left), "and", right)
    case OrX(left, right) => EndBoth(js, ts, End(js, ts, i, left), "or", right)
  }

  function EndBoth(js: string -> bool, ts: seq<Token>, left: Option<nat>, connector: string, right: Expr): (r: Option<nat>)
    requires Tape(ts) && (left.Some? ==> left.value < |ts|)
    ensures r.Some? ==> left.Some? && left.value < r.value < |ts|
    decreases right, 1
  {
    if left.None? || !At(ts, left.value, connector) then None else End(js, ts, left.value + 1, right)
  }

  // ----- Complete: whatever the grammar derives is parsed, and means the same -----

  lemma {:induction false} ExprOpens(js: string -> bool, ts: seq<Token>, i: nat, e: Expr)
    requires Tape(ts) && i < |ts| && End(js, ts, i, e).Some?
    ensures At(ts, i, "(") && (ts[i].kind == Punct || ts[i].kind == Name)
    decreases e
  {
    hide ParseTerm, Tape;
    if e.AndX? || e.OrX? {
      ExprOpens(js, ts, i, e.left);
    }
  }

  predicate Follows(ts: seq<Token>, i: nat) { i < |ts| && !At(ts, i, "and") && !At(ts, i, "or") }

  lemma {:induction false} PrimaryComplete(js: string -> bool, ts: seq<Token>, i: nat, e: Expr)
    requires Tape(ts) && i < |ts| && IsPrimary(e) && End(js, ts, i, e).Some?
    ensures ParsePrimary(js, ts, i) == Done(NodeOf(e), End(js, ts, i, e).value)
    decreases e, 0
  {
    hide ParseTerm, ParseOr, Tape, IsOr, GroupNode;
    if e.Paren? {
      ExprOpens(js, ts, i + 1, e.inner);
      var j := End(js, ts, i + 1, e.inner).value;
      CloseFollows(ts, j);
      OrParsed(js, ts, i + 1, e.inner);
      TextIsNotTo(ts, i + 1);
    }
  }

  lemma CloseFollows(ts: seq<Token>, j: nat)
    requires j < |ts| && At(ts, j, ")")
    ensures Follows(ts, j)
  {
  }

  lemma TextIsNotTo(ts: seq<Token>, i: nat)
    requires i < |ts| && At(ts, i, "(")
    ensures !(ts[i].kind == Name && ts[i].text == "to")
  {
  }

  /** A chain of `and`s, read by the loop: the operands before the loop goes on to `rest`. */
  lemma {:induction false} AndChain(js: string -> bool, ts: seq<Token>, i: nat, e: Expr, rest: seq<Node>, j: nat) returns (ns: seq<Node>)
    requires Tape(ts) && i < |ts| && IsAnd(e) && End(js, ts, i, e).Some? && MoreAnds(js, ts, End(js, ts, i, e).value) == Done(rest, j)
    ensures ns != [] && ParsePrimary(js, ts, i).Done? && ParsePrimary(js, ts, i).value == ns[0]
    ensures MoreAnds(js, ts, ParsePrimary(js, ts, i).next) == Done(ns[1..] + rest, j)
    ensures (forall x :: x in ns ==> Normal(x)) && GroupNode(And, ns) == NodeOf(e)
    decreases e, 1
  {
    hide ParsePrimary, Tape, IsOr, Normal, GroupNode, ParseTerm, At;
    if IsPrimary(e) {
      PrimaryComplete(js, ts, i, e);
      ns := [ParsePrimary(js, ts, i).value];
      NodeOfMeans(e);
      GroupNodeLone(And, ns[0]);
      assert ns[1..] + rest == rest;
    } else {
      var k := End(js, ts, i, e.left).value;
      PrimaryComplete(js, ts, k + 1, e.right);
      NodeOfMeans(e.right);
      var right := ParsePrimary(js, ts, k + 1).value;
      ns := AndChain(js, ts, i, e.left, [right] + rest, j);
      GroupNodeMore(And, ns, right);
      assert (ns + [right])[1..] + rest == ns[1..] + ([right] + rest);
      ns := ns + [right];
    }
  }

  lemma {:induction false} AndComplete(js: string -> bool, ts: seq<Token>, i: nat, e: Expr)
    requires Tape(ts) && i < |ts| && IsAnd(e) && End(js, ts, i, e).Some? && !At(ts, End(js, ts, i, e).value, "and")
    ensures ParseAnd(js, ts, i) == Done(NodeOf(e), End(js, ts, i, e).value)
    decreases e, 2
  {
    hide ParsePrimary, Tape, IsAnd, NodeOf, GroupNode, End;
    var j := End(js, ts, i, e).value;
    var ns := AndChain(js, ts, i, e, [], j);
    assert ns[1..] + [] == ns[1..] && [ns[0]] + ns[1..] == ns;
  }

  lemma {:induction false} OrChain(js: string -> bool, ts: seq<Token>, i: nat, e: Expr, rest: seq<Node>, j: nat) returns (ns: seq<Node>)
    requires Tape(ts) && i < |ts| && IsOr(e) && End(js, ts, i, e).Some? && MoreOrs(js, ts, End(js, ts, i, e).value) == Done(rest, j)
    requires !At(ts, End(js, ts, i, e).value, "and")
    ensures ns != [] && ParseAnd(js, ts, i).Done? && ParseAnd(js, ts, i).value == ns[0]
    ensures MoreOrs(js, ts, ParseAnd(js, ts, i).next) == Done(ns[1..] + rest, j)
    ensures (forall x :: x in ns ==> Normal(x)) && GroupNode(Or, ns) == NodeOf(e)
    decreases e, 3
  {
    hide ParseAnd, Tape, IsAnd, Normal, GroupNode, ParseTerm;
    if IsAnd(e) {
      AndComplete(js, ts, i, e);
      ns := [ParseAnd(js, ts, i).value];
      NodeOfMeans(e);
      GroupNodeLone(Or, ns[0]);
      assert ns[1..] + rest == rest;
    } else {
      var k := End(js, ts, i, e.left).value;
      AndComplete(js, ts, k + 1, e.right);
      NodeOfMeans(e.right);
      var right := ParseAnd(js, ts, k + 1).value;
      ns := OrChain(js, ts, i, e.left, [right] + rest, j);
      GroupNodeMore(Or, ns, right);
      assert (ns + [right])[1..] + rest == ns[1..] + ([right] + rest);
      ns := ns + [right];
    }
  }

  lemma {:induction false} OrParsed(js: string -> bool, ts: seq<Token>, i: nat, e: Expr)
    requires Tape(ts) && i < |ts| && IsOr(e) && End(js, ts, i, e).Some? && Follows(ts, End(js, ts, i, e).value)
    ensures ParseOr(js, ts, i) == Done(NodeOf(e), End(js, ts, i, e).value)
    decreases e, 4
  {
    hide ParseAnd, Tape, IsOr, NodeOf, GroupNode, End;
    var j := End(js, ts, i, e).value;
    var ns := OrChain(js, ts, i, e, [], j);
    assert ns[1..] + [] == ns[1..] && [ns[0]] + ns[1..] == ns;
  }

  /** Every exchange the grammar derives is parsed to its end, and the tree means what the derivation
      means and holds its terms in their order. */
  lemma OrComplete(js: string -> bool, ts: seq<Token>, i: nat, e: Expr, v: Valuation)
    requires Tape(ts) && i < |ts| && IsOr(e) && End(js, ts, i, e).Some? && Follows(ts, End(js, ts, i, e).value)
    ensures var r := ParseOr(js, ts, i);
            && r.Done? && r.next == End(js, ts, i, e).value
            && Eval(r.value, v) == Value(e, v) && TermsIn(r.value) == TermsOf(e)
  {
    hide ParseOr, Tape, IsOr, NodeOf, Eval, Value, TermsIn, TermsOf, End;
    OrParsed(js, ts, i, e);
    NodeOfMeans(e);
  }

  // ----- Sound: whatever is parsed, the grammar derives -----

  /** `e` is a derivation of the tokens from `i` to `j` that means what `node` means. */
  ghost predicate Reads(js: string -> bool, ts: seq<Token>, i: nat, e: Expr, j: nat, node: Node)
    requires Tape(ts) && i < |ts|
  {
    End(js, ts, i, e) == Some(j) && forall v: Valuation :: Value(e, v) == Eval(node, v)
  }

  lemma {:induction false} PrimarySound(js: string -> bool, ts: seq<Token>, i: nat) returns (e: Expr)
    requires Tape(ts) && i < |ts| && ParsePrimary(js, ts, i).Done?
    ensures IsPrimary(e) && Reads(js, ts, i, e, ParsePrimary(js, ts, i).next, ParsePrimary(js, ts, i).value)
    decreases |ts| - i, 0
  {
    hide Tape, ParseOr, IsOr, ParseTerm;
    if OpensTerm(ts, i) {
      TermIsTerm(js, ts, i);
      e := Single(ParseTerm(js, ts, i).value.term);
    } else {
      var inner := OrSound(js, ts, i + 1);
      e := Paren(inner);
    }
  }

  lemma TermIsTerm(js: string -> bool, ts: seq<Token>, i: nat)
    requires Tape(ts) && i < |ts| && ParseTerm(js, ts, i).Done?
    ensures ParseTerm(js, ts, i).value.Term?
  {
    hide Tape, ParseToClause, ParseResourceClause, ParseFromClause;
  }

  lemma {:induction false} AndsSound(js: string -> bool, ts: seq<Token>, start: nat, i: nat, left: Expr, before: seq<Node>) returns (e: Expr)
    requires Tape(ts) && start < |ts| && i < |ts| && MoreAnds(js, ts, i).Done? && IsAnd(left) && End(js, ts, start, left) == Some(i)
    requires forall v: Valuation :: Value(left, v) == EvalAll(before, v)
    ensures IsAnd(e) && End(js, ts, start, e) == Some(MoreAnds(js, ts, i).next)
    ensures forall v: Valuation :: Value(e, v) == EvalAll(before + MoreAnds(js, ts, i).value, v)
    decreases |ts| - i, 0
  {
    hide Tape, ParsePrimary, IsPrimary, Eval, EvalAll, Value, End, EndBoth;
    if At(ts, i, "and") {
      var right := PrimarySound(js, ts, i + 1);
      var x := ParsePrimary(js, ts, i + 1);
      EndStep(js, ts, start, left, i, right, x.next);
      AndStep(left, right, before, x.value);
      e := AndsSound(js, ts, start, x.next, AndX(left, right), before + [x.value]);
      assert before + [x.value] + MoreAnds(js, ts, x.next).value == before + MoreAnds(js, ts, i).value;
    } else {
      e := left;
      assert before + [] == before;
    }
  }

  lemma EndStep(js: string -> bool, ts: seq<Token>, start: nat, left: Expr, i: nat, right: Expr, j: nat)
    requires Tape(ts) && start < |ts| && i + 1 < |ts|
    requires End(js, ts, start, left) == Some(i) && End(js, ts, i + 1, right) == Some(j)
    ensures At(ts, i, "and") ==> End(js, ts, start, AndX(left, right)) == Some(j)
    ensures At(ts, i, "or") ==> End(js, ts, start, OrX(left, right)) == Some(j)
  {
    hide Tape, ParseTerm;
  }

  lemma AndStep(left: Expr, right: Expr, before: seq<Node>, node: Node)
    requires forall v: Valuation :: Value(left, v) == EvalAll(before, v)
    requires forall v: Valuation :: Value(right, v) == Eval(node, v)
    ensures forall v: Valuation :: Value(AndX(left, right), v) == EvalAll(before + [node], v)
  {
    hide Eval, EvalAll;
    forall v: Valuation
      ensures Value(AndX(left, right), v) == EvalAll(before + [node], v)
    {
      EvalAppend(And, before, [node], v);
      EvalLone(And, node, v);
    }
  }

  lemma OrStep(left: Expr, right: Expr, before: seq<Node>, node: Node)
    requires forall v: Valuation :: Value(left, v) == EvalSome(before, v)
    requires forall v: Valuation :: Value(right, v) == Eval(node, v)
    ensures forall v: Valuation :: Value(OrX(left, right), v) == EvalSome(before + [node], v)
  {
    hide Eval, EvalSome;
    forall v: Valuation
      ensures Value(OrX(left, right), v) == EvalSome(before + [node], v)
    {
      EvalAppend(Or, before, [node], v);
      EvalLone(Or, node, v);
    }
  }

  lemma GroupMeans(connector: Connector, e: Expr, nodes: seq<Node>)
    requires forall v: Valuation :: Value(e, v) == EvalBy(connector, nodes, v)
    ensures forall v: Valuation :: Value(e, v) == Eval(GroupNode(connector, nodes), v)
  {
    hide Eval, EvalBy, GroupNode, Value;
    forall v: Valuation
      ensures Value(e, v) == Eval(GroupNode(connector, nodes), v)
    {
      EvalGroupNode(connector, nodes, v);
    }
  }

  lemma LoneMeans(connector: Connector, e: Expr, node: Node)
    requires forall v: Valuation :: Value(e, v) == Eval(node, v)
    ensures forall v: Valuation :: Value(e, v) == EvalBy(connector, [node], v)
  {
    hide Eval, EvalBy, Value;
    forall v: Valuation
      ensures Value(e, v) == EvalBy(connector, [node], v)
    {
      EvalLone(connector, node, v);
    }
  }

  lemma {:induction false} AndSound(js: string -> bool, ts: seq<Token>, i: nat) returns (e: Expr)
    requires Tape(ts) && i < |ts| && ParseAnd(js, ts, i).Done?
    ensures IsAnd(e) && Reads(js, ts, i, e, ParseAnd(js, ts, i).next, ParseAnd(js, ts, i).value)
    decreases |ts| - i, 1
  {
    hide Tape, ParsePrimary, IsPrimary, Eval, Value, End, GroupNode, MoreAnds, EvalAll;
    var first := PrimarySound(js, ts, i);
    var x := ParsePrimary(js, ts, i);
    LoneMeans(And, first, x.value);
    e := AndsSound(js, ts, i, x.next, first, [x.value]);
    GroupMeans(And, e, [x.value] + MoreAnds(js, ts, x.next).value);
  }

  lemma {:induction false} OrsSound(js: string -> bool, ts: seq<Token>, start: nat, i: nat, left: Expr, before: seq<Node>) returns (e: Expr)
    requires Tape(ts) && start < |ts| && i < |ts| && MoreOrs(js, ts, i).Done? && IsOr(left) && End(js, ts, start, left) == Some(i)
    requires forall v: Valuation :: Value(left, v) == EvalSome(before, v)
    ensures IsOr(e) && End(js, ts, start, e) == Some(MoreOrs(js, ts, i).next)
    ensures forall v: Valuation :: Value(e, v) == EvalSome(before + MoreOrs(js, ts, i).value, v)
    decreases |ts| - i, 0
  {
    hide Tape, ParseAnd, IsAnd, Eval, EvalSome, Value, End, EndBoth;
    if At(ts, i, "or") {
      var right := AndSound(js, ts, i + 1);
      var x := ParseAnd(js, ts, i + 1);
      EndStep(js, ts, start, left, i, right, x.next);
      OrStep(left, right, before, x.value);
      e := OrsSound(js, ts, start, x.next, OrX(left, right), before + [x.value]);
      assert before + [x.value] + MoreOrs(js, ts, x.next).value == before + MoreOrs(js, ts, i).value;
    } else {
      e := left;
      assert before + [] == before;
    }
  }

  /** Everything the parser accepts as an exchange, the grammar derives, with the same meaning under
      every valuation. */
  lemma {:induction false} OrSound(js: string -> bool, ts: seq<Token>, i: nat) returns (e: Expr)
    requires Tape(ts) && i < |ts| && ParseOr(js, ts, i).Done?
    ensures IsOr(e) && Reads(js, ts, i, e, ParseOr(js, ts, i).next, ParseOr(js, ts, i).value)
    decreases |ts| - i, 2
  {
    hide Tape, ParseAnd, IsAnd, Eval, Value, End, GroupNode, MoreOrs, EvalSome;
    var first := AndSound(js, ts, i);
    var x := ParseAnd(js, ts, i);
    LoneMeans(Or, first, x.value);
    e := OrsSound(js, ts, i, x.next, first, [x.value]);
    GroupMeans(Or, e, [x.value] + MoreOrs(js, ts, x.next).value);
  }
}
