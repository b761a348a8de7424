/** The parser reads back what the printer writes, construct by construct. */
module RoundTrip {
  import opened Lex
  import opened Munch
  import opened Spelling
  import opened Attrs
  import opened Rule
  import opened Parse

  /** The tape has these tokens at `i`, wherever they stand in the source. */
  predicate Has(ts: seq<Token>, i: nat, lx: seq<Lexeme>) {
    && i + |lx| <= |ts|
    && forall k :: 0 <= k < |lx| ==> ts[i + k].kind == lx[k].kind && ts[i + k].text == lx[k].text
  }

  lemma HasSplit(ts: seq<Token>, i: nat, a: seq<Lexeme>, b: seq<Lexeme>)
    requires Has(ts, i, a + b)
    ensures Has(ts, i, a) && Has(ts, i + |a|, b)
  {
    assert forall k :: 0 <= k < |a| ==> (a + b)[k] == a[k];
    assert forall k :: 0 <= k < |b| ==> (a + b)[|a| + k] == b[k];
  }

  /** A single token of the tape. */
  lemma HasOne(ts: seq<Token>, i: nat, l: Lexeme)
    requires Tape(ts) && Has(ts, i, [l]) && l.kind != Eof
    ensures i + 1 < |ts| && ts[i].kind == l.kind && ts[i].text == l.text
  {
    assert [l][0] == l;
  }

  lemma HasKey2(ts: seq<Token>, i: nat, key: string)
    requires Tape(ts) && Has(ts, i, [N(key), P(":")])
    ensures i + 2 < |ts| && ts[i].kind == Name && ts[i].text == key && IsText(ts[i + 1], ":")
  {
    assert [N(key), P(":")][0] == N(key) && [N(key), P(":")][1] == P(":");
  }

  /** One more token follows, and it is not this text. */
  predicate NotAt(ts: seq<Token>, i: nat, text: string) { i < |ts| && !IsText(ts[i], text) }

  // ----- Attributes -----

  predicate ReadableScalar(js: string -> bool, v: Scalar) { v.Num? ==> IsNumber(v.text) && js(v.text) }

  predicate ReadableValue(js: string -> bool, v: Value) {
    match v
    case One(scalar) => ReadableScalar(js, scalar)
    case Many(items) => forall x :: x in items ==> ReadableScalar(js, x)
  }

  /** Keys that are names and no keywords, none of them twice, and values that can be read back. */
  predicate Readable(js: string -> bool, attrs: Attrs) {
    Distinct(attrs) && forall a :: a in attrs ==> WritableKey(a.key) && ReadableValue(js, a.value)
  }

  lemma ReadableIsWritable(js: string -> bool, attrs: Attrs)
    requires Readable(js, attrs)
    ensures Writable(attrs)
  {
  }

  lemma AtomBack(js: string -> bool, ts: seq<Token>, i: nat, v: Scalar)
    requires Tape(ts) && ReadableScalar(js, v) && Has(ts, i, [ScalarLex(v)])
    ensures i + 1 < |ts| && ParseAtom(js, ts, i) == Done(v, i + 1)
  {
    HasOne(ts, i, ScalarLex(v));
    if v.Str? {
      UnquoteQuote(v.s);
    }
  }

  lemma {:induction false} AtomsBack(js: string -> bool, ts: seq<Token>, i: nat, items: seq<Scalar>)
    requires Tape(ts) && items != [] && forall x :: x in items ==> ReadableScalar(js, x)
    requires Has(ts, i, JoinLex(ScalarsLex(items), [P(",")]))
    requires NotAt(ts, i + |JoinLex(ScalarsLex(items), [P(",")])|, ",")
    ensures i + 1 < |ts| && ParseAtom(js, ts, i) == Done(items[0], i + 1)
    ensures MoreAtoms(js, ts, i + 1) == Done(items[1..], i + |JoinLex(ScalarsLex(items), [P(",")])|)
    decreases |items|
  {
    hide ReadableScalar, ScalarLex, ParseAtom;
    var lx := ScalarsLex(items);
    if |items| == 1 {
      AtomBack(js, ts, i, items[0]);
    } else {
      var rest := JoinLex(lx[1..], [P(",")]);
      assert lx[1..] == ScalarsLex(items[1..]);
      HasSplit(ts, i, lx[0] + [P(",")], rest);
      HasSplit(ts, i, lx[0], [P(",")]);
      AtomBack(js, ts, i, items[0]);
      HasOne(ts, i + 1, P(","));
      AtomsBack(js, ts, i + 2, items[1..]);
      assert [items[1]] + items[1..][1..] == items[1..];
    }
  }

  lemma ValueBack(js: string -> bool, ts: seq<Token>, i: nat, v: Value)
    requires Tape(ts) && ReadableValue(js, v) && Has(ts, i, ValueLex(v))
    requires NotAt(ts, i + |ValueLex(v)|, ",")
    ensures ParseValue(js, ts, i) == Done(v, i + |ValueLex(v)|)
  {
    hide ParseAtom, ScalarLex;
    match v
    case One(scalar) =>
      AtomBack(js, ts, i, scalar);
      ScalarIsNoBrace(scalar);
      HasOne(ts, i, ScalarLex(scalar));
    case Many(items) =>
      var inner := JoinLex(ScalarsLex(items), [P(",")]);
      HasSplit(ts, i, [P("{")] + inner, [P("}")]);
      HasSplit(ts, i, [P("{")], inner);
      var e := i + 1 + |inner|;
      HasOne(ts, i, P("{"));
      HasOne(ts, e, P("}"));
      if items != [] {
        AtomsBack(js, ts, i + 1, items);
        ScalarIsNoBrace(items[0]);
        BracedBack(js, ts, i + 1, items, e);
      }
  }

  lemma ScalarIsNoBrace(v: Scalar)
    ensures ScalarLex(v).kind in {StringLit, Number, Bool}
  {
  }

  lemma BracedBack(js: string -> bool, ts: seq<Token>, i: nat, items: seq<Scalar>, e: nat)
    requires Tape(ts) && items != [] && i + 1 < |ts| && e < |ts|
    requires ParseAtom(js, ts, i) == Done(items[0], i + 1) && MoreAtoms(js, ts, i + 1) == Done(items[1..], e)
    ensures ParseBraced(js, ts, i) == Done(items, e)
  {
    assert [items[0]] + items[1..] == items;
  }

  lemma AttributeBack(js: string -> bool, ts: seq<Token>, i: nat, into: Attrs, a: Attr)
    requires Tape(ts) && WritableKey(a.key) && ReadableValue(js, a.value) && !HasKey(into, a.key)
    requires Has(ts, i, AttrLex(a))
    ensures i + |AttrLex(a)| < |ts|
    ensures ParseAttribute(js, ts, i, into) == Done(into + [a], i + |AttrLex(a)|)
  {
    hide ValueLex, ParseValue, WritableKey, HasKey, ReadableValue;
    var value := ValueLex(a.value);
    HasSplit(ts, i, [P("(")] + ClauseLex(a.key, value), [P(")")]);
    HasSplit(ts, i, [P("(")], ClauseLex(a.key, value));
    HasSplit(ts, i + 1, [N(a.key), P(":")], value);
    HasOne(ts, i, P("("));
    HasKey2(ts, i + 1, a.key);
    var e := i + 3 + |value|;
    HasOne(ts, e, P(")"));
    ValueBack(js, ts, i + 3, a.value);
  }

  lemma {:induction false} AttributesBack(js: string -> bool, ts: seq<Token>, i: nat, into: Attrs, attrs: Attrs)
    requires Tape(ts) && Readable(js, attrs) && Distinct(into + attrs)
    requires Has(ts, i, AttrsLex(attrs)) && NotAt(ts, i + |AttrsLex(attrs)|, "(")
    ensures MoreAttributes(js, ts, i, into) == Done(into + attrs, i + |AttrsLex(attrs)|)
    decreases |attrs|
  {
    hide WritableKey, ReadableValue, AttrLex, ParseAttribute;
    if attrs == [] {
      assert into + attrs == into;
    } else {
      var a := attrs[0];
      HasSplit(ts, i, AttrLex(a), AttrsLex(attrs[1..]));
      FirstOfAttr(ts, i, a);
      NoKeyYet(into, attrs);
      AttributeBack(js, ts, i, into, a);
      assert (into + [a]) + attrs[1..] == into + attrs;
      AttributesBack(js, ts, i + |AttrLex(a)|, into + [a], attrs[1..]);
    }
  }

  lemma FirstOfAttr(ts: seq<Token>, i: nat, a: Attr)
    requires Tape(ts) && Has(ts, i, AttrLex(a))
    ensures i < |ts| && At(ts, i, "(") && |AttrLex(a)| > 0
  {
    var rest := ClauseLex(a.key, ValueLex(a.value)) + [P(")")];
    assert AttrLex(a) == [P("(")] + rest;
    HasSplit(ts, i, [P("(")], rest);
    HasOne(ts, i, P("("));
  }

  lemma NoKeyYet(into: Attrs, attrs: Attrs)
    requires attrs != [] && Distinct(into + attrs)
    ensures !HasKey(into, attrs[0].key)
  {
    assert (into + attrs)[|into|] == attrs[0];
    assert forall k :: 0 <= k < |into| ==> (into + attrs)[k] == into[k];
  }

  lemma ParseAttributesBack(js: string -> bool, ts: seq<Token>, i: nat, attrs: Attrs, atLeastOne: bool)
    requires Tape(ts) && Readable(js, attrs) && (atLeastOne ==> attrs != [])
    requires Has(ts, i, AttrsLex(attrs)) && NotAt(ts, i + |AttrsLex(attrs)|, "(")
    ensures ParseAttributes(js, ts, i, atLeastOne) == Done(attrs, i + |AttrsLex(attrs)|)
  {
    hide AttrLex;
    assert [] + attrs == attrs;
    AttributesBack(js, ts, i, [], attrs);
    if attrs != [] {
      HasSplit(ts, i, AttrLex(attrs[0]), AttrsLex(attrs[1..]));
      FirstOfAttr(ts, i, attrs[0]);
    }
  }

  // ----- Exchange terms -----

  predicate ReadableParticipant(js: string -> bool, p: Participant) { (p.AnyOf? || p.AllOf?) ==> Readable(js, p.attrs) }

  /** `to` is `me` or quantified, `from` is `requester` or quantified. */
  predicate ReadableTerm(js: string -> bool, term: ExchangeTerm) {
    && ReadableParticipant(js, term.to) && !term.to.Requester?
    && ReadableParticipant(js, term.from) && !term.from.Me?
    && term.resource != [] && Readable(js, term.resource)
  }

  lemma OthersBack(js: string -> bool, ts: seq<Token>, i: nat, p: Participant)
    requires Tape(ts) && (p.AnyOf? || p.AllOf?) && ReadableParticipant(js, p) && Has(ts, i, ParticipantLex(p))
    ensures i + |ParticipantLex(p)| < |ts| && At(ts, i, "(")
    ensures ParseOthers(js, ts, i) == Done(p, i + |ParticipantLex(p)|)
  {
    hide AttrsLex, Readable, ParseAttributes;
    var quantifier := if p.AnyOf? then "any" else "all";
    var attrs := AttrsLex(p.attrs);
    HasSplit(ts, i, [P("(")] + ClauseLex(quantifier, attrs), [P(")")]);
    HasSplit(ts, i, [P("(")], ClauseLex(quantifier, attrs));
    HasSplit(ts, i + 1, [N(quantifier), P(":")], attrs);
    HasOne(ts, i, P("("));
    HasKey2(ts, i + 1, quantifier);
    var e := i + 3 + |attrs|;
    HasOne(ts, e, P(")"));
    ParseAttributesBack(js, ts, i + 3, p.attrs, false);
  }

  lemma ToBack(js: string -> bool, ts: seq<Token>, i: nat, p: Participant)
    requires Tape(ts) && !p.Requester? && ReadableParticipant(js, p) && Has(ts, i, ParticipantLex(p))
    ensures i + |ParticipantLex(p)| < |ts| && ParseTo(js, ts, i) == Done(p, i + |ParticipantLex(p)|)
  {
    if p.Me? {
      HasOne(ts, i, N("me"));
    } else {
      hide ParticipantLex, ParseOthers;
      OthersBack(js, ts, i, p);
    }
  }

  lemma FromBack(js: string -> bool, ts: seq<Token>, i: nat, p: Participant)
    requires Tape(ts) && !p.Me? && ReadableParticipant(js, p) && Has(ts, i, ParticipantLex(p))
    ensures i + |ParticipantLex(p)| < |ts| && ParseFrom(js, ts, i) == Done(p, i + |ParticipantLex(p)|)
  {
    if p.Requester? {
      HasOne(ts, i, N("requester"));
    } else {
      hide ParticipantLex, ParseOthers;
      OthersBack(js, ts, i, p);
    }
  }

  lemma KeyBack(ts: seq<Token>, i: nat, key: string, lx: seq<Lexeme>)
    requires Tape(ts) && Has(ts, i, ClauseLex(key, lx))
    ensures i + 2 < |ts| && At(ts, i, key) && ts[i].kind == Name
    ensures ExpectKey(ts, i, key) == Done((), i + 2) && Has(ts, i + 2, lx)
  {
    HasSplit(ts, i, [N(key), P(":")], lx);
    HasKey2(ts, i, key);
  }

  lemma Join3(a: seq<Lexeme>, b: seq<Lexeme>, c: seq<Lexeme>, sep: seq<Lexeme>)
    ensures JoinLex([a, b, c], sep) == a + sep + (b + sep + c)
  {
    assert [a, b, c][1..] == [b, c] && [b, c][1..] == [c];
    assert JoinLex([b, c], sep) == b + sep + JoinLex([c], sep);
    assert JoinLex([c], sep) == c;
  }

  lemma ToClauseBack(js: string -> bool, ts: seq<Token>, i: nat, p: Participant)
    requires Tape(ts) && !p.Requester? && ReadableParticipant(js, p)
    requires Has(ts, i, ClauseLex("to", ParticipantLex(p)) + [P(",")])
    ensures i + |ClauseLex("to", ParticipantLex(p))| + 1 < |ts|
    ensures ParseToClause(js, ts, i) == Done(p, i + |ClauseLex("to", ParticipantLex(p))| + 1)
  {
    hide ParticipantLex, ReadableParticipant, ParseTo, ExpectKey;
    HasSplit(ts, i, ClauseLex("to", ParticipantLex(p)), [P(",")]);
    KeyBack(ts, i, "to", ParticipantLex(p));
    ToBack(js, ts, i + 2, p);
    var e := i + |ClauseLex("to", ParticipantLex(p))|;
    HasOne(ts, e, P(","));
  }

  lemma ResourceClauseBack(js: string -> bool, ts: seq<Token>, i: nat, attrs: Attrs)
    requires Tape(ts) && attrs != [] && Readable(js, attrs)
    requires Has(ts, i, ClauseLex("resource", AttrsLex(attrs)) + [P(",")])
    ensures i + |ClauseLex("resource", AttrsLex(attrs))| + 1 < |ts|
    ensures ParseResourceClause(js, ts, i) == Done(attrs, i + |ClauseLex("resource", AttrsLex(attrs))| + 1)
  {
    hide AttrsLex, Readable, ParseAttributes, ExpectKey;
    HasSplit(ts, i, ClauseLex("resource", AttrsLex(attrs)), [P(",")]);
    KeyBack(ts, i, "resource", AttrsLex(attrs));
    var e := i + |ClauseLex("resource", AttrsLex(attrs))|;
    HasOne(ts, e, P(","));
    ParseAttributesBack(js, ts, i + 2, attrs, true);
  }

  lemma FromClauseBack(js: string -> bool, ts: seq<Token>, i: nat, p: Participant)
    requires Tape(ts) && !p.Me? && ReadableParticipant(js, p)
    requires Has(ts, i, ClauseLex("from", ParticipantLex(p)) + [P(")")])
    ensures i + |ClauseLex("from", ParticipantLex(p))| + 1 < |ts|
    ensures ParseFromClause(js, ts, i) == Done(p, i + |ClauseLex("from", ParticipantLex(p))| + 1)
  {
    hide ParticipantLex, ReadableParticipant, ParseFrom, ExpectKey;
    HasSplit(ts, i, ClauseLex("from", ParticipantLex(p)), [P(")")]);
    var e := i + |ClauseLex("from", ParticipantLex(p))|;
    HasOne(ts, e, P(")"));
    KeyBack(ts, i, "from", ParticipantLex(p));
    FromBack(js, ts, i + 2, p);
  }

  lemma TermBack(js: string -> bool, ts: seq<Token>, i: nat, term: ExchangeTerm)
    requires Tape(ts) && ReadableTerm(js, term) && Has(ts, i, TermLex(term))
    ensures i + |TermLex(term)| < |ts|
    ensures At(ts, i, "(") && OpensTerm(ts, i)
    ensures ParseTerm(js, ts, i) == Done(Term(term), i + |TermLex(term)|)
  {
    hide ParticipantLex, AttrsLex, ParseToClause, ParseResourceClause, ParseFromClause, ReadableParticipant, Readable, JoinLex;
    var to, resource, from := ClauseLex("to", ParticipantLex(term.to)), ClauseLex("resource", AttrsLex(term.resource)),
                              ClauseLex("from", ParticipantLex(term.from));
    Join3(to, resource, from, [P(",")]);
    TermLexIs(to, resource, from);
    HasSplit(ts, i, [P("(")], to + [P(",")] + (resource + [P(",")] + (from + [P(")")])));
    var a := i + 1;
    HasSplit(ts, a, to + [P(",")], resource + [P(",")] + (from + [P(")")]));
    var b := a + |to| + 1;
    HasSplit(ts, b, resource + [P(",")], from + [P(")")]);
    var c := b + |resource| + 1;
    HasOne(ts, i, P("("));
    HasSplit(ts, a, to, [P(",")]);
    KeyBack(ts, a, "to", ParticipantLex(term.to));
    FromClauseBack(js, ts, c, term.from);
    ToClauseBack(js, ts, a, term.to);
    ResourceClauseBack(js, ts, b, term.resource);
  }

  lemma TermLexIs(to: seq<Lexeme>, resource: seq<Lexeme>, from: seq<Lexeme>)
    ensures [P("(")] + (to + [P(",")] + (resource + [P(",")] + from)) + [P(")")] ==
            [P("(")] + (to + [P(",")] + (resource + [P(",")] + (from + [P(")")])))
  {
  }

  // ----- Exchange trees -----

  predicate ReadableNode(js: string -> bool, node: Node) {
    match node
    case Term(term) => ReadableTerm(js, term)
    case Group(_, children) => forall child :: child in children ==> ReadableNode(js, child)
  }

  lemma NodeOpens(ts: seq<Token>, i: nat, node: Node)
    requires Tape(ts) && Has(ts, i, NodeLex(node))
    ensures i < |ts| && ts[i].kind == Punct
  {
    NodeLexOpens(node);
    HasSplit(ts, i, [P("(")], NodeLex(node)[1..]);
    HasOne(ts, i, P("("));
  }

  lemma NodeLexOpens(node: Node)
    ensures NodeLex(node) != [] && NodeLex(node) == [P("(")] + NodeLex(node)[1..]
  {
  }

  lemma {:induction false} PrimaryBack(js: string -> bool, ts: seq<Token>, i: nat, node: Node)
    requires Tape(ts) && Normal(node) && ReadableNode(js, node) && Has(ts, i, NodeLex(node))
    ensures i + |NodeLex(node)| < |ts|
    ensures ParsePrimary(js, ts, i) == Done(node, i + |NodeLex(node)|)
    decreases node, 1
  {
    hide TermLex, ParseTerm, ParseOr, JoinLex;
    match node
    case Term(term) => TermBack(js, ts, i, term);
    case Group(connector, children) =>
      var inner := JoinLex(NodesLex(children), [N(ConnectorText(connector))]);
      HasSplit(ts, i, [P("(")] + inner, [P(")")]);
      HasSplit(ts, i, [P("(")], inner);
      var e := i + 1 + |inner|;
      HasOne(ts, i, P("("));
      HasOne(ts, e, P(")"));
      GroupOpens(ts, i + 1, node);
      if connector == And {
        AndGroupBack(js, ts, i + 1, node);
      } else {
        OrGroupBack(js, ts, i + 1, node);
      }
  }

  lemma GroupOpens(ts: seq<Token>, i: nat, node: Node)
    requires Tape(ts) && node.Group? && node.children != []
    requires Has(ts, i, JoinLex(NodesLex(node.children), [N(ConnectorText(node.connector))]))
    ensures i < |ts| && ts[i].kind == Punct
  {
    hide JoinLex, NodesLex, NodeLex, Has;
    JoinedHead(ts, i, node.children, N(ConnectorText(node.connector)));
    NodeOpens(ts, i, node.children[0]);
  }

  lemma MoreAndsStep(js: string -> bool, ts: seq<Token>, i: nat, x: Node, j: nat, rest: seq<Node>, e: nat)
    requires Tape(ts) && i + 1 < |ts| && At(ts, i, "and")
    requires ParsePrimary(js, ts, i + 1) == Done(x, j) && j < |ts| && MoreAnds(js, ts, j) == Done(rest, e)
    ensures MoreAnds(js, ts, i) == Done([x] + rest, e)
  {
    hide ParsePrimary;
  }

  lemma MoreOrsStep(js: string -> bool, ts: seq<Token>, i: nat, x: Node, j: nat, rest: seq<Node>, e: nat)
    requires Tape(ts) && i + 1 < |ts| && At(ts, i, "or")
    requires ParseAnd(js, ts, i + 1) == Done(x, j) && j < |ts| && MoreOrs(js, ts, j) == Done(rest, e)
    ensures MoreOrs(js, ts, i) == Done([x] + rest, e)
  {
    hide ParseAnd;
  }

  lemma ParseAndStep(js: string -> bool, ts: seq<Token>, i: nat, x: Node, j: nat, rest: seq<Node>, e: nat)
    requires Tape(ts) && i < |ts|
    requires ParsePrimary(js, ts, i) == Done(x, j) && j < |ts| && MoreAnds(js, ts, j) == Done(rest, e)
    ensures ParseAnd(js, ts, i) == Done(GroupNode(And, [x] + rest), e)
  {
    hide ParsePrimary, MoreAnds, GroupNode;
  }

  lemma ParseOrStep(js: string -> bool, ts: seq<Token>, i: nat, x: Node, j: nat, rest: seq<Node>, e: nat)
    requires Tape(ts) && i < |ts|
    requires ParseAnd(js, ts, i) == Done(x, j) && j < |ts| && MoreOrs(js, ts, j) == Done(rest, e)
    ensures ParseOr(js, ts, i) == Done(GroupNode(Or, [x] + rest), e)
  {
    hide ParseAnd, MoreOrs, GroupNode;
  }

  /** Where the first of some joined nodes ends, and what follows it. */
  lemma JoinedHead(ts: seq<Token>, i: nat, nodes: seq<Node>, sep: Lexeme)
    requires Tape(ts) && nodes != [] && sep.kind != Eof && Has(ts, i, JoinLex(NodesLex(nodes), [sep]))
    ensures Has(ts, i, NodeLex(nodes[0]))
    ensures var e := i + |NodeLex(nodes[0])|;
            if |nodes| == 1 then |JoinLex(NodesLex(nodes), [sep])| == |NodeLex(nodes[0])|
            else
              && e + 1 < |ts| && ts[e].kind == sep.kind && ts[e].text == sep.text
              && Has(ts, e + 1, JoinLex(NodesLex(nodes[1..]), [sep]))
              && |JoinLex(NodesLex(nodes), [sep])| == |NodeLex(nodes[0])| + 1 + |JoinLex(NodesLex(nodes[1..]), [sep])|
  {
    hide *;
    NodesLexHead(nodes);
    if |nodes| == 1 {
      JoinOne(NodesLex(nodes), [sep]);
    } else {
      JoinedParts(ts, i, NodesLex(nodes), sep);
    }
  }

  lemma JoinOne(lx: seq<seq<Lexeme>>, sep: seq<Lexeme>)
    requires |lx| == 1
    ensures JoinLex(lx, sep) == lx[0]
  {
  }

  lemma JoinedParts(ts: seq<Token>, i: nat, lx: seq<seq<Lexeme>>, sep: Lexeme)
    requires Tape(ts) && |lx| > 1 && sep.kind != Eof && Has(ts, i, JoinLex(lx, [sep]))
    ensures Has(ts, i, lx[0])
    ensures var e := i + |lx[0]|;
            && e + 1 < |ts| && ts[e].kind == sep.kind && ts[e].text == sep.text
            && Has(ts, e + 1, JoinLex(lx[1..], [sep]))
            && |JoinLex(lx, [sep])| == |lx[0]| + 1 + |JoinLex(lx[1..], [sep])|
  {
    var rest := JoinLex(lx[1..], [sep]);
    assert JoinLex(lx, [sep]) == lx[0] + [sep] + rest;
    hide *;
    HasSplit(ts, i, lx[0] + [sep], rest);
    HasSplit(ts, i, lx[0], [sep]);
    HasOne(ts, i + |lx[0]|, sep);
  }

  lemma NodesLexHead(nodes: seq<Node>)
    requires nodes != []
    ensures NodesLex(nodes) == [NodeLex(nodes[0])] + NodesLex(nodes[1..])
    ensures NodesLex(nodes)[0] == NodeLex(nodes[0]) && NodesLex(nodes)[1..] == NodesLex(nodes[1..])
  {
    hide NodeLex;
  }

  predicate AllReadable(js: string -> bool, nodes: seq<Node>) {
    forall x :: x in nodes ==> Normal(x) && ReadableNode(js, x)
  }

  /** Joined nodes, read by the loop for their connector. */
  lemma {:induction false} AndsBack(js: string -> bool, ts: seq<Token>, i: nat, nodes: seq<Node>)
    requires Tape(ts) && nodes != [] && AllReadable(js, nodes)
    requires Has(ts, i, JoinLex(NodesLex(nodes), [N("and")]))
    requires NotAt(ts, i + |JoinLex(NodesLex(nodes), [N("and")])|, "and")
    ensures i + |NodeLex(nodes[0])| < |ts| && ParsePrimary(js, ts, i) == Done(nodes[0], i + |NodeLex(nodes[0])|)
    ensures MoreAnds(js, ts, i + |NodeLex(nodes[0])|) == Done(nodes[1..], i + |JoinLex(NodesLex(nodes), [N("and")])|)
    decreases nodes, 0
  {
    hide Normal, ReadableNode, NodeLex, NodesLex, JoinLex, ParsePrimary;
    JoinedHead(ts, i, nodes, N("and"));
    PrimaryBack(js, ts, i, nodes[0]);
    if |nodes| > 1 {
      hide MoreAnds;
      var e := i + |NodeLex(nodes[0])|;
      AndsBack(js, ts, e + 1, nodes[1..]);
      assert nodes[1..][0] == nodes[1];
      MoreAndsStep(js, ts, e, nodes[1], e + 1 + |NodeLex(nodes[1])|, nodes[1..][1..], e + 1 + |JoinLex(NodesLex(nodes[1..]), [N("and")])|);
      assert [nodes[1]] + nodes[1..][1..] == nodes[1..];
    } else {
      assert nodes[1..] == [];
    }
  }

  lemma {:induction false} OrsBack(js: string -> bool, ts: seq<Token>, i: nat, nodes: seq<Node>)
    requires Tape(ts) && nodes != [] && AllReadable(js, nodes)
    requires Has(ts, i, JoinLex(NodesLex(nodes), [N("or")]))
    requires NotAt(ts, i + |JoinLex(NodesLex(nodes), [N("or")])|, "or")
    requires NotAt(ts, i + |JoinLex(NodesLex(nodes), [N("or")])|, "and")
    ensures i + |NodeLex(nodes[0])| < |ts| && ParseAnd(js, ts, i) == Done(nodes[0], i + |NodeLex(nodes[0])|)
    ensures MoreOrs(js, ts, i + |NodeLex(nodes[0])|) == Done(nodes[1..], i + |JoinLex(NodesLex(nodes), [N("or")])|)
    decreases nodes, 0
  {
    hide Normal, ReadableNode, NodeLex, NodesLex, JoinLex, ParsePrimary, ParseAnd;
    JoinedHead(ts, i, nodes, N("or"));
    PrimaryBack(js, ts, i, nodes[0]);
    LoneAnd(js, ts, i, nodes[0]);
    if |nodes| > 1 {
      hide MoreOrs;
      var e := i + |NodeLex(nodes[0])|;
      OrsBack(js, ts, e + 1, nodes[1..]);
      assert nodes[1..][0] == nodes[1];
      MoreOrsStep(js, ts, e, nodes[1], e + 1 + |NodeLex(nodes[1])|, nodes[1..][1..], e + 1 + |JoinLex(NodesLex(nodes[1..]), [N("or")])|);
      assert [nodes[1]] + nodes[1..][1..] == nodes[1..];
    } else {
      assert nodes[1..] == [];
    }
  }

  lemma LoneAnd(js: string -> bool, ts: seq<Token>, i: nat, node: Node)
    requires Tape(ts) && i < |ts| && Normal(node) && ParsePrimary(js, ts, i).Done? && ParsePrimary(js, ts, i).value == node
    requires NotAt(ts, ParsePrimary(js, ts, i).next, "and")
    ensures ParseAnd(js, ts, i) == ParsePrimary(js, ts, i)
  {
    GroupNodeLone(And, node);
    assert [node] + [] == [node];
    hide ParsePrimary, GroupNode;
    var j := ParsePrimary(js, ts, i).next;
    ParseAndStep(js, ts, i, node, j, [], j);
  }

  lemma LoneOr(js: string -> bool, ts: seq<Token>, i: nat, node: Node)
    requires Tape(ts) && i < |ts| && Normal(node) && ParseAnd(js, ts, i).Done? && ParseAnd(js, ts, i).value == node
    requires NotAt(ts, ParseAnd(js, ts, i).next, "or")
    ensures ParseOr(js, ts, i) == ParseAnd(js, ts, i)
  {
    GroupNodeLone(Or, node);
    assert [node] + [] == [node];
    hide ParseAnd, GroupNode;
    var j := ParseAnd(js, ts, i).next;
    ParseOrStep(js, ts, i, node, j, [], j);
  }

  lemma ChildrenReadable(js: string -> bool, node: Node)
    requires node.Group? && Normal(node) && ReadableNode(js, node)
    ensures node.children != [] && AllReadable(js, node.children)
    ensures GroupNode(node.connector, [node.children[0]] + node.children[1..]) == node
  {
    GroupNodeId(node);
    assert [node.children[0]] + node.children[1..] == node.children;
  }

  lemma {:induction false} AndGroupBack(js: string -> bool, ts: seq<Token>, i: nat, node: Node)
    requires Tape(ts) && node.Group? && node.connector == And && Normal(node) && ReadableNode(js, node)
    requires Has(ts, i, JoinLex(NodesLex(node.children), [N("and")]))
    requires var e := i + |JoinLex(NodesLex(node.children), [N("and")])|; NotAt(ts, e, "and") && NotAt(ts, e, "or")
    ensures ParseOr(js, ts, i) == Done(node, i + |JoinLex(NodesLex(node.children), [N("and")])|)
    decreases node, 0
  {
    hide *;
    ChildrenReadable(js, node);
    var nodes, e := node.children, i + |JoinLex(NodesLex(node.children), [N("and")])|;
    AndsBack(js, ts, i, nodes);
    ParseAndStep(js, ts, i, nodes[0], i + |NodeLex(nodes[0])|, nodes[1..], e);
    LoneOr(js, ts, i, node);
  }

  lemma {:induction false} OrGroupBack(js: string -> bool, ts: seq<Token>, i: nat, node: Node)
    requires Tape(ts) && node.Group? && node.connector == Or && Normal(node) && ReadableNode(js, node)
    requires Has(ts, i, JoinLex(NodesLex(node.children), [N("or")]))
    requires var e := i + |JoinLex(NodesLex(node.children), [N("or")])|; NotAt(ts, e, "and") && NotAt(ts, e, "or")
    ensures ParseOr(js, ts, i) == Done(node, i + |JoinLex(NodesLex(node.children), [N("or")])|)
    decreases node, 0
  {
    hide *;
    ChildrenReadable(js, node);
    var nodes, e := node.children, i + |JoinLex(NodesLex(node.children), [N("or")])|;
    OrsBack(js, ts, i, nodes);
    ParseOrStep(js, ts, i, nodes[0], i + |NodeLex(nodes[0])|, nodes[1..], e);
  }

  /** An exchange, whatever its nesting, is read back as the same tree. */
  lemma ExchangeBack(js: string -> bool, ts: seq<Token>, i: nat, node: Node)
    requires Tape(ts) && Normal(node) && ReadableNode(js, node) && Has(ts, i, NodeLex(node))
    requires NotAt(ts, i + |NodeLex(node)|, "and") && NotAt(ts, i + |NodeLex(node)|, "or")
    ensures ParseOr(js, ts, i) == Done(node, i + |NodeLex(node)|)
  {
    hide *;
    PrimaryBack(js, ts, i, node);
    LoneAnd(js, ts, i, node);
    LoneOr(js, ts, i, node);
  }
}
