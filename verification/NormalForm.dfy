/** What every successful parse returns: a tree in normal form, whatever the text. */
module NormalForm {
  import opened Lex
  import opened Munch
  import opened Spelling
  import opened Attrs
  import opened Rule
  import opened Parse
  import opened RoundTrip
  import opened TreeRoundTrip

  /** The tokens are shaped as the lexer shapes them. */
  predicate Shaped(ts: seq<Token>) {
    forall t :: t in ts && t.kind != Eof ==> Valid(Tok(t.kind, t.text))
  }

  lemma {:induction false} TokensShaped(ps: seq<Piece>, base: nat)
    requires Munched(ps)
    ensures Shaped(Tokens(ps, base))
    decreases |ps|
  {
    hide Valid, Stops, Munched, Flat;
    if ps == [] {
    } else {
      MunchedHead(ps);
      TokensShaped(ps[1..], base + |Text(ps[0])|);
    }
  }

  lemma LexedShaped(source: string)
    requires LexSpec(source).Lexed?
    ensures Tape(LexSpec(source).tokens) && Shaped(LexSpec(source).tokens)
  {
    hide Chop, Munched, Valid, Tape, Tokens;
    LexedIsTape(source);
    TokensShaped(PiecesOf(source), 0);
  }

  /** Distinct names as keys, keywords among them perhaps, and values that can be read back. */
  predicate Keyed(js: string -> bool, attrs: Attrs) {
    Distinct(attrs) && forall a :: a in attrs ==> IsName(a.key) && ReadableValue(js, a.value)
  }

  predicate KeyedParticipant(js: string -> bool, p: Participant) { (p.AnyOf? || p.AllOf?) ==> Keyed(js, p.attrs) }

  predicate KeyedTerm(js: string -> bool, term: ExchangeTerm) {
    && KeyedParticipant(js, term.to) && !term.to.Requester?
    && KeyedParticipant(js, term.from) && !term.from.Me?
    && term.resource != [] && Keyed(js, term.resource)
  }

  predicate KeyedNode(js: string -> bool, node: Node) {
    match node
    case Term(term) => KeyedTerm(js, term)
    case Group(_, children) => forall child :: child in children ==> KeyedNode(js, child)
  }

  predicate KeyedTree(js: string -> bool, tree: RuleTree) {
    && tree.resource != [] && Keyed(js, tree.resource)
    && (tree.exchange.Some? ==> Normal(tree.exchange.value) && KeyedNode(js, tree.exchange.value))
  }

  // ----- Attributes -----

  lemma AtomShape(js: string -> bool, ts: seq<Token>, i: nat)
    requires Tape(ts) && Shaped(ts) && i < |ts| && ParseAtom(js, ts, i).Done?
    ensures ReadableScalar(js, ParseAtom(js, ts, i).value)
  {
    assert ts[i] in ts;
  }

  lemma {:induction false} AtomsShape(js: string -> bool, ts: seq<Token>, i: nat)
    requires Tape(ts) && Shaped(ts) && i < |ts| && MoreAtoms(js, ts, i).Done?
    ensures forall x :: x in MoreAtoms(js, ts, i).value ==> ReadableScalar(js, x)
    decreases |ts| - i
  {
    hide ReadableScalar, Shaped, ParseAtom, Tape;
    if At(ts, i, ",") {
      AtomShape(js, ts, i + 1);
      AtomsShape(js, ts, ParseAtom(js, ts, i + 1).next);
    }
  }

  lemma ValueShape(js: string -> bool, ts: seq<Token>, i: nat)
    requires Tape(ts) && Shaped(ts) && i < |ts| && ParseValue(js, ts, i).Done?
    ensures ReadableValue(js, ParseValue(js, ts, i).value)
  {
    hide ReadableScalar, Shaped, ParseAtom, MoreAtoms, Tape;
    var at := if At(ts, i, "{") then i + 1 else i;
    if ParseAtom(js, ts, at).Done? {
      AtomShape(js, ts, at);
      if MoreAtoms(js, ts, ParseAtom(js, ts, at).next).Done? {
        AtomsShape(js, ts, ParseAtom(js, ts, at).next);
      }
    }
  }

  lemma AttributeShape(js: string -> bool, ts: seq<Token>, i: nat, into: Attrs)
    requires Tape(ts) && Shaped(ts) && i < |ts| && Keyed(js, into) && ParseAttribute(js, ts, i, into).Done?
    ensures Keyed(js, ParseAttribute(js, ts, i, into).value) && ParseAttribute(js, ts, i, into).value != []
  {
    hide Tape, ParseValue, ReadableValue, Shaped;
    ValueShape(js, ts, i + 3);
    NameShape(ts, i + 1);
  }

  lemma NameShape(ts: seq<Token>, i: nat)
    requires Shaped(ts) && i < |ts| && ts[i].kind == Name
    ensures IsName(ts[i].text)
  {
    assert ts[i] in ts;
  }

  lemma {:induction false} AttributesShape(js: string -> bool, ts: seq<Token>, i: nat, into: Attrs)
    requires Tape(ts) && Shaped(ts) && i < |ts| && Keyed(js, into) && MoreAttributes(js, ts, i, into).Done?
    ensures Keyed(js, MoreAttributes(js, ts, i, into).value)
    ensures At(ts, i, "(") || into != [] ==> MoreAttributes(js, ts, i, into).value != []
    decreases |ts| - i
  {
    hide Tape, ParseAttribute, Keyed, Shaped;
    if At(ts, i, "(") {
      AttributeShape(js, ts, i, into);
      var r := ParseAttribute(js, ts, i, into);
      AttributesShape(js, ts, r.next, r.value);
    }
  }

  lemma ParseAttributesShape(js: string -> bool, ts: seq<Token>, i: nat, atLeastOne: bool)
    requires Tape(ts) && Shaped(ts) && i < |ts| && ParseAttributes(js, ts, i, atLeastOne).Done?
    ensures Keyed(js, ParseAttributes(js, ts, i, atLeastOne).value)
    ensures atLeastOne ==> ParseAttributes(js, ts, i, atLeastOne).value != []
  {
    hide Tape, Shaped, MoreAttributes;
    AttributesShape(js, ts, i, []);
  }

  // ----- Exchanges -----

  lemma OthersShape(js: string -> bool, ts: seq<Token>, i: nat)
    requires Tape(ts) && Shaped(ts) && i < |ts| && ParseOthers(js, ts, i).Done?
    ensures var p := ParseOthers(js, ts, i).value; (p.AnyOf? || p.AllOf?) && KeyedParticipant(js, p)
  {
    hide Tape, Shaped, Keyed, ParseAttributes;
    ParseAttributesShape(js, ts, i + 3, false);
  }

  lemma ToShape(js: string -> bool, ts: seq<Token>, i: nat)
    requires Tape(ts) && Shaped(ts) && i < |ts| && ParseToClause(js, ts, i).Done?
    ensures var p := ParseToClause(js, ts, i).value; !p.Requester? && KeyedParticipant(js, p)
  {
    hide Tape, Shaped, Keyed, ParseOthers;
    if At(ts, i + 2, "(") {
      OthersShape(js, ts, i + 2);
    }
  }

  lemma FromShape(js: string -> bool, ts: seq<Token>, i: nat)
    requires Tape(ts) && Shaped(ts) && i < |ts| && ParseFromClause(js, ts, i).Done?
    ensures var p := ParseFromClause(js, ts, i).value; !p.Me? && KeyedParticipant(js, p)
  {
    hide Tape, Shaped, Keyed, ParseOthers;
    if At(ts, i + 2, "(") {
      OthersShape(js, ts, i + 2);
    }
  }

  lemma ResourceShape(js: string -> bool, ts: seq<Token>, i: nat)
    requires Tape(ts) && Shaped(ts) && i < |ts| && ParseResourceClause(js, ts, i).Done?
    ensures var attrs := ParseResourceClause(js, ts, i).value; attrs != [] && Keyed(js, attrs)
  {
    hide Tape, Shaped, Keyed, ParseAttributes;
    ParseAttributesShape(js, ts, i + 2, true);
  }

  lemma TermShape(js: string -> bool, ts: seq<Token>, i: nat)
    requires Tape(ts) && Shaped(ts) && i < |ts| && ParseTerm(js, ts, i).Done?
    ensures ParseTerm(js, ts, i).value.Term? && KeyedTerm(js, ParseTerm(js, ts, i).value.term)
  {
    hide Tape, Shaped, Keyed, KeyedParticipant, ParseToClause, ParseResourceClause, ParseFromClause;
    ToShape(js, ts, i + 1);
    var b := ParseToClause(js, ts, i + 1).next;
    ResourceShape(js, ts, b);
    FromShape(js, ts, ParseResourceClause(js, ts, b).next);
  }

  predicate NormalNode(js: string -> bool, node: Node) { Normal(node) && KeyedNode(js, node) }

  lemma {:induction false} FlattenedKeyed(js: string -> bool, connector: Connector, nodes: seq<Node>)
    requires forall x :: x in nodes ==> KeyedNode(js, x)
    ensures forall x :: x in Flattened(connector, nodes) ==> KeyedNode(js, x)
  {
    hide KeyedTerm;
    if nodes == [] {
    } else {
      assert nodes[0] in nodes;
      FlattenedKeyed(js, connector, nodes[1..]);
    }
  }

  lemma GroupShape(js: string -> bool, connector: Connector, x: Node, rest: seq<Node>)
    requires NormalNode(js, x) && forall y :: y in rest ==> NormalNode(js, y)
    ensures NormalNode(js, GroupNode(connector, [x] + rest))
  {
    hide KeyedTerm, Flattened, Normal;
    GroupNodeNormal(connector, [x] + rest);
    FlattenedKeyed(js, connector, [x] + rest);
    var flat := Flattened(connector, [x] + rest);
    assert |flat| == 1 ==> flat[0] in flat;
  }

  lemma {:induction false} PrimaryShape(js: string -> bool, ts: seq<Token>, i: nat)
    requires Tape(ts) && Shaped(ts) && i < |ts| && ParsePrimary(js, ts, i).Done?
    ensures NormalNode(js, ParsePrimary(js, ts, i).value)
    decreases |ts| - i, 0
  {
    hide Tape, Shaped, KeyedTerm, ParseTerm, ParseOr;
    if OpensTerm(ts, i) {
      TermShape(js, ts, i);
    } else {
      OrShape(js, ts, i + 1);
    }
  }

  lemma {:induction false} AndsShape(js: string -> bool, ts: seq<Token>, i: nat)
    requires Tape(ts) && Shaped(ts) && i < |ts| && MoreAnds(js, ts, i).Done?
    ensures forall x :: x in MoreAnds(js, ts, i).value ==> NormalNode(js, x)
    decreases |ts| - i, 0
  {
    hide Tape, Shaped, NormalNode, ParsePrimary;
    if At(ts, i, "and") {
      PrimaryShape(js, ts, i + 1);
      AndsShape(js, ts, ParsePrimary(js, ts, i + 1).next);
    }
  }

  lemma {:induction false} AndShape(js: string -> bool, ts: seq<Token>, i: nat)
    requires Tape(ts) && Shaped(ts) && i < |ts| && ParseAnd(js, ts, i).Done?
    ensures NormalNode(js, ParseAnd(js, ts, i).value)
    decreases |ts| - i, 1
  {
    hide Tape, Shaped, NormalNode, ParsePrimary, MoreAnds, GroupNode;
    PrimaryShape(js, ts, i);
    var x := ParsePrimary(js, ts, i);
    AndsShape(js, ts, x.next);
    GroupShape(js, And, x.value, MoreAnds(js, ts, x.next).value);
  }

  lemma {:induction false} OrsShape(js: string -> bool, ts: seq<Token>, i: nat)
    requires Tape(ts) && Shaped(ts) && i < |ts| && MoreOrs(js, ts, i).Done?
    ensures forall x :: x in MoreOrs(js, ts, i).value ==> NormalNode(js, x)
    decreases |ts| - i, 0
  {
    hide Tape, Shaped, NormalNode, ParseAnd;
    if At(ts, i, "or") {
      AndShape(js, ts, i + 1);
      OrsShape(js, ts, ParseAnd(js, ts, i + 1).next);
    }
  }

  /** An exchange is in normal form however the text nests and parenthesises it. */
  lemma {:induction false} OrShape(js: string -> bool, ts: seq<Token>, i: nat)
    requires Tape(ts) && Shaped(ts) && i < |ts| && ParseOr(js, ts, i).Done?
    ensures NormalNode(js, ParseOr(js, ts, i).value)
    decreases |ts| - i, 2
  {
    hide Tape, Shaped, NormalNode, ParseAnd, MoreOrs, GroupNode;
    AndShape(js, ts, i);
    var x := ParseAnd(js, ts, i);
    OrsShape(js, ts, x.next);
    GroupShape(js, Or, x.value, MoreOrs(js, ts, x.next).value);
  }

  // ----- Rules -----

  lemma {:induction false} ClausesShape(js: string -> bool, ts: seq<Token>, i: nat, source: string, tail: Tail)
    requires Tape(ts) && Shaped(ts) && i < |ts| && MoreClauses(js, ts, i, source, tail).Done?
    requires tail.1.Some? ==> NormalNode(js, tail.1.value)
    ensures var r := MoreClauses(js, ts, i, source, tail).value.1; r.Some? ==> NormalNode(js, r.value)
    decreases |ts| - i
  {
    hide Tape, Shaped, NormalNode, ParseOr, ParseConditionSpan;
    if At(ts, i, ",") {
      if At(ts, i + 1, "condition") {
        var c := ParseConditionSpan(ts, i + 3, source);
        ClausesShape(js, ts, c.next, source, (Some(c.value), tail.1));
      } else {
        OrShape(js, ts, i + 3);
        var x := ParseOr(js, ts, i + 3);
        ClausesShape(js, ts, x.next, source, (tail.0, Some(x.value)));
      }
    }
  }

  lemma RuleShape(js: string -> bool, ts: seq<Token>, source: string)
    requires Tape(ts) && Shaped(ts) && ParseRuleAt(js, ts, source).Done?
    ensures KeyedTree(js, ParseRuleAt(js, ts, source).value)
  {
    hide Tape, Shaped, Keyed, ParseAttributes, MoreClauses, Normal, KeyedNode;
    ParseAttributesShape(js, ts, 3, true);
    ClausesShape(js, ts, ParseAttributes(js, ts, 3, true).next, source, (None, None));
  }

  /** Every successful parse returns a tree in normal form. */
  lemma ParseTreeNormal(js: string -> bool, source: string)
    requires ParseTree(js, source).Ok?
    ensures KeyedTree(js, ParseTree(js, source).value)
  {
    hide *;
    ParsedLexed(js, source);
    LexedShaped(source);
    ParsedTree(js, source);
    RuleShape(js, LexSpec(source).tokens, source);
  }
}
