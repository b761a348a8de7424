/** The forms of values, attributes and terms, as facts about where their tokens stand, without a parser; and
    the parser of app/frontend/src/lib/bart/parse.ts held to them on every text, printed or not. */
module Forms {
  import opened Lex
  import opened Attrs
  import opened Rule
  import opened Parse

  /** Token `i` is this punctuation or name. */
  predicate WordAt(ts: seq<Token>, i: nat, text: string) {
    i < |ts| && (ts[i].kind == Punct || ts[i].kind == Name) && ts[i].text == text
  }

  // ----- Values -----

  /** Token `i` is one literal: `x`. */
  predicate AtomAt(js: string -> bool, ts: seq<Token>, i: nat, x: Scalar) {
    && i < |ts|
    && (|| (ts[i].kind == StringLit && x == Str(Unquote(ts[i].text)))
        || (ts[i].kind == Number && x == Num(ts[i].text) && js(ts[i].text))
        || (ts[i].kind == Bool && x == Boolean(ts[i].text == "true")))
  }

  /** Before each of the items stands a comma; they end at `j`, where no further comma stands. */
  predicate MoreAt(js: string -> bool, ts: seq<Token>, i: nat, items: seq<Scalar>, j: nat) {
    && (forall m :: 0 <= m < |items| ==> WordAt(ts, i + 2 * m, ",") && AtomAt(js, ts, i + 2 * m + 1, items[m]))
    && j == i + 2 * |items| && !WordAt(ts, j, ",")
  }

  /** Items with a comma between any two. */
  predicate ListAt(js: string -> bool, ts: seq<Token>, i: nat, items: seq<Scalar>, j: nat) {
    && items != [] && AtomAt(js, ts, i, items[0]) && MoreAt(js, ts, i + 1, items[1..], j)
  }

  /** A lone literal; two literals or more, separated by commas; or any number of them in braces. */
  predicate ValueAt(js: string -> bool, ts: seq<Token>, i: nat, v: Value, j: nat) {
    match v
    case One(x) => AtomAt(js, ts, i, x) && j == i + 1 && !WordAt(ts, j, ",")
    case Many(items) =>
      || (|items| >= 2 && ListAt(js, ts, i, items, j))
      || (&& WordAt(ts, i, "{") && j > 0 && WordAt(ts, j - 1, "}")
          && if items == [] then j == i + 2 else ListAt(js, ts, i + 1, items, j - 1))
  }

  lemma AtomExact(js: string -> bool, ts: seq<Token>, i: nat, x: Scalar, j: nat)
    requires Tape(ts) && i < |ts|
    ensures ParseAtom(js, ts, i) == Done(x, j) <==> AtomAt(js, ts, i, x) && j == i + 1
  {
    hide Unquote;
  }

  lemma AtomThen(js: string -> bool, ts: seq<Token>, i: nat, x: Scalar)
    requires Tape(ts) && AtomAt(js, ts, i, x)
    ensures i + 1 < |ts|
  {
    hide Unquote;
  }

  lemma WordThen(ts: seq<Token>, i: nat, text: string)
    requires Tape(ts) && WordAt(ts, i, text)
    ensures i + 1 < |ts| && At(ts, i, text)
  {
  }

  lemma MoreStep(js: string -> bool, ts: seq<Token>, i: nat, items: seq<Scalar>, j: nat)
    requires items != []
    ensures MoreAt(js, ts, i, items, j) <==>
            WordAt(ts, i, ",") && AtomAt(js, ts, i + 1, items[0]) && MoreAt(js, ts, i + 2, items[1..], j)
  {
    hide AtomAt, WordAt;
    var rest := items[1..];
    if MoreAt(js, ts, i, items, j) {
      assert WordAt(ts, i + 2 * 0, ",") && AtomAt(js, ts, i + 2 * 0 + 1, items[0]);
      forall m | 0 <= m < |rest|
        ensures WordAt(ts, i + 2 + 2 * m, ",") && AtomAt(js, ts, i + 2 + 2 * m + 1, rest[m])
      {
        assert WordAt(ts, i + 2 * (m + 1), ",") && AtomAt(js, ts, i + 2 * (m + 1) + 1, items[m + 1]);
      }
    }
    if WordAt(ts, i, ",") && AtomAt(js, ts, i + 1, items[0]) && MoreAt(js, ts, i + 2, rest, j) {
      forall m | 0 <= m < |items|
        ensures WordAt(ts, i + 2 * m, ",") && AtomAt(js, ts, i + 2 * m + 1, items[m])
      {
        if m > 0 {
          assert WordAt(ts, i + 2 + 2 * (m - 1), ",") && AtomAt(js, ts, i + 2 + 2 * (m - 1) + 1, rest[m - 1]);
        }
      }
    }
  }

  lemma {:induction false} MoreExact(js: string -> bool, ts: seq<Token>, i: nat, items: seq<Scalar>, j: nat)
    requires Tape(ts) && i < |ts|
    ensures MoreAtoms(js, ts, i) == Done(items, j) <==> MoreAt(js, ts, i, items, j)
    decreases |ts| - i
  {
    hide ParseAtom, AtomAt, Tape;
    if !At(ts, i, ",") {
      if items != [] {
        MoreStep(js, ts, i, items, j);
      }
    } else {
      WordThen(ts, i, ",");
      if items == [] {
      } else {
        hide MoreAt;
        MoreStep(js, ts, i, items, j);
        AtomExact(js, ts, i + 1, items[0], i + 2);
        if ParseAtom(js, ts, i + 1).Done? {
          var x := ParseAtom(js, ts, i + 1);
          AtomExact(js, ts, i + 1, x.value, x.next);
          MoreExact(js, ts, i + 2, items[1..], j);
          assert items == [items[0]] + items[1..];
        }
      }
    }
  }

  lemma ListExact(js: string -> bool, ts: seq<Token>, i: nat, items: seq<Scalar>, j: nat)
    requires Tape(ts) && i < |ts|
    ensures ListAt(js, ts, i, items, j) <==>
            && items != [] && ParseAtom(js, ts, i) == Done(items[0], i + 1) && i + 1 < |ts|
            && MoreAtoms(js, ts, i + 1) == Done(items[1..], j)
  {
    hide ParseAtom, MoreAtoms, AtomAt, MoreAt;
    if items != [] {
      AtomExact(js, ts, i, items[0], i + 1);
      if AtomAt(js, ts, i, items[0]) {
        AtomThen(js, ts, i, items[0]);
        MoreExact(js, ts, i + 1, items[1..], j);
      }
    }
  }

  lemma WordIsNoAtom(js: string -> bool, ts: seq<Token>, i: nat, text: string)
    requires WordAt(ts, i, text)
    ensures forall x :: !AtomAt(js, ts, i, x)
  {
  }

  lemma BracedExact(js: string -> bool, ts: seq<Token>, i: nat, items: seq<Scalar>, j: nat)
    requires Tape(ts) && i < |ts|
    ensures ParseBraced(js, ts, i) == Done(items, j) <==>
            if At(ts, i, "}") then items == [] && j == i else ListAt(js, ts, i, items, j)
  {
    hide ParseAtom, MoreAtoms, ListAt, Tape;
    ListExact(js, ts, i, items, j);
    if !At(ts, i, "}") && ParseBraced(js, ts, i).Done? {
      var x := ParseAtom(js, ts, i);
      AtomExact(js, ts, i, x.value, x.next);
      var r := ParseBraced(js, ts, i).value;
      assert r[0] == x.value && r[1..] == MoreAtoms(js, ts, x.next).value;
    }
    if items != [] {
      assert items == [items[0]] + items[1..];
    }
  }

  /** The parser reads a value at `i` that ends before `j` exactly if it stands there. */
  lemma ValueExact(js: string -> bool, ts: seq<Token>, i: nat, v: Value, j: nat)
    requires Tape(ts) && i < |ts|
    ensures ParseValue(js, ts, i) == Done(v, j) <==> ValueAt(js, ts, i, v, j)
  {
    hide ParseAtom, MoreAtoms, ParseBraced, ListAt, Tape, AtomAt;
    if At(ts, i, "{") {
      BracedValue(js, ts, i, v, j);
    } else {
      BareValue(js, ts, i, v, j);
    }
  }

  lemma BracedValue(js: string -> bool, ts: seq<Token>, i: nat, v: Value, j: nat)
    requires Tape(ts) && i < |ts| && At(ts, i, "{")
    ensures ParseValue(js, ts, i) == Done(v, j) <==> ValueAt(js, ts, i, v, j)
  {
    hide ParseAtom, MoreAtoms, ParseBraced, MoreAt, AtomAt;
    WordThen(ts, i, "{");
    WordIsNoAtom(js, ts, i, "{");
    var r := ParseBraced(js, ts, i + 1);
    if r.Done? {
      BracedExact(js, ts, i + 1, r.value, r.next);
    }
    if v.Many? && j > 0 {
      BracedExact(js, ts, i + 1, v.items, j - 1);
      if WordAt(ts, i + 1, "}") {
        WordIsNoAtom(js, ts, i + 1, "}");
      }
    }
  }

  lemma BareValue(js: string -> bool, ts: seq<Token>, i: nat, v: Value, j: nat)
    requires Tape(ts) && i < |ts| && !At(ts, i, "{")
    ensures ParseValue(js, ts, i) == Done(v, j) <==> ValueAt(js, ts, i, v, j)
  {
    hide ParseAtom, MoreAtoms, AtomAt, Tape;
    var first := ParseAtom(js, ts, i);
    if first.Done? {
      AtomExact(js, ts, i, first.value, first.next);
      var more := MoreAtoms(js, ts, i + 1);
      if more.Done? {
        MoreExact(js, ts, i + 1, more.value, more.next);
        assert more.value == [] ==> !WordAt(ts, i + 1, ",");
      }
    }
    match v
    case One(x) => AtomExact(js, ts, i, x, i + 1);
    case Many(items) =>
      if items != [] {
        AtomExact(js, ts, i, items[0], i + 1);
        ListExact(js, ts, i, items, j);
        assert items == [items[0]] + items[1..];
        if |items| > 1 {
          MoreStep(js, ts, i + 1, items[1..], j);
        }
      }
  }

  // ----- Attributes -----

  predicate KeyAt(ts: seq<Token>, i: nat, key: string) { WordAt(ts, i, key) && WordAt(ts, i + 1, ":") }

  /** A name, a colon and a value, in parentheses. */
  predicate AttributeAt(js: string -> bool, ts: seq<Token>, i: nat, a: Attr, j: nat) {
    && WordAt(ts, i, "(") && i + 1 < |ts| && ts[i + 1].kind == Name && ts[i + 1].text == a.key && WordAt(ts, i + 2, ":")
    && j > 0 && ValueAt(js, ts, i + 3, a.value, j - 1) && WordAt(ts, j - 1, ")")
  }

  /** One attribute after the other. */
  ghost predicate InRow(js: string -> bool, ts: seq<Token>, i: nat, attrs: Attrs, j: nat)
    decreases |attrs|
  {
    if attrs == [] then j == i
    else exists k: nat :: AttributeAt(js, ts, i, attrs[0], k) && InRow(js, ts, k, attrs[1..], j)
  }

  /** All there are, with no key twice. */
  ghost predicate AttributesAt(js: string -> bool, ts: seq<Token>, i: nat, attrs: Attrs, j: nat) {
    InRow(js, ts, i, attrs, j) && Distinct(attrs) && !WordAt(ts, j, "(")
  }

  lemma AttributeExact(js: string -> bool, ts: seq<Token>, i: nat, into: Attrs, a: Attr, j: nat)
    requires Tape(ts) && i < |ts|
    ensures ParseAttribute(js, ts, i, into) == Done(into + [a], j) <==> AttributeAt(js, ts, i, a, j) && !HasKey(into, a.key)
  {
    hide ParseValue, ValueAt, Tape, HasKey;
    if WordAt(ts, i, "(") {
      WordThen(ts, i, "(");
      NameThen(ts, i + 1);
      if WordAt(ts, i + 2, ":") {
        WordThen(ts, i + 2, ":");
        var r := ParseValue(js, ts, i + 3);
        if r.Done? {
          ValueExact(js, ts, i + 3, r.value, r.next);
        }
        if j > 0 {
          ValueExact(js, ts, i + 3, a.value, j - 1);
        }
        LastOf(into, a, Attr(ts[i + 1].text, a.value));
      }
    }
    var whole := ParseAttribute(js, ts, i, into);
    if whole == Done(into + [a], j) {
      assert whole.value[|into|] == a;
    }
  }

  lemma LastOf(into: Attrs, a: Attr, b: Attr)
    ensures into + [a] == into + [b] ==> a == b
  {
    assert (into + [a])[|into|] == a && (into + [b])[|into|] == b;
  }

  lemma NameThen(ts: seq<Token>, i: nat)
    requires Tape(ts) && i < |ts|
    ensures ts[i].kind == Name ==> i + 1 < |ts|
  {
  }

  /** What the loop has read stays read. */
  lemma {:induction false} MoreAttributesGrow(js: string -> bool, ts: seq<Token>, i: nat, into: Attrs)
    requires Tape(ts) && i < |ts| && MoreAttributes(js, ts, i, into).Done?
    ensures into <= MoreAttributes(js, ts, i, into).value
    decreases |ts| - i
  {
    hide ParseAttribute, Tape;
    if At(ts, i, "(") {
      var first := ParseAttribute(js, ts, i, into);
      OneMore(js, ts, i, into);
      MoreAttributesGrow(js, ts, first.next, first.value);
    }
  }

  lemma OneMore(js: string -> bool, ts: seq<Token>, i: nat, into: Attrs)
    requires Tape(ts) && i < |ts| && ParseAttribute(js, ts, i, into).Done?
    ensures exists a :: ParseAttribute(js, ts, i, into).value == into + [a]
  {
    hide ParseValue, Tape, HasKey;
    assert ParseAttribute(js, ts, i, into).value == into + [Attr(ts[i + 1].text, ParseValue(js, ts, i + 3).value)];
  }

  lemma {:induction false} MoreAttributesExact(js: string -> bool, ts: seq<Token>, i: nat, into: Attrs, attrs: Attrs, j: nat)
    requires Tape(ts) && i < |ts| && Distinct(into)
    ensures MoreAttributes(js, ts, i, into) == Done(into + attrs, j) <==>
            InRow(js, ts, i, attrs, j) && Distinct(into + attrs) && !WordAt(ts, j, "(")
    decreases |ts| - i
  {
    hide ParseAttribute, AttributeAt, Tape;
    if !At(ts, i, "(") {
      if attrs != [] {
        NoAttribute(js, ts, i, attrs[0]);
        assert into + attrs != into;
      } else {
        assert into + attrs == into;
      }
    } else if attrs == [] {
      assert into + attrs == into;
      var first := ParseAttribute(js, ts, i, into);
      if first.Done? && MoreAttributes(js, ts, i, into).Done? {
        OneMore(js, ts, i, into);
        MoreAttributesGrow(js, ts, first.next, first.value);
      }
    } else {
      MoreAttributesStep(js, ts, i, into, attrs, j);
      var first := ParseAttribute(js, ts, i, into);
      if first.Done? && first.value == into + [attrs[0]] {
        AttributeExact(js, ts, i, into, attrs[0], first.next);
        DistinctMore(into, attrs[0]);
        MoreAttributesExact(js, ts, first.next, into + [attrs[0]], attrs[1..], j);
        assert into + [attrs[0]] + attrs[1..] == into + attrs;
        forall k: nat | AttributeAt(js, ts, i, attrs[0], k)
          ensures k == first.next
        {
          AttributeExact(js, ts, i, into, attrs[0], k);
        }
      }
    }
  }

  lemma DistinctMore(into: Attrs, a: Attr)
    requires Distinct(into) && !HasKey(into, a.key)
    ensures Distinct(into + [a])
  {
  }

  lemma NoAttribute(js: string -> bool, ts: seq<Token>, i: nat, a: Attr)
    requires i < |ts| && !At(ts, i, "(")
    ensures forall k: nat :: !AttributeAt(js, ts, i, a, k)
  {
    hide ValueAt;
  }

  /** Neither side holds unless the first attribute is there, under a key that is new. */
  lemma MoreAttributesStep(js: string -> bool, ts: seq<Token>, i: nat, into: Attrs, attrs: Attrs, j: nat)
    requires Tape(ts) && i < |ts| && At(ts, i, "(") && attrs != []
    ensures MoreAttributes(js, ts, i, into) == Done(into + attrs, j) ==>
              ParseAttribute(js, ts, i, into).Done? && ParseAttribute(js, ts, i, into).value == into + [attrs[0]]
    ensures InRow(js, ts, i, attrs, j) && Distinct(into + attrs) ==>
              ParseAttribute(js, ts, i, into).Done? && ParseAttribute(js, ts, i, into).value == into + [attrs[0]]
  {
    hide ParseAttribute, AttributeAt, Tape;
    if MoreAttributes(js, ts, i, into) == Done(into + attrs, j) {
      var first := ParseAttribute(js, ts, i, into);
      OneMore(js, ts, i, into);
      MoreAttributesGrow(js, ts, first.next, first.value);
      assert first.value == (into + attrs)[..|into| + 1] == into + [attrs[0]];
    }
    if InRow(js, ts, i, attrs, j) && Distinct(into + attrs) {
      var k: nat :| AttributeAt(js, ts, i, attrs[0], k) && InRow(js, ts, k, attrs[1..], j);
      NewKey(into, attrs);
      AttributeExact(js, ts, i, into, attrs[0], k);
    }
  }

  lemma NewKey(into: Attrs, attrs: Attrs)
    requires attrs != [] && Distinct(into + attrs)
    ensures !HasKey(into, attrs[0].key)
  {
    assert (into + attrs)[|into|] == attrs[0];
    forall m | 0 <= m < |into|
      ensures into[m].key != attrs[0].key
    {
      assert (into + attrs)[m] == into[m];
    }
  }

  /** The parser reads attributes at `i` that end before `j` exactly if they stand there, and are enough. */
  lemma AttributesExact(js: string -> bool, ts: seq<Token>, i: nat, atLeastOne: bool, attrs: Attrs, j: nat)
    requires Tape(ts) && i < |ts|
    ensures ParseAttributes(js, ts, i, atLeastOne) == Done(attrs, j) <==>
            AttributesAt(js, ts, i, attrs, j) && (atLeastOne ==> attrs != [])
  {
    hide MoreAttributes, AttributeAt, Tape;
    MoreAttributesExact(js, ts, i, [], attrs, j);
    assert [] + attrs == attrs;
    if attrs != [] && !At(ts, i, "(") {
      NoAttribute(js, ts, i, attrs[0]);
    }
    if attrs == [] && At(ts, i, "(") {
      assert !AttributesAt(js, ts, i, attrs, j);
    }
  }

  // ----- Terms -----

  /** `(any:` or `(all:`, any attributes, and a parenthesis. */
  ghost predicate OthersAt(js: string -> bool, ts: seq<Token>, i: nat, quantifier: string, attrs: Attrs, j: nat) {
    && WordAt(ts, i, "(") && KeyAt(ts, i + 1, quantifier)
    && j > 0 && AttributesAt(js, ts, i + 3, attrs, j - 1) && WordAt(ts, j - 1, ")")
  }

  ghost predicate ParticipantAt(js: string -> bool, ts: seq<Token>, i: nat, p: Participant, j: nat) {
    match p
    case Me => WordAt(ts, i, "me") && j == i + 1
    case Requester => WordAt(ts, i, "requester") && j == i + 1
    case AnyOf(attrs) => OthersAt(js, ts, i, "any", attrs, j)
    case AllOf(attrs) => OthersAt(js, ts, i, "all", attrs, j)
  }

  /** To whom, what, and from whom; the first two end at `k` and `l`. */
  ghost predicate TermParts(js: string -> bool, ts: seq<Token>, i: nat, term: ExchangeTerm, k: nat, l: nat, j: nat) {
    && WordAt(ts, i, "(")
    && KeyAt(ts, i + 1, "to") && ParticipantAt(js, ts, i + 3, term.to, k) && !term.to.Requester? && WordAt(ts, k, ",")
    && KeyAt(ts, k + 1, "resource") && AttributesAt(js, ts, k + 3, term.resource, l) && term.resource != [] && WordAt(ts, l, ",")
    && KeyAt(ts, l + 1, "from") && j > 0 && ParticipantAt(js, ts, l + 3, term.from, j - 1) && !term.from.Me? && WordAt(ts, j - 1, ")")
  }

  ghost predicate TermAt(js: string -> bool, ts: seq<Token>, i: nat, term: ExchangeTerm, j: nat) {
    exists k: nat, l: nat :: TermParts(js, ts, i, term, k, l, j)
  }

  lemma KeyThen(ts: seq<Token>, i: nat, key: string)
    requires Tape(ts)
    ensures KeyAt(ts, i, key) ==> i + 2 < |ts|
    ensures i < |ts| && At(ts, i, key) ==> i + 1 < |ts| && (At(ts, i + 1, ":") <==> KeyAt(ts, i, key))
  {
    if WordAt(ts, i, key) {
      WordThen(ts, i, key);
      if WordAt(ts, i + 1, ":") {
        WordThen(ts, i + 1, ":");
      }
    }
  }

  lemma OthersExact(js: string -> bool, ts: seq<Token>, i: nat, p: Participant, j: nat)
    requires Tape(ts) && i < |ts|
    ensures ParseOthers(js, ts, i) == Done(p, j) <==> (p.AnyOf? || p.AllOf?) && ParticipantAt(js, ts, i, p, j)
  {
    hide ParseAttributes, AttributesAt, Tape;
    if WordAt(ts, i, "(") {
      WordThen(ts, i, "(");
      KeyThen(ts, i + 1, "any");
      KeyThen(ts, i + 1, "all");
      if KeyAt(ts, i + 1, "any") || KeyAt(ts, i + 1, "all") {
        var r := ParseAttributes(js, ts, i + 3, false);
        if r.Done? {
          AttributesExact(js, ts, i + 3, false, r.value, r.next);
        }
        if (p.AnyOf? || p.AllOf?) && j > 0 {
          AttributesExact(js, ts, i + 3, false, p.attrs, j - 1);
        }
      }
    }
  }

  lemma ToExact(js: string -> bool, ts: seq<Token>, i: nat, p: Participant, j: nat)
    requires Tape(ts) && i < |ts|
    ensures ParseTo(js, ts, i) == Done(p, j) <==> ParticipantAt(js, ts, i, p, j) && !p.Requester?
  {
    hide ParseOthers, AttributesAt, Tape;
    OthersExact(js, ts, i, p, j);
  }

  lemma FromExact(js: string -> bool, ts: seq<Token>, i: nat, p: Participant, j: nat)
    requires Tape(ts) && i < |ts|
    ensures ParseFrom(js, ts, i) == Done(p, j) <==> ParticipantAt(js, ts, i, p, j) && !p.Me?
  {
    hide ParseOthers, AttributesAt, Tape;
    OthersExact(js, ts, i, p, j);
  }

  lemma ToClauseExact(js: string -> bool, ts: seq<Token>, i: nat, p: Participant, j: nat)
    requires Tape(ts) && i < |ts|
    ensures ParseToClause(js, ts, i) == Done(p, j) <==>
            && KeyAt(ts, i, "to") && j > 0 && ParticipantAt(js, ts, i + 2, p, j - 1) && !p.Requester? && WordAt(ts, j - 1, ",")
  {
    hide ParseTo, ParticipantAt, Tape;
    KeyThen(ts, i, "to");
    if KeyAt(ts, i, "to") {
      var r := ParseTo(js, ts, i + 2);
      if r.Done? {
        ToExact(js, ts, i + 2, r.value, r.next);
      }
      if j > 0 {
        ToExact(js, ts, i + 2, p, j - 1);
      }
    }
  }

  lemma ResourceClauseExact(js: string -> bool, ts: seq<Token>, i: nat, attrs: Attrs, j: nat)
    requires Tape(ts) && i < |ts|
    ensures ParseResourceClause(js, ts, i) == Done(attrs, j) <==>
            && KeyAt(ts, i, "resource") && j > 0 && AttributesAt(js, ts, i + 2, attrs, j - 1) && attrs != [] && WordAt(ts, j - 1, ",")
  {
    hide ParseAttributes, AttributesAt, Tape;
    KeyThen(ts, i, "resource");
    if KeyAt(ts, i, "resource") {
      var r := ParseAttributes(js, ts, i + 2, true);
      if r.Done? {
        AttributesExact(js, ts, i + 2, true, r.value, r.next);
      }
      if j > 0 {
        AttributesExact(js, ts, i + 2, true, attrs, j - 1);
      }
    }
  }

  lemma FromClauseExact(js: string -> bool, ts: seq<Token>, i: nat, p: Participant, j: nat)
    requires Tape(ts) && i < |ts|
    ensures ParseFromClause(js, ts, i) == Done(p, j) <==>
            && KeyAt(ts, i, "from") && j > 0 && ParticipantAt(js, ts, i + 2, p, j - 1) && !p.Me? && WordAt(ts, j - 1, ")")
  {
    hide ParseFrom, ParticipantAt, Tape;
    KeyThen(ts, i, "from");
    if KeyAt(ts, i, "from") {
      var r := ParseFrom(js, ts, i + 2);
      if r.Done? {
        FromExact(js, ts, i + 2, r.value, r.next);
      }
      if j > 0 {
        FromExact(js, ts, i + 2, p, j - 1);
      }
    }
  }

  /** What the parser takes for a term. */
  lemma TermSound(js: string -> bool, ts: seq<Token>, i: nat)
    requires Tape(ts) && i < |ts| && ParseTerm(js, ts, i).Done?
    ensures var r := ParseTerm(js, ts, i); r.value.Term? && TermAt(js, ts, i, r.value.term, r.next)
  {
    hide ParseToClause, ParseResourceClause, ParseFromClause, ParticipantAt, AttributesAt, KeyAt, Tape;
    var to := ParseToClause(js, ts, i + 1);
    ToClauseExact(js, ts, i + 1, to.value, to.next);
    var resource := ParseResourceClause(js, ts, to.next);
    ResourceClauseExact(js, ts, to.next, resource.value, resource.next);
    var from := ParseFromClause(js, ts, resource.next);
    FromClauseExact(js, ts, resource.next, from.value, from.next);
    assert TermParts(js, ts, i, ParseTerm(js, ts, i).value.term, to.next - 1, resource.next - 1, from.next);
  }

  lemma TermComplete(js: string -> bool, ts: seq<Token>, i: nat, term: ExchangeTerm, j: nat)
    requires Tape(ts) && i < |ts| && TermAt(js, ts, i, term, j)
    ensures ParseTerm(js, ts, i) == Done(Term(term), j)
  {
    hide ParseToClause, ParseResourceClause, ParseFromClause, ParticipantAt, AttributesAt, Tape;
    var k: nat, l: nat :| TermParts(js, ts, i, term, k, l, j);
    WordThen(ts, i, "(");
    WordThen(ts, k, ",");
    WordThen(ts, l, ",");
    ToClauseExact(js, ts, i + 1, term.to, k + 1);
    ResourceClauseExact(js, ts, k + 1, term.resource, l + 1);
    FromClauseExact(js, ts, l + 1, term.from, j);
  }
}
