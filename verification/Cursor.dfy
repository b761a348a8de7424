/** The recursive-descent parser of app/frontend/src/lib/bart/parse.ts in its own form: a cursor
    that advances in place, and methods that throw by returning an error. Every method leaves the
    cursor, and returns, exactly what `Parse` says. */
module Cursors {
  import opened Lex
  import opened Spelling
  import opened Attrs
  import opened Rule
  import opened Parse
  import RuleForms

  /** The method's outcome is the function's: same value and position, or same error. */
  predicate Agrees<T(==)>(r: Result<T, ParseError>, i: nat, spec: Parsed<T>) {
    match spec
    case Done(value, next) => r == Ok(value) && i == next
    case Failed(error) => r == Err(error)
  }

  /** What a loop with `front` collected still has to return. */
  function Onto<T>(front: seq<T>, rest: Parsed<seq<T>>): Parsed<seq<T>> {
    if rest.Failed? then rest else Done(front + rest.value, rest.next)
  }

  lemma OntoStep<T>(front: seq<T>, x: T, rest: Parsed<seq<T>>)
    requires rest.Done?
    ensures Onto(front, Done([x] + rest.value, rest.next)) == Onto(front + [x], rest)
  {
    assert front + ([x] + rest.value) == (front + [x]) + rest.value;
  }

  class Cursor {
    const tokens: seq<Token>
    const source: string
    /** Whether a number's text is the one JavaScript would write for it. */
    const js: string -> bool
    var i: nat

    ghost predicate Valid()
      reads this
    {
      Tape(tokens) && i < |tokens|
    }

    constructor (tokens: seq<Token>, source: string, js: string -> bool)
      requires Tape(tokens)
      ensures Valid() && i == 0 && this.tokens == tokens && this.source == source && this.js == js
    {
      this.tokens, this.source, this.js, i := tokens, source, js, 0;
    }

    function Peek(offset: nat): (t: Token)
      requires Valid()
      reads this
      ensures i + offset < |tokens| ==> t == tokens[i + offset]
      ensures i + offset >= |tokens| ==> t.kind == Eof
    {
      tokens[if i + offset < |tokens| then i + offset else |tokens| - 1]
    }

    /** Moves past the current token, but never past `eof`. */
    method Next() returns (t: Token)
      requires Valid()
      modifies this`i
      ensures Valid() && t == tokens[old(i)] && i == if t.kind == Eof then old(i) else old(i) + 1
    {
      t := Peek(0);
      if t.kind != Eof {
        i := i + 1;
      }
    }

    method Accept(text: string) returns (b: bool)
      requires Valid()
      modifies this`i
      ensures Valid() && b == At(tokens, old(i), text) && i == if b then old(i) + 1 else old(i)
    {
      b := At(tokens, i, text);
      if b {
        var _ := Next();
      }
    }

    method ExpectText(text: string) returns (r: Result<(), ParseError>)
      requires Valid()
      modifies this`i
      ensures Valid() && Agrees(r, i, Expect(tokens, old(i), text))
    {
      if !At(tokens, i, text) {
        return Err(Syntax);
      }
      var _ := Next();
      return Ok(());
    }

    // ----- Attributes -----

    method ReadAtom() returns (r: Result<Scalar, ParseError>)
      requires Valid()
      modifies this`i
      ensures Valid() && Agrees(r, i, ParseAtom(js, tokens, old(i)))
    {
      var token := Peek(0);
      match token.kind
      case StringLit =>
        var _ := Next();
        return Ok(Str(Unquote(token.text)));
      case Number =>
        var _ := Next();
        return if js(token.text) then Ok(Num(token.text)) else Err(Unrepresentable);
      case Bool =>
        var _ := Next();
        return Ok(Boolean(token.text == "true"));
      case _ =>
        return Err(Syntax);
    }

    /** After each comma, one more item. */
    method ReadMoreAtoms(first: Scalar) returns (r: Result<seq<Scalar>, ParseError>)
      requires Valid()
      modifies this`i
      ensures Valid() && Agrees(r, i, Onto([first], MoreAtoms(js, tokens, old(i))))
    {
      hide ParseAtom, Tape;
      var items := [first];
      while At(tokens, i, ",")
        invariant Valid()
        invariant Onto(items, MoreAtoms(js, tokens, i)) == Onto([first], MoreAtoms(js, tokens, old(i)))
        decreases |tokens| - i
      {
        Skip(",");
        var x :- ReadAtom();
        if MoreAtoms(js, tokens, i).Done? {
          OntoStep(items, x, MoreAtoms(js, tokens, i));
        }
        items := items + [x];
      }
      assert items + [] == items;
      return Ok(items);
    }

    /** `accept` where the text is known to be there. */
    method Skip(text: string)
      requires Valid() && At(tokens, i, text)
      modifies this`i
      ensures Valid() && i == old(i) + 1
    {
      var _ := Next();
    }

    method ReadValue() returns (r: Result<Value, ParseError>)
      requires Valid()
      modifies this`i
      ensures Valid() && Agrees(r, i, ParseValue(js, tokens, old(i)))
    {
      hide ParseAtom, MoreAtoms, Tape;
      if At(tokens, i, "{") {
        Skip("{");
        var braced: seq<Scalar> := [];
        if !At(tokens, i, "}") {
          var first :- ReadAtom();
          braced :- ReadMoreAtoms(first);
        }
        var _ :- ExpectText("}");
        return Ok(Many(braced));
      }
      var first :- ReadAtom();
      if !At(tokens, i, ",") {
        return Ok(One(first));
      }
      var items :- ReadMoreAtoms(first);
      return Ok(Many(items));
    }

    method ReadAttribute(into: Attrs) returns (r: Result<Attrs, ParseError>)
      requires Valid()
      modifies this`i
      ensures Valid() && Agrees(r, i, ParseAttribute(js, tokens, old(i), into))
    {
      hide ParseValue, Tape, HasKey;
      var _ :- ExpectText("(");
      var key := Peek(0);
      if key.kind != Name {
        return Err(Syntax);
      }
      var _ := Next();
      if HasKey(into, key.text) {
        return Err(Syntax);
      }
      var _ :- ExpectText(":");
      var value :- ReadValue();
      var _ :- ExpectText(")");
      return Ok(into + [Attr(key.text, value)]);
    }

    method ReadAttributes(atLeastOne: bool) returns (r: Result<Attrs, ParseError>)
      requires Valid()
      modifies this`i
      ensures Valid() && Agrees(r, i, ParseAttributes(js, tokens, old(i), atLeastOne))
    {
      hide ParseAttribute, Tape;
      var attrs: Attrs := [];
      if atLeastOne && !At(tokens, i, "(") {
        return Err(Syntax);
      }
      while At(tokens, i, "(")
        invariant Valid()
        invariant MoreAttributes(js, tokens, i, attrs) == MoreAttributes(js, tokens, old(i), [])
        decreases |tokens| - i
      {
        attrs :- ReadAttribute(attrs);
      }
      return Ok(attrs);
    }

    // ----- Exchanges -----

    method ReadOthers() returns (r: Result<Participant, ParseError>)
      requires Valid()
      modifies this`i
      ensures Valid() && Agrees(r, i, ParseOthers(js, tokens, old(i)))
    {
      hide ParseAttributes, Tape;
      var _ :- ExpectText("(");
      var quant := Peek(0);
      if !At(tokens, i, "any") && !At(tokens, i, "all") {
        return Err(Syntax);
      }
      var _ := Next();
      var _ :- ExpectText(":");
      var attrs :- ReadAttributes(false);
      var _ :- ExpectText(")");
      return Ok(if quant.text == "any" then AnyOf(attrs) else AllOf(attrs));
    }

    method ReadTo() returns (r: Result<Participant, ParseError>)
      requires Valid()
      modifies this`i
      ensures Valid() && Agrees(r, i, ParseTo(js, tokens, old(i)))
    {
      hide ParseOthers, Tape;
      var me := Accept("me");
      if me {
        return Ok(Me);
      }
      if At(tokens, i, "(") {
        r := ReadOthers();
        return;
      }
      return Err(Syntax);
    }

    method ReadFrom() returns (r: Result<Participant, ParseError>)
      requires Valid()
      modifies this`i
      ensures Valid() && Agrees(r, i, ParseFrom(js, tokens, old(i)))
    {
      hide ParseOthers, Tape;
      var requester := Accept("requester");
      if requester {
        return Ok(Requester);
      }
      if At(tokens, i, "(") {
        r := ReadOthers();
        return;
      }
      return Err(Syntax);
    }

    /** The key and its colon. */
    method ExpectClause(key: string) returns (r: Result<(), ParseError>)
      requires Valid()
      modifies this`i
      ensures Valid() && Agrees(r, i, ExpectKey(tokens, old(i), key))
    {
      var _ :- ExpectText(key);
      r := ExpectText(":");
    }

    method ReadTerm() returns (r: Result<Node, ParseError>)
      requires Valid()
      modifies this`i
      ensures Valid() && Agrees(r, i, ParseTerm(js, tokens, old(i)))
    {
      hide ParseTo, ParseFrom, ParseAttributes, ExpectKey, Tape;
      var _ :- ExpectText("(");
      var _ :- ExpectClause("to");
      var to :- ReadTo();
      var _ :- ExpectText(",");
      var _ :- ExpectClause("resource");
      var resource :- ReadAttributes(true);
      var _ :- ExpectText(",");
      var _ :- ExpectClause("from");
      var from :- ReadFrom();
      var _ :- ExpectText(")");
      return Ok(Term(ExchangeTerm(to, resource, from)));
    }

    method ReadPrimary() returns (r: Result<Node, ParseError>)
      requires Valid()
      modifies this`i
      ensures Valid() && Agrees(r, i, ParsePrimary(js, tokens, old(i)))
      decreases |tokens| - i, 0
    {
      hide ParseTerm, ParseOr, Tape;
      if !At(tokens, i, "(") {
        return Err(Syntax);
      }
      if Peek(1).kind == Name && Peek(1).text == "to" {
        r := ReadTerm();
        return;
      }
      Skip("(");
      var inner :- ReadOr();
      var _ :- ExpectText(")");
      return Ok(inner);
    }

    method ReadAnd() returns (r: Result<Node, ParseError>)
      requires Valid()
      modifies this`i
      ensures Valid() && Agrees(r, i, ParseAnd(js, tokens, old(i)))
      decreases |tokens| - i, 1
    {
      hide ParsePrimary, Tape, GroupNode;
      var first :- ReadPrimary();
      ghost var at := i;
      var children := [first];
      while At(tokens, i, "and")
        invariant Valid() && i >= at > old(i)
        invariant Onto(children, MoreAnds(js, tokens, i)) == Onto([first], MoreAnds(js, tokens, at))
        decreases |tokens| - i
      {
        Skip("and");
        var x :- ReadPrimary();
        if MoreAnds(js, tokens, i).Done? {
          OntoStep(children, x, MoreAnds(js, tokens, i));
        }
        children := children + [x];
      }
      assert children + [] == children;
      var node := BuildGroup(And, children);
      return Ok(node);
    }

    method ReadOr() returns (r: Result<Node, ParseError>)
      requires Valid()
      modifies this`i
      ensures Valid() && Agrees(r, i, ParseOr(js, tokens, old(i)))
      decreases |tokens| - i, 2
    {
      hide ParseAnd, Tape, GroupNode;
      var first :- ReadAnd();
      ghost var at := i;
      var children := [first];
      while At(tokens, i, "or")
        invariant Valid() && i >= at > old(i)
        invariant Onto(children, MoreOrs(js, tokens, i)) == Onto([first], MoreOrs(js, tokens, at))
        decreases |tokens| - i
      {
        Skip("or");
        var x :- ReadAnd();
        if MoreOrs(js, tokens, i).Done? {
          OntoStep(children, x, MoreOrs(js, tokens, i));
        }
        children := children + [x];
      }
      assert children + [] == children;
      var node := BuildGroup(Or, children);
      return Ok(node);
    }

    // ----- Conditions and rules -----

    /** The scan for the end of a condition, counting depth as it goes. */
    method ReadConditionSpan() returns (r: Result<string, ParseError>)
      requires Valid()
      modifies this`i
      ensures Valid() && Agrees(r, i, ParseConditionSpan(tokens, old(i), source))
    {
      hide Trim, Slice, StripOuterParens;
      var start := Peek(0).start;
      var end := start;
      var depth := 0;
      while true
        invariant Valid() && i >= old(i)
        invariant SpanEnd(tokens, i, depth) == SpanEnd(tokens, old(i), 0)
        invariant end == if i == old(i) then start else tokens[i - 1].end
        decreases |tokens| - i
      {
        var token := Peek(0);
        if token.kind == Eof {
          return Err(Syntax);
        }
        if depth == 0 && EndsSpan(Bare(token)) {
          break;
        }
        depth := DepthAfter(Bare(token), depth);
        end := token.end;
        var _ := Next();
      }
      var text := Trim(Slice(source, start, end));
      if text == "" {
        return Err(Syntax);
      }
      var stripped := StripParens(text);
      return Ok(stripped);
    }

    method ReadClauses() returns (r: Result<Tail, ParseError>)
      requires Valid()
      modifies this`i
      ensures Valid() && Agrees(r, i, MoreClauses(js, tokens, old(i), source, (None, None)))
    {
      hide ParseOr, ParseConditionSpan, Tape;
      var condition: Option<string> := None;
      var exchange: Option<Node> := None;
      while At(tokens, i, ",")
        invariant Valid()
        invariant MoreClauses(js, tokens, i, source, (condition, exchange)) == MoreClauses(js, tokens, old(i), source, (None, None))
        decreases |tokens| - i
      {
        Skip(",");
        var isCondition := Accept("condition");
        if isCondition {
          if condition.Some? || exchange.Some? {
            return Err(Syntax);
          }
          var _ :- ExpectText(":");
          var text :- ReadConditionSpan();
          condition := Some(text);
        } else {
          var isExchange := Accept("exchange");
          if !isExchange || exchange.Some? {
            return Err(Syntax);
          }
          var _ :- ExpectText(":");
          var node :- ReadOr();
          exchange := Some(node);
        }
      }
      return Ok((condition, exchange));
    }

    method ReadRule() returns (r: Result<RuleTree, ParseError>)
      requires Valid() && i == 0
      modifies this`i
      ensures Valid() && Agrees(r, i, ParseRuleAt(js, tokens, source))
    {
      hide ParseAttributes, MoreClauses, Tape;
      var _ :- ExpectText("(");
      var _ :- ExpectClause("resource");
      var resource :- ReadAttributes(true);
      var tail :- ReadClauses();
      var _ :- ExpectText(")");
      if Peek(0).kind != Eof {
        return Err(Syntax);
      }
      return Ok(RuleTree(resource, tail.0, tail.1));
    }
  }

  /** The loop of `stripOuterParens`. */
  method StripParens(text: string) returns (r: string)
    ensures r == StripOuterParens(text)
  {
    hide LexSpec, Trim;
    if text == "" || text[0] != '(' || text[|text| - 1] != ')' {
      return text;
    }
    var result := Lex.Lex(text);
    if result.LexError? {
      return text;
    }
    var depth := 0;
    var k := 0;
    while k < |result.tokens| && result.tokens[k].kind != Eof
      invariant k <= |result.tokens|
      invariant Wraps(result.tokens, k, depth, |text|) == Wraps(result.tokens, 0, 0, |text|)
    {
      var token := result.tokens[k];
      if Bare(token) == P("(") {
        depth := depth + 1;
      } else if Bare(token) == P(")") {
        depth := depth - 1;
        if depth == 0 && token.end != |text| {
          return text;
        }
      }
      k := k + 1;
    }
    return Trim(text[1..|text| - 1]);
  }

  /** `parseTreeCore` */
  method ParseTreeCore(js: string -> bool, source: string) returns (r: Result<RuleTree, ParseError>)
    ensures r == ParseTree(js, source)
    ensures forall tree :: r == Ok(tree) <==> RuleForms.Denotes(js, source, tree)
  {
    hide LexSpec, ParseRuleAt, Tape, RuleForms.Denotes;
    forall tree
      ensures ParseTree(js, source) == Ok(tree) <==> RuleForms.Denotes(js, source, tree)
    {
      RuleForms.ParseExact(js, source, tree);
    }
    var lexed := Lex.Lex(source);
    if lexed.LexError? {
      return Err(Syntax);
    }
    LexedIsTape(source);
    var c := new Cursor(lexed.tokens, source, js);
    r := c.ReadRule();
  }
}
