/** What the parser of app/frontend/src/lib/bart/parse.ts computes, as functions of the tape of
    tokens and the position of the cursor. `Cursor.dfy` holds the methods.

    `js` stands for the test `String(Number(text)) === text`. */
module Parse {
  import opened Lex
  import opened Munch
  import opened Spelling
  import opened Attrs
  import opened Rule

  datatype ParseError = Syntax | Unrepresentable

  /** A result, and where the cursor stands after it. */
  datatype Parsed<+T> = Done(value: T, next: nat) | Failed(error: ParseError) {
    predicate IsFailure() { Failed? }
    function PropagateFailure<U>(): Parsed<U>
      requires Failed?
    {
      Failed(error)
    }
    function Extract(): (T, nat)
      requires Done?
    {
      (value, next)
    }
  }

  /** A tape ends in its only `eof`. */
  predicate Tape(ts: seq<Token>) {
    && ts != [] && ts[|ts| - 1].kind == Eof
    && forall k :: 0 <= k < |ts| - 1 ==> ts[k].kind != Eof
  }

  /** `at`: the token is this exact punctuation or name. */
  predicate IsText(t: Token, text: string) { (t.kind == Punct || t.kind == Name) && t.text == text }

  predicate At(ts: seq<Token>, i: nat, text: string)
    requires i < |ts|
  {
    IsText(ts[i], text)
  }

  function Expect(ts: seq<Token>, i: nat, text: string): Parsed<()>
    requires i < |ts|
  {
    if At(ts, i, text) then Done((), i + 1) else Failed(Syntax)
  }

  // ----- Attributes -----

  function ParseAtom(js: string -> bool, ts: seq<Token>, i: nat): (r: Parsed<Scalar>)
    requires Tape(ts) && i < |ts|
    ensures r.Done? ==> i < r.next < |ts|
  {
    var t := ts[i];
    match t.kind
    case StringLit => Done(Str(Unquote(t.text)), i + 1)
    case Number => if js(t.text) then Done(Num(t.text), i + 1) else Failed(Unrepresentable)
    case Bool => Done(Boolean(t.text == "true"), i + 1)
    case _ => Failed(Syntax)
  }

  /** After each comma, one more item. */
  function MoreAtoms(js: string -> bool, ts: seq<Token>, i: nat): (r: Parsed<seq<Scalar>>)
    requires Tape(ts) && i < |ts|
    ensures r.Done? ==> i <= r.next < |ts|
    decreases |ts| - i
  {
    if !At(ts, i, ",") then Done([], i)
    else
      var (x, j) :- ParseAtom(js, ts, i + 1);
      var (rest, k) :- MoreAtoms(js, ts, j);
      Done([x] + rest, k)
  }

  function ParseBraced(js: string -> bool, ts: seq<Token>, i: nat): (r: Parsed<seq<Scalar>>)
    requires Tape(ts) && i < |ts|
    ensures r.Done? ==> i <= r.next < |ts|
  {
    if At(ts, i, "}") then Done([], i)
    else
      var (x, j) :- ParseAtom(js, ts, i);
      var (rest, k) :- MoreAtoms(js, ts, j);
      Done([x] + rest, k)
  }

  function ParseValue(js: string -> bool, ts: seq<Token>, i: nat): (r: Parsed<Value>)
    requires Tape(ts) && i < |ts|
    ensures r.Done? ==> i < r.next < |ts|
  {
    if At(ts, i, "{") then
      var (items, j) :- ParseBraced(js, ts, i + 1);
      var (_, k) :- Expect(ts, j, "}");
      Done(Many(items), k)
    else
      var (first, j) :- ParseAtom(js, ts, i);
      if !At(ts, j, ",") then Done(One(first), j)
      else
        var (rest, k) :- MoreAtoms(js, ts, j);
        Done(Many([first] + rest), k)
  }

  function ParseAttribute(js: string -> bool, ts: seq<Token>, i: nat, into: Attrs): (r: Parsed<Attrs>)
    requires Tape(ts) && i < |ts|
    ensures r.Done? ==> i < r.next < |ts|
  {
    var (_, k0) :- Expect(ts, i, "(");
    var key := ts[k0];
    if key.kind != Name || HasKey(into, key.text) then Failed(Syntax)
    else
      var (_, k1) :- Expect(ts, k0 + 1, ":");
      var (value, k2) :- ParseValue(js, ts, k1);
      var (_, k3) :- Expect(ts, k2, ")");
      Done(into + [Attr(key.text, value)], k3)
  }

  /** As long as a parenthesis opens, one more attribute. */
  function MoreAttributes(js: string -> bool, ts: seq<Token>, i: nat, into: Attrs): (r: Parsed<Attrs>)
    requires Tape(ts) && i < |ts|
    ensures r.Done? ==> i <= r.next < |ts|
    decreases |ts| - i
  {
    if !At(ts, i, "(") then Done(into, i)
    else
      var (more, j) :- ParseAttribute(js, ts, i, into);
      MoreAttributes(js, ts, j, more)
  }

  function ParseAttributes(js: string -> bool, ts: seq<Token>, i: nat, atLeastOne: bool): (r: Parsed<Attrs>)
    requires Tape(ts) && i < |ts|
    ensures r.Done? ==> i <= r.next < |ts|
  {
    if atLeastOne && !At(ts, i, "(") then Failed(Syntax) else MoreAttributes(js, ts, i, [])
  }

  // ----- Exchanges -----

  function ParseOthers(js: string -> bool, ts: seq<Token>, i: nat): (r: Parsed<Participant>)
    requires Tape(ts) && i < |ts|
    ensures r.Done? ==> i < r.next < |ts|
  {
    var (_, k0) :- Expect(ts, i, "(");
    if !At(ts, k0, "any") && !At(ts, k0, "all") then Failed(Syntax)
    else
      var (_, k1) :- Expect(ts, k0 + 1, ":");
      var (attrs, k2) :- ParseAttributes(js, ts, k1, false);
      var (_, k3) :- Expect(ts, k2, ")");
      Done(if ts[k0].text == "any" then AnyOf(attrs) else AllOf(attrs), k3)
  }

  function ParseTo(js: string -> bool, ts: seq<Token>, i: nat): (r: Parsed<Participant>)
    requires Tape(ts) && i < |ts|
    ensures r.Done? ==> i < r.next < |ts|
  {
    if At(ts, i, "me") then Done(Me, i + 1)
    else if At(ts, i, "(") then ParseOthers(js, ts, i)
    else Failed(Syntax)
  }

  function ParseFrom(js: string -> bool, ts: seq<Token>, i: nat): (r: Parsed<Participant>)
    requires Tape(ts) && i < |ts|
    ensures r.Done? ==> i < r.next < |ts|
  {
    if At(ts, i, "requester") then Done(Requester, i + 1)
    else if At(ts, i, "(") then ParseOthers(js, ts, i)
    else Failed(Syntax)
  }

  /** The key and its colon. */
  function ExpectKey(ts: seq<Token>, i: nat, key: string): (r: Parsed<()>)
    requires Tape(ts) && i < |ts|
    ensures r.Done? ==> i < r.next < |ts|
  {
    var (_, j) :- Expect(ts, i, key);
    Expect(ts, j, ":")
  }

  function ParseToClause(js: string -> bool, ts: seq<Token>, i: nat): (r: Parsed<Participant>)
    requires Tape(ts) && i < |ts|
    ensures r.Done? ==> i < r.next < |ts|
  {
    var (_, k0) :- ExpectKey(ts, i, "to");
    var (to, k1) :- ParseTo(js, ts, k0);
    var (_, k2) :- Expect(ts, k1, ",");
    Done(to, k2)
  }

  function ParseResourceClause(js: string -> bool, ts: seq<Token>, i: nat): (r: Parsed<Attrs>)
    requires Tape(ts) && i < |ts|
    ensures r.Done? ==> i < r.next < |ts|
  {
    var (_, k0) :- ExpectKey(ts, i, "resource");
    var (resource, k1) :- ParseAttributes(js, ts, k0, true);
    var (_, k2) :- Expect(ts, k1, ",");
    Done(resource, k2)
  }

  function ParseFromClause(js: string -> bool, ts: seq<Token>, i: nat): (r: Parsed<Participant>)
    requires Tape(ts) && i < |ts|
    ensures r.Done? ==> i < r.next < |ts|
  {
    var (_, k0) :- ExpectKey(ts, i, "from");
    var (from, k1) :- ParseFrom(js, ts, k0);
    var (_, k2) :- Expect(ts, k1, ")");
    Done(from, k2)
  }

  function ParseTerm(js: string -> bool, ts: seq<Token>, i: nat): (r: Parsed<Node>)
    requires Tape(ts) && i < |ts|
    ensures r.Done? ==> i < r.next < |ts|
  {
    var (_, k0) :- Expect(ts, i, "(");
    var (to, k1) :- ParseToClause(js, ts, k0);
    var (resource, k2) :- ParseResourceClause(js, ts, k1);
    var (from, k3) :- ParseFromClause(js, ts, k2);
    Done(Term(ExchangeTerm(to, resource, from)), k3)
  }

  /** One token of lookahead, `c.peek(1)`. */
  predicate OpensTerm(ts: seq<Token>, i: nat)
    requires Tape(ts) && i < |ts|
  {
    var ahead := ts[if i + 1 < |ts| then i + 1 else |ts| - 1];
    ahead.kind == Name && ahead.text == "to"
  }

  function ParsePrimary(js: string -> bool, ts: seq<Token>, i: nat): (r: Parsed<Node>)
    requires Tape(ts) && i < |ts|
    ensures r.Done? ==> i < r.next < |ts|
    decreases |ts| - i, 0
  {
    if !At(ts, i, "(") then Failed(Syntax)
    else if OpensTerm(ts, i) then ParseTerm(js, ts, i)
    else
      var (inner, j) :- ParseOr(js, ts, i + 1);
      var (_, k) :- Expect(ts, j, ")");
      Done(inner, k)
  }

  /** After each `and`, one more child. */
  function MoreAnds(js: string -> bool, ts: seq<Token>, i: nat): (r: Parsed<seq<Node>>)
    requires Tape(ts) && i < |ts|
    ensures r.Done? ==> i <= r.next < |ts|
    decreases |ts| - i, 0
  {
    if !At(ts, i, "and") then Done([], i)
    else
      var (x, j) :- ParsePrimary(js, ts, i + 1);
      var (rest, k) :- MoreAnds(js, ts, j);
      Done([x] + rest, k)
  }

  function ParseAnd(js: string -> bool, ts: seq<Token>, i: nat): (r: Parsed<Node>)
    requires Tape(ts) && i < |ts|
    ensures r.Done? ==> i < r.next < |ts|
    decreases |ts| - i, 1
  {
    var (x, j) :- ParsePrimary(js, ts, i);
    var (rest, k) :- MoreAnds(js, ts, j);
    Done(GroupNode(And, [x] + rest), k)
  }

  function MoreOrs(js: string -> bool, ts: seq<Token>, i: nat): (r: Parsed<seq<Node>>)
    requires Tape(ts) && i < |ts|
    ensures r.Done? ==> i <= r.next < |ts|
    decreases |ts| - i, 0
  {
    if !At(ts, i, "or") then Done([], i)
    else
      var (x, j) :- ParseAnd(js, ts, i + 1);
      var (rest, k) :- MoreOrs(js, ts, j);
      Done([x] + rest, k)
  }

  function ParseOr(js: string -> bool, ts: seq<Token>, i: nat): (r: Parsed<Node>)
    requires Tape(ts) && i < |ts|
    ensures r.Done? ==> i < r.next < |ts|
    decreases |ts| - i, 2
  {
    var (x, j) :- ParseAnd(js, ts, i);
    var (rest, k) :- MoreOrs(js, ts, j);
    Done(GroupNode(Or, [x] + rest), k)
  }

  // ----- Conditions -----

  /** What `String.prototype.trim` removes. */
  predicate IsSpace(c: char) {
    || c in " \t\n\r"
    || c in ['\U{000B}', '\U{000C}', '\U{00A0}', '\U{1680}', '\U{2028}', '\U{2029}', '\U{202F}', '\U{205F}', '\U{3000}', '\U{FEFF}']
    || '\U{2000}' <= c <= '\U{200A}'
  }

  function TrimStart(s: string): string {
    if s != "" && IsSpace(s[0]) then TrimStart(s[1..]) else s
  }

  function TrimEnd(s: string): string {
    if s != "" && IsSpace(s[|s| - 1]) then TrimEnd(s[..|s| - 1]) else s
  }

  function Trim(s: string): string { TrimEnd(TrimStart(s)) }

  /** `String.prototype.slice` on offsets that are not negative. */
  function Slice(s: string, start: nat, end: nat): string {
    var b := if end < |s| then end else |s|;
    if start <= b then s[start..b] else ""
  }

  function Bare(t: Token): Lexeme { Lexeme(t.kind, t.text) }

  predicate EndsSpan(l: Lexeme) { l == P(",") || l == P(")") }

  /** The depth of the span counts parentheses and braces. */
  function DepthAfter(l: Lexeme, depth: int): int {
    if l == P("(") || l == P("{") then depth + 1 else if l == P(")") || l == P("}") then depth - 1 else depth
  }

  /** The token that ends the condition: the first `,` or `)` at depth zero. */
  function SpanEnd(ts: seq<Token>, i: nat, depth: int): (r: Option<nat>)
    requires Tape(ts) && i < |ts|
    ensures r.Some? ==> i <= r.value < |ts| - 1 && EndsSpan(Bare(ts[r.value]))
    decreases |ts| - i
  {
    if ts[i].kind == Eof then None
    else if depth == 0 && EndsSpan(Bare(ts[i])) then Some(i)
    else SpanEnd(ts, i + 1, DepthAfter(Bare(ts[i]), depth))
  }

  /** Whether no `)` before the end of the text closes its first parenthesis. */
  predicate Wraps(ts: seq<Token>, k: nat, depth: int, length: nat)
    requires k <= |ts|
    decreases |ts| - k
  {
    if k == |ts| || ts[k].kind == Eof then true
    else if Bare(ts[k]) == P("(") then Wraps(ts, k + 1, depth + 1, length)
    else if Bare(ts[k]) == P(")") then
      if depth - 1 == 0 && ts[k].end != length then false else Wraps(ts, k + 1, depth - 1, length)
    else Wraps(ts, k + 1, depth, length)
  }

  function StripOuterParens(text: string): string {
    if text == "" || text[0] != '(' || text[|text| - 1] != ')' then text
    else
      match LexSpec(text)
      case LexError(_, _) => text
      case Lexed(ts) =>
        if Wraps(ts, 0, 0, |text|) && |text| >= 2 then Trim(text[1..|text| - 1]) else text
  }

  function ParseConditionSpan(ts: seq<Token>, i: nat, source: string): (r: Parsed<string>)
    requires Tape(ts) && i < |ts|
    ensures r.Done? ==> i <= r.next < |ts|
  {
    match SpanEnd(ts, i, 0)
    case None => Failed(Syntax)
    case Some(j) =>
      var text := Trim(Slice(source, ts[i].start, if j == i then ts[i].start else ts[j - 1].end));
      if text == "" then Failed(Syntax) else Done(StripOuterParens(text), j)
  }

  // ----- Rules -----

  type Tail = (Option<string>, Option<Node>)

  /** After each comma a clause: each at most once, the condition before the exchange. */
  function MoreClauses(js: string -> bool, ts: seq<Token>, i: nat, source: string, tail: Tail): (r: Parsed<Tail>)
    requires Tape(ts) && i < |ts|
    ensures r.Done? ==> i <= r.next < |ts|
    decreases |ts| - i
  {
    if !At(ts, i, ",") then Done(tail, i)
    else if At(ts, i + 1, "condition") then
      if tail.0.Some? || tail.1.Some? then Failed(Syntax)
      else
        var (_, j) :- Expect(ts, i + 2, ":");
        var (condition, k) :- ParseConditionSpan(ts, j, source);
        MoreClauses(js, ts, k, source, (Some(condition), tail.1))
    else if At(ts, i + 1, "exchange") then
      if tail.1.Some? then Failed(Syntax)
      else
        var (_, j) :- Expect(ts, i + 2, ":");
        var (exchange, k) :- ParseOr(js, ts, j);
        MoreClauses(js, ts, k, source, (tail.0, Some(exchange)))
    else Failed(Syntax)
  }

  function ParseRuleAt(js: string -> bool, ts: seq<Token>, source: string): Parsed<RuleTree>
    requires Tape(ts)
  {
    var (_, k0) :- Expect(ts, 0, "(");
    var (_, k1) :- ExpectKey(ts, k0, "resource");
    var (resource, k2) :- ParseAttributes(js, ts, k1, true);
    Finish(ts, resource, MoreClauses(js, ts, k2, source, (None, None)))
  }

  /** The closing parenthesis, and nothing after it. */
  function Finish(ts: seq<Token>, resource: Attrs, clauses: Parsed<Tail>): Parsed<RuleTree>
    requires Tape(ts) && (clauses.Done? ==> clauses.next < |ts|)
  {
    var (tail, k0) :- clauses;
    var (_, k1) :- Expect(ts, k0, ")");
    if ts[k1].kind != Eof then Failed(Syntax) else Done(RuleTree(resource, tail.0, tail.1), k1)
  }

  lemma {:induction false} TokensNotEof(ps: seq<Piece>, base: nat)
    requires Munched(ps)
    ensures forall t :: t in Tokens(ps, base) ==> t.kind != Eof
  {
    if ps == [] {
    } else {
      TokensNotEof(ps[1..], base + |Text(ps[0])|);
    }
  }

  lemma LexedIsTape(source: string)
    requires LexSpec(source).Lexed?
    ensures Tape(LexSpec(source).tokens)
  {
    ChopSound(source, 0);
    TokensNotEof(Chop(source, 0).pieces, 0);
  }

  function ParseTree(js: string -> bool, source: string): Result<RuleTree, ParseError> {
    match LexSpec(source)
    case LexError(_, _) => Err(Syntax)
    case Lexed(ts) =>
      LexedIsTape(source);
      match ParseRuleAt(js, ts, source)
      case Failed(error) => Err(error)
      case Done(tree, _) => Ok(tree)
  }
}
