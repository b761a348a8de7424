/** Attribute bags and their text (app/frontend/src/lib/bart/types.ts, format.ts). */
module Attrs {
  import opened Lex
  import opened Munch
  import opened Spelling

  /** A number is its canonical decimal text, `String(v)`. */
  datatype Scalar = Str(s: string) | Num(text: string) | Boolean(b: bool)

  datatype Value = One(scalar: Scalar) | Many(items: seq<Scalar>)

  datatype Attr = Attr(key: string, value: Value)

  /** The own enumerable entries of an object, in insertion order. */
  type Attrs = seq<Attr>

  predicate HasKey(attrs: Attrs, key: string) { exists a :: a in attrs && a.key == key }

  /** What every object satisfies: no key twice. */
  predicate Distinct(attrs: Attrs) {
    forall i, j :: 0 <= i < j < |attrs| ==> attrs[i].key != attrs[j].key
  }

  /** `key in attrs ? attrs[key] : undefined` */
  function Lookup(attrs: Attrs, key: string): Option<Value> {
    if attrs == [] then None
    else if attrs[0].key == key then Some(attrs[0].value)
    else Lookup(attrs[1..], key)
  }

  lemma {:induction false} LookupSelf(attrs: Attrs, k: nat)
    requires Distinct(attrs) && k < |attrs|
    ensures Lookup(attrs, attrs[k].key) == Some(attrs[k].value)
    decreases |attrs|
  {
    if k == 0 {
    } else {
      LookupSelf(attrs[1..], k - 1);
    }
  }

  const BART_KEYWORDS: set<string> :=
    {"to", "and", "or", "not", "in", "me", "requester", "any", "all", "from", "party", "rules",
     "resource", "condition", "exchange", "true", "false"}

  datatype PrintProblem = InvalidName(key: string) | KeywordKey(key: string) | NotFinite(text: string) | NoResource | NoTerm

  datatype Result<+T, +E> = Ok(value: T) | Err(error: E) {
    predicate IsFailure() { Err? }
    function PropagateFailure<U>(): Result<U, E>
      requires Err?
    {
      Err(error)
    }
    function Extract(): T
      requires Ok?
    {
      value
    }
  }

  // ----- Escaping -----

  function ReplaceAll(s: string, c: char, with: string): string {
    if s == "" then "" else (if s[0] == c then with else [s[0]]) + ReplaceAll(s[1..], c, with)
  }

  function Escape(s: string): string {
    ReplaceAll(ReplaceAll(s, '\\', "\\\\"), '"', "\\\"")
  }

  function Quote(s: string): string { "\"" + Escape(s) + "\"" }

  function EscapeChar(c: char): string {
    if c == '\\' then "\\\\" else if c == '"' then "\\\"" else [c]
  }

  lemma {:induction false} ReplaceAppend(a: string, b: string, c: char, with: string)
    ensures ReplaceAll(a + b, c, with) == ReplaceAll(a, c, with) + ReplaceAll(b, c, with)
  {
    if a == "" {
      assert a + b == b;
    } else {
      ReplaceAppend(a[1..], b, c, with);
      assert (a + b)[1..] == a[1..] + b && (a + b)[0] == a[0];
      var head := if a[0] == c then with else [a[0]];
      var x, y := ReplaceAll(a[1..], c, with), ReplaceAll(b, c, with);
      assert head + (x + y) == (head + x) + y;
    }
  }

  /** The two passes over the whole string escape each character on its own. */
  lemma EscapeCons(c: char, s: string)
    ensures Escape([c] + s) == EscapeChar(c) + Escape(s)
  {
    var once := if c == '\\' then "\\\\" else [c];
    assert ([c] + s)[1..] == s;
    assert ReplaceAll([c] + s, '\\', "\\\\") == once + ReplaceAll(s, '\\', "\\\\");
    ReplaceAppend(once, ReplaceAll(s, '\\', "\\\\"), '"', "\\\"");
    assert ReplaceAll(once, '"', "\\\"") == EscapeChar(c) by {
      assert ReplaceAll("", '"', "\\\"") == "";
      if c == '\\' {
        assert once[1..] == "\\" && "\\"[1..] == "";
      } else {
        assert [c][1..] == "";
      }
    }
  }

  /** The inverse of the escaping: `replace(/\\(.)/g, '$1')`, where `.` is no line terminator. */
  predicate IsLineTerminator(c: char) {
    c == '\n' || c == '\r' || c == '\U{2028}' || c == '\U{2029}'
  }

  function Unescape(s: string): string {
    if s == "" then ""
    else if s[0] == '\\' && |s| > 1 && !IsLineTerminator(s[1]) then [s[1]] + Unescape(s[2..])
    else [s[0]] + Unescape(s[1..])
  }

  function Unquote(text: string): string {
    if |text| < 2 then "" else Unescape(text[1..|text| - 1])
  }

  lemma {:induction false} UnescapeEscape(s: string)
    ensures Unescape(Escape(s)) == s
  {
    if s == "" {
    } else {
      var c, rest := s[0], s[1..];
      assert s == [c] + rest;
      EscapeCons(c, rest);
      UnescapeEscape(rest);
      UnescapeChar(c, Escape(rest));
    }
  }

  lemma UnescapeChar(c: char, rest: string)
    ensures Unescape(EscapeChar(c) + rest) == [c] + Unescape(rest)
  {
    var t := EscapeChar(c) + rest;
    if |EscapeChar(c)| == 2 {
      assert t[2..] == rest;
    } else {
      assert t[1..] == rest;
    }
  }

  /** No value is lost in quotes: escaped quotes, backslashes, newlines and all. */
  lemma UnquoteQuote(s: string)
    ensures Unquote(Quote(s)) == s
  {
    UnescapeEscape(s);
    assert Quote(s)[1..|Quote(s)| - 1] == Escape(s);
  }

  lemma {:induction false} QuoteCloses(text: string, i: nat, s: string)
    requires i <= |text| && text[i..] == Escape(s) + "\""
    ensures StringEnd(text, i) == Some(|text|)
    decreases |s|
  {
    hide Escape, EscapeChar;
    EscapeEmpty();
    if s == "" {
      assert text[i..] == "\"";
    } else {
      var c, rest := s[0], s[1..];
      assert s == [c] + rest;
      EscapeCons(c, rest);
      SuffixAfter(text, i, EscapeChar(c), Escape(rest) + "\"");
      assert text[i..] == EscapeChar(c) + (Escape(rest) + "\"");
      CharSkipped(text, i, c, Escape(rest) + "\"");
      QuoteCloses(text, i + |EscapeChar(c)|, rest);
    }
  }

  lemma EscapeEmpty()
    ensures Escape("") == ""
  {
  }

  /** The scan of a string body takes an escaped character in one step. */
  lemma CharSkipped(text: string, i: nat, c: char, rest: string)
    requires i <= |text| && text[i..] == EscapeChar(c) + rest
    ensures i + |EscapeChar(c)| <= |text| && StringEnd(text, i) == StringEnd(text, i + |EscapeChar(c)|)
  {
    assert text[i] == text[i..][0];
    assert |EscapeChar(c)| == 2 ==> text[i + 1] == text[i..][1];
  }

  lemma QuoteIsString(s: string)
    ensures IsString(Quote(s))
  {
    var t := Quote(s);
    assert t[1..] == Escape(s) + "\"";
    QuoteCloses(t, 1, s);
  }

  // ----- format.ts -----

  function BoolText(b: bool): string { if b then "true" else "false" }

  predicate IsFinite(text: string) { text != "NaN" && text != "Infinity" && text != "-Infinity" }

  function FormatScalar(v: Scalar): Result<string, PrintProblem> {
    match v
    case Str(s) => Ok(Quote(s))
    case Num(text) => if IsFinite(text) then Ok(text) else Err(NotFinite(text))
    case Boolean(b) => Ok(BoolText(b))
  }

  function FormatAll(items: seq<Scalar>): (r: Result<seq<string>, PrintProblem>)
    ensures r.Ok? ==> |r.value| == |items|
  {
    if items == [] then Ok([])
    else
      var first :- FormatScalar(items[0]);
      var rest :- FormatAll(items[1..]);
      Ok([first] + rest)
  }

  function FormatValue(v: Value): Result<string, PrintProblem> {
    match v
    case One(scalar) => FormatScalar(scalar)
    case Many(items) =>
      var parts :- FormatAll(items);
      Ok("{" + Join(parts, ",") + "}")
  }

  function FormatAttr(a: Attr): Result<string, PrintProblem> {
    if !IsName(a.key) then Err(InvalidName(a.key))
    else if a.key in BART_KEYWORDS then Err(KeywordKey(a.key))
    else
      var value :- FormatValue(a.value);
      Ok("(" + Clause(a.key, value) + ")")
  }

  function EmitAttrs(attrs: Attrs): Result<string, PrintProblem> {
    if attrs == [] then Ok("")
    else
      var first :- FormatAttr(attrs[0]);
      var rest :- EmitAttrs(attrs[1..]);
      Ok(first + rest)
  }

  // ----- The tokens an attribute bag is written with -----

  function ScalarLex(v: Scalar): Lexeme {
    match v
    case Str(s) => Lexeme(StringLit, Quote(s))
    case Num(text) => Lexeme(Number, text)
    case Boolean(b) => Lexeme(Bool, BoolText(b))
  }

  function ScalarsLex(items: seq<Scalar>): seq<seq<Lexeme>> {
    seq(|items|, i requires 0 <= i < |items| => [ScalarLex(items[i])])
  }

  function ValueLex(v: Value): seq<Lexeme> {
    match v
    case One(scalar) => [ScalarLex(scalar)]
    case Many(items) => [P("{")] + JoinLex(ScalarsLex(items), [P(",")]) + [P("}")]
  }

  function AttrLex(a: Attr): seq<Lexeme> { [P("(")] + ClauseLex(a.key, ValueLex(a.value)) + [P(")")] }

  function AttrsLex(attrs: Attrs): seq<Lexeme> {
    if attrs == [] then [] else AttrLex(attrs[0]) + AttrsLex(attrs[1..])
  }

  // ----- What can be written -----

  /** A key the printer accepts. */
  predicate WritableKey(key: string) { IsName(key) && key !in BART_KEYWORDS }

  predicate WritableScalar(v: Scalar) { v.Num? ==> IsNumber(v.text) }

  predicate WritableValue(v: Value) {
    match v
    case One(scalar) => WritableScalar(scalar)
    case Many(items) => forall x :: x in items ==> WritableScalar(x)
  }

  predicate Writable(attrs: Attrs) {
    forall a :: a in attrs ==> WritableKey(a.key) && WritableValue(a.value)
  }

  lemma SpellsScalar(v: Scalar)
    requires WritableScalar(v)
    ensures FormatScalar(v).Ok? && Spells(FormatScalar(v).value, [ScalarLex(v)])
  {
    match v
    case Str(s) =>
      QuoteIsString(s);
      SpellsToken(Tok(StringLit, Quote(s)));
    case Num(text) =>
      NumberStart(text);
      SpellsToken(Tok(Number, text));
    case Boolean(b) =>
      SpellsToken(Tok(Bool, BoolText(b)));
  }

  lemma {:induction false} SpellsScalars(items: seq<Scalar>)
    requires forall x :: x in items ==> WritableScalar(x)
    ensures FormatAll(items).Ok? && AllSpell(FormatAll(items).value, ScalarsLex(items))
  {
    if items == [] {
    } else {
      hide FormatScalar, Spells, WritableScalar;
      SpellsScalar(items[0]);
      SpellsScalars(items[1..]);
      assert ScalarsLex(items) == [[ScalarLex(items[0])]] + ScalarsLex(items[1..]);
    }
  }

  lemma SpellsValue(v: Value)
    requires WritableValue(v)
    ensures FormatValue(v).Ok? && Spells(FormatValue(v).value, ValueLex(v))
  {
    hide Spells;
    match v
    case One(scalar) => SpellsScalar(scalar);
    case Many(items) =>
      SpellsScalars(items);
      SpellsHard(',');
      SpellsJoin(FormatAll(items).value, ScalarsLex(items), ",", [P(",")]);
      SpellsWrap('{', Join(FormatAll(items).value, ","), JoinLex(ScalarsLex(items), [P(",")]), '}');
  }

  lemma SpellsAttr(a: Attr)
    requires WritableKey(a.key) && WritableValue(a.value)
    ensures FormatAttr(a).Ok? && Spells(FormatAttr(a).value, AttrLex(a))
    ensures var t := FormatAttr(a).value; t != "" && t[0] == '(' && t[|t| - 1] == ')'
  {
    hide Spells, FormatValue, ValueLex;
    SpellsValue(a.value);
    var value := FormatValue(a.value).value;
    SpellsClause(a.key, value, ValueLex(a.value));
    SpellsWrap('(', Clause(a.key, value), ClauseLex(a.key, ValueLex(a.value)), ')');
  }

  /** Printing an attribute bag succeeds, and the text has the tokens one expects. */
  lemma {:induction false} SpellsAttrs(attrs: Attrs)
    requires Writable(attrs)
    ensures EmitAttrs(attrs).Ok? && Spells(EmitAttrs(attrs).value, AttrsLex(attrs))
  {
    if attrs == [] {
      SpellsBlanks("");
    } else {
      hide Spells, FormatAttr, AttrLex;
      SpellsAttr(attrs[0]);
      SpellsAttrs(attrs[1..]);
      SpellsAppend(FormatAttr(attrs[0]).value, AttrLex(attrs[0]), EmitAttrs(attrs[1..]).value, AttrsLex(attrs[1..]));
    }
  }

  /** The printer refuses a bag exactly for a key or a number it cannot write. */
  lemma {:induction false} EmitsExactly(attrs: Attrs)
    ensures EmitAttrs(attrs).Ok? <==> forall a :: a in attrs ==> FormatAttr(a).Ok?
  {
    if attrs == [] {
    } else {
      EmitsExactly(attrs[1..]);
    }
  }

  // ----- Nothing between the tokens -----

  /** The texts of the tokens, one after the other. */
  function Tight(lx: seq<Lexeme>): string {
    if lx == [] then "" else lx[0].text + Tight(lx[1..])
  }

  lemma {:induction false} TightAppend(a: seq<Lexeme>, b: seq<Lexeme>)
    ensures Tight(a + b) == Tight(a) + Tight(b)
  {
    if a == [] {
      assert a + b == b;
    } else {
      TightAppend(a[1..], b);
      assert (a + b)[1..] == a[1..] + b && (a + b)[0] == a[0];
    }
  }

  lemma TightOne(l: Lexeme)
    ensures Tight([l]) == l.text
  {
    assert [l][1..] == [] && Tight([]) == "";
  }

  lemma ScalarTight(v: Scalar)
    requires FormatScalar(v).Ok?
    ensures FormatScalar(v).value == Tight([ScalarLex(v)])
  {
    TightOne(ScalarLex(v));
  }

  lemma {:induction false} ScalarsTight(items: seq<Scalar>)
    requires FormatAll(items).Ok?
    ensures Join(FormatAll(items).value, ",") == Tight(JoinLex(ScalarsLex(items), [P(",")]))
    decreases |items|
  {
    hide FormatScalar, ScalarLex, Tight;
    var texts, lx := FormatAll(items).value, ScalarsLex(items);
    if items == [] {
      TightNothing();
    } else {
      ScalarTight(items[0]);
      assert texts == [FormatScalar(items[0]).value] + FormatAll(items[1..]).value;
      assert lx[1..] == ScalarsLex(items[1..]) && texts[1..] == FormatAll(items[1..]).value;
      if |items| > 1 {
        ScalarsTight(items[1..]);
        TightOne(P(","));
        var rest := JoinLex(lx[1..], [P(",")]);
        TightAppend(lx[0] + [P(",")], rest);
        TightAppend(lx[0], [P(",")]);
      }
    }
  }

  lemma TightNothing()
    ensures Tight([]) == ""
  {
  }

  lemma ValueTight(v: Value)
    requires FormatValue(v).Ok?
    ensures FormatValue(v).value == Tight(ValueLex(v))
  {
    hide FormatScalar, ScalarLex, Tight, Join, JoinLex;
    match v
    case One(scalar) => ScalarTight(scalar);
    case Many(items) =>
      ScalarsTight(items);
      var inner := JoinLex(ScalarsLex(items), [P(",")]);
      TightAppend([P("{")] + inner, [P("}")]);
      TightAppend([P("{")], inner);
      TightOne(P("{"));
      TightOne(P("}"));
  }

  lemma AttrTight(a: Attr)
    requires FormatAttr(a).Ok?
    ensures FormatAttr(a).value == Tight(AttrLex(a))
  {
    hide FormatValue, ValueLex, Tight, IsName;
    ValueTight(a.value);
    var value := ValueLex(a.value);
    TightOne(P("("));
    TightOne(N(a.key));
    TightOne(P(":"));
    TightOne(P(")"));
    assert [N(a.key), P(":")] == [N(a.key)] + [P(":")];
    TightAppend([N(a.key)], [P(":")]);
    TightAppend([N(a.key), P(":")], value);
    TightAppend([P("(")], ClauseLex(a.key, value));
    TightAppend([P("(")] + ClauseLex(a.key, value), [P(")")]);
  }

  /** Attributes are printed as their tokens and not a character more. */
  lemma {:induction false} AttrsTight(attrs: Attrs)
    requires EmitAttrs(attrs).Ok?
    ensures EmitAttrs(attrs).value == Tight(AttrsLex(attrs))
  {
    hide FormatAttr, AttrLex, Tight;
    if attrs == [] {
      TightNothing();
    } else {
      AttrTight(attrs[0]);
      AttrsTight(attrs[1..]);
      TightAppend(AttrLex(attrs[0]), AttrsLex(attrs[1..]));
    }
  }
}
