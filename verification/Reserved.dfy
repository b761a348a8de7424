/** The write gate (app/backend/src/bart/reserved.ts) and what it buys: attributes it lets through
    are emitted without an error and parse back to themselves. */
module Reserved {
  import opened Lex
  import opened Munch
  import opened Spelling
  import opened Attrs
  import opened Parse
  import opened RoundTrip
  import opened TreeRoundTrip
  import opened Emitter
  import opened Lists

  /** A JSON value where a scalar is expected: one, or anything else. */
  datatype Raw = Plain(scalar: Scalar) | Alien

  datatype RawValue = RawOne(raw: Raw) | RawMany(items: seq<Raw>)

  datatype RawAttr = RawAttr(key: string, value: RawValue)

  /** `USER_ID_ATTR` and the keys of the context providers. */
  const RESERVED_ATTR_NAMES: set<string> := {"userId", "date_year", "date_month", "date_day", "connections", "groups"}

  datatype GateError = NotAName(key: string) | Keyword(key: string) | ReservedKey(key: string) | BadValue(key: string) | BadElement(key: string)

  /** No quote, no backslash, no control character. */
  predicate CleanString(s: string) { forall c :: c in s ==> c != '"' && c != '\\' && c >= ' ' }

  /** `scalarError` returns null. */
  predicate CleanScalar(raw: Raw) {
    match raw
    case Alien => false
    case Plain(Str(s)) => CleanString(s)
    case Plain(Num(text)) => IsWritableNumber(text)
    case Plain(Boolean(_)) => true
  }

  /** The problem of one attribute, if any: the checks in order, the first one wins. */
  function Problem(a: RawAttr): Option<GateError> {
    if !IsName(a.key) then Some(NotAName(a.key))
    else if a.key in BART_KEYWORDS then Some(Keyword(a.key))
    else if a.key in RESERVED_ATTR_NAMES then Some(ReservedKey(a.key))
    else
      match a.value
      case RawMany(items) => if forall x :: x in items ==> CleanScalar(x) then None else Some(BadElement(a.key))
      case RawOne(raw) => if CleanScalar(raw) then None else Some(BadValue(a.key))
  }

  /** One message for each offending attribute, in order. */
  function Problems(attrs: seq<RawAttr>): seq<GateError> {
    if attrs == [] then []
    else (match Problem(attrs[0]) case None => [] case Some(error) => [error]) + Problems(attrs[1..])
  }

  /** The inner loop: stops at the first bad element. */
  method HasBadElement(items: seq<Raw>) returns (bad: bool)
    ensures bad <==> exists x :: x in items && !CleanScalar(x)
  {
    for i := 0 to |items|
      invariant forall k :: 0 <= k < i ==> CleanScalar(items[k])
    {
      if !CleanScalar(items[i]) {
        return true;
      }
    }
    return false;
  }

  /** The loop of `validateAttrs`. */
  method ValidateAttrs(attrs: seq<RawAttr>) returns (errors: seq<GateError>)
    ensures errors == Problems(attrs)
  {
    hide IsName, CleanScalar;
    errors := [];
    assert attrs[0..] == attrs && [] + Problems(attrs) == Problems(attrs);
    for i := 0 to |attrs|
      invariant errors + Problems(attrs[i..]) == Problems(attrs)
    {
      ProblemsStep(errors, attrs, i);
      var a := attrs[i];
      if !IsName(a.key) {
        errors := errors + [NotAName(a.key)];
        continue;
      }
      if a.key in BART_KEYWORDS {
        errors := errors + [Keyword(a.key)];
        continue;
      }
      if a.key in RESERVED_ATTR_NAMES {
        errors := errors + [ReservedKey(a.key)];
        continue;
      }
      match a.value
      case RawMany(items) =>
        var bad := HasBadElement(items);
        if bad {
          errors := errors + [BadElement(a.key)];
        }
      case RawOne(raw) =>
        if !CleanScalar(raw) {
          errors := errors + [BadValue(a.key)];
        }
    }
    assert attrs[|attrs|..] == [] && errors + [] == errors;
  }

  lemma ProblemsStep(errors: seq<GateError>, attrs: seq<RawAttr>, i: nat)
    requires i < |attrs|
    ensures errors + Problems(attrs[i..]) ==
      (match Problem(attrs[i]) case None => errors case Some(error) => errors + [error]) + Problems(attrs[i + 1..])
  {
    hide Problem;
    assert attrs[i..][1..] == attrs[i + 1..];
    var rest := Problems(attrs[i + 1..]);
    if Problem(attrs[i]).Some? {
      var e := Problem(attrs[i]).value;
      assert errors + ([e] + rest) == (errors + [e]) + rest;
    } else {
      assert [] + rest == rest;
    }
  }

  // ----- What the gate lets through -----

  /** A scalar that needs no escape: no quotation mark, backslash or control character in a string, and a
      number in plain decimals. */
  predicate Safe(raw: Raw) {
    && raw.Plain?
    && (raw.scalar.Str? ==> forall k :: 0 <= k < |raw.scalar.s| ==> raw.scalar.s[k] != '"' && raw.scalar.s[k] != '\\' && raw.scalar.s[k] as int >= 32)
    && (raw.scalar.Num? ==> IsWritableNumber(raw.scalar.text))
  }

  predicate Fits(a: RawAttr) {
    && IsName(a.key)
    && a.key !in {"to", "and", "or", "not", "in", "me", "requester", "any", "all", "from", "party", "rules", "resource", "condition",
                  "exchange", "true", "false"}
    && a.key !in {"userId", "date_year", "date_month", "date_day", "connections", "groups"}
    && (if a.value.RawOne? then Safe(a.value.raw) else forall k :: 0 <= k < |a.value.items| ==> Safe(a.value.items[k]))
  }

  /** What is said of one that does not fit: of its key first, and of its value only when the key is free. */
  predicate Blames(error: GateError, a: RawAttr) {
    match error
    case NotAName(key) => key == a.key && !IsName(a.key)
    case Keyword(key) => key == a.key && IsName(a.key) && a.key in BART_KEYWORDS
    case ReservedKey(key) => key == a.key && IsName(a.key) && a.key !in BART_KEYWORDS && a.key in RESERVED_ATTR_NAMES
    case BadValue(key) =>
      key == a.key && IsName(a.key) && a.key !in BART_KEYWORDS && a.key !in RESERVED_ATTR_NAMES && a.value.RawOne? && !Safe(a.value.raw)
    case BadElement(key) =>
      && key == a.key && IsName(a.key) && a.key !in BART_KEYWORDS && a.key !in RESERVED_ATTR_NAMES && a.value.RawMany?
      && exists x :: x in a.value.items && !Safe(x)
  }

  lemma SafeExact(raw: Raw)
    ensures CleanScalar(raw) <==> Safe(raw)
  {
    hide IsWritableNumber;
    if raw.Plain? && raw.scalar.Str? {
      var s := raw.scalar.s;
      assert forall k :: 0 <= k < |s| ==> s[k] in s;
    }
  }

  lemma ProblemExact(a: RawAttr)
    ensures Problem(a).None? <==> Fits(a)
    ensures Problem(a).Some? ==> Blames(Problem(a).value, a)
  {
    hide IsName, CleanScalar, Safe;
    match a.value
    case RawOne(raw) => SafeExact(raw);
    case RawMany(items) =>
      forall x
        ensures CleanScalar(x) <==> Safe(x)
      {
        SafeExact(x);
      }
  }

  lemma ProblemsMore(attrs: seq<RawAttr>, a: RawAttr)
    ensures Problems(attrs + [a]) == if Problem(a).None? then Problems(attrs) else Problems(attrs) + [Problem(a).value]
  {
    ProblemsPlus(attrs, a);
  }

  lemma {:induction false} ProblemsPlus(attrs: seq<RawAttr>, a: RawAttr)
    ensures Problems(attrs + [a]) == Problems(attrs) + Problems([a])
    ensures Problems([a]) == if Problem(a).None? then [] else [Problem(a).value]
  {
    hide Problem;
    assert [a][1..] == [] && Problems([]) == [];
    if attrs == [] {
      assert attrs + [a] == [a];
    } else {
      ProblemsPlus(attrs[1..], a);
      assert (attrs + [a])[1..] == attrs[1..] + [a];
    }
  }

  /** The errors are those of the attributes at positions `ks`: all that do not fit, in order. */
  ghost predicate Reports(attrs: seq<RawAttr>, ks: seq<nat>, errors: seq<GateError>) {
    && Ascending(ks) && |ks| == |errors|
    && (forall k: nat :: k in ks <==> k < |attrs| && !Fits(attrs[k]))
    && forall m :: 0 <= m < |ks| ==> ks[m] < |attrs| && Blames(errors[m], attrs[ks[m]])
  }

  lemma ReportsMore(attrs: seq<RawAttr>, ks: seq<nat>, errors: seq<GateError>, a: RawAttr)
    requires Reports(attrs, ks, errors)
    ensures Fits(a) ==> Reports(attrs + [a], ks, errors)
    ensures forall error :: !Fits(a) && Blames(error, a) ==> Reports(attrs + [a], ks + [|attrs|], errors + [error])
  {
    hide Fits, Blames;
    forall m | 0 <= m < |ks|
      ensures ks[m] < |attrs|
    {
      assert ks[m] in ks;
    }
  }

  lemma NothingReported()
    ensures Problems([]) == [] && Reports([], [], [])
  {
  }

  /** One error for each attribute that does not fit, in their order, about it; so none exactly when all fit. */
  lemma {:induction false} GateExact(attrs: seq<RawAttr>) returns (ks: seq<nat>)
    ensures Reports(attrs, ks, Problems(attrs))
    ensures Problems(attrs) == [] <==> forall a :: a in attrs ==> Fits(a)
    decreases |attrs|
  {
    hide Problem, Problems, Fits, Blames, Reports;
    NothingReported();
    if attrs == [] {
      ks := [];
    } else {
      var front, last := attrs[..|attrs| - 1], attrs[|attrs| - 1];
      assert attrs == front + [last];
      ks := GateExact(front);
      ProblemExact(last);
      ProblemsMore(front, last);
      ReportsMore(front, ks, Problems(front), last);
      if !Fits(last) {
        ks := ks + [|front|];
      }
    }
  }

  /** The attributes behind a JSON object that holds only scalars and arrays of scalars. */
  function Scalars(items: seq<Raw>): seq<Scalar> {
    if items == [] then [] else (if items[0].Plain? then [items[0].scalar] else []) + Scalars(items[1..])
  }

  function Typed(attrs: seq<RawAttr>): Attrs {
    if attrs == [] then []
    else
      var value := match attrs[0].value
                   case RawMany(items) => Many(Scalars(items))
                   case RawOne(Plain(scalar)) => One(scalar)
                   case RawOne(Alien) => Many([]);
      [Attr(attrs[0].key, value)] + Typed(attrs[1..])
  }

  predicate DistinctKeys(attrs: seq<RawAttr>) {
    forall i, j :: 0 <= i < j < |attrs| ==> attrs[i].key != attrs[j].key
  }

  /** Every number is the rendering of some number, so its text is its own rendering. */
  predicate Rendered(js: string -> bool, raw: Raw) { raw.Plain? && raw.scalar.Num? ==> js(raw.scalar.text) }

  predicate RenderedAttr(js: string -> bool, a: RawAttr) {
    match a.value
    case RawOne(raw) => Rendered(js, raw)
    case RawMany(items) => forall x :: x in items ==> Rendered(js, x)
  }

  lemma {:induction false} ScalarsClean(js: string -> bool, items: seq<Raw>)
    requires forall x :: x in items ==> CleanScalar(x) && Rendered(js, x)
    ensures |Scalars(items)| == |items|
    ensures forall k :: 0 <= k < |items| ==> items[k] == Plain(Scalars(items)[k])
    ensures forall x :: x in Scalars(items) ==> EmittableScalar(x) && ReadableScalar(js, x)
  {
    hide IsWritableNumber, CleanString;
    if items == [] {
    } else {
      assert items[0] in items;
      ScalarsClean(js, items[1..]);
      CleanIsReadable(js, items[0]);
    }
  }

  lemma CleanIsReadable(js: string -> bool, raw: Raw)
    requires CleanScalar(raw) && Rendered(js, raw)
    ensures raw.Plain? && EmittableScalar(raw.scalar) && ReadableScalar(js, raw.scalar)
  {
  }

  lemma {:induction false} TypedKeys(attrs: seq<RawAttr>)
    ensures |Typed(attrs)| == |attrs| && forall k :: 0 <= k < |attrs| ==> Typed(attrs)[k].key == attrs[k].key
  {
    if attrs == [] {
    } else {
      TypedKeys(attrs[1..]);
    }
  }

  lemma {:induction false} CleanAttrs(js: string -> bool, attrs: seq<RawAttr>)
    requires Problems(attrs) == [] && forall a :: a in attrs ==> RenderedAttr(js, a)
    ensures Emittable(Typed(attrs))
    ensures forall a :: a in Typed(attrs) ==> ReadableValue(js, a.value)
  {
    hide IsName, CleanScalar, EmittableScalar, ReadableScalar, Rendered;
    if attrs == [] {
    } else {
      assert attrs[0] in attrs;
      CleanAttrs(js, attrs[1..]);
      match attrs[0].value
      case RawMany(items) => ScalarsClean(js, items);
      case RawOne(raw) => CleanIsReadable(js, raw);
    }
  }

  /** Attributes without a problem are emitted, and the text lexes and parses back to the same keys
      and values in the same order. */
  lemma GateRoundTrip(js: string -> bool, attrs: seq<RawAttr>)
    requires Problems(attrs) == [] && DistinctKeys(attrs) && forall a :: a in attrs ==> RenderedAttr(js, a)
    ensures Emit(Typed(attrs)).Ok?
    ensures var text := Emit(Typed(attrs)).value;
            && LexSpec(text).Lexed?
            && var ts := LexSpec(text).tokens;
               Tape(ts) && ParseAttributes(js, ts, 0, false) == Done(Typed(attrs), |ts| - 1)
  {
    hide Problems, RenderedAttr, Emit, EmitAttrs, AttrsLex, Spells, ParseAttributes, LexSpec, EmittableValue, ReadableValue, IsName, Typed, Tape, Has;
    var typed := Typed(attrs);
    CleanAttrs(js, attrs);
    TypedKeys(attrs);
    EmitExact(typed);
    EmittableIsWritable(typed);
    SpellsAttrs(typed);
    var text := Emit(typed).value;
    SpellsTape(text, AttrsLex(typed));
    var ts := LexSpec(text).tokens;
    EofAfter(ts, |ts| - 1);
    ParseAttributesBack(js, ts, 0, typed, false);
  }
}
