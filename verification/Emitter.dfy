/** The backend's writer of the same language (app/backend/src/bart/emitter.ts): comment stripping,
    attribute emission, and whole policies built by concatenating rule texts. */
module Emitter {
  import opened Lex
  import opened Munch
  import opened Spelling
  import opened Attrs
  import opened Parse
  import opened Condition
  import opened Lists
  import opened Literals

  // ----- Comments -----

  /** What `stripComments` still appends, standing in or outside a string literal. */
  function StripFrom(s: string, inString: bool): string
    decreases |s|
  {
    if s == "" then ""
    else if inString then
      if s[0] == '\\' && |s| > 1 then s[..2] + StripFrom(s[2..], true)
      else [s[0]] + StripFrom(s[1..], s[0] != '"')
    else if s[0] == '"' then "\"" + StripFrom(s[1..], true)
    else if s[0] == '#' then
      var n := RunEnd(CommentChars, s, 0);
      if n < |s| then "\n" + StripFrom(s[n + 1..], false) else ""
    else [s[0]] + StripFrom(s[1..], false)
  }

  function Stripped(rule: string): string { StripFrom(rule, false) }

  lemma RunEndSuffix(s: string, i: nat)
    requires i <= |s|
    ensures RunEnd(CommentChars, s[i..], 0) == RunEnd(CommentChars, s, i) - i
  {
    var j := RunEnd(CommentChars, s, i);
    assert s[i..][0..j - i] == s[i..j] && s[i..][j - i..] == s[j..];
    RunIn(CommentChars, s, i);
    RunEndIs(CommentChars, s[i..], 0, j - i);
  }

  lemma StripStep(rule: string, out: string, i: nat, inString: bool)
    requires i < |rule|
    ensures var c := rule[i];
            out + StripFrom(rule[i..], inString) ==
              if inString && c == '\\' && i + 1 < |rule| then out + [c, rule[i + 1]] + StripFrom(rule[i + 2..], true)
              else if inString then out + [c] + StripFrom(rule[i + 1..], c != '"')
              else if c == '#' then
                var n := RunEnd(CommentChars, rule, i);
                if n < |rule| then out + "\n" + StripFrom(rule[n + 1..], false) else out
              else out + [c] + StripFrom(rule[i + 1..], c == '"')
  {
    hide StripFrom, Lex.RunEnd;
    var c := rule[i];
    assert rule[i..] == [c] + rule[i + 1..];
    if inString && c == '\\' && i + 1 < |rule| {
      assert rule[i..] == [c, rule[i + 1]] + rule[i + 2..];
      StripEscape(c, rule[i + 1], rule[i + 2..]);
      Regroup(out, [c, rule[i + 1]], StripFrom(rule[i + 2..], true));
    } else if inString {
      StripWithin(c, rule[i + 1..]);
      Regroup(out, [c], StripFrom(rule[i + 1..], c != '"'));
    } else if c == '#' {
      StripHash(rule, i);
      Regroup(out, "\n", StripFrom(if RunEnd(CommentChars, rule, i) < |rule| then rule[RunEnd(CommentChars, rule, i) + 1..] else "", false));
    } else {
      StripOutside(c, rule[i + 1..]);
      Regroup(out, [c], StripFrom(rule[i + 1..], c == '"'));
    }
  }

  lemma Regroup(a: string, b: string, c: string)
    ensures a + (b + c) == a + b + c && a + "" == a
  {
  }

  lemma StripWithin(c: char, rest: string)
    requires c == '\\' ==> rest == ""
    ensures StripFrom([c] + rest, true) == [c] + StripFrom(rest, c != '"')
  {
    assert ([c] + rest)[1..] == rest;
  }

  lemma StripOutside(c: char, rest: string)
    requires c != '#'
    ensures StripFrom([c] + rest, false) == [c] + StripFrom(rest, c == '"')
  {
    assert ([c] + rest)[1..] == rest;
  }

  lemma StripHash(rule: string, i: nat)
    requires i < |rule| && rule[i] == '#'
    ensures StripFrom(rule[i..], false) ==
            var n := RunEnd(CommentChars, rule, i);
            if n < |rule| then "\n" + StripFrom(rule[n + 1..], false) else ""
  {
    hide Lex.RunEnd;
    RunEndSuffix(rule, i);
    var s, n := rule[i..], RunEnd(CommentChars, rule, i);
    assert s[0] == '#';
    if n < |rule| {
      assert s[n - i + 1..] == rule[n + 1..];
    }
  }

  /** The loop of `stripComments`. */
  method StripComments(rule: string) returns (out: string)
    ensures out == Stripped(rule)
  {
    hide StripFrom;
    out := "";
    var inString := false;
    var i := 0;
    assert rule[0..] == rule && "" + StripFrom(rule, false) == StripFrom(rule, false);
    while i < |rule|
      invariant i <= |rule|
      invariant out + StripFrom(rule[i..], inString) == Stripped(rule)
    {
      StripStep(rule, out, i, inString);
      var c := rule[i];
      if inString {
        out := out + [c];
        if c == '\\' && i + 1 < |rule| {
          i := i + 1;
          assert out + [rule[i]] == out[..|out| - 1] + [c, rule[i]];
          out := out + [rule[i]];
        } else if c == '"' {
          inString := false;
        }
      } else if c == '"' {
        inString := true;
        out := out + [c];
      } else if c == '#' {
        i := SkipRun(CommentChars, rule, i);
        if i < |rule| {
          out := out + "\n";
        } else {
          return;
        }
      } else {
        out := out + [c];
      }
      i := i + 1;
    }
    StripNothing(inString);
    assert rule[i..] == "" && out + "" == out;
  }

  lemma StripNothing(inString: bool)
    ensures StripFrom("", inString) == ""
  {
  }

  /** Stripping twice is stripping once, on every string: lexable or not, quotes closed or not. */
  lemma {:induction false} StripIdempotent(s: string, inString: bool)
    ensures StripFrom(StripFrom(s, inString), inString) == StripFrom(s, inString)
    decreases |s|
  {
    if s == "" {
    } else if inString && s[0] == '\\' && |s| > 1 {
      StripIdempotent(s[2..], true);
      var t := StripFrom(s[2..], true);
      assert (s[..2] + t)[2..] == t && (s[..2] + t)[..2] == s[..2];
    } else if inString {
      StripIdempotent(s[1..], s[0] != '"');
      StripAgain(s[0], StripFrom(s[1..], s[0] != '"'), |s| == 1);
    } else if s[0] == '#' {
      var n := RunEnd(CommentChars, s, 0);
      if n < |s| {
        StripIdempotent(s[n + 1..], false);
        var t := StripFrom(s[n + 1..], false);
        assert ("\n" + t)[1..] == t;
      }
    } else {
      StripIdempotent(s[1..], s[0] == '"');
      var t := StripFrom(s[1..], s[0] == '"');
      assert ([s[0]] + t)[1..] == t;
    }
  }

  lemma StripAgain(c: char, t: string, last: bool)
    requires c == '\\' ==> t == ""
    requires StripFrom(t, c != '"') == t
    ensures StripFrom([c] + t, true) == [c] + t
  {
    assert ([c] + t)[1..] == t;
  }

  // ----- Stripping is invisible to the lexer -----

  function NoComments(ps: seq<Piece>): seq<Piece> {
    if ps == [] then [] else (if ps[0].Comment? then [] else [ps[0]]) + NoComments(ps[1..])
  }

  lemma {:induction false} StripPlain(t: string, rest: string)
    requires forall c :: c in t ==> c != '"' && c != '#'
    ensures StripFrom(t + rest, false) == t + StripFrom(rest, false)
    decreases |t|
  {
    if t == "" {
      assert t + rest == rest;
    } else {
      assert t[0] in t && forall c :: c in t[1..] ==> c in t;
      StripPlain(t[1..], rest);
      assert (t + rest)[1..] == t[1..] + rest && (t + rest)[0] == t[0];
    }
  }

  lemma {:induction false} StripUnits(us: seq<Unit>, rest: string)
    requires AreUnits(us)
    ensures StripFrom(Spelled(us) + ("\"" + rest), true) == Spelled(us) + ("\"" + StripFrom(rest, false))
    decreases |us|
  {
    hide StripFrom, Spelled;
    SpelledNone();
    if us == [] {
      StripWithin('"', rest);
      assert ['"'] == "\"" && "" + ("\"" + rest) == ['"'] + rest;
      assert "" + ("\"" + StripFrom(rest, false)) == ['"'] + StripFrom(rest, false);
    } else {
      var u, tail := us[0], Spelled(us[1..]) + ("\"" + rest);
      assert u in us && us == [u] + us[1..];
      StripUnits(us[1..], rest);
      SpelledMore(u, us[1..]);
      if u.Plain? {
        StripWithin(u.c, tail);
      } else {
        StripEscape('\\', u.c, tail);
      }
      assert Spelled(us) + ("\"" + rest) == UnitText(u) + tail;
    }
  }

  /** A string literal is copied whole, whatever it contains. */
  lemma StripString(t: string, rest: string)
    requires IsString(t)
    ensures StripFrom(t[1..] + rest, true) == t[1..] + StripFrom(rest, false)
  {
    hide StripFrom, Spelled, IsString, AreUnits;
    LiteralExact(t);
    var us :| AreUnits(us) && t == "\"" + Spelled(us) + "\"";
    StripUnits(us, rest);
    var kept := StripFrom(rest, false);
    assert t[1..] == Spelled(us) + "\"";
    assert t[1..] + rest == Spelled(us) + ("\"" + rest);
    assert t[1..] + kept == Spelled(us) + ("\"" + kept);
  }

  lemma StripEscape(c: char, d: char, rest: string)
    requires c == '\\'
    ensures StripFrom([c, d] + rest, true) == [c, d] + StripFrom(rest, true)
  {
    var s := [c, d] + rest;
    assert s[..2] == [c, d] && s[2..] == rest;
  }

  lemma PlainChars(p: Piece)
    requires Valid(p) && !p.Comment? && !(p.Tok? && p.kind == StringLit)
    ensures forall c :: c in Text(p) ==> c != '"' && c != '#'
  {
    if p.Tok? && p.kind == Number {
      NumberChars(p.text);
    }
  }

  lemma NumberChars(t: string)
    requires IsNumber(t)
    ensures forall c :: c in t ==> IsDigit(c) || c == '-' || c == '.'
  {
    var u := Unsigned(t);
    if IsDecimal(u) {
      var k :| 0 <= k < |u| && DottedAt(u, k);
      assert u == u[..k] + ['.'] + u[k + 1..];
    }
    assert forall c :: c in u ==> IsDigit(c) || c == '.';
    assert t == u || t == "-" + u;
  }

  lemma StripPiece(p: Piece, rest: string)
    requires Valid(p) && !p.Comment?
    ensures StripFrom(Text(p) + rest, false) == Text(p) + StripFrom(rest, false)
  {
    var t := Text(p);
    if p.Tok? && p.kind == StringLit {
      StripString(t, rest);
      assert (t + rest)[0] == '"' && (t + rest)[1..] == t[1..] + rest;
      assert t == "\"" + t[1..];
    } else {
      PlainChars(p);
      StripPlain(t, rest);
    }
  }

  lemma StripComment(p: Piece, rest: string)
    requires Valid(p) && p.Comment? && Stops(p, rest)
    ensures StripFrom(Text(p) + rest, false) == StripFrom(rest, false)
  {
    var s := p.comment + rest;
    assert s[0..|p.comment|] == p.comment && s[|p.comment|..] == rest;
    RunEndIs(CommentChars, s, 0, |p.comment|);
    if rest != "" {
      assert s[|p.comment| + 1..] == rest[1..];
    }
  }

  /** What a piece stops at, it still stops at once the comments are gone. */
  lemma StopsStripped(p: Piece, x: string)
    requires Valid(p) && !p.Comment? && Stops(p, x)
    ensures Stops(p, StripFrom(x, false))
  {
    var y := StripFrom(x, false);
    if x != "" && x[0] == '.' {
      assert y == "." + StripFrom(x[1..], false);
      if DigitAt(y, 1) {
        assert y[1] == StripFrom(x[1..], false)[0];
        StrippedHead(x[1..]);
        assert x[1..][0] == x[1];
      }
    } else {
      StrippedHead(x);
    }
  }

  lemma StrippedHead(x: string)
    ensures var y := StripFrom(x, false); y != "" ==> x != "" && (y[0] == x[0] || (x[0] == '#' && y[0] == '\n'))
  {
    hide RunEnd;
  }

  /** Removing the comments from the text removes the comment pieces and nothing else. */
  lemma {:induction false} StripPieces(ps: seq<Piece>)
    requires Munched(ps)
    ensures Flat(NoComments(ps)) == StripFrom(Flat(ps), false)
    ensures Munched(NoComments(ps)) && Lexemes(NoComments(ps)) == Lexemes(ps)
    ensures forall p :: p in NoComments(ps) ==> !p.Comment?
    decreases |ps|
  {
    hide Munched, Valid, Stops, Flat, StripFrom, Lexemes;
    if ps == [] {
      StripNothing(false);
      NoPieces();
    } else {
      var p, rest := ps[0], ps[1..];
      MunchedHead(ps);
      StripPieces(rest);
      LexemesCons(p, rest);
      assert [p] + rest == ps;
      if p.Comment? {
        StripComment(p, Flat(rest));
        assert NoComments(ps) == NoComments(rest);
      } else {
        StripPiece(p, Flat(rest));
        StopsStripped(p, Flat(rest));
        MunchedCons(p, NoComments(rest));
        LexemesCons(p, NoComments(rest));
      }
    }
  }

  lemma NoPieces()
    ensures Munched([]) && Flat([]) == "" && Lexemes([]) == []
  {
  }

  lemma LexemesCons(p: Piece, rest: seq<Piece>)
    ensures Lexemes([p] + rest) == (if p.Tok? then [Lexeme(p.kind, p.text)] else []) + Lexemes(rest)
  {
    assert ([p] + rest)[1..] == rest;
  }

  /** A rule that lexes has the same tokens once stripped, and no comment left open at its end. */
  lemma StripInvisible(rule: string)
    requires Chop(rule, 0).Pieces?
    ensures Spells(Stripped(rule), Lexemes(PiecesOf(rule)))
  {
    hide Chop, Munched, Valid, Flat, StripFrom, Lexemes, NoComments, Spells;
    var ps := PiecesOf(rule);
    StripPieces(ps);
    AllClosed(NoComments(ps));
    SpellsPieces(Stripped(rule), NoComments(ps));
  }

  lemma AllClosed(ps: seq<Piece>)
    requires forall p :: p in ps ==> !p.Comment?
    ensures Closed(ps)
  {
  }

  // ----- Attributes -----

  const USER_ID_ATTR := "userId"

  datatype EmitError = BadNumber(text: string) | BadKey(key: string)

  function DigitsValue(digits: string): nat
    requires IsWhole(digits) || digits == ""
  {
    if digits == "" then 0
    else
      var front, last := digits[..|digits| - 1], digits[|digits| - 1];
      assert last in digits && forall c :: c in front ==> c in digits;
      DigitsValue(front) * 10 + (last as int - '0' as int)
  }

  /** Integers stop at 2^53 - 1; everything must be plain decimal text. */
  predicate IsWritableNumber(text: string) {
    IsNumber(text) && (IsWhole(Unsigned(text)) ==> DigitsValue(Unsigned(text)) <= 9007199254740991)
  }

  function EmitScalar(v: Scalar): Result<string, EmitError> {
    match v
    case Str(s) => Ok(Quote(s))
    case Num(text) => if IsWritableNumber(text) then Ok(text) else Err(BadNumber(text))
    case Boolean(b) => Ok(BoolText(b))
  }

  function EmitAll(items: seq<Scalar>): Result<seq<string>, EmitError> {
    if items == [] then Ok([])
    else
      var first :- EmitScalar(items[0]);
      var rest :- EmitAll(items[1..]);
      Ok([first] + rest)
  }

  function EmitValue(v: Value): Result<string, EmitError> {
    match v
    case One(scalar) => EmitScalar(scalar)
    case Many(items) =>
      var parts :- EmitAll(items);
      Ok("{" + Join(parts, ",") + "}")
  }

  function EmitAttr(a: Attr): Result<string, EmitError> {
    if !WritableKey(a.key) then Err(BadKey(a.key))
    else
      var value :- EmitValue(a.value);
      Ok("(" + Clause(a.key, value) + ")")
  }

  function Emit(attrs: Attrs): Result<string, EmitError> {
    if attrs == [] then Ok("")
    else
      var first :- EmitAttr(attrs[0]);
      var rest :- Emit(attrs[1..]);
      Ok(first + rest)
  }

  predicate EmittableScalar(v: Scalar) { v.Num? ==> IsWritableNumber(v.text) }

  predicate EmittableValue(v: Value) {
    match v
    case One(scalar) => EmittableScalar(scalar)
    case Many(items) => forall x :: x in items ==> EmittableScalar(x)
  }

  predicate Emittable(attrs: Attrs) { forall a :: a in attrs ==> WritableKey(a.key) && EmittableValue(a.value) }

  lemma FiniteNumber(text: string)
    requires IsNumber(text)
    ensures IsFinite(text)
  {
    NumberStart(text);
  }

  lemma EmitsAsFormatted(v: Scalar)
    ensures EmitScalar(v).Ok? <==> EmittableScalar(v)
    ensures EmitScalar(v).Ok? ==> FormatScalar(v) == Ok(EmitScalar(v).value)
  {
    if v.Num? && IsWritableNumber(v.text) {
      FiniteNumber(v.text);
    }
  }

  lemma {:induction false} AllEmitAsFormatted(items: seq<Scalar>)
    ensures EmitAll(items).Ok? <==> forall x :: x in items ==> EmittableScalar(x)
    ensures EmitAll(items).Ok? ==> FormatAll(items) == Ok(EmitAll(items).value)
  {
    hide EmitScalar, FormatScalar, EmittableScalar;
    if items == [] {
    } else {
      EmitsAsFormatted(items[0]);
      AllEmitAsFormatted(items[1..]);
    }
  }

  lemma ValueEmitsAsFormatted(v: Value)
    ensures EmitValue(v).Ok? <==> EmittableValue(v)
    ensures EmitValue(v).Ok? ==> FormatValue(v) == Ok(EmitValue(v).value)
  {
    hide EmitScalar, FormatScalar, EmittableScalar, Join;
    match v
    case One(scalar) => EmitsAsFormatted(scalar);
    case Many(items) => AllEmitAsFormatted(items);
  }

  /** The backend throws exactly on a bad key or number, and otherwise writes the frontend's text. */
  lemma {:induction false} EmitExact(attrs: Attrs)
    ensures Emit(attrs).Ok? <==> Emittable(attrs)
    ensures Emit(attrs).Ok? ==> EmitAttrs(attrs) == Ok(Emit(attrs).value)
  {
    hide EmitValue, FormatValue, EmittableValue, IsName;
    if attrs == [] {
    } else {
      ValueEmitsAsFormatted(attrs[0].value);
      EmitExact(attrs[1..]);
    }
  }

  lemma EmittableIsWritable(attrs: Attrs)
    requires Emittable(attrs)
    ensures Writable(attrs)
  {
  }

  // ----- Policies -----

  datatype User = User(id: string, attrs: Attrs, rules: seq<string>)

  function Without(attrs: Attrs, key: string): Attrs {
    if attrs == [] then []
    else
      var front, last := Without(attrs[..|attrs| - 1], key), attrs[|attrs| - 1];
      if last.key == key then front else front + [last]
  }

  /** The row's own id first; whatever `userId` the user carries is discarded. */
  function PartyAttrsOf(user: User): Attrs {
    [Attr(USER_ID_ATTR, One(Str(user.id)))] + Without(user.attrs, USER_ID_ATTR)
  }

  /** The entries at positions `ks`: all of those whose key is not `userId`, in their order. */
  ghost predicate Keeps(attrs: Attrs, ks: seq<nat>, kept: Attrs) {
    && Ascending(ks) && |ks| == |kept|
    && (forall k: nat :: k in ks <==> k < |attrs| && attrs[k].key != "userId")
    && forall m :: 0 <= m < |ks| ==> ks[m] < |attrs| && kept[m] == attrs[ks[m]]
  }

  /** The attributes say whose the policy is, by the row's own id whatever `userId` the user published; under
      any other key they say what the user published, in that order; and they name no key twice. */
  ghost predicate Carries(user: User, attrs: Attrs) {
    && attrs != [] && attrs[0] == Attr("userId", One(Str(user.id)))
    && (exists ks :: Keeps(user.attrs, ks, attrs[1..]))
    && Lookup(attrs, "userId") == Some(One(Str(user.id)))
    && (forall key :: key != "userId" ==> Lookup(attrs, key) == Lookup(user.attrs, key))
    && (Distinct(user.attrs) ==> Distinct(attrs))
  }

  lemma KeepsMore(attrs: Attrs, ks: seq<nat>, kept: Attrs, last: Attr)
    requires Keeps(attrs, ks, kept)
    ensures last.key != "userId" ==> Keeps(attrs + [last], ks + [|attrs|], kept + [last])
    ensures last.key == "userId" ==> Keeps(attrs + [last], ks, kept)
  {
    forall m | 0 <= m < |ks|
      ensures ks[m] < |attrs|
    {
      assert ks[m] in ks;
    }
  }

  lemma {:induction false} WithoutKeeps(attrs: Attrs) returns (ks: seq<nat>)
    ensures Keeps(attrs, ks, Without(attrs, "userId"))
  {
    if attrs == [] {
      ks := [];
    } else {
      hide Keeps;
      var n := |attrs| - 1;
      ks := WithoutKeeps(attrs[..n]);
      KeepsMore(attrs[..n], ks, Without(attrs[..n], "userId"), attrs[n]);
      assert attrs == attrs[..n] + [attrs[n]];
      if attrs[n].key != "userId" {
        ks := ks + [n];
      }
    }
  }

  lemma {:induction false} LookupAppend(a: Attrs, b: Attrs, key: string)
    ensures Lookup(a + b, key) == if Lookup(a, key).Some? then Lookup(a, key) else Lookup(b, key)
  {
    if a == [] {
      assert a + b == b;
    } else {
      LookupAppend(a[1..], b, key);
      assert (a + b)[1..] == a[1..] + b;
    }
  }

  lemma LookupOne(a: Attr, key: string)
    ensures Lookup([a], key) == if a.key == key then Some(a.value) else None
  {
    assert Lookup([], key) == None;
  }

  lemma {:induction false} LookupWithout(attrs: Attrs, key: string)
    requires key != "userId"
    ensures Lookup(Without(attrs, "userId"), key) == Lookup(attrs, key)
    decreases |attrs|
  {
    if attrs == [] {
    } else {
      hide Lookup;
      var n := |attrs| - 1;
      LookupWithout(attrs[..n], key);
      assert attrs == attrs[..n] + [attrs[n]];
      LookupAppend(attrs[..n], [attrs[n]], key);
      LookupAppend(Without(attrs[..n], "userId"), [attrs[n]], key);
      LookupOne(attrs[n], key);
    }
  }

  lemma KeptDistinct(attrs: Attrs, ks: seq<nat>, kept: Attrs)
    requires Keeps(attrs, ks, kept) && Distinct(attrs)
    ensures Distinct(kept)
  {
  }

  lemma KeptOther(attrs: Attrs, ks: seq<nat>, kept: Attrs)
    requires Keeps(attrs, ks, kept)
    ensures forall m :: 0 <= m < |kept| ==> kept[m].key != "userId"
  {
    forall m | 0 <= m < |kept|
      ensures kept[m].key != "userId"
    {
      assert ks[m] in ks;
    }
  }

  lemma PartyAttrsCarry(user: User)
    ensures Carries(user, PartyAttrsOf(user))
  {
    hide Without, Lookup, Keeps;
    var attrs, own := PartyAttrsOf(user), Attr("userId", One(Str(user.id)));
    var kept := Without(user.attrs, "userId");
    var ks := WithoutKeeps(user.attrs);
    assert attrs == [own] + kept && attrs[1..] == kept;
    forall key
      ensures Lookup(attrs, key) == if key == "userId" then Some(own.value) else Lookup(user.attrs, key)
    {
      LookupAppend([own], kept, key);
      LookupOne(own, key);
      if key != "userId" {
        LookupWithout(user.attrs, key);
      }
    }
    KeptOther(user.attrs, ks, kept);
    if Distinct(user.attrs) {
      KeptDistinct(user.attrs, ks, kept);
    }
  }

  /** Which users have a policy: those whose attributes, a `userId` aside, can be written. */
  lemma PolicyEmitted(user: User)
    ensures EmitPolicy(user).Ok? <==>
            forall a :: a in user.attrs && a.key != "userId" ==> WritableKey(a.key) && EmittableValue(a.value)
  {
    hide EmittableValue, Cleaned, Join, Without, Emit, IsName;
    var attrs := PartyAttrsOf(user);
    var ks := WithoutKeeps(user.attrs);
    var kept := Without(user.attrs, "userId");
    EmitExact(attrs);
    UserIdKey(user.id);
    forall a
      ensures a in kept <==> a in user.attrs && a.key != "userId"
    {
      if a in user.attrs && a.key != "userId" {
        var k :| 0 <= k < |user.attrs| && user.attrs[k] == a;
        assert k in ks;
        var m :| 0 <= m < |ks| && ks[m] == k;
        assert kept[m] == a;
      }
      if a in kept {
        KeptOther(user.attrs, ks, kept);
      }
    }
    assert attrs == [attrs[0]] + kept;
  }

  lemma UserIdKey(id: string)
    ensures WritableKey("userId") && EmittableValue(One(Str(id)))
  {
  }

  /** The rules without their comments, less those of which nothing but white space is left. */
  function Cleaned(rules: seq<string>): seq<string> {
    if rules == [] then []
    else (if Trim(Stripped(rules[0])) != "" then [Stripped(rules[0])] else []) + Cleaned(rules[1..])
  }

  function EmitPolicy(user: User): Result<string, EmitError> {
    var party :- Emit(PartyAttrsOf(user));
    var cleaned := Cleaned(user.rules);
    Ok("(" + Join([Clause("party", party), Clause("rules", if cleaned == [] then "()" else Join(cleaned, "\n"))], ", ") + ")")
  }

  /** The tokens of the rules, one after the other. */
  function RulesLex(rules: seq<string>): seq<Lexeme>
    requires forall r :: r in rules ==> Chop(r, 0).Pieces?
  {
    if rules == [] then [] else Lexemes(PiecesOf(rules[0])) + RulesLex(rules[1..])
  }

  lemma RulesLexHead(rule: string, rest: seq<string>)
    requires forall r :: r in [rule] + rest ==> Chop(r, 0).Pieces?
    ensures forall r :: r in rest ==> Chop(r, 0).Pieces?
    ensures RulesLex([rule] + rest) == Lexemes(PiecesOf(rule)) + RulesLex(rest)
  {
    hide Chop, Lexemes;
    assert rule in [rule] + rest && forall r :: r in rest ==> r in [rule] + rest;
    assert ([rule] + rest)[1..] == rest;
  }

  lemma NoRules()
    ensures RulesLex([]) == []
  {
  }

  /** Just that: it takes lists of rules apart, and a single rule to its own tokens. */
  lemma {:induction false} RulesLexAppend(a: seq<string>, b: seq<string>)
    requires forall r :: r in a + b ==> Chop(r, 0).Pieces?
    ensures RulesLex(a + b) == RulesLex(a) + RulesLex(b)
    ensures forall r :: a == [r] ==> RulesLex(a) == Lexemes(PiecesOf(r))
  {
    hide *;
    assert forall r :: r in a ==> r in a + b;
    assert forall r :: r in b ==> r in a + b;
    NoRules();
    if a == [] {
      assert a + b == b;
    } else {
      var rule, rest := a[0], a[1..];
      assert a == [rule] + rest && a + b == [rule] + (rest + b);
      RulesLexHead(rule, rest);
      RulesLexHead(rule, rest + b);
      RulesLexAppend(rest, b);
    }
  }

  /** The header with these attributes, then these rules, of which there may be none. */
  function PolicyLex(attrs: Attrs, body: seq<Lexeme>): seq<Lexeme> {
    [P("("), N("party"), P(":")] + AttrsLex(attrs) +
    [P(","), N("rules"), P(":")] + (if body == [] then [P("("), P(")")] else body) + [P(")")]
  }

  lemma {:induction false} BlankLex(ps: seq<Piece>)
    requires Munched(ps) && forall p :: p in ps ==> !p.Comment?
    requires Trim(Flat(ps)) == ""
    ensures Lexemes(ps) == []
    decreases |ps|
  {
    hide Trim, IsSpace, Munched, Valid, Stops, Flat;
    if ps == [] {
    } else {
      MunchedHead(ps);
      if ps[0].Tok? {
        TokenEnds(ps[0]);
        TrimKeeps(Flat(ps), 0);
        assert false;
      }
      SpaceBlank(ps[0]);
      TrimTail(Text(ps[0]), Flat(ps[1..]));
      BlankLex(ps[1..]);
      assert ps == [ps[0]] + ps[1..];
      LexemesCons(ps[0], ps[1..]);
    }
  }

  lemma SpaceBlank(p: Piece)
    requires Valid(p) && p.Blank?
    ensures |Text(p)| == 1 && IsSpace(Text(p)[0])
  {
  }

  lemma {:induction false} TrimEndEmpty(s: string, k: nat)
    requires k < |s| && !IsSpace(s[k])
    ensures TrimEnd(s) != ""
    decreases |s|
  {
    hide IsSpace;
    if IsSpace(s[|s| - 1]) {
      TrimEndEmpty(s[..|s| - 1], k);
    }
  }

  lemma {:induction false} TrimKeeps(s: string, k: nat)
    requires k < |s| && !IsSpace(s[k])
    ensures Trim(s) != ""
    decreases |s|
  {
    hide IsSpace, TrimEnd;
    if IsSpace(s[0]) {
      TrimKeeps(s[1..], k - 1);
    } else {
      TrimEndEmpty(s, k);
    }
  }

  lemma TrimTail(a: string, b: string)
    requires |a| == 1 && IsSpace(a[0])
    ensures Trim(a + b) == Trim(b)
  {
    assert (a + b)[1..] == b;
  }

  lemma {:induction false} NonBlankLex(ps: seq<Piece>)
    requires Munched(ps) && forall p :: p in ps ==> !p.Comment?
    requires Trim(Flat(ps)) != ""
    ensures Lexemes(ps) != []
    decreases |ps|
  {
    hide Trim, IsSpace, Munched, Valid, Stops, Flat;
    if ps == [] {
      NoPieces();
      TrimOfNothing();
    } else {
      MunchedHead(ps);
      assert ps == [ps[0]] + ps[1..];
      LexemesCons(ps[0], ps[1..]);
      if !ps[0].Tok? {
        SpaceBlank(ps[0]);
        TrimTail(Text(ps[0]), Flat(ps[1..]));
        NonBlankLex(ps[1..]);
      }
    }
  }

  lemma TrimOfNothing()
    ensures Trim("") == ""
  {
  }

  /** A stripped rule is blank exactly when it holds no token. */
  lemma BlankExact(rule: string)
    requires Chop(rule, 0).Pieces?
    ensures Trim(Stripped(rule)) == "" <==> Lexemes(PiecesOf(rule)) == []
  {
    hide Chop, Munched, Valid, Flat, StripFrom, Lexemes, NoComments, Trim;
    var ps := PiecesOf(rule);
    StripPieces(ps);
    if Trim(Stripped(rule)) == "" {
      BlankLex(NoComments(ps));
    } else {
      NonBlankLex(NoComments(ps));
    }
  }

  function CleanedLex(rules: seq<string>): seq<seq<Lexeme>>
    requires forall r :: r in rules ==> Chop(r, 0).Pieces?
  {
    if rules == [] then []
    else (if Trim(Stripped(rules[0])) != "" then [Lexemes(PiecesOf(rules[0]))] else []) + CleanedLex(rules[1..])
  }

  lemma {:induction false} CleanedSpells(rules: seq<string>)
    requires forall r :: r in rules ==> Chop(r, 0).Pieces?
    ensures AllSpell(Cleaned(rules), CleanedLex(rules))
    ensures JoinLex(CleanedLex(rules), []) == RulesLex(rules)
    ensures Cleaned(rules) == [] <==> RulesLex(rules) == []
    decreases |rules|
  {
    hide Trim, StripFrom, Chop, Lexemes, Spells, JoinLex, Stripped;
    if rules == [] {
      JoinNothing();
    } else {
      var r, lx := rules[0], Lexemes(PiecesOf(rules[0]));
      CleanedSpells(rules[1..]);
      StripInvisible(r);
      BlankExact(r);
      if Trim(Stripped(r)) != "" {
        assert Cleaned(rules) == [Stripped(r)] + Cleaned(rules[1..]);
        assert CleanedLex(rules) == [lx] + CleanedLex(rules[1..]);
        JoinConcat(lx, CleanedLex(rules[1..]));
      } else {
        assert Cleaned(rules) == Cleaned(rules[1..]);
        assert CleanedLex(rules) == CleanedLex(rules[1..]);
        assert RulesLex(rules) == RulesLex(rules[1..]);
      }
    }
  }

  lemma JoinNothing()
    ensures JoinLex([], []) == []
  {
  }

  lemma JoinConcat(first: seq<Lexeme>, rest: seq<seq<Lexeme>>)
    ensures JoinLex([first] + rest, []) == first + JoinLex(rest, [])
  {
    assert ([first] + rest)[1..] == rest;
  }

  lemma NewlineSeparates()
    ensures Separates("\n", [])
  {
    SpellsBlanks("\n");
  }

  lemma RulesSpell(rules: seq<string>)
    requires forall r :: r in rules ==> Chop(r, 0).Pieces?
    ensures Spells(if Cleaned(rules) == [] then "()" else Join(Cleaned(rules), "\n"),
                   if RulesLex(rules) == [] then [P("("), P(")")] else RulesLex(rules))
  {
    hide Chop, Spells, Separates, Join, JoinLex, Cleaned, CleanedLex, RulesLex, AllSpell;
    CleanedSpells(rules);
    NewlineSeparates();
    if Cleaned(rules) == [] {
      SpellsHard('(');
      SpellsHard(')');
      SpellsAppend("(", [P("(")], ")", [P(")")]);
      assert "(" + ")" == "()" && [P("(")] + [P(")")] == [P("("), P(")")];
    } else {
      SpellsJoin(Cleaned(rules), CleanedLex(rules), "\n", []);
    }
  }

  /** A policy of rules that each lex has exactly these tokens: the header, with the user's published
      attributes under the row's own id, then every rule's own tokens in order, then the closing
      parenthesis. No comment swallows the rule after it, and no rule's last token runs into the next
      rule. */
  lemma PolicySpells(user: User)
    requires EmitPolicy(user).Ok? && forall r :: r in user.rules ==> Chop(r, 0).Pieces?
    ensures exists attrs :: Carries(user, attrs) && Spells(EmitPolicy(user).value, PolicyLex(attrs, RulesLex(user.rules)))
  {
    hide Chop, Spells, Separates, Join, JoinLex, Cleaned, RulesLex, AttrsLex, Emit, Writable, Emittable, PartyAttrsOf, EmitAttrs, Carries;
    var attrs := PartyAttrsOf(user);
    PartyAttrsCarry(user);
    EmitExact(attrs);
    EmittableIsWritable(attrs);
    SpellsAttrs(attrs);
    var party := Emit(attrs).value;
    SpellsClause("party", party, AttrsLex(attrs));
    RulesSpell(user.rules);
    var cleaned, body := Cleaned(user.rules), RulesLex(user.rules);
    var rules, rulesLex := if cleaned == [] then "()" else Join(cleaned, "\n"), if body == [] then [P("("), P(")")] else body;
    SpellsClause("rules", rules, rulesLex);
    CommaSpace();
    var parts, lx := [Clause("party", party), Clause("rules", rules)], [ClauseLex("party", AttrsLex(attrs)), ClauseLex("rules", rulesLex)];
    assert AllSpell(parts, lx);
    SpellsJoin(parts, lx, ", ", [P(",")]);
    SpellsWrap('(', Join(parts, ", "), JoinLex(lx, [P(",")]), ')');
    PolicyLexIs(AttrsLex(attrs), rulesLex);
  }

  lemma PolicyLexIs(party: seq<Lexeme>, rules: seq<Lexeme>)
    ensures [P("(")] + JoinLex([ClauseLex("party", party), ClauseLex("rules", rules)], [P(",")]) + [P(")")] ==
            [P("("), N("party"), P(":")] + party + [P(","), N("rules"), P(":")] + rules + [P(")")]
  {
    var a, b := ClauseLex("party", party), ClauseLex("rules", rules);
    JoinTwo(a, b, [P(",")]);
    hide JoinLex;
    assert [P("(")] + (a + [P(",")] + b) == [P("("), N("party"), P(":")] + party + [P(","), N("rules"), P(":")] + rules;
  }

  lemma JoinTwo(a: seq<Lexeme>, b: seq<Lexeme>, sep: seq<Lexeme>)
    ensures JoinLex([a, b], sep) == a + sep + b
  {
    assert [a, b][1..] == [b] && JoinLex([b], sep) == b;
  }

  lemma CommaSpace()
    ensures Separates(", ", [P(",")])
  {
    SpellsHard(',');
    SpellsBlanks(" ");
    SpellsAppend(",", [P(",")], " ", []);
    assert "," + " " == ", " && [P(",")] + [] == [P(",")];
  }

  // ----- A policy text determines whose it is -----

  lemma QuotePrefixFree(a: string, x: string, b: string, y: string)
    requires Quote(a) + x == Quote(b) + y
    ensures a == b
  {
    QuoteIsString(a);
    QuoteIsString(b);
    QuoteEnd(a, x);
    QuoteEnd(b, y);
    assert Quote(a) == (Quote(a) + x)[..|Quote(a)|] == Quote(b);
    UnquoteQuote(a);
    UnquoteQuote(b);
  }

  lemma QuoteEnd(a: string, x: string)
    ensures StringEnd(Quote(a) + x, 1) == Some(|Quote(a)|)
  {
    hide StringEnd, Quote;
    QuoteIsString(a);
    QuoteScan(a);
    StringEndShift(Quote(a), 1, Quote(a) + x, 1);
  }

  lemma QuoteScan(a: string)
    ensures |Quote(a)| >= 1 && StringEnd(Quote(a), 1) == Some(|Quote(a)|)
  {
    QuoteIsString(a);
  }

  const POLICY_PREFIX := "(party:(userId:"

  /** Every policy starts with its owner's quoted id. */
  lemma PolicyPrefix(user: User) returns (rest: string)
    requires EmitPolicy(user).Ok?
    ensures EmitPolicy(user).value == POLICY_PREFIX + (Quote(user.id) + rest)
  {
    hide Quote, Cleaned;
    var attrs := PartyAttrsOf(user);
    var cleaned := Cleaned(user.rules);
    var rules := if cleaned == [] then "()" else Join(cleaned, "\n");
    FirstAttr(user);
    var tail := Emit(attrs[1..]).value;
    var party := Emit(attrs).value;
    rest := ")" + tail + ", " + Clause("rules", rules) + ")";
    JoinPair(Clause("party", party), Clause("rules", rules));
    hide Emit, PartyAttrsOf, Join;
    assert EmitPolicy(user).value == "(" + (Clause("party", party) + ", " + Clause("rules", rules)) + ")";
    PrefixText(Quote(user.id), tail, Clause("rules", rules));
  }

  lemma JoinPair(a: string, b: string)
    ensures Join([a, b], ", ") == a + ", " + b
  {
    assert [a, b][1..] == [b];
    assert Join([b], ", ") == b;
  }

  lemma FirstAttr(user: User)
    requires Emit(PartyAttrsOf(user)).Ok?
    ensures var attrs := PartyAttrsOf(user);
            Emit(attrs[1..]).Ok? && Emit(attrs).value == "(userId:" + Quote(user.id) + ")" + Emit(attrs[1..]).value
  {
    hide Quote, Without;
    var a := Attr(USER_ID_ATTR, One(Str(user.id)));
    assert PartyAttrsOf(user)[0] == a;
    assert EmitAttr(a).value == "(" + (USER_ID_ATTR + ":" + Quote(user.id)) + ")";
  }

  lemma PrefixText(q: string, tail: string, rules: string)
    ensures "(" + (Clause("party", "(userId:" + q + ")" + tail) + ", " + rules) + ")" ==
            POLICY_PREFIX + (q + (")" + tail + ", " + rules + ")"))
  {
    assert "(" + "party:" + "(userId:" == POLICY_PREFIX;
  }

  lemma PolicyInjective(a: User, b: User)
    requires EmitPolicy(a).Ok? && EmitPolicy(a) == EmitPolicy(b)
    ensures a.id == b.id
  {
    hide EmitPolicy, Quote;
    var x := PolicyPrefix(a);
    var y := PolicyPrefix(b);
    var n := |POLICY_PREFIX|;
    assert (POLICY_PREFIX + (Quote(a.id) + x))[n..] == Quote(a.id) + x;
    assert (POLICY_PREFIX + (Quote(b.id) + y))[n..] == Quote(b.id) + y;
    QuotePrefixFree(a.id, x, b.id, y);
  }
}
