/** Attribute matching, in its two ports: app/backend/src/bart/matcher.ts and
    app/frontend/src/lib/bart/match.ts, which differ in the separator of the sort key. */
module Matcher {
  import opened Lex
  import opened Attrs
  import opened Order

  function TypeOf(v: Scalar): string {
    match v
    case Str(_) => "string"
    case Num(_) => "number"
    case Boolean(_) => "boolean"
  }

  function StringOf(v: Scalar): string {
    match v
    case Str(s) => s
    case Num(text) => text
    case Boolean(b) => BoolText(b)
  }

  function SortKey(v: Scalar, separator: char): string { TypeOf(v) + [separator] + StringOf(v) }

  function SortKeys(items: seq<Scalar>, separator: char): seq<string> {
    seq(|items|, i requires 0 <= i < |items| => SortKey(items[i], separator))
  }

  predicate BagsEqual(left: seq<Scalar>, right: seq<Scalar>, separator: char) {
    |left| == |right| && Sort(SortKeys(left, separator)) == Sort(SortKeys(right, separator))
  }

  predicate ValuesEqual(left: Value, right: Value, separator: char) {
    match (left, right)
    case (Many(xs), Many(ys)) => BagsEqual(xs, ys, separator)
    case (One(x), One(y)) => x == y
    case _ => false
  }

  predicate MatchesWith(pattern: Attrs, attrs: Attrs, separator: char) {
    forall a :: a in pattern ==>
      Lookup(attrs, a.key).Some? && ValuesEqual(a.value, Lookup(attrs, a.key).value, separator)
  }

  /** The backend's `matches`. */
  predicate Matches(pattern: Attrs, attrs: Attrs) { MatchesWith(pattern, attrs, '\0') }

  /** The frontend's `coveredBy`. */
  predicate CoveredBy(resource: Attrs, pattern: Attrs) { MatchesWith(resource, pattern, '|') }

  // ----- Bags -----

  /** The type name first, so a string never collides with a number or a boolean. */
  lemma SortKeyInjective(a: Scalar, b: Scalar, separator: char)
    requires SortKey(a, separator) == SortKey(b, separator)
    ensures a == b
  {
    var x, y := SortKey(a, separator), SortKey(b, separator);
    TypeFromKey(a, separator);
    TypeFromKey(b, separator);
    assert x[|TypeOf(a)| + 1..] == StringOf(a) && y[|TypeOf(b)| + 1..] == StringOf(b);
    if a.Boolean? {
      assert BoolText(a.b)[0] == 't' <==> a.b;
    }
  }

  lemma TypeFromKey(v: Scalar, separator: char)
    ensures SortKey(v, separator)[0] == if v.Str? then 's' else if v.Num? then 'n' else 'b'
  {
  }

  lemma {:induction false} KeysMultiset(items: seq<Scalar>, separator: char, v: Scalar)
    ensures multiset(SortKeys(items, separator))[SortKey(v, separator)] == multiset(items)[v]
    decreases |items|
  {
    hide SortKey;
    if items == [] {
      assert SortKeys(items, separator) == [];
    } else {
      var rest := items[1..];
      KeysMultiset(rest, separator, v);
      assert items == [items[0]] + rest;
      assert SortKeys(items, separator) == [SortKey(items[0], separator)] + SortKeys(rest, separator);
      if SortKey(items[0], separator) == SortKey(v, separator) {
        SortKeyInjective(items[0], v, separator);
      }
    }
  }

  /** Comparing sorted keys compares bags: order does not count, multiplicity does. */
  lemma BagsExact(left: seq<Scalar>, right: seq<Scalar>, separator: char)
    ensures BagsEqual(left, right, separator) <==> multiset(left) == multiset(right)
  {
    hide SortKey, Sort;
    var a, b := SortKeys(left, separator), SortKeys(right, separator);
    SortIgnoresOrder(a, b);
    if multiset(a) == multiset(b) {
      forall v: Scalar
        ensures multiset(left)[v] == multiset(right)[v]
      {
        KeysMultiset(left, separator, v);
        KeysMultiset(right, separator, v);
      }
    }
    if multiset(left) == multiset(right) {
      assert |left| == |multiset(left)| == |right|;
      SameBagSameKeys(left, right, separator);
    }
  }

  lemma SameBagSameKeys(left: seq<Scalar>, right: seq<Scalar>, separator: char)
    requires multiset(left) == multiset(right)
    ensures multiset(SortKeys(left, separator)) == multiset(SortKeys(right, separator))
  {
    hide SortKey;
    var a, b := SortKeys(left, separator), SortKeys(right, separator);
    forall key: string
      ensures multiset(a)[key] == multiset(b)[key]
    {
      if key in a {
        var k :| 0 <= k < |a| && a[k] == key;
        KeysMultiset(left, separator, left[k]);
        KeysMultiset(right, separator, left[k]);
      } else if key in b {
        var k :| 0 <= k < |b| && b[k] == key;
        KeysMultiset(left, separator, right[k]);
        KeysMultiset(right, separator, right[k]);
      }
    }
  }

  // ----- Matching -----

  /** Equal scalars, or collections equal as bags; a collection is never a scalar. */
  predicate SameValueAsBag(a: Value, b: Value) {
    match (a, b)
    case (One(x), One(y)) => x == y
    case (Many(xs), Many(ys)) => multiset(xs) == multiset(ys)
    case _ => false
  }

  lemma ValuesExact(a: Value, b: Value, separator: char)
    ensures ValuesEqual(a, b, separator) <==> SameValueAsBag(a, b)
  {
    hide BagsEqual;
    if a.Many? && b.Many? {
      BagsExact(a.items, b.items, separator);
    }
  }

  predicate Carries(attrs: Attrs, a: Attr) { Lookup(attrs, a.key).Some? && SameValueAsBag(a.value, Lookup(attrs, a.key).value) }

  /** A match is every pattern key present with an equal value, whatever the separator. */
  lemma MatchesExact(pattern: Attrs, attrs: Attrs, separator: char)
    ensures MatchesWith(pattern, attrs, separator) <==> forall a :: a in pattern ==> Carries(attrs, a)
  {
    hide ValuesEqual, SameValueAsBag;
    forall a | a in pattern && Lookup(attrs, a.key).Some?
      ensures ValuesEqual(a.value, Lookup(attrs, a.key).value, separator) <==> SameValueAsBag(a.value, Lookup(attrs, a.key).value)
    {
      ValuesExact(a.value, Lookup(attrs, a.key).value, separator);
    }
  }

  /** The two ports decide the same question. */
  lemma PortsAgree(pattern: Attrs, attrs: Attrs)
    ensures Matches(pattern, attrs) <==> CoveredBy(pattern, attrs)
  {
    hide MatchesWith, Carries;
    MatchesExact(pattern, attrs, '\0');
    MatchesExact(pattern, attrs, '|');
  }

  lemma MatchesReflexive(attrs: Attrs)
    requires Distinct(attrs)
    ensures Matches(attrs, attrs)
  {
    hide MatchesWith;
    MatchesExact(attrs, attrs, '\0');
    forall a | a in attrs
      ensures Carries(attrs, a)
    {
      var k :| 0 <= k < |attrs| && attrs[k] == a;
      LookupSelf(attrs, k);
    }
  }

  lemma {:induction false} LookupIn(attrs: Attrs, key: string)
    requires Lookup(attrs, key).Some?
    ensures Attr(key, Lookup(attrs, key).value) in attrs
    decreases |attrs|
  {
    if attrs[0].key != key {
      LookupIn(attrs[1..], key);
    }
  }

  lemma MatchesTransitive(a: Attrs, b: Attrs, c: Attrs)
    requires Matches(a, b) && Matches(b, c)
    ensures Matches(a, c)
  {
    hide MatchesWith;
    MatchesExact(a, b, '\0');
    MatchesExact(b, c, '\0');
    MatchesExact(a, c, '\0');
    forall x | x in a
      ensures Carries(c, x)
    {
      assert Carries(b, x);
      LookupIn(b, x.key);
      assert Carries(c, Attr(x.key, Lookup(b, x.key).value));
    }
  }
}
