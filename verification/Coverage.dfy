/** Explaining a pattern that covers no resource, by what stands between it and the nearest one
    (app/backend/src/bart/coverage.ts). */
module Coverage {
  import opened Lex
  import opened Attrs
  import opened Order
  import opened Matcher

  datatype Resource = Resource(id: string, name: string, attrs: Attrs)

  datatype Gap = Gap(name: string, missing: seq<string>, conflicting: seq<string>)

  predicate IsMissing(a: Attr, pattern: Attrs) { Lookup(pattern, a.key).None? }

  predicate Agrees(a: Attr, pattern: Attrs) { Matches([a], pattern) }

  function Missing(attrs: Attrs, pattern: Attrs): seq<string> {
    if attrs == [] then []
    else (if IsMissing(attrs[0], pattern) then [attrs[0].key] else []) + Missing(attrs[1..], pattern)
  }

  function Conflicting(attrs: Attrs, pattern: Attrs): seq<string> {
    if attrs == [] then []
    else
      (if !IsMissing(attrs[0], pattern) && !Agrees(attrs[0], pattern) then [attrs[0].key] else [])
      + Conflicting(attrs[1..], pattern)
  }

  function Agreeing(attrs: Attrs, pattern: Attrs): nat {
    if attrs == [] then 0
    else
      (if !IsMissing(attrs[0], pattern) && Agrees(attrs[0], pattern) then 1 else 0) + Agreeing(attrs[1..], pattern)
  }

  method GapAgainst(resource: Resource, pattern: Attrs) returns (missing: seq<string>, conflicting: seq<string>, agreeing: nat)
    ensures missing == Missing(resource.attrs, pattern)
    ensures conflicting == Conflicting(resource.attrs, pattern)
    ensures agreeing == Agreeing(resource.attrs, pattern)
  {
    hide Matches, Lookup, Missing, Conflicting, Agreeing;
    var attrs := resource.attrs;
    missing, conflicting, agreeing := [], [], 0;
    assert attrs[0..] == attrs;
    for i := 0 to |attrs|
      invariant missing + Missing(attrs[i..], pattern) == Missing(attrs, pattern)
      invariant conflicting + Conflicting(attrs[i..], pattern) == Conflicting(attrs, pattern)
      invariant agreeing + Agreeing(attrs[i..], pattern) == Agreeing(attrs, pattern)
    {
      GapStep(attrs, i, pattern, missing, conflicting);
      if Lookup(pattern, attrs[i].key).None? {
        missing := missing + [attrs[i].key];
      } else if !Matches([attrs[i]], pattern) {
        conflicting := conflicting + [attrs[i].key];
      } else {
        agreeing := agreeing + 1;
      }
    }
    NoGap(pattern);
    assert attrs[|attrs|..] == [] && missing + [] == missing && conflicting + [] == conflicting;
  }

  lemma NoGap(pattern: Attrs)
    ensures Missing([], pattern) == [] && Conflicting([], pattern) == [] && Agreeing([], pattern) == 0
  {
  }

  lemma GapStep(attrs: Attrs, i: nat, pattern: Attrs, missing: seq<string>, conflicting: seq<string>)
    requires i < |attrs|
    ensures var a, rest := attrs[i], attrs[i + 1..];
            var absent, agrees := IsMissing(a, pattern), Agrees(a, pattern);
            && missing + Missing(attrs[i..], pattern) == (if absent then missing + [a.key] else missing) + Missing(rest, pattern)
            && conflicting + Conflicting(attrs[i..], pattern)
                 == (if !absent && !agrees then conflicting + [a.key] else conflicting) + Conflicting(rest, pattern)
            && Agreeing(attrs[i..], pattern) == (if !absent && agrees then 1 else 0) + Agreeing(rest, pattern)
  {
    hide Matches, Lookup;
    assert attrs[i..][1..] == attrs[i + 1..] && attrs[i..][0] == attrs[i];
    Assoc(missing, [attrs[i].key], Missing(attrs[i + 1..], pattern));
    Assoc(conflicting, [attrs[i].key], Conflicting(attrs[i + 1..], pattern));
  }

  lemma Assoc<T>(a: seq<T>, b: seq<T>, c: seq<T>)
    ensures a + (b + c) == (a + b) + c && a + ([] + c) == a + c
  {
  }

  lemma MatchesOne(a: Attr, pattern: Attrs)
    ensures Agrees(a, pattern) <==> Carries(pattern, a)
  {
    MatchesExact([a], pattern, '\0');
    assert a in [a];
  }

  /** Each key of the resource is missing, conflicting or agreeing, and only one of them; nothing
      blocks exactly when the resource is covered. */
  lemma {:induction false} GapPartition(attrs: Attrs, pattern: Attrs)
    ensures |Missing(attrs, pattern)| + |Conflicting(attrs, pattern)| + Agreeing(attrs, pattern) == |attrs|
    ensures |Missing(attrs, pattern)| + |Conflicting(attrs, pattern)| == 0 <==> Matches(attrs, pattern)
    ensures forall key :: key in Missing(attrs, pattern) <==> exists a :: a in attrs && a.key == key && Lookup(pattern, key).None?
    ensures forall key :: key in Conflicting(attrs, pattern) <==>
      exists a :: a in attrs && a.key == key && Lookup(pattern, key).Some? && !SameValueAsBag(a.value, Lookup(pattern, key).value)
  {
    hide MatchesWith, SameValueAsBag, Lookup;
    MatchesExact(attrs, pattern, '\0');
    if attrs == [] {
    } else {
      var a, rest := attrs[0], attrs[1..];
      GapPartition(rest, pattern);
      MatchesExact(rest, pattern, '\0');
      MatchesOne(a, pattern);
      assert attrs == [a] + rest;
      assert forall x :: x in attrs <==> x == a || x in rest;
    }
  }

  // ----- The nearest resource -----

  function Blocking(r: Resource, pattern: Attrs): nat { |Missing(r.attrs, pattern)| + |Conflicting(r.attrs, pattern)| }

  function Overlap(r: Resource, pattern: Attrs): nat { Agreeing(r.attrs, pattern) + |Conflicting(r.attrs, pattern)| }

  function GapOf(r: Resource, pattern: Attrs): Gap {
    Gap(r.name, Missing(r.attrs, pattern), Conflicting(r.attrs, pattern))
  }

  /** Overlap, then agreement, then fewest blocking, then id. */
  predicate Better(a: Resource, b: Resource, pattern: Attrs) {
    if Overlap(a, pattern) != Overlap(b, pattern) then Overlap(a, pattern) > Overlap(b, pattern)
    else if Agreeing(a.attrs, pattern) != Agreeing(b.attrs, pattern) then Agreeing(a.attrs, pattern) > Agreeing(b.attrs, pattern)
    else if Blocking(a, pattern) != Blocking(b, pattern) then Blocking(a, pattern) < Blocking(b, pattern)
    else Lt(a.id, b.id)
  }

  lemma BetterTrans(a: Resource, b: Resource, c: Resource, pattern: Attrs)
    requires Better(a, b, pattern) && Better(b, c, pattern)
    ensures Better(a, c, pattern)
  {
    hide Lt, Overlap, Blocking, Agreeing;
    if Lt(a.id, b.id) && Lt(b.id, c.id) {
      LtTrans(a.id, b.id, c.id);
    }
  }

  lemma BetterTotal(a: Resource, b: Resource, pattern: Attrs)
    ensures Better(a, b, pattern) || Better(b, a, pattern) || a.id == b.id
    ensures !(Better(a, b, pattern) && Better(b, a, pattern))
  {
    LeTotal(a.id, b.id);
  }

  /** How many of the resource's keys the pattern names. */
  function Shared(r: Resource, pattern: Attrs): int { |r.attrs| - |Missing(r.attrs, pattern)| }

  /** `a` is no further from the pattern than `b`: it shares more keys; or as many, and agrees in more; or in
      as many, and has fewer in the way; or as many, and its id is no greater. */
  ghost predicate NoFurther(a: Resource, b: Resource, pattern: Attrs) {
    || Shared(a, pattern) > Shared(b, pattern)
    || (&& Shared(a, pattern) == Shared(b, pattern)
        && (|| Agreeing(a.attrs, pattern) > Agreeing(b.attrs, pattern)
            || (&& Agreeing(a.attrs, pattern) == Agreeing(b.attrs, pattern)
                && (|| Blocking(a, pattern) < Blocking(b, pattern)
                    || (&& Blocking(a, pattern) == Blocking(b, pattern)
                        && (a.id <= b.id || Sooner(a.id, b.id)))))))
  }

  lemma NoFurtherExact(a: Resource, b: Resource, pattern: Attrs)
    ensures NoFurther(a, b, pattern) <==> !Better(b, a, pattern)
  {
    hide Missing, Conflicting, Agreeing, Le;
    GapPartition(a.attrs, pattern);
    GapPartition(b.attrs, pattern);
    LeTotal(a.id, b.id);
    LeExact(a.id, b.id);
  }

  lemma GapHead(a: Attr, rest: Attrs, pattern: Attrs)
    ensures Missing([a] + rest, pattern) == (if IsMissing(a, pattern) then [a.key] else []) + Missing(rest, pattern)
    ensures Conflicting([a] + rest, pattern) ==
            (if !IsMissing(a, pattern) && !Agrees(a, pattern) then [a.key] else []) + Conflicting(rest, pattern)
  {
    hide IsMissing, Agrees;
    assert ([a] + rest)[1..] == rest;
  }

  /** The keys in the way are listed in the order of the resource's own. */
  lemma {:induction false} GapInOrder(a: Attrs, b: Attrs, pattern: Attrs)
    ensures Missing(a + b, pattern) == Missing(a, pattern) + Missing(b, pattern)
    ensures Conflicting(a + b, pattern) == Conflicting(a, pattern) + Conflicting(b, pattern)
  {
    hide Missing, Conflicting, IsMissing, Agrees;
    NoGap(pattern);
    if a == [] {
      assert a + b == b;
    } else {
      GapInOrder(a[1..], b, pattern);
      assert a + b == [a[0]] + (a[1..] + b) && a == [a[0]] + a[1..];
      GapHead(a[0], a[1..] + b, pattern);
      GapHead(a[0], a[1..], pattern);
      var one := [a[0].key];
      Assoc(one, Missing(a[1..], pattern), Missing(b, pattern));
      Assoc(one, Conflicting(a[1..], pattern), Conflicting(b, pattern));
    }
  }

  /** `best` blocks, and of these resources none that blocks is nearer. */
  ghost predicate IsNearest(resources: seq<Resource>, pattern: Attrs, best: Resource) {
    && best in resources && Blocking(best, pattern) != 0
    && forall r :: r in resources && Blocking(r, pattern) != 0 ==> NoFurther(best, r, pattern)
  }

  method NearestGap(resources: seq<Resource>, pattern: Attrs) returns (gap: Option<Gap>, best: Option<Resource>)
    ensures gap.None? <==> best.None?
    ensures best.None? <==> forall r :: r in resources ==> Blocking(r, pattern) == 0
    ensures best.Some? ==> gap == Some(GapOf(best.value, pattern)) && IsNearest(resources, pattern, best.value)
  {
    hide Better, Missing, Conflicting, Agreeing;
    gap, best := None, None;
    for i := 0 to |resources|
      invariant gap.None? <==> best.None?
      invariant best.None? <==> forall r :: r in resources[..i] ==> Blocking(r, pattern) == 0
      invariant best.Some? ==> gap == Some(GapOf(best.value, pattern)) && IsNearest(resources[..i], pattern, best.value)
    {
      var resource := resources[i];
      assert resources[..i + 1] == resources[..i] + [resource];
      var missing, conflicting, agreeing := GapAgainst(resource, pattern);
      if |missing| + |conflicting| != 0 {
        if best.None? {
          LoneNearest(resources[..i], pattern, resource);
          gap, best := Some(Gap(resource.name, missing, conflicting)), Some(resource);
        } else {
          NearestStep(resources[..i], pattern, best.value, resource);
          if Better(resource, best.value, pattern) {
            gap, best := Some(Gap(resource.name, missing, conflicting)), Some(resource);
          }
        }
      }
    }
    assert resources[..|resources|] == resources;
  }

  lemma LoneNearest(seen: seq<Resource>, pattern: Attrs, next: Resource)
    requires Blocking(next, pattern) != 0 && forall r :: r in seen ==> Blocking(r, pattern) == 0
    ensures IsNearest(seen + [next], pattern, next)
  {
    NoFurtherExact(next, next, pattern);
    BetterTotal(next, next, pattern);
  }

  lemma NearestStep(seen: seq<Resource>, pattern: Attrs, best: Resource, next: Resource)
    requires IsNearest(seen, pattern, best) && Blocking(next, pattern) != 0
    ensures IsNearest(seen + [next], pattern, if Better(next, best, pattern) then next else best)
  {
    hide Better, NoFurther, Missing, Conflicting, Agreeing;
    NoFurtherExact(best, next, pattern);
    NoFurtherExact(next, next, pattern);
    BetterTotal(next, next, pattern);
    if Better(next, best, pattern) {
      forall r | r in seen && Blocking(r, pattern) != 0
        ensures NoFurther(next, r, pattern)
      {
        NoFurtherExact(best, r, pattern);
        NoFurtherExact(next, r, pattern);
        if Better(r, next, pattern) {
          BetterTrans(r, next, best, pattern);
        }
      }
    }
  }

  /** With distinct ids the answer does not depend on the order the resources come in. */
  lemma NearestUnique(a: seq<Resource>, b: seq<Resource>, pattern: Attrs, x: Resource, y: Resource)
    requires multiset(a) == multiset(b) && forall r, q :: r in a && q in a && r.id == q.id ==> r == q
    requires IsNearest(a, pattern, x) && IsNearest(b, pattern, y)
    ensures x == y
  {
    hide Better, NoFurther, Blocking;
    assert forall r :: r in a <==> r in multiset(a);
    assert forall r :: r in b <==> r in multiset(b);
    NoFurtherExact(x, y, pattern);
    NoFurtherExact(y, x, pattern);
    BetterTotal(x, y, pattern);
  }
}
