/** Strings in code order, and what sorting an array of them returns. */
module Order {

  predicate Le(a: string, b: string) {
    a == "" || (b != "" && (a[0] < b[0] || (a[0] == b[0] && Le(a[1..], b[1..]))))
  }

  predicate Lt(a: string, b: string) { Le(a, b) && a != b }

  /** The first character in which they differ, the one at `k`, is the smaller in `a`. */
  predicate DiffersAt(a: string, b: string, k: nat) {
    k < |a| && k < |b| && (forall j :: 0 <= j < k ==> a[j] == b[j]) && a[k] < b[k]
  }

  ghost predicate Sooner(a: string, b: string) { exists k: nat :: DiffersAt(a, b, k) }

  lemma DiffersOn(a: string, b: string, k: nat)
    requires a != "" && b != "" && a[0] == b[0]
    ensures DiffersAt(a[1..], b[1..], k) <==> DiffersAt(a, b, k + 1)
  {
    if DiffersAt(a[1..], b[1..], k) {
      assert forall j :: 0 < j < k + 1 ==> a[j] == a[1..][j - 1] && b[j] == b[1..][j - 1];
    }
    if DiffersAt(a, b, k + 1) {
      assert forall j :: 0 <= j < k ==> a[1..][j] == a[j + 1] && b[1..][j] == b[j + 1];
    }
  }

  lemma SoonerOn(a: string, b: string)
    requires a != "" && b != "" && a[0] == b[0]
    ensures Sooner(a[1..], b[1..]) <==> Sooner(a, b)
  {
    hide DiffersAt;
    if k: nat :| DiffersAt(a[1..], b[1..], k) {
      DiffersOn(a, b, k);
    }
    if k: nat :| DiffersAt(a, b, k) {
      NotAtFirst(a, b, k);
      DiffersOn(a, b, k - 1);
    }
  }

  lemma NotAtFirst(a: string, b: string, k: nat)
    requires a != "" && b != "" && a[0] == b[0] && DiffersAt(a, b, k)
    ensures k > 0
  {
  }

  /** A string comes before those it starts, and those that first differ from it in a greater character. */
  lemma {:induction false} LeExact(a: string, b: string)
    ensures Le(a, b) <==> a <= b || Sooner(a, b)
    decreases |a|
  {
    hide DiffersAt;
    if a == "" || b == "" {
      NeverSooner(a, b);
    } else if a[0] == b[0] {
      LeExact(a[1..], b[1..]);
      assert a == [a[0]] + a[1..] && b == [b[0]] + b[1..];
      SoonerOn(a, b);
    } else {
      AtFirst(a, b);
    }
  }

  lemma NeverSooner(a: string, b: string)
    requires a == "" || b == ""
    ensures !Sooner(a, b)
  {
  }

  lemma AtFirst(a: string, b: string)
    requires a != "" && b != "" && a[0] != b[0]
    ensures Sooner(a, b) <==> a[0] < b[0]
  {
    assert DiffersAt(a, b, 0) <==> a[0] < b[0];
    assert forall k: nat :: DiffersAt(a, b, k) ==> k == 0;
  }

  lemma {:induction false} LeTotal(a: string, b: string)
    ensures Le(a, b) || Le(b, a)
    ensures Le(a, b) && Le(b, a) ==> a == b
    decreases |a|
  {
    if a != "" && b != "" && a[0] == b[0] {
      LeTotal(a[1..], b[1..]);
      assert a == [a[0]] + a[1..] && b == [b[0]] + b[1..];
    }
  }

  lemma {:induction false} LeTrans(a: string, b: string, c: string)
    requires Le(a, b) && Le(b, c)
    ensures Le(a, c)
    decreases |a|
  {
    if a != "" && a[0] == b[0] == c[0] {
      LeTrans(a[1..], b[1..], c[1..]);
    }
  }

  lemma LtTrans(a: string, b: string, c: string)
    requires Lt(a, b) && Lt(b, c)
    ensures Lt(a, c)
  {
    LeTrans(a, b, c);
    LeTotal(a, b);
  }

  predicate Sorted(s: seq<string>) { forall i, j :: 0 <= i < j < |s| ==> Le(s[i], s[j]) }

  function Insert(x: string, s: seq<string>): seq<string> {
    if s == [] || Le(x, s[0]) then [x] + s else [s[0]] + Insert(x, s[1..])
  }

  /** `Array.prototype.sort` on strings. */
  function Sort(s: seq<string>): seq<string> {
    if s == [] then [] else Insert(s[0], Sort(s[1..]))
  }

  lemma {:induction false} InsertSorted(x: string, s: seq<string>)
    requires Sorted(s)
    ensures Sorted(Insert(x, s)) && multiset(Insert(x, s)) == multiset{x} + multiset(s)
    decreases |s|
  {
    hide Le;
    if s == [] {
    } else if Le(x, s[0]) {
      forall k | 0 < k < |s|
        ensures Le(x, s[k])
      {
        LeTrans(x, s[0], s[k]);
      }
    } else {
      LeTotal(x, s[0]);
      InsertSorted(x, s[1..]);
      var rest := Insert(x, s[1..]);
      assert s == [s[0]] + s[1..];
      assert forall y :: y in multiset(rest) ==> y == x || y in multiset(s[1..]);
      FrontSorted(s[0], rest);
    }
  }

  lemma FrontSorted(x: string, s: seq<string>)
    requires Sorted(s) && forall y :: y in multiset(s) ==> Le(x, y)
    ensures Sorted([x] + s)
  {
    hide Le;
    assert forall k :: 0 <= k < |s| ==> s[k] in multiset(s);
  }

  lemma {:induction false} SortIsSorted(s: seq<string>)
    ensures Sorted(Sort(s)) && multiset(Sort(s)) == multiset(s)
    decreases |s|
  {
    hide Le;
    if s == [] {
    } else {
      SortIsSorted(s[1..]);
      InsertSorted(s[0], Sort(s[1..]));
      assert s == [s[0]] + s[1..];
    }
  }

  /** A bag has only one sorted arrangement. */
  lemma {:induction false} SortedUnique(a: seq<string>, b: seq<string>)
    requires Sorted(a) && Sorted(b) && multiset(a) == multiset(b)
    ensures a == b
    decreases |a|
  {
    hide Le;
    assert |a| == |multiset(a)| == |multiset(b)| == |b|;
    if a == [] {
    } else {
      Smallest(a, b);
      Smallest(b, a);
      LeTotal(a[0], b[0]);
      assert a == [a[0]] + a[1..] && b == [b[0]] + b[1..];
      assert multiset(a[1..]) == multiset(a) - multiset{a[0]} == multiset(b[1..]);
      SortedUnique(a[1..], b[1..]);
    }
  }

  lemma Smallest(a: seq<string>, b: seq<string>)
    requires Sorted(a) && a != [] && b != [] && multiset(a) == multiset(b)
    ensures Le(a[0], b[0])
  {
    hide Le;
    assert b[0] in multiset(b);
    var k :| 0 <= k < |a| && a[k] == b[0];
    LeTotal(a[0], a[0]);
  }

  lemma SortIgnoresOrder(a: seq<string>, b: seq<string>)
    ensures Sort(a) == Sort(b) <==> multiset(a) == multiset(b)
  {
    hide Le, Sort;
    SortIsSorted(a);
    SortIsSorted(b);
    if multiset(a) == multiset(b) {
      SortedUnique(Sort(a), Sort(b));
    }
  }
}
