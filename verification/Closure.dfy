/** Collecting the parties of a policy system by a worklist (app/backend/src/bart/closure.ts). */
module Closure {
  import opened Attrs
  import opened Lists
  import opened Order
  import opened Matcher

  datatype Entry = Entry(id: string, attrs: Attrs)

  /** The entries of a `Map`, in insertion order. */
  type Index = seq<Entry>

  /** The party patterns in a user's policy: `analyze` of the text `policyTextOf` assembles. */
  type Policies = string -> seq<Attrs>

  function SetOf(s: seq<string>): set<string> { set x | x in s }

  predicate Matched(index: Index, pattern: Attrs, id: string) {
    exists e :: e in index && e.id == id && Matches(pattern, e.attrs)
  }

  /** A pattern in `from`'s policy matches the candidate `to`. */
  predicate Links(index: Index, policies: Policies, from: string, to: string) {
    exists p :: p in policies(from) && Matched(index, p, to)
  }

  ghost predicate Closed(index: Index, policies: Policies, s: set<string>) {
    forall a, b :: a in s && Links(index, policies, a, b) ==> b in s
  }

  /** `s` holds the seed, is closed, and is part of every closed set that holds the seed. */
  ghost predicate LeastClosed(index: Index, policies: Policies, seed: seq<string>, s: set<string>) {
    && SetOf(seed) <= s && Closed(index, policies, s)
    && forall t :: SetOf(seed) <= t && Closed(index, policies, t) ==> s <= t
  }

  /** Seed first, then everyone discovered, sorted, nobody twice. */
  ghost predicate IsPartyClosure(index: Index, policies: Policies, seed: seq<string>, parties: seq<string>) {
    && seed <= parties && Sorted(parties[|seed|..])
    && NoRepeats(parties[|seed|..]) && SetOf(parties[|seed|..]) !! SetOf(seed)
    && LeastClosed(index, policies, seed, SetOf(parties))
  }

  // ----- The worklist -----

  /** What holds of the sets between any two steps: everything found is forced by the seed. */
  ghost predicate Sound(index: Index, policies: Policies, seed: seq<string>, members: seq<string>, discovered: seq<string>) {
    && NoRepeats(members) && NoRepeats(discovered) && SetOf(discovered) !! SetOf(seed) && SetOf(members) == SetOf(seed) + SetOf(discovered)
    && SetOf(discovered) <= (set e | e in index :: e.id)
    && forall t :: SetOf(seed) <= t && Closed(index, policies, t) ==> SetOf(members) <= t
  }

  lemma SoundStep(index: Index, policies: Policies, seed: seq<string>, members: seq<string>, discovered: seq<string>, from: string, id: string)
    requires Sound(index, policies, seed, members, discovered)
    requires from in members && id !in members && Links(index, policies, from, id)
    ensures Sound(index, policies, seed, members + [id], discovered + [id])
  {
    hide Links, Matched;
    assert SetOf(members + [id]) == SetOf(members) + {id};
    assert SetOf(discovered + [id]) == SetOf(discovered) + {id};
    assert id in (set e | e in index :: e.id) by { LinkedIsKnown(index, policies, from, id); }
    assert from in SetOf(members);
  }

  lemma LinkedIsKnown(index: Index, policies: Policies, from: string, id: string)
    requires Links(index, policies, from, id)
    ensures id in (set e | e in index :: e.id)
  {
    hide Matches;
    var p :| p in policies(from) && Matched(index, p, id);
    var e :| e in index && e.id == id && Matches(p, e.attrs);
  }

  /** The loop over the candidates, for one pattern. */
  method AddMatches(index: Index, ghost policies: Policies, ghost seed: seq<string>, ghost from: string, pattern: Attrs,
                    members0: seq<string>, discovered0: seq<string>)
    returns (members: seq<string>, discovered: seq<string>)
    requires Sound(index, policies, seed, members0, discovered0) && from in members0 && pattern in policies(from)
    ensures Sound(index, policies, seed, members, discovered) && members0 <= members
    ensures forall id :: Matched(index, pattern, id) ==> id in members
  {
    hide Matches, Sound, Links;
    members, discovered := members0, discovered0;
    for k := 0 to |index|
      invariant Sound(index, policies, seed, members, discovered) && members0 <= members
      invariant forall id :: Matched(index[..k], pattern, id) ==> id in members
    {
      var e := index[k];
      assert index[..k + 1] == index[..k] + [e];
      MatchedStep(index[..k], e, pattern);
      if e.id !in members && Matches(pattern, e.attrs) {
        MatchedHere(index, k, pattern);
        LinkHere(index, policies, from, pattern, e.id);
        SoundStep(index, policies, seed, members, discovered, from, e.id);
        members := members + [e.id];
        discovered := discovered + [e.id];
      }
    }
    assert index[..|index|] == index;
  }

  lemma MatchedStep(seen: Index, e: Entry, pattern: Attrs)
    ensures forall id :: Matched(seen + [e], pattern, id) <==> Matched(seen, pattern, id) || (id == e.id && Matches(pattern, e.attrs))
  {
    hide Matches;
    forall id | id == e.id && Matches(pattern, e.attrs)
      ensures Matched(seen + [e], pattern, id)
    {
      assert e in seen + [e];
    }
    assert forall x :: x in seen ==> x in seen + [e];
  }

  lemma MatchedHere(index: Index, k: nat, pattern: Attrs)
    requires k < |index| && Matches(pattern, index[k].attrs)
    ensures Matched(index, pattern, index[k].id)
  {
    hide Matches;
    assert index[k] in index;
  }

  lemma LinkHere(index: Index, policies: Policies, from: string, pattern: Attrs, id: string)
    requires pattern in policies(from) && Matched(index, pattern, id)
    ensures Links(index, policies, from, id)
  {
    hide Matched;
  }

  /** The loop over the patterns of one analysed policy. */
  method AddAll(index: Index, ghost policies: Policies, ghost seed: seq<string>, ghost from: string, patterns: seq<Attrs>,
                members0: seq<string>, discovered0: seq<string>)
    returns (members: seq<string>, discovered: seq<string>)
    requires Sound(index, policies, seed, members0, discovered0) && from in members0 && patterns == policies(from)
    ensures Sound(index, policies, seed, members, discovered) && members0 <= members
    ensures forall id :: Links(index, policies, from, id) ==> id in members
  {
    hide Matches, Sound, Matched;
    members, discovered := members0, discovered0;
    for k := 0 to |patterns|
      invariant Sound(index, policies, seed, members, discovered) && members0 <= members
      invariant forall j, id :: 0 <= j < k && Matched(index, patterns[j], id) ==> id in members
    {
      ghost var before := members;
      members, discovered := AddMatches(index, policies, seed, from, patterns[k], members, discovered);
      assert forall x :: x in before ==> x in members;
    }
  }

  /** The members not analysed yet, in order. */
  function Frontier(members: seq<string>, analysed: set<string>): seq<string> {
    if members == [] then []
    else (if members[0] in analysed then [] else [members[0]]) + Frontier(members[1..], analysed)
  }

  lemma {:induction false} FrontierIs(members: seq<string>, analysed: set<string>)
    ensures forall x :: x in Frontier(members, analysed) <==> x in members && x !in analysed
    ensures NoRepeats(members) ==> NoRepeats(Frontier(members, analysed))
    decreases |members|
  {
    if members == [] {
    } else {
      FrontierIs(members[1..], analysed);
      assert members == [members[0]] + members[1..];
    }
  }

  method Distinguish(seed: seq<string>) returns (members: seq<string>)
    ensures NoRepeats(members) && SetOf(members) == SetOf(seed)
  {
    members := [];
    for k := 0 to |seed|
      invariant NoRepeats(members) && SetOf(members) == SetOf(seed[..k])
    {
      assert seed[..k + 1] == seed[..k] + [seed[k]];
      assert SetOf(seed[..k + 1]) == SetOf(seed[..k]) + {seed[k]};
      if seed[k] !in members {
        assert SetOf(members + [seed[k]]) == SetOf(members) + {seed[k]};
        members := members + [seed[k]];
      } else {
        assert seed[k] in SetOf(members);
      }
    }
    assert seed[..|seed|] == seed;
  }

  /** Everyone analysed has all their links among the members. */
  ghost predicate Done(index: Index, policies: Policies, members: seq<string>, analysed: set<string>) {
    analysed <= SetOf(members) && forall a, id :: a in analysed && Links(index, policies, a, id) ==> id in members
  }

  /** `asked` lists the users whose policy was assembled and analysed, in order. */
  method PartyClosure(seed: seq<string>, index: Index, policies: Policies) returns (parties: seq<string>, asked: seq<string>)
    ensures IsPartyClosure(index, policies, seed, parties)
    ensures NoRepeats(asked) && SetOf(asked) == SetOf(parties)
  {
    hide Sound, IsPartyClosure, LeastClosed, Links;
    var members := Distinguish(seed);
    var analysed: set<string> := {};
    var discovered: seq<string> := [];
    asked := [];
    ghost var known := SetOf(seed) + (set e | e in index :: e.id);
    Start(index, policies, seed, members);
    while true
      invariant Sound(index, policies, seed, members, discovered) && Done(index, policies, members, analysed)
      invariant NoRepeats(members) && NoRepeats(asked) && SetOf(asked) == analysed && analysed <= SetOf(members) <= known
      decreases known - analysed
    {
      var frontier := Frontier(members, analysed);
      FrontierIs(members, analysed);
      if frontier == [] {
        break;
      }
      ghost var before, beforeAnalysed := members, analysed;
      members, discovered := Round(index, policies, seed, frontier, members, discovered, analysed);
      AppendDistinct(asked, frontier);
      asked := asked + frontier;
      analysed := analysed + (set x | x in frontier);
      assert frontier[0] in analysed && frontier[0] !in beforeAnalysed && frontier[0] in known;
      assert SetOf(asked) == analysed;
    }
    Finish(index, policies, seed, members, discovered, analysed);
    parties := seed + Sort(discovered);
  }

  lemma AppendDistinct(a: seq<string>, b: seq<string>)
    requires NoRepeats(a) && NoRepeats(b) && forall x :: x in b ==> x !in SetOf(a)
    ensures NoRepeats(a + b) && SetOf(a + b) == SetOf(a) + (set x | x in b)
  {
    assert forall i :: 0 <= i < |a| ==> a[i] in SetOf(a);
  }

  lemma Start(index: Index, policies: Policies, seed: seq<string>, members: seq<string>)
    requires NoRepeats(members) && SetOf(members) == SetOf(seed)
    ensures Sound(index, policies, seed, members, []) && Done(index, policies, members, {})
  {
    hide Links;
    assert SetOf([]) == {};
  }

  /** One round: the frontier is analysed, and everyone it links to becomes a member. */
  method Round(index: Index, policies: Policies, ghost seed: seq<string>, frontier: seq<string>,
               members0: seq<string>, discovered0: seq<string>, ghost analysed: set<string>)
    returns (members: seq<string>, discovered: seq<string>)
    requires Sound(index, policies, seed, members0, discovered0) && Done(index, policies, members0, analysed)
    requires NoRepeats(members0) && forall x :: x in frontier ==> x in members0
    ensures Sound(index, policies, seed, members, discovered)
    ensures Done(index, policies, members, analysed + (set x | x in frontier))
    ensures NoRepeats(members) && SetOf(members) <= SetOf(seed) + (set e | e in index :: e.id)
  {
    hide Sound, Links;
    var results := seq(|frontier|, i requires 0 <= i < |frontier| => policies(frontier[i]));
    members, discovered := members0, discovered0;
    for k := 0 to |frontier|
      invariant Sound(index, policies, seed, members, discovered) && members0 <= members
      invariant forall j, id :: 0 <= j < k && Links(index, policies, frontier[j], id) ==> id in members
    {
      ghost var before := members;
      assert frontier[k] in frontier;
      assert forall x :: x in members0 ==> x in members;
      members, discovered := AddAll(index, policies, seed, frontier[k], results[k], members, discovered);
      assert forall x :: x in before ==> x in members;
    }
    assert forall x :: x in members0 ==> x in members;
    assert forall x :: x in frontier ==> exists k :: 0 <= k < |frontier| && frontier[k] == x;
    MembersKnown(index, policies, seed, members, discovered);
  }

  lemma MembersKnown(index: Index, policies: Policies, seed: seq<string>, members: seq<string>, discovered: seq<string>)
    requires Sound(index, policies, seed, members, discovered)
    ensures NoRepeats(members) && SetOf(members) <= SetOf(seed) + (set e | e in index :: e.id)
  {
  }

  lemma Finish(index: Index, policies: Policies, seed: seq<string>, members: seq<string>, discovered: seq<string>, analysed: set<string>)
    requires Sound(index, policies, seed, members, discovered) && Done(index, policies, members, analysed)
    requires forall x :: x in members ==> x in analysed
    ensures IsPartyClosure(index, policies, seed, seed + Sort(discovered))
    ensures SetOf(seed + Sort(discovered)) == SetOf(members)
  {
    hide Links, Sort, Sorted;
    SortIsSorted(discovered);
    var tail := Sort(discovered);
    assert (seed + tail)[|seed|..] == tail;
    assert forall x :: x in tail <==> x in multiset(tail);
    assert forall x :: x in discovered <==> x in multiset(discovered);
    assert SetOf(tail) == SetOf(discovered);
    assert SetOf(seed + tail) == SetOf(seed) + SetOf(tail);
    DistinctSorted(discovered, tail);
  }

  /** Distinctness is about the bag, not the arrangement. */
  lemma DistinctSorted(a: seq<string>, b: seq<string>)
    requires NoRepeats(a) && multiset(a) == multiset(b)
    ensures NoRepeats(b)
  {
    DistinctBag(a);
    BagDistinct(b);
  }

  lemma {:induction false} DistinctBag(a: seq<string>)
    requires NoRepeats(a)
    ensures forall x :: multiset(a)[x] <= 1
    decreases |a|
  {
    if a == [] {
    } else {
      DistinctBag(a[1..]);
      assert a == [a[0]] + a[1..];
      assert a[0] !in a[1..];
    }
  }

  lemma {:induction false} BagDistinct(b: seq<string>)
    requires forall x :: multiset(b)[x] <= 1
    ensures NoRepeats(b)
    decreases |b|
  {
    if b == [] {
    } else {
      assert b == [b[0]] + b[1..];
      assert forall x :: multiset(b[1..])[x] <= multiset(b)[x];
      assert b[0] !in multiset(b[1..]);
      BagDistinct(b[1..]);
    }
  }

  lemma {:induction false} SameSetSameBag(a: seq<string>, b: seq<string>)
    requires NoRepeats(a) && NoRepeats(b) && SetOf(a) == SetOf(b)
    ensures multiset(a) == multiset(b)
  {
    DistinctBag(a);
    DistinctBag(b);
    forall x: string
      ensures multiset(a)[x] == multiset(b)[x]
    {
      assert x in a <==> x in SetOf(a);
      assert x in b <==> x in SetOf(b);
    }
  }

  /** The result is determined by the seed and the links: neither the order of the index nor that of
      the patterns shows in it. */
  lemma ClosureUnique(a: Index, b: Index, policies: Policies, rearranged: Policies, seed: seq<string>, x: seq<string>, y: seq<string>)
    requires forall e :: e in a <==> e in b
    requires forall id, p :: p in policies(id) <==> p in rearranged(id)
    requires IsPartyClosure(a, policies, seed, x) && IsPartyClosure(b, rearranged, seed, y)
    ensures x == y
  {
    hide Matches, Sorted;
    SameLinks(a, b, policies, rearranged);
    hide Links;
    assert Closed(a, policies, SetOf(y)) && Closed(b, rearranged, SetOf(x));
    assert SetOf(x) == SetOf(y);
    var n := |seed|;
    TailSet(seed, x);
    TailSet(seed, y);
    SameSetSameBag(x[n..], y[n..]);
    SortedUnique(x[n..], y[n..]);
    assert x == seed + x[n..] && y == seed + y[n..];
  }

  lemma TailSet(seed: seq<string>, parties: seq<string>)
    requires seed <= parties && SetOf(parties[|seed|..]) !! SetOf(seed)
    ensures SetOf(parties[|seed|..]) == SetOf(parties) - SetOf(seed)
  {
    assert parties == seed + parties[|seed|..];
  }

  lemma SameLinks(a: Index, b: Index, policies: Policies, rearranged: Policies)
    requires forall e :: e in a <==> e in b
    requires forall id, p :: p in policies(id) <==> p in rearranged(id)
    ensures forall from, to :: Links(a, policies, from, to) <==> Links(b, rearranged, from, to)
  {
    hide Matches;
    forall from, to
      ensures Links(a, policies, from, to) <==> Links(b, rearranged, from, to)
    {
      forall p
        ensures Matched(a, p, to) <==> Matched(b, p, to)
      {
      }
    }
  }
}
