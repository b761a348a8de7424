/** The tree that an indented listing stands for, as facts about the list of its depths alone: line
    `k`'s parent is the last earlier line that is shallower, and its subtree is the run of deeper
    lines that follows it (app/frontend/src/lib/bart/trace.ts, diagram.ts). */
module Forest {
  import opened Lex

  type Depths = seq<nat>

  /** The last line before `n` that is shallower than `depth`. */
  function Shallower(d: Depths, n: nat, depth: nat): (r: Option<nat>)
    requires n <= |d|
    ensures r.Some? ==> r.value < n && d[r.value] < depth && forall j :: r.value < j < n ==> d[j] >= depth
    ensures r.None? ==> forall j :: 0 <= j < n ==> d[j] >= depth
  {
    if n == 0 then None else if d[n - 1] < depth then Some(n - 1) else Shallower(d, n - 1, depth)
  }

  function Parent(d: Depths, k: nat): (r: Option<nat>)
    requires k < |d|
    ensures r.Some? ==> r.value < k && d[r.value] < d[k] && forall j :: r.value < j < k ==> d[j] >= d[k]
    ensures r.None? ==> forall j :: 0 <= j < k ==> d[j] >= d[k]
  {
    Shallower(d, k, d[k])
  }

  /** The first line from `from` on that is not deeper than `depth`. */
  function RunEnd(d: Depths, depth: nat, from: nat): (e: nat)
    requires from <= |d|
    ensures from <= e <= |d|
    ensures forall j :: from <= j < e ==> d[j] > depth
    ensures e < |d| ==> d[e] <= depth
    decreases |d| - from
  {
    if from < |d| && d[from] > depth then RunEnd(d, depth, from + 1) else from
  }

  /** One past the subtree of line `k`. */
  function End(d: Depths, k: nat): (e: nat)
    requires k < |d|
    ensures k < e <= |d|
    ensures forall j :: k < j < e ==> d[j] > d[k]
    ensures e < |d| ==> d[e] <= d[k]
  {
    RunEnd(d, d[k], k + 1)
  }

  /** The lines with parent `p`, of the first `n`, in order; with no parent, the roots. */
  function Kids(d: Depths, p: Option<nat>, n: nat): (ks: seq<nat>)
    requires n <= |d|
    ensures forall i :: 0 <= i < |ks| ==> ks[i] < n
  {
    if n == 0 then [] else Kids(d, p, n - 1) + if Parent(d, n - 1) == p then [n - 1] else []
  }

  // ----- Every subtree is a run of lines, tiled by the subtrees of its children -----

  /** The lines below `p`: from `From` up to `To`. */
  function From(p: Option<nat>): nat { if p.None? then 0 else p.value + 1 }

  function To(d: Depths, p: Option<nat>): (e: nat)
    requires p.Some? ==> p.value < |d|
    ensures From(p) <= e <= |d|
  {
    if p.None? then |d| else End(d, p.value)
  }

  /** Line `k`, the line after its subtree, and so on up to `hi`. */
  function Tiles(d: Depths, lo: nat, hi: nat): (ks: seq<nat>)
    requires lo <= hi <= |d|
    ensures forall i :: 0 <= i < |ks| ==> lo <= ks[i] < hi
    decreases hi - lo
  {
    if lo == hi then []
    else
      var next := End(d, lo);
      [lo] + if next < hi then Tiles(d, next, hi) else []
  }

  ghost predicate Within(d: Depths, p: Option<nat>, lo: nat) {
    && (p.Some? ==> p.value < |d|)
    && From(p) <= lo <= To(d, p)
    && (lo < To(d, p) ==> Parent(d, lo) == p)
  }

  lemma FirstChild(d: Depths, p: Option<nat>)
    requires p.Some? ==> p.value < |d|
    ensures Within(d, p, From(p))
  {
  }

  /** The subtree of a child of `p` lies below `p`, no line of it is a child of `p`, and what follows
      it there is the next child. */
  lemma NextChild(d: Depths, p: Option<nat>, k: nat)
    requires Within(d, p, k) && k < To(d, p)
    ensures Within(d, p, End(d, k))
    ensures forall j :: k < j < End(d, k) ==> Parent(d, j) != p
  {
    forall j | k < j < End(d, k)
      ensures Parent(d, j) != p
    {
      assert Parent(d, j).Some? && Parent(d, j).value >= k;
    }
  }

  lemma Outside(d: Depths, p: Option<nat>, j: nat)
    requires (p.Some? ==> p.value < |d|) && j < |d| && !(From(p) <= j < To(d, p))
    ensures Parent(d, j) != p
  {
    if p.Some? && j >= End(d, p.value) {
      assert d[End(d, p.value)] <= d[p.value];
    }
  }

  lemma {:induction false} KidsNone(d: Depths, p: Option<nat>, m: nat, n: nat)
    requires m <= n <= |d| && forall j :: m <= j < n ==> Parent(d, j) != p
    ensures Kids(d, p, n) == Kids(d, p, m)
  {
    if m < n {
      KidsNone(d, p, m, n - 1);
    }
  }

  lemma NoTiles(d: Depths, hi: nat)
    requires hi <= |d|
    ensures Tiles(d, hi, hi) == []
  {
  }

  lemma OneMore(d: Depths, p: Option<nat>, lo: nat)
    requires Within(d, p, lo) && lo < To(d, p)
    ensures End(d, lo) <= To(d, p)
    ensures Kids(d, p, lo + 1) + Tiles(d, End(d, lo), To(d, p)) == Kids(d, p, lo) + Tiles(d, lo, To(d, p))
  {
    NextChild(d, p, lo);
    NoTiles(d, To(d, p));
  }

  lemma {:induction false} KidsTile(d: Depths, p: Option<nat>, lo: nat)
    requires Within(d, p, lo)
    ensures Kids(d, p, |d|) == Kids(d, p, lo) + Tiles(d, lo, To(d, p))
    decreases |d| - lo
  {
    hide Kids, Tiles, Parent, Shallower, End, RunEnd;
    var hi := To(d, p);
    if lo == hi {
      NoTiles(d, hi);
      forall j | lo <= j < |d|
        ensures Parent(d, j) != p
      {
        Outside(d, p, j);
      }
      KidsNone(d, p, lo, |d|);
    } else {
      NextChild(d, p, lo);
      KidsNone(d, p, lo + 1, End(d, lo));
      KidsTile(d, p, End(d, lo));
      OneMore(d, p, lo);
    }
  }

  /** The children of a line tile the run of deeper lines that follows it; the roots tile everything. */
  lemma KidsAreTiles(d: Depths, p: Option<nat>)
    requires p.Some? ==> p.value < |d|
    ensures Kids(d, p, |d|) == Tiles(d, From(p), To(d, p))
  {
    FirstChild(d, p);
    forall j | 0 <= j < From(p)
      ensures Parent(d, j) != p
    {
      Outside(d, p, j);
    }
    KidsNone(d, p, 0, From(p));
    KidsTile(d, p, From(p));
  }

  /** The line after a subtree, if it is as deep as the subtree's root, is its next sibling. */
  lemma NextSibling(d: Depths, k: nat)
    requires k < |d| && End(d, k) < |d|
    ensures d[End(d, k)] == d[k] ==> Parent(d, End(d, k)) == Parent(d, k)
    ensures forall j :: k < j < End(d, k) ==> Parent(d, j) != Parent(d, k)
  {
    var p := Parent(d, k);
    forall j | k < j < End(d, k)
      ensures Parent(d, j) != p
    {
      assert Parent(d, j).Some? && Parent(d, j).value >= k;
    }
    if d[End(d, k)] == d[k] {
      SameShallower(d, k, End(d, k), d[k]);
    }
  }

  lemma {:induction false} SameShallower(d: Depths, m: nat, n: nat, depth: nat)
    requires m <= n <= |d| && forall j :: m <= j < n ==> d[j] >= depth
    ensures Shallower(d, n, depth) == Shallower(d, m, depth)
  {
    if m < n {
      SameShallower(d, m, n - 1, depth);
    }
  }

  // ----- Ancestors -----

  /** `a` is reached from `k` by going to the parent, once or more. */
  predicate Ancestor(d: Depths, a: nat, k: nat)
    requires k < |d|
  {
    match Parent(d, k)
    case None => false
    case Some(p) => a == p || Ancestor(d, a, p)
  }

  /** The ancestors of a line are the lines whose subtree it is in. */
  lemma {:induction false} AncestorsEnclose(d: Depths, a: nat, k: nat)
    requires a < k < |d|
    ensures Ancestor(d, a, k) <==> k < End(d, a)
    decreases k
  {
    match Parent(d, k)
    case None =>
      assert d[a] >= d[k];
    case Some(p) =>
      if a < p {
        AncestorsEnclose(d, a, p);
        assert p < End(d, a) ==> d[p] > d[a] && d[k] > d[p];
      } else if p < a {
        OnlyEarlier(d, a, p);
      }
  }

  lemma {:induction false} OnlyEarlier(d: Depths, a: nat, k: nat)
    requires k < |d|
    ensures Ancestor(d, a, k) ==> a < k
  {
    if Parent(d, k).Some? {
      OnlyEarlier(d, a, Parent(d, k).value);
    }
  }
}
