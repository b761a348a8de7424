/** `mapWithConcurrency` (app/backend/src/utils/general.utils.ts) as a protocol of interleaved
    steps. A worker runs without interruption from one `await` to the next: it takes an index off
    the shared cursor and calls `fn`, or, when its call has returned, stores the value and takes the
    next index. Any worker may go next. */
module Pool {
  import opened Lex

  datatype Worker = Fresh | Busy(i: nat) | Finished | Thrown(i: nat)

  datatype Event<R> = Call(i: nat) | Return(i: nat, value: R) | Throw(i: nat)

  /** `n` items; `history` is what happened, in order. */
  datatype State<R> = State(n: nat, cursor: nat, workers: seq<Worker>, results: seq<Option<R>>, history: seq<Event<R>>)

  /** As many as the limit allows, no more than there are items, and one at the least. */
  function WorkerCount(n: nat, limit: int): nat {
    var m := if limit < n then limit else n;
    if m < 1 then 1 else m
  }

  predicate Init<R(==)>(s: State<R>, n: nat, limit: int) {
    && s.n == n && s.cursor == 0 && s.history == []
    && |s.workers| == WorkerCount(n, limit) && (forall w :: 0 <= w < |s.workers| ==> s.workers[w] == Fresh)
    && |s.results| == n && (forall i :: 0 <= i < n ==> s.results[i] == None)
  }

  /** A worker takes the next index, and calls on that item or, past the last, is done. */
  function Take<R>(s: State<R>, w: nat): State<R>
    requires w < |s.workers|
  {
    if s.cursor < s.n then
      s.(cursor := s.cursor + 1, workers := s.workers[w := Busy(s.cursor)], history := s.history + [Call(s.cursor)])
    else s.(cursor := s.cursor + 1, workers := s.workers[w := Finished])
  }

  /** The value of the call on item `i` goes to index `i`. */
  function Store<R>(s: State<R>, i: nat, value: R): State<R>
    requires i < |s.results|
  {
    s.(results := s.results[i := Some(value)], history := s.history + [Return(i, value)])
  }

  /** One step of worker `w`; `value` is what its call returned, if it had one running. */
  predicate Step<R(==)>(s: State<R>, t: State<R>, w: nat, value: R) {
    && w < |s.workers|
    && match s.workers[w]
       case Fresh => t == Take(s, w)
       case Busy(i) => i < |s.results| && t == Take(Store(s, i, value), w)
       case _ => false
  }

  /** The call of worker `w` throws: the worker is rejected, and with it the promise of the whole pool. The
      others go on unaware. */
  predicate Fails<R(==)>(s: State<R>, t: State<R>, w: nat) {
    && w < |s.workers| && s.workers[w].Busy?
    && t == s.(workers := s.workers[w := Thrown(s.workers[w].i)], history := s.history + [Throw(s.workers[w].i)])
  }

  /** Some worker moves from `s` to `t`. */
  ghost predicate Moves<R(!new)>(s: State<R>, t: State<R>) {
    (exists w: nat, value: R :: Step(s, t, w, value)) || (exists w: nat :: Fails(s, t, w))
  }

  /** Some worker can move, if the call it waits for, should there be one, returns `value`. */
  ghost predicate Enabled<R(!new)>(s: State<R>, value: R) { exists t: State<R>, w: nat :: Step(s, t, w, value) }

  ghost predicate NotStuck<R(!new)>(s: State<R>) { forall value: R :: Enabled(s, value) }

  ghost predicate Run<R(!new)>(states: seq<State<R>>, n: nat, limit: int) {
    && states != [] && Init(states[0], n, limit)
    && forall k :: 0 <= k < |states| - 1 ==> Moves(states[k], states[k + 1])
  }

  /** The promise of the pool is resolved: every worker is. */
  predicate Completed<R>(s: State<R>) { forall w :: 0 <= w < |s.workers| ==> s.workers[w] == Finished }

  /** The promise of the pool is rejected: some worker's is. */
  predicate Rejected<R>(s: State<R>) { exists w :: 0 <= w < |s.workers| && s.workers[w].Thrown? }

  predicate Settled<R>(s: State<R>) { forall w :: 0 <= w < |s.workers| ==> s.workers[w].Finished? || s.workers[w].Thrown? }

  // ----- What the history says -----

  function Calls<R>(history: seq<Event<R>>, i: nat): nat {
    if history == [] then 0
    else Calls(history[..|history| - 1], i) + (if history[|history| - 1].Call? && history[|history| - 1].i == i then 1 else 0)
  }

  function Returns<R>(history: seq<Event<R>>, i: nat): nat {
    if history == [] then 0
    else Returns(history[..|history| - 1], i) + (if history[|history| - 1].Return? && history[|history| - 1].i == i then 1 else 0)
  }

  /** Calls made and not yet returned. */
  function InFlight<R>(history: seq<Event<R>>): int {
    if history == [] then 0
    else InFlight(history[..|history| - 1]) + (if history[|history| - 1].Call? then 1 else -1)
  }

  lemma HistoryStep<R>(history: seq<Event<R>>, e: Event<R>)
    ensures forall i :: Calls(history + [e], i) == Calls(history, i) + (if e.Call? && e.i == i then 1 else 0)
    ensures forall i :: Returns(history + [e], i) == Returns(history, i) + (if e.Return? && e.i == i then 1 else 0)
    ensures InFlight(history + [e]) == InFlight(history) + (if e.Call? then 1 else -1)
  {
    assert (history + [e])[..|history|] == history;
  }

  function BusyCount(workers: seq<Worker>): nat {
    if workers == [] then 0 else BusyCount(workers[..|workers| - 1]) + (if workers[|workers| - 1].Busy? then 1 else 0)
  }

  function FinishedCount(workers: seq<Worker>): nat {
    if workers == [] then 0 else FinishedCount(workers[..|workers| - 1]) + (if workers[|workers| - 1].Finished? then 1 else 0)
  }

  function ThrownCount(workers: seq<Worker>): nat {
    if workers == [] then 0 else ThrownCount(workers[..|workers| - 1]) + (if workers[|workers| - 1].Thrown? then 1 else 0)
  }

  lemma {:induction false} CountUpdate(workers: seq<Worker>, w: nat, x: Worker)
    requires w < |workers|
    ensures BusyCount(workers[w := x]) == BusyCount(workers) - (if workers[w].Busy? then 1 else 0) + (if x.Busy? then 1 else 0)
    ensures FinishedCount(workers[w := x]) == FinishedCount(workers) - (if workers[w].Finished? then 1 else 0) + (if x.Finished? then 1 else 0)
    ensures ThrownCount(workers[w := x]) == ThrownCount(workers) - (if workers[w].Thrown? then 1 else 0) + (if x.Thrown? then 1 else 0)
    decreases |workers|
  {
    var front := workers[..|workers| - 1];
    if w == |workers| - 1 {
      assert workers[w := x][..|workers| - 1] == front;
    } else {
      CountUpdate(front, w, x);
      assert workers[w := x][..|workers| - 1] == front[w := x];
    }
  }

  lemma {:induction false} CountBounds(workers: seq<Worker>)
    ensures BusyCount(workers) + FinishedCount(workers) + ThrownCount(workers) <= |workers|
    ensures FinishedCount(workers) == |workers| <==> forall w :: 0 <= w < |workers| ==> workers[w] == Finished
    ensures ThrownCount(workers) > 0 <==> exists w :: 0 <= w < |workers| && workers[w].Thrown?
    decreases |workers|
  {
    if workers == [] {
    } else {
      var front := workers[..|workers| - 1];
      CountBounds(front);
      assert forall w :: 0 <= w < |front| ==> workers[w] == front[w];
    }
  }

  lemma {:induction false} FreshCounts(workers: seq<Worker>)
    requires forall w :: 0 <= w < |workers| ==> workers[w] == Fresh
    ensures BusyCount(workers) == 0 && FinishedCount(workers) == 0 && ThrownCount(workers) == 0
    decreases |workers|
  {
    if workers == [] {
    } else {
      FreshCounts(workers[..|workers| - 1]);
    }
  }

  // ----- The invariant -----

  /** The worker has taken index `i` and not stored its result. */
  predicate On(x: Worker, i: nat) { Stands(x) && x.i == i }

  predicate Stands(x: Worker) { x.Busy? || x.Thrown? }

  predicate Taken<R>(s: State<R>, i: nat) { exists w :: 0 <= w < |s.workers| && On(s.workers[w], i) }

  /** Every index below the cursor was called once; one worker stands on it, or its result is in. */
  predicate Inv<R(==)>(s: State<R>) {
    && |s.results| == s.n
    && (forall w :: 0 <= w < |s.workers| && Stands(s.workers[w]) ==>
          s.workers[w].i < s.n && s.workers[w].i < s.cursor)
    && (forall v, w :: 0 <= v < w < |s.workers| && Stands(s.workers[v]) && Stands(s.workers[w]) ==>
          s.workers[v].i != s.workers[w].i)
    && (forall i :: 0 <= i < s.n ==> (s.results[i].Some? <==> i < s.cursor && !Taken(s, i)))
    && FinishedCount(s.workers) == (if s.cursor > s.n then s.cursor - s.n else 0)
    && InFlight(s.history) == BusyCount(s.workers)
    && (forall i :: 0 <= i < s.n ==> Calls(s.history, i) == if i < s.cursor then 1 else 0)
    && (forall i :: 0 <= i < s.n ==> Returns(s.history, i) == if s.results[i].Some? then 1 else 0)
    && (forall e :: e in s.history ==> e.i < s.n && (e.Return? ==> s.results[e.i] == Some(e.value)))
    && (forall e :: e in s.history && e.Throw? ==> Thrown(e.i) in s.workers)
  }

  lemma InitInv<R>(s: State<R>, n: nat, limit: int)
    requires Init(s, n, limit)
    ensures Inv(s)
  {
    FreshCounts(s.workers);
  }

  lemma TakenAfter<R>(s: State<R>, w: nat)
    requires w < |s.workers| && !s.workers[w].Thrown?
    ensures var t := Take(s, w);
            && (forall i: nat :: Taken(t, i) <==>
                  (exists v :: 0 <= v < |s.workers| && v != w && On(s.workers[v], i)) || (i == s.cursor && s.cursor < s.n))
            && (forall i :: Thrown(i) in s.workers ==> Thrown(i) in t.workers)
  {
    var t := Take(s, w);
    forall i: nat | Taken(t, i)
      ensures (exists v :: 0 <= v < |s.workers| && v != w && On(s.workers[v], i)) || (i == s.cursor && s.cursor < s.n)
    {
      var v :| 0 <= v < |t.workers| && On(t.workers[v], i);
      assert v != w ==> On(s.workers[v], i);
    }
    forall i: nat | (exists v :: 0 <= v < |s.workers| && v != w && On(s.workers[v], i))
      ensures Taken(t, i)
    {
      var v :| 0 <= v < |s.workers| && v != w && On(s.workers[v], i);
      assert On(t.workers[v], i);
    }
    if s.cursor < s.n {
      assert On(t.workers[w], s.cursor);
    }
    forall i | Thrown(i) in s.workers
      ensures Thrown(i) in t.workers
    {
      var v :| 0 <= v < |s.workers| && s.workers[v] == Thrown(i);
      assert t.workers[v] == Thrown(i);
    }
  }

  lemma FreshStep<R>(s: State<R>, w: nat)
    requires Inv(s) && w < |s.workers| && s.workers[w] == Fresh
    ensures Inv(Take(s, w))
  {
    hide Taken, Calls, Returns, InFlight, BusyCount, FinishedCount, ThrownCount;
    var t := Take(s, w);
    CountUpdate(s.workers, w, t.workers[w]);
    HistoryStep(s.history, Call(s.cursor));
    TakenAfter(s, w);
    forall i: nat
      ensures (exists v :: 0 <= v < |s.workers| && v != w && On(s.workers[v], i)) <==> Taken(s, i)
    {
      TakenByOthers(s, w, i);
    }
  }

  lemma TakenByOthers<R>(s: State<R>, w: nat, i: nat)
    requires w < |s.workers| && !On(s.workers[w], i)
    ensures (exists v :: 0 <= v < |s.workers| && v != w && On(s.workers[v], i)) <==> Taken(s, i)
  {
    if Taken(s, i) {
      var v :| 0 <= v < |s.workers| && On(s.workers[v], i);
      assert v != w;
    }
  }

  lemma ReturnStep<R>(s: State<R>, w: nat, value: R)
    requires Inv(s) && w < |s.workers| && s.workers[w].Busy?
    ensures s.workers[w].i < |s.results| && Inv(Take(Store(s, s.workers[w].i, value), w))
  {
    hide Taken, Calls, Returns, InFlight, BusyCount, FinishedCount, ThrownCount;
    var i := s.workers[w].i;
    IsTaken(s, w);
    var m := Store(s, i, value);
    var t := Take(m, w);
    CountUpdate(s.workers, w, t.workers[w]);
    HistoryStep(s.history, Return(i, value));
    HistoryStep(m.history, Call(s.cursor));
    TakenAfter(m, w);
    forall j: nat
      ensures (exists v :: 0 <= v < |s.workers| && v != w && On(s.workers[v], j)) <==> Taken(s, j) && j != i
    {
      if j != i {
        TakenByOthers(s, w, j);
      } else {
        assert On(s.workers[w], i);
      }
    }
    assert forall e :: e in s.history && e.Return? ==> e.i != i;
  }

  lemma IsTaken<R>(s: State<R>, w: nat)
    requires w < |s.workers| && s.workers[w].Busy?
    ensures Taken(s, s.workers[w].i)
  {
    assert On(s.workers[w], s.workers[w].i);
  }

  lemma FailStep<R>(s: State<R>, t: State<R>, w: nat)
    requires Inv(s) && Fails(s, t, w)
    ensures Inv(t) && t.n == s.n && |t.workers| == |s.workers| && t.cursor == s.cursor && s.history <= t.history
    ensures ThrownCount(t.workers) == ThrownCount(s.workers) + 1
  {
    hide Taken, Calls, Returns, InFlight, BusyCount, FinishedCount, ThrownCount;
    CountUpdate(s.workers, w, t.workers[w]);
    HistoryStep(s.history, Throw(s.workers[w].i));
    assert forall v, i: nat :: 0 <= v < |s.workers| ==> (On(t.workers[v], i) <==> On(s.workers[v], i));
    SameTaken(s, t);
    forall e | e in t.history && e.Throw?
      ensures Thrown(e.i) in t.workers
    {
      if e in s.history {
        var v :| 0 <= v < |s.workers| && s.workers[v] == Thrown(e.i);
        assert t.workers[v] == Thrown(e.i);
      } else {
        assert t.workers[w] == Thrown(e.i);
      }
    }
  }

  lemma SameTaken<R>(s: State<R>, t: State<R>)
    requires |s.workers| == |t.workers| && forall v, i: nat :: 0 <= v < |s.workers| ==> (On(t.workers[v], i) <==> On(s.workers[v], i))
    ensures forall i: nat :: Taken(t, i) <==> Taken(s, i)
  {
  }

  lemma StepInv<R>(s: State<R>, t: State<R>, w: nat, value: R)
    requires Inv(s) && Step(s, t, w, value)
    ensures Inv(t) && t.n == s.n && |t.workers| == |s.workers| && t.cursor == s.cursor + 1 && s.history <= t.history
    ensures ThrownCount(t.workers) == ThrownCount(s.workers)
  {
    hide Inv, ThrownCount;
    CountUpdate(s.workers, w, t.workers[w]);
    match s.workers[w]
    case Fresh => FreshStep(s, w);
    case Busy(i) => ReturnStep(s, w, value);
  }

  // ----- Over every run -----

  /** Steps made so far: one for each move of the cursor and one for each call that threw. */
  function Made<R>(s: State<R>): nat { s.cursor + ThrownCount(s.workers) }

  lemma MovesInv<R(!new)>(s: State<R>, t: State<R>)
    requires Inv(s) && Moves(s, t)
    ensures Inv(t) && t.n == s.n && |t.workers| == |s.workers| && s.history <= t.history && Made(t) == Made(s) + 1
  {
    hide Inv, Step, Fails, ThrownCount;
    if w: nat, value: R :| Step(s, t, w, value) {
      StepInv(s, t, w, value);
    } else {
      var w: nat :| Fails(s, t, w);
      FailStep(s, t, w);
    }
  }

  lemma {:induction false} RunInv<R(!new)>(states: seq<State<R>>, n: nat, limit: int, k: nat)
    requires Run(states, n, limit) && k < |states|
    ensures Inv(states[k]) && states[k].n == n && |states[k].workers| == WorkerCount(n, limit) && Made(states[k]) == k
  {
    hide Inv, Moves, WorkerCount, BusyCount, FinishedCount, ThrownCount;
    if k == 0 {
      InitInv(states[0], n, limit);
      FreshCounts(states[0].workers);
    } else {
      RunInv(states, n, limit, k - 1);
      assert Moves(states[k - 1], states[k - 1 + 1]);
      MovesInv(states[k - 1], states[k]);
    }
  }

  /** In every run, at every point: no more calls are in flight than the limit allows, and no item was
      called twice. */
  lemma NeverTooMany<R(!new)>(states: seq<State<R>>, n: nat, limit: int, k: nat)
    requires Run(states, n, limit) && k < |states|
    ensures 0 <= InFlight(states[k].history)
    ensures InFlight(states[k].history) <= 1 || (InFlight(states[k].history) <= limit && InFlight(states[k].history) <= n)
    ensures forall i :: 0 <= i < n ==> Calls(states[k].history, i) <= 1
  {
    hide Calls, InFlight, BusyCount, FinishedCount, ThrownCount;
    RunInv(states, n, limit, k);
    CountBounds(states[k].workers);
  }

  lemma MadeAtMost<R>(s: State<R>)
    requires Inv(s)
    ensures Made(s) <= s.n + |s.workers|
    ensures s.workers != [] ==> (Completed(s) <==> Made(s) == s.n + |s.workers| && !Rejected(s))
    ensures s.workers != [] && Completed(s) ==> s.cursor >= s.n
  {
    hide Calls, Returns, InFlight, BusyCount, FinishedCount, ThrownCount, Taken, On;
    CountBounds(s.workers);
  }

  /** There is a worker for each item, or as many as the limit allows, and one at the least. No run goes on
      beyond one step for each item and one for each worker, and until every worker is done or rejected some
      worker can move; the pool is resolved exactly when all those steps were made and no call threw. */
  lemma RunsComplete<R(!new)>(states: seq<State<R>>, n: nat, limit: int)
    requires Run(states, n, limit)
    ensures var last := states[|states| - 1];
            && |last.workers| == (if limit < 1 || n < 1 then 1 else if limit <= n then limit else n)
            && |states| - 1 <= n + |last.workers|
            && (Completed(last) <==> |states| - 1 == n + |last.workers| && !Rejected(last))
            && (Settled(last) || NotStuck(last))
  {
    hide Made, Inv, Step;
    var last := states[|states| - 1];
    RunInv(states, n, limit, |states| - 1);
    MadeAtMost(last);
    if !Settled(last) {
      var w :| 0 <= w < |last.workers| && !last.workers[w].Finished? && !last.workers[w].Thrown?;
      CanMove(last, w);
    }
  }

  lemma CanMove<R(!new)>(s: State<R>, w: nat)
    requires Inv(s) && w < |s.workers| && (s.workers[w].Fresh? || s.workers[w].Busy?)
    ensures NotStuck(s)
  {
    forall value: R
      ensures Enabled(s, value)
    {
      var t := if s.workers[w].Fresh? then Take(s, w) else Take(Store(s, s.workers[w].i, value), w);
      assert Step(s, t, w, value);
    }
  }

  /** Every interleaving that completes called `fn` exactly once per item, and has at index `i` the
      value that the call on item `i` returned. */
  lemma CompletedResults<R(!new)>(states: seq<State<R>>, n: nat, limit: int, i: nat)
    requires Run(states, n, limit) && Completed(states[|states| - 1]) && i < n
    ensures var last := states[|states| - 1];
            && |last.results| == n && last.results[i].Some?
            && Calls(last.history, i) == 1 && Returns(last.history, i) == 1 && Throw(i) !in last.history
            && (forall v :: Return(i, v) in last.history ==> last.results[i] == Some(v))
            && Return(i, last.results[i].value) in last.history
  {
    hide Calls, InFlight, BusyCount, FinishedCount, ThrownCount;
    var last := states[|states| - 1];
    RunInv(states, n, limit, |states| - 1);
    MadeAtMost(last);
    CountBounds(last.workers);
    assert !Taken(last, i);
    ReturnedOnce(last.history, i);
  }

  lemma {:induction false} ReturnedOnce<R>(history: seq<Event<R>>, i: nat)
    ensures Returns(history, i) > 0 ==> exists e :: e in history && e.Return? && e.i == i
    decreases |history|
  {
    if history == [] {
    } else {
      ReturnedOnce(history[..|history| - 1], i);
    }
  }

  /** Once a call has thrown, the promise of the pool is rejected, and nothing that happens later resolves
      it, though other workers go on. */
  lemma ThrowRejects<R(!new)>(states: seq<State<R>>, n: nat, limit: int, k: nat, l: nat, i: nat)
    requires Run(states, n, limit) && k <= l < |states| && Throw(i) in states[k].history
    ensures Rejected(states[l]) && !Completed(states[l])
  {
    hide Calls, Returns, InFlight, BusyCount, FinishedCount, ThrownCount, Moves;
    RunInv(states, n, limit, l);
    HistoryGrows(states, n, limit, k, l);
    assert Thrown(i) in states[l].workers;
  }

  lemma {:induction false} HistoryGrows<R(!new)>(states: seq<State<R>>, n: nat, limit: int, k: nat, l: nat)
    requires Run(states, n, limit) && k <= l < |states|
    ensures states[k].history <= states[l].history
    decreases l
  {
    hide Inv, Moves;
    if k == l {
    } else {
      HistoryGrows(states, n, limit, k, l - 1);
      RunInv(states, n, limit, l - 1);
      assert Moves(states[l - 1], states[l - 1 + 1]);
      MovesInv(states[l - 1], states[l]);
    }
  }
}
