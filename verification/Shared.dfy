/** `decideSharedWith` (app/backend/src/bart/shared.service.ts): the pool of `Pool`, with each call
    first waiting for the policy system of its candidate's owner and then for the engine. The
    promise of a system is memoised, so that one assembly serves every candidate of the owner. */
module Shared {
  import opened Lex
  import opened Lists
  import Pool

  /** The engine on one candidate; an outage is not a verdict. */
  datatype Outcome = Permitted | Denied | Rejected | Outage

  /** The memoised promise of one owner's system. */
  datatype System<S> = Pending | Ready(system: S) | Refused | Down

  /** Where the call on one candidate stands. */
  datatype Phase<S> = Awaiting | Evaluating(system: S) | Returned(permitted: bool) | Threw

  /** `assembled` lists the assemblies started, in order. */
  datatype State<S> = State(
    pool: Pool.State<bool>,
    systems: map<string, System<S>>,
    assembled: seq<string>,
    phases: map<nat, Phase<S>>)

  /** `systemFor`: what is pending already is not started again. */
  function SystemFor<S>(s: State<S>, owner: string): State<S> {
    if owner in s.systems then s
    else s.(systems := s.systems[owner := Pending], assembled := s.assembled + [owner])
  }

  /** The call that a worker starts as it takes the next index, up to its first `await`. */
  function Begin<S>(s: State<S>, owners: seq<string>, pool: Pool.State<bool>): State<S> {
    var i := s.pool.cursor;
    if i < |owners| then
      var t := SystemFor(s, owners[i]);
      t.(pool := pool, phases := t.phases[i := Awaiting])
    else s.(pool := pool)
  }

  function AfterAwait<S>(system: System<S>): Phase<S> {
    match system
    case Ready(x) => Evaluating(x)
    case Refused => Returned(false)
    case _ => Threw
  }

  function AfterEngine<S>(outcome: Outcome): Phase<S> {
    match outcome
    case Permitted => Returned(true)
    case Outage => Threw
    case _ => Returned(false)
  }

  // ----- Steps -----

  /** A worker whose call has returned stores the value and takes the next candidate. */
  predicate WorkerStep<S(==)>(s: State<S>, t: State<S>, owners: seq<string>, w: nat, value: bool) {
    && Pool.Step(s.pool, t.pool, w, value)
    && (s.pool.workers[w].Busy? ==> s.pool.workers[w].i in s.phases && s.phases[s.pool.workers[w].i] == Returned(value))
    && t == Begin(s, owners, t.pool)
  }

  /** A worker whose call has thrown is rejected. */
  predicate FailStep<S(==)>(s: State<S>, t: State<S>, w: nat) {
    && Pool.Fails(s.pool, t.pool, w)
    && s.pool.workers[w].i in s.phases && s.phases[s.pool.workers[w].i].Threw?
    && t == s.(pool := t.pool)
  }

  /** An assembly ends, as it may. */
  predicate SettleStep<S(==)>(s: State<S>, t: State<S>, owner: string, system: System<S>) {
    && owner in s.systems && s.systems[owner].Pending? && !system.Pending?
    && t == s.(systems := s.systems[owner := system])
  }

  /** A call goes on after the system it awaited is there. */
  predicate ResumeStep<S(==)>(s: State<S>, t: State<S>, owners: seq<string>, i: nat) {
    && i < |owners| && i in s.phases && s.phases[i].Awaiting?
    && owners[i] in s.systems && !s.systems[owners[i]].Pending?
    && t == s.(phases := s.phases[i := AfterAwait(s.systems[owners[i]])])
  }

  /** The engine answers. */
  predicate EngineStep<S(==)>(s: State<S>, t: State<S>, engine: (S, nat) -> Outcome, i: nat) {
    && i in s.phases && s.phases[i].Evaluating?
    && t == s.(phases := s.phases[i := AfterEngine(engine(s.phases[i].system, i))])
  }

  ghost predicate Step<S(!new)>(s: State<S>, t: State<S>, owners: seq<string>, engine: (S, nat) -> Outcome) {
    || (exists w: nat, value :: WorkerStep(s, t, owners, w, value))
    || (exists w: nat :: FailStep(s, t, w))
    || (exists owner, system :: SettleStep(s, t, owner, system))
    || (exists i: nat :: ResumeStep(s, t, owners, i))
    || (exists i: nat :: EngineStep(s, t, engine, i))
  }

  predicate Init<S(==)>(s: State<S>, owners: seq<string>, limit: int) {
    Pool.Init(s.pool, |owners|, limit) && s.systems == map[] && s.assembled == [] && s.phases == map[]
  }

  ghost predicate Run<S(!new)>(states: seq<State<S>>, owners: seq<string>, limit: int, engine: (S, nat) -> Outcome) {
    && states != [] && Init(states[0], owners, limit)
    && forall k :: 0 <= k < |states| - 1 ==> Step(states[k], states[k + 1], owners, engine)
  }

  // ----- The invariant -----

  /** What candidate `i` is owed by its owner's system; nothing while, or if, there is no verdict. */
  function Verdict<S>(system: System<S>, engine: (S, nat) -> Outcome, i: nat): Option<bool> {
    match system
    case Ready(x) => if engine(x, i) == Outage then None else Some(engine(x, i) == Permitted)
    case Refused => Some(false)
    case _ => None
  }

  predicate PhaseFits<S(==)>(phase: Phase<S>, system: System<S>, engine: (S, nat) -> Outcome, i: nat) {
    match phase
    case Awaiting => true
    case Evaluating(x) => system == Ready(x)
    case Returned(permitted) => Verdict(system, engine, i) == Some(permitted)
    case Threw => !system.Pending? && Verdict(system, engine, i) == None
  }

  /** The candidates begun are those below the cursor; each one's owner, and no other, has a system. */
  ghost predicate Known<S>(s: State<S>, owners: seq<string>) {
    && (forall i: nat :: i in s.phases <==> i < |owners| && i < s.pool.cursor)
    && (forall i :: i in s.phases ==> owners[i] in s.systems)
    && (forall owner :: owner in s.systems ==> exists i :: i in s.phases && owners[i] == owner)
  }

  ghost predicate OneEach<S>(s: State<S>) {
    NoRepeats(s.assembled) && forall owner :: owner in s.systems <==> owner in s.assembled
  }

  ghost predicate Judged<S>(s: State<S>, owners: seq<string>, engine: (S, nat) -> Outcome)
    requires Known(s, owners)
  {
    && |s.pool.results| == |owners|
    && (forall i :: i in s.phases ==> PhaseFits(s.phases[i], s.systems[owners[i]], engine, i))
    && (forall i :: i in s.phases && s.pool.results[i].Some? ==> s.phases[i] == Returned(s.pool.results[i].value))
  }

  ghost predicate Inv<S>(s: State<S>, owners: seq<string>, engine: (S, nat) -> Outcome) {
    && Pool.Inv(s.pool) && s.pool.n == |owners| && s.pool.workers != []
    && Known(s, owners) && OneEach(s) && Judged(s, owners, engine)
  }

  lemma WorkerInv<S>(s: State<S>, t: State<S>, owners: seq<string>, engine: (S, nat) -> Outcome, w: nat, value: bool)
    requires Inv(s, owners, engine) && WorkerStep(s, t, owners, w, value)
    ensures Inv(t, owners, engine)
  {
    Pool.StepInv(s.pool, t.pool, w, value);
    StoredBy(s.pool, t.pool, w, value);
    BeginKeeps(s, t, owners, engine, w);
  }

  /** What a worker's step does to the results. */
  lemma StoredBy(p: Pool.State<bool>, q: Pool.State<bool>, w: nat, value: bool)
    requires Pool.Step(p, q, w, value) && |p.results| == |q.results|
    ensures forall i :: 0 <= i < |q.results| ==>
              q.results[i] == p.results[i] || (p.workers[w] == Pool.Busy(i) && q.results[i] == Some(value))
  {
  }

  lemma BeginKeeps<S>(s: State<S>, t: State<S>, owners: seq<string>, engine: (S, nat) -> Outcome, w: nat)
    requires Inv(s, owners, engine) && t == Begin(s, owners, t.pool)
    requires Pool.Inv(t.pool) && t.pool.n == s.pool.n && t.pool.workers != [] && t.pool.cursor == s.pool.cursor + 1 && w < |s.pool.workers|
    requires s.pool.workers[w].Busy? ==> s.pool.workers[w].i in s.phases && s.phases[s.pool.workers[w].i].Returned?
    requires forall i :: 0 <= i < |t.pool.results| ==>
               || t.pool.results[i] == s.pool.results[i]
               || (s.pool.workers[w] == Pool.Busy(i) && t.pool.results[i] == Some(s.phases[i].permitted))
    ensures Inv(t, owners, engine)
  {
    hide Pool.Inv, Known, OneEach, Judged, Begin;
    NotYet(s.pool);
    NotYet(t.pool);
    BeginKnown(s, t, owners);
    BeginOneEach(s, t, owners);
    ResultsFit(s, t.pool, owners, engine, w);
    BeginJudged(s, t, owners, engine);
  }

  lemma BeginOneEach<S>(s: State<S>, t: State<S>, owners: seq<string>)
    requires OneEach(s) && t == Begin(s, owners, t.pool)
    ensures OneEach(t)
  {
    hide NoRepeats;
    if s.pool.cursor < |owners| {
      Appended(s.assembled, owners[s.pool.cursor]);
    }
  }

  lemma ResultsFit<S>(s: State<S>, q: Pool.State<bool>, owners: seq<string>, engine: (S, nat) -> Outcome, w: nat)
    requires Known(s, owners) && Judged(s, owners, engine) && |q.results| == |owners| && w < |s.pool.workers|
    requires forall i :: s.pool.cursor <= i < |owners| ==> s.pool.results[i].None?
    requires s.pool.workers[w].Busy? ==> s.pool.workers[w].i in s.phases && s.phases[s.pool.workers[w].i].Returned?
    requires forall i :: 0 <= i < |q.results| ==>
               || q.results[i] == s.pool.results[i]
               || (s.pool.workers[w] == Pool.Busy(i) && q.results[i] == Some(s.phases[i].permitted))
    ensures forall i: nat :: i < |owners| && q.results[i].Some? ==> i in s.phases && s.phases[i] == Returned(q.results[i].value)
  {
    hide PhaseFits;
  }

  lemma BeginJudged<S>(s: State<S>, t: State<S>, owners: seq<string>, engine: (S, nat) -> Outcome)
    requires Known(s, owners) && Judged(s, owners, engine) && t == Begin(s, owners, t.pool) && Known(t, owners)
    requires |t.pool.results| == |owners|
    requires forall i: nat :: i < |owners| && t.pool.results[i].Some? ==> i in s.phases && s.phases[i] == Returned(t.pool.results[i].value)
    ensures Judged(t, owners, engine)
  {
    hide PhaseFits;
    var i := s.pool.cursor;
    if i < |owners| {
      AwaitingFits(t.systems[owners[i]], engine, i);
    }
    forall j | j in s.phases
      ensures j in t.phases && t.phases[j] == s.phases[j] && PhaseFits(t.phases[j], t.systems[owners[j]], engine, j)
    {
      assert j != i;
    }
  }

  lemma AwaitingFits<S>(system: System<S>, engine: (S, nat) -> Outcome, i: nat)
    ensures PhaseFits(Awaiting, system, engine, i)
  {
  }

  lemma Appended(names: seq<string>, name: string)
    ensures NoRepeats(names) && name !in names ==> NoRepeats(names + [name])
  {
  }

  lemma BeginKnown<S>(s: State<S>, t: State<S>, owners: seq<string>)
    requires Known(s, owners) && t == Begin(s, owners, t.pool) && t.pool.cursor == s.pool.cursor + 1
    ensures Known(t, owners)
  {
    var i := s.pool.cursor;
    forall owner | owner in t.systems
      ensures exists j :: j in t.phases && j < |owners| && owners[j] == owner
    {
      if i < |owners| && owner == owners[i] {
        assert i in t.phases;
      } else {
        var j :| j in s.phases && j < |owners| && owners[j] == owner;
        assert j in t.phases;
      }
    }
  }

  /** No result is in for a candidate not begun. */
  lemma NotYet(p: Pool.State<bool>)
    requires Pool.Inv(p)
    ensures |p.results| == p.n && forall i :: p.cursor <= i < p.n ==> p.results[i].None?
  {
  }

  lemma SettleInv<S>(s: State<S>, t: State<S>, owners: seq<string>, engine: (S, nat) -> Outcome, owner: string, system: System<S>)
    requires Inv(s, owners, engine) && SettleStep(s, t, owner, system)
    ensures Inv(t, owners, engine)
  {
    hide Pool.Inv, NoRepeats;
    forall i | i in s.phases && owners[i] == owner
      ensures s.phases[i].Awaiting?
    {
      assert PhaseFits(s.phases[i], s.systems[owners[i]], engine, i);
    }
  }

  /** The phase of call `i` moves on to `phase`; it had not returned. */
  lemma PhaseInv<S>(s: State<S>, t: State<S>, owners: seq<string>, engine: (S, nat) -> Outcome, i: nat, phase: Phase<S>)
    requires Inv(s, owners, engine) && i in s.phases && !s.phases[i].Returned?
    requires t == s.(phases := s.phases[i := phase])
    requires PhaseFits(phase, s.systems[owners[i]], engine, i)
    ensures Inv(t, owners, engine)
  {
    hide Pool.Inv, Known, OneEach, Judged;
    PhaseKnown(s, t, owners, i, phase);
    NotYet(s.pool);
    assert OneEach(t) by { SameSystems(s, t); }
    PhaseJudged(s, t, owners, engine, i, phase);
  }

  lemma SameSystems<S>(s: State<S>, t: State<S>)
    requires OneEach(s) && t.systems == s.systems && t.assembled == s.assembled
    ensures OneEach(t)
  {
  }

  lemma PhaseKnown<S>(s: State<S>, t: State<S>, owners: seq<string>, i: nat, phase: Phase<S>)
    requires Known(s, owners) && i in s.phases && t == s.(phases := s.phases[i := phase])
    ensures Known(t, owners)
  {
    assert forall j :: j in t.phases <==> j in s.phases;
    forall owner | owner in t.systems
      ensures exists j :: j in t.phases && owners[j] == owner
    {
      var j :| j in s.phases && owners[j] == owner;
      assert j in t.phases;
    }
  }

  lemma PhaseJudged<S>(s: State<S>, t: State<S>, owners: seq<string>, engine: (S, nat) -> Outcome, i: nat, phase: Phase<S>)
    requires Known(s, owners) && Judged(s, owners, engine) && i in s.phases && !s.phases[i].Returned?
    requires t == s.(phases := s.phases[i := phase]) && Known(t, owners)
    requires PhaseFits(phase, s.systems[owners[i]], engine, i)
    ensures Judged(t, owners, engine)
  {
    hide PhaseFits;
  }

  lemma ResumeInv<S>(s: State<S>, t: State<S>, owners: seq<string>, engine: (S, nat) -> Outcome, i: nat)
    requires Inv(s, owners, engine) && ResumeStep(s, t, owners, i)
    ensures Inv(t, owners, engine)
  {
    hide Pool.Inv, NoRepeats;
    PhaseInv(s, t, owners, engine, i, AfterAwait(s.systems[owners[i]]));
  }

  lemma EngineInv<S>(s: State<S>, t: State<S>, owners: seq<string>, engine: (S, nat) -> Outcome, i: nat)
    requires Inv(s, owners, engine) && EngineStep(s, t, engine, i)
    ensures Inv(t, owners, engine)
  {
    hide Pool.Inv, NoRepeats;
    assert PhaseFits(s.phases[i], s.systems[owners[i]], engine, i);
    PhaseInv(s, t, owners, engine, i, AfterEngine(engine(s.phases[i].system, i)));
  }

  lemma FailInv<S>(s: State<S>, t: State<S>, owners: seq<string>, engine: (S, nat) -> Outcome, w: nat)
    requires Inv(s, owners, engine) && FailStep(s, t, w)
    ensures Inv(t, owners, engine)
  {
    Pool.FailStep(s.pool, t.pool, w);
    Unchanged(s, t, owners, engine);
  }

  lemma Unchanged<S>(s: State<S>, t: State<S>, owners: seq<string>, engine: (S, nat) -> Outcome)
    requires Inv(s, owners, engine) && t == s.(pool := t.pool)
    requires Pool.Inv(t.pool) && t.pool.n == s.pool.n && t.pool.workers != [] && t.pool.cursor == s.pool.cursor && t.pool.results == s.pool.results
    ensures Inv(t, owners, engine)
  {
    hide Pool.Inv, NoRepeats, PhaseFits;
    assert Known(t, owners);
  }

  lemma StepInv<S(!new)>(s: State<S>, t: State<S>, owners: seq<string>, engine: (S, nat) -> Outcome)
    requires Inv(s, owners, engine) && Step(s, t, owners, engine)
    ensures Inv(t, owners, engine)
  {
    hide Inv, WorkerStep, FailStep, SettleStep, ResumeStep, EngineStep;
    if w: nat, value :| WorkerStep(s, t, owners, w, value) {
      WorkerInv(s, t, owners, engine, w, value);
    } else if w: nat :| FailStep(s, t, w) {
      FailInv(s, t, owners, engine, w);
    } else if owner, system :| SettleStep(s, t, owner, system) {
      SettleInv(s, t, owners, engine, owner, system);
    } else if i: nat :| ResumeStep(s, t, owners, i) {
      ResumeInv(s, t, owners, engine, i);
    } else {
      var i: nat :| EngineStep(s, t, engine, i);
      EngineInv(s, t, owners, engine, i);
    }
  }

  /** The pool inside makes one of its own steps, or stands still: every law of `Pool` is inherited. */
  lemma Refines<S(!new)>(s: State<S>, t: State<S>, owners: seq<string>, engine: (S, nat) -> Outcome)
    requires Step(s, t, owners, engine)
    ensures t.pool == s.pool || Pool.Moves(s.pool, t.pool)
    ensures forall owner :: owner in s.systems ==>
              owner in t.systems && (!s.systems[owner].Pending? ==> t.systems[owner] == s.systems[owner])
  {
    if w: nat, value :| WorkerStep(s, t, owners, w, value) {
      assert Pool.Step(s.pool, t.pool, w, value);
    } else if w: nat :| FailStep(s, t, w) {
      assert Pool.Fails(s.pool, t.pool, w);
    }
  }

  // ----- Over every run -----

  lemma {:induction false} RunInv<S(!new)>(states: seq<State<S>>, owners: seq<string>, limit: int, engine: (S, nat) -> Outcome, k: nat)
    requires Run(states, owners, limit, engine) && k < |states|
    ensures Inv(states[k], owners, engine)
  {
    hide Inv, Step, Pool.Inv;
    if k == 0 {
      StartInv(states[0], owners, limit, engine);
    } else {
      RunInv(states, owners, limit, engine, k - 1);
      assert Step(states[k - 1], states[k - 1 + 1], owners, engine);
      StepInv(states[k - 1], states[k], owners, engine);
    }
  }

  lemma StartInv<S>(s: State<S>, owners: seq<string>, limit: int, engine: (S, nat) -> Outcome)
    requires Init(s, owners, limit)
    ensures Inv(s, owners, engine)
  {
    Pool.InitInv(s.pool, |owners|, limit);
    hide Pool.Inv;
  }

  /** At every point of every run, no owner has been assembled twice, and the owners assembled are those
      of the candidates begun. */
  lemma AssembledOnce<S(!new)>(states: seq<State<S>>, owners: seq<string>, limit: int, engine: (S, nat) -> Outcome, k: nat)
    requires Run(states, owners, limit, engine) && k < |states|
    ensures NoRepeats(states[k].assembled)
    ensures forall owner :: owner in states[k].assembled <==>
              exists i :: 0 <= i < |owners| && i < states[k].pool.cursor && owners[i] == owner
  {
    hide Run, Pool.Inv, NoRepeats;
    RunInv(states, owners, limit, engine, k);
    var s := states[k];
    forall owner
      ensures owner in s.assembled <==> exists i :: 0 <= i < |owners| && i < s.pool.cursor && owners[i] == owner
    {
      if owner in s.assembled {
        var i :| i in s.phases && owners[i] == owner;
        assert i < |owners|;
      }
      if i :| 0 <= i < |owners| && i < s.pool.cursor && owners[i] == owner {
        assert i in s.phases;
      }
    }
  }

  // ----- The answer -----

  /** The candidates kept by their verdicts, as indices. */
  function Kept(verdicts: seq<Option<bool>>): seq<nat> {
    if verdicts == [] then []
    else
      var n := |verdicts| - 1;
      Kept(verdicts[..n]) + if verdicts[n] == Some(true) then [n] else []
  }

  lemma {:induction false} KeptExact(verdicts: seq<Option<bool>>)
    ensures Ascending(Kept(verdicts))
    ensures forall i: nat :: i in Kept(verdicts) <==> i < |verdicts| && verdicts[i] == Some(true)
    decreases |verdicts|
  {
    if verdicts == [] {
    } else {
      var n := |verdicts| - 1;
      KeptExact(verdicts[..n]);
      var front := Kept(verdicts[..n]);
      assert Kept(verdicts) == front + if verdicts[n] == Some(true) then [n] else [];
      assert forall i :: 0 <= i < |front| ==> front[i] in front;
      assert forall i: nat :: i < n ==> verdicts[..n][i] == verdicts[i];
    }
  }

  /** A run that completes shows, in order, exactly the candidates that their own owner's one system
      permits. */
  lemma ExactlyPermitted<S(!new)>(states: seq<State<S>>, owners: seq<string>, limit: int, engine: (S, nat) -> Outcome)
    requires Run(states, owners, limit, engine) && Pool.Completed(states[|states| - 1].pool)
    ensures var last := states[|states| - 1];
            && (forall i :: 0 <= i < |owners| ==> owners[i] in last.systems)
            && Ascending(Kept(last.pool.results))
            && (forall i: nat :: i in Kept(last.pool.results) <==>
                  && i < |owners| && last.systems[owners[i]].Ready?
                  && engine(last.systems[owners[i]].system, i) == Permitted)
  {
    hide Step, Pool.Inv, NoRepeats, Kept, Ascending;
    var last := states[|states| - 1];
    RunInv(states, owners, limit, engine, |states| - 1);
    DoneAtEnd(last, owners, engine);
    KeptExact(last.pool.results);
  }

  lemma DoneAtEnd<S>(s: State<S>, owners: seq<string>, engine: (S, nat) -> Outcome)
    requires Inv(s, owners, engine) && Pool.Completed(s.pool)
    ensures |s.pool.results| == |owners|
    ensures forall i: nat :: i < |owners| ==>
              owners[i] in s.systems && s.pool.results[i].Some? && Verdict(s.systems[owners[i]], engine, i) == s.pool.results[i]
  {
    hide NoRepeats, Verdict;
    Pool.MadeAtMost(s.pool);
    forall i: nat | i < |owners|
      ensures owners[i] in s.systems && s.pool.results[i].Some? && Verdict(s.systems[owners[i]], engine, i) == s.pool.results[i]
    {
      assert !Pool.Taken(s.pool, i);
      assert i in s.phases;
      assert PhaseFits(s.phases[i], s.systems[owners[i]], engine, i);
    }
  }

  /** At every point of every run: a call has thrown only if the assembly of its owner's system or the engine
      was out; and it has returned only what the engine said of the candidate, a rejection by the engine or of
      the whole assembly being a refusal. */
  lemma OnlyOutagesThrow<S(!new)>(
      states: seq<State<S>>, owners: seq<string>, limit: int, engine: (S, nat) -> Outcome, k: nat, i: nat)
    requires Run(states, owners, limit, engine) && k < |states| && i in states[k].phases
    ensures i < |owners| && owners[i] in states[k].systems
    ensures var phase, system := states[k].phases[i], states[k].systems[owners[i]];
            && (phase.Threw? ==> system.Down? || (system.Ready? && engine(system.system, i) == Outage))
            && (phase.Returned? ==>
                  if system.Ready? then engine(system.system, i) != Outage && (phase.permitted <==> engine(system.system, i) == Permitted)
                  else system.Refused? && !phase.permitted)
  {
    hide Step, Pool.Inv, NoRepeats;
    RunInv(states, owners, limit, engine, k);
    assert PhaseFits(states[k].phases[i], states[k].systems[owners[i]], engine, i);
  }

  /** An outage is never read as a refusal: once the call on candidate `i` has thrown, the run cannot
      complete, whatever happens next, and when all workers are done or rejected the pool is rejected. */
  lemma {:induction false} OutageFailsRun<S(!new)>(
      states: seq<State<S>>, owners: seq<string>, limit: int, engine: (S, nat) -> Outcome, k: nat, i: nat)
    requires Run(states, owners, limit, engine) && k < |states| && i in states[k].phases && states[k].phases[i].Threw?
    ensures var last := states[|states| - 1].pool; !Pool.Completed(last) && (Pool.Settled(last) ==> Pool.Rejected(last))
    decreases |states| - k
  {
    hide Step, Inv, PhaseFits, Pool.Inv;
    RunInv(states, owners, limit, engine, k);
    if k == |states| - 1 {
      ThrewNotDone(states[k], owners, engine, i);
    } else {
      assert Step(states[k], states[k + 1], owners, engine);
      ThrewStays(states[k], states[k + 1], owners, engine, i);
      OutageFailsRun(states, owners, limit, engine, k + 1, i);
    }
  }

  lemma ThrewNotDone<S>(s: State<S>, owners: seq<string>, engine: (S, nat) -> Outcome, i: nat)
    requires Inv(s, owners, engine) && i in s.phases && s.phases[i].Threw?
    ensures !Pool.Completed(s.pool)
  {
    assert PhaseFits(s.phases[i], s.systems[owners[i]], engine, i);
    if Pool.Completed(s.pool) {
      DoneAtEnd(s, owners, engine);
    }
  }

  lemma ThrewStays<S(!new)>(s: State<S>, t: State<S>, owners: seq<string>, engine: (S, nat) -> Outcome, i: nat)
    requires Inv(s, owners, engine) && Step(s, t, owners, engine) && i in s.phases && s.phases[i].Threw?
    ensures i in t.phases && t.phases[i].Threw?
  {
    hide Pool.Inv, OneEach, Judged, WorkerStep, FailStep, SettleStep, ResumeStep, EngineStep;
    if w: nat, value :| WorkerStep(s, t, owners, w, value) {
      WorkerPhases(s, t, owners, w, value, i);
    } else if w: nat :| FailStep(s, t, w) {
      FailPhases(s, t, w);
    } else if owner, system :| SettleStep(s, t, owner, system) {
      SettlePhases(s, t, owner, system);
    } else if j: nat :| ResumeStep(s, t, owners, j) {
      ResumePhases(s, t, owners, j, i);
    } else {
      var j: nat :| EngineStep(s, t, engine, j);
      EnginePhases(s, t, engine, j, i);
    }
  }

  lemma WorkerPhases<S>(s: State<S>, t: State<S>, owners: seq<string>, w: nat, value: bool, i: nat)
    requires WorkerStep(s, t, owners, w, value) && i in s.phases && i != s.pool.cursor
    ensures i in t.phases && t.phases[i] == s.phases[i]
  {
    hide Pool.Step;
  }

  lemma FailPhases<S>(s: State<S>, t: State<S>, w: nat)
    requires FailStep(s, t, w)
    ensures t.phases == s.phases
  {
    hide Pool.Fails;
  }

  lemma SettlePhases<S>(s: State<S>, t: State<S>, owner: string, system: System<S>)
    requires SettleStep(s, t, owner, system)
    ensures t.phases == s.phases
  {
  }

  lemma ResumePhases<S>(s: State<S>, t: State<S>, owners: seq<string>, j: nat, i: nat)
    requires ResumeStep(s, t, owners, j) && i in s.phases && s.phases[i].Threw?
    ensures i in t.phases && t.phases[i].Threw?
  {
  }

  lemma EnginePhases<S>(s: State<S>, t: State<S>, engine: (S, nat) -> Outcome, j: nat, i: nat)
    requires EngineStep(s, t, engine, j) && i in s.phases && s.phases[i].Threw?
    ensures i in t.phases && t.phases[i].Threw?
  {
  }

  /** No run is stuck: until every worker is done or rejected, an assembly is still to end, or a call can go
      on, or a worker can move. */
  lemma NeverStuck<S(!new)>(s: State<S>, owners: seq<string>, engine: (S, nat) -> Outcome, system: System<S>)
    requires Inv(s, owners, engine) && !Pool.Settled(s.pool) && !system.Pending?
    ensures exists t :: Step(s, t, owners, engine)
  {
    var w :| 0 <= w < |s.pool.workers| && !s.pool.workers[w].Finished? && !s.pool.workers[w].Thrown?;
    if s.pool.workers[w].Fresh? {
      var t := Begin(s, owners, Pool.Take(s.pool, w));
      assert WorkerStep(s, t, owners, w, true);
      assert Step(s, t, owners, engine);
    } else {
      CallGoesOn(s, owners, engine, system, w);
    }
  }

  lemma CallGoesOn<S(!new)>(s: State<S>, owners: seq<string>, engine: (S, nat) -> Outcome, system: System<S>, w: nat)
    requires Inv(s, owners, engine) && !system.Pending? && w < |s.pool.workers| && s.pool.workers[w].Busy?
    ensures exists t :: Step(s, t, owners, engine)
  {
    var i := s.pool.workers[w].i;
    var now := s.systems[owners[i]];
    match s.phases[i]
    case Awaiting =>
      if now.Pending? {
        var t := s.(systems := s.systems[owners[i] := system]);
        assert SettleStep(s, t, owners[i], system);
        assert Step(s, t, owners, engine);
      } else {
        var t := s.(phases := s.phases[i := AfterAwait(now)]);
        assert ResumeStep(s, t, owners, i);
        assert Step(s, t, owners, engine);
      }
    case Evaluating(x) =>
      var t := s.(phases := s.phases[i := AfterEngine(engine(x, i))]);
      assert EngineStep(s, t, engine, i);
      assert Step(s, t, owners, engine);
    case Returned(value) =>
      var t := Begin(s, owners, Pool.Take(Pool.Store(s.pool, i, value), w));
      assert WorkerStep(s, t, owners, w, value);
      assert Step(s, t, owners, engine);
    case Threw =>
      var pool := s.pool.(workers := s.pool.workers[w := Pool.Thrown(i)], history := s.pool.history + [Pool.Throw(i)]);
      var t := s.(pool := pool);
      assert FailStep(s, t, w);
      assert Step(s, t, owners, engine);
  }

  // ----- No run goes on for ever -----

  function Score<S>(phase: Phase<S>): nat {
    match phase
    case Awaiting => 0
    case Evaluating(_) => 1
    case _ => 2
  }

  /** How far the calls on the first `n` candidates have come. */
  function Progress<S>(phases: map<nat, Phase<S>>, n: nat): nat {
    if n == 0 then 0
    else Progress(phases, n - 1) + if n - 1 in phases then Score(phases[n - 1]) else 0
  }

  lemma {:induction false} ProgressAtMost<S>(phases: map<nat, Phase<S>>, n: nat)
    ensures Progress(phases, n) <= 2 * n
  {
    if n == 0 {
    } else {
      ProgressAtMost(phases, n - 1);
    }
  }

  lemma {:induction false} ProgressUpdate<S>(phases: map<nat, Phase<S>>, i: nat, phase: Phase<S>, n: nat)
    ensures Progress(phases[i := phase], n) ==
              Progress(phases, n) + if i < n then Score(phase) - (if i in phases then Score(phases[i]) else 0) else 0
  {
    hide Score;
    if n == 0 {
    } else {
      ProgressUpdate(phases, i, phase, n - 1);
    }
  }

  /** The owners whose assembly has ended. */
  function Ended<S>(systems: map<string, System<S>>): set<string> { set o | o in systems && !systems[o].Pending? }

  function OwnersOf(owners: seq<string>): set<string> { set o | o in owners }

  lemma {:induction false} SubsetSize(a: set<string>, b: set<string>)
    requires a <= b
    ensures |a| <= |b|
  {
    if a == {} {
    } else {
      var x :| x in a;
      SubsetSize(a - {x}, b - {x});
    }
  }

  /** What every step increases. */
  function Spent<S>(s: State<S>, n: nat): nat { Pool.Made(s.pool) + |Ended(s.systems)| + Progress(s.phases, n) }

  lemma WorkerSpends<S>(s: State<S>, t: State<S>, owners: seq<string>, engine: (S, nat) -> Outcome, w: nat, value: bool)
    requires Inv(s, owners, engine) && WorkerStep(s, t, owners, w, value)
    ensures |t.pool.workers| == |s.pool.workers| && Spent(t, |owners|) == Spent(s, |owners|) + 1
  {
    hide OneEach, Judged, Progress, Pool.Inv;
    Pool.StepInv(s.pool, t.pool, w, value);
    var i := s.pool.cursor;
    assert Ended(t.systems) == Ended(s.systems);
    if i < |owners| {
      ProgressUpdate(s.phases, i, Awaiting, |owners|);
    }
  }

  lemma FailSpends<S>(s: State<S>, t: State<S>, owners: seq<string>, engine: (S, nat) -> Outcome, w: nat)
    requires Inv(s, owners, engine) && FailStep(s, t, w)
    ensures |t.pool.workers| == |s.pool.workers| && Spent(t, |owners|) == Spent(s, |owners|) + 1
  {
    hide Known, OneEach, Judged, Progress, Pool.Inv;
    Pool.FailStep(s.pool, t.pool, w);
  }

  lemma SettleSpends<S>(s: State<S>, t: State<S>, n: nat, owner: string, system: System<S>)
    requires SettleStep(s, t, owner, system)
    ensures t.pool == s.pool && Spent(t, n) == Spent(s, n) + 1
  {
    hide Progress;
    assert Ended(t.systems) == Ended(s.systems) + {owner};
  }

  lemma PhaseSpends<S>(s: State<S>, t: State<S>, n: nat, i: nat, phase: Phase<S>)
    requires i < n && i in s.phases && t == s.(phases := s.phases[i := phase]) && Score(phase) > Score(s.phases[i])
    ensures t.pool == s.pool && Spent(t, n) > Spent(s, n)
  {
    hide Progress;
    ProgressUpdate(s.phases, i, phase, n);
  }

  lemma StepSpends<S(!new)>(s: State<S>, t: State<S>, owners: seq<string>, engine: (S, nat) -> Outcome)
    requires Inv(s, owners, engine) && Step(s, t, owners, engine)
    ensures |t.pool.workers| == |s.pool.workers| && Spent(t, |owners|) > Spent(s, |owners|)
  {
    hide Inv, WorkerStep, FailStep, SettleStep, Spent;
    if w: nat, value :| WorkerStep(s, t, owners, w, value) {
      WorkerSpends(s, t, owners, engine, w, value);
    } else if w: nat :| FailStep(s, t, w) {
      FailSpends(s, t, owners, engine, w);
    } else if owner, system :| SettleStep(s, t, owner, system) {
      SettleSpends(s, t, |owners|, owner, system);
    } else if i: nat :| ResumeStep(s, t, owners, i) {
      PhaseSpends(s, t, |owners|, i, AfterAwait(s.systems[owners[i]]));
    } else {
      var i: nat :| EngineStep(s, t, engine, i);
      BegunBelow(s, owners, engine, i);
      PhaseSpends(s, t, |owners|, i, AfterEngine(engine(s.phases[i].system, i)));
    }
  }

  lemma BegunBelow<S>(s: State<S>, owners: seq<string>, engine: (S, nat) -> Outcome, i: nat)
    requires Inv(s, owners, engine) && i in s.phases
    ensures i < |owners|
  {
  }

  lemma {:induction false} RunSpends<S(!new)>(states: seq<State<S>>, owners: seq<string>, limit: int, engine: (S, nat) -> Outcome, k: nat)
    requires Run(states, owners, limit, engine) && k < |states|
    ensures k <= Spent(states[k], |owners|) && |states[k].pool.workers| == Pool.WorkerCount(|owners|, limit)
  {
    hide Inv, Step, Spent, Pool.WorkerCount;
    if k == 0 {
    } else {
      RunSpends(states, owners, limit, engine, k - 1);
      RunInv(states, owners, limit, engine, k - 1);
      assert Step(states[k - 1], states[k - 1 + 1], owners, engine);
      StepSpends(states[k - 1], states[k], owners, engine);
    }
  }

  lemma SpentAtMost<S>(s: State<S>, owners: seq<string>, engine: (S, nat) -> Outcome)
    requires Inv(s, owners, engine)
    ensures Spent(s, |owners|) <= 3 * |owners| + |s.pool.workers| + |OwnersOf(owners)|
  {
    hide Judged, OneEach, Progress, Pool.Inv, Pool.Made;
    Pool.MadeAtMost(s.pool);
    ProgressAtMost(s.phases, |owners|);
    forall o | o in Ended(s.systems)
      ensures o in OwnersOf(owners)
    {
      var i :| i in s.phases && owners[i] == o;
    }
    SubsetSize(Ended(s.systems), OwnersOf(owners));
  }

  /** Every run ends: it has no more steps than those of the pool, one for each owner's assembly and two for
      each candidate. */
  lemma RunsEnd<S(!new)>(states: seq<State<S>>, owners: seq<string>, limit: int, engine: (S, nat) -> Outcome)
    requires Run(states, owners, limit, engine)
    ensures |states| - 1 <= (|owners| + Pool.WorkerCount(|owners|, limit)) + |OwnersOf(owners)| + 2 * |owners|
  {
    hide Inv, Step, Spent, Pool.WorkerCount;
    RunSpends(states, owners, limit, engine, |states| - 1);
    RunInv(states, owners, limit, engine, |states| - 1);
    SpentAtMost(states[|states| - 1], owners, engine);
  }
}
