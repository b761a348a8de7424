/** What `buildDiagram` (app/frontend/src/lib/bart/diagram.ts) reads in a line and around it: which of the
    lines decides an outcome, a rule, a requester or a run of candidates. Each is a function that its loop
    computes, and is said of the lines alone, without the function.

    A line is what the source's patterns read in it. They are anchored on different words, so a line
    is at most one of the events; only the quantified `from=` of an exchange is looked for in any line. */
module Readings {
  import opened Lex
  import opened Lists
  import opened Steps
  import opened Forest

  datatype Asked = Party(index: nat) | Parties(kind: Quant, pattern: string)

  datatype RequestLine = RequestLine(policy: Option<nat>, requester: nat, resource: string, from: Asked)

  datatype Event =
    | Result
    | EndExchange(rule: string, permitted: bool)
    | Connector(rule: string)
    | Composite(policy: nat, rule: string, conjunction: bool)
    | Exchange(policy: nat, rule: string)
    | Candidate(index: nat, permitted: bool)
    | Compliant(request: RequestLine)
    | Evaluating(request: RequestLine)
    | Other

  /** `quantified` is the `from=any: [...]` or `from=all: [...]` that ends the line, if one does, and `rule`
      the rule it starts with, if it does with one. */
  datatype Line = Line(depth: nat, event: Event, outcome: TraceOutcome, quantified: Option<(Quant, string)>, rule: Option<string>)

  function DepthsOf(lines: seq<Line>): (d: Depths)
    ensures |d| == |lines| && forall k :: 0 <= k < |lines| ==> d[k] == lines[k].depth
  {
    seq(|lines|, i requires 0 <= i < |lines| => lines[i].depth)
  }

  // ----- Reading around a line -----

  function BooleanOutcome(outcome: TraceOutcome): Option<bool> {
    if outcome.Stated? then Some(outcome.value) else None
  }

  /** The next line that is not deeper, if it is a sibling and a `result:`. */
  function SiblingResult(lines: seq<Line>, k: nat): Option<bool>
    requires k < |lines|
  {
    var e := End(DepthsOf(lines), k);
    if e < |lines| && lines[e].depth == lines[k].depth && lines[e].event == Result then BooleanOutcome(lines[e].outcome) else None
  }

  /** The last outcome stated on the lines from `lo` up to `hi`. */
  function LastOutcome(lines: seq<Line>, lo: nat, hi: nat): TraceOutcome
    requires hi <= |lines|
    decreases hi
  {
    if lo >= hi then Unstated
    else if lines[hi - 1].outcome != Unstated then lines[hi - 1].outcome
    else LastOutcome(lines, lo, hi - 1)
  }

  /** An error is the engine's silent deny. */
  function Settled(outcome: TraceOutcome): Option<bool> {
    if outcome == Errored then Some(false) else BooleanOutcome(outcome)
  }

  function SubtreeOutcome(lines: seq<Line>, k: nat): Option<bool>
    requires k < |lines|
  {
    Settled(LastOutcome(lines, k + 1, End(DepthsOf(lines), k)))
  }

  /** The first rule named on the lines from `lo` up to `hi` that are of depth `depth`. */
  function FirstRule(lines: seq<Line>, lo: nat, hi: nat, depth: nat): Option<string>
    requires hi <= |lines|
    decreases hi - lo
  {
    if lo >= hi then None
    else if lines[lo].depth == depth && lines[lo].rule.Some? then lines[lo].rule
    else FirstRule(lines, lo + 1, hi, depth)
  }

  /** The rule that a `policy N:` line attempts. */
  function AttemptedRule(lines: seq<Line>, k: nat): Option<string>
    requires k < |lines|
  {
    FirstRule(lines, k + 1, End(DepthsOf(lines), k), lines[k].depth + 1)
  }

  predicate Restatement(line: Line, depth: nat) {
    line.depth == depth && line.event.Evaluating? && line.event.request.policy.Some?
  }

  /** The last `policy N:` line of depth `depth` on the lines from `lo` up to `hi`. */
  function LastRestatement(lines: seq<Line>, lo: nat, hi: nat, depth: nat): (r: Option<nat>)
    requires hi <= |lines|
    ensures r.Some? ==> lo <= r.value < hi && Restatement(lines[r.value], depth)
    ensures forall j :: lo <= j < hi && Restatement(lines[j], depth) ==> r.Some? && j <= r.value
    decreases hi
  {
    if lo >= hi then None
    else if Restatement(lines[hi - 1], depth) then Some(hi - 1)
    else LastRestatement(lines, lo, hi - 1, depth)
  }

  /** The rule that granted a request without a prefix: the one its last restatement attempts. */
  function GrantedRule(lines: seq<Line>, k: nat): Option<string>
    requires k < |lines|
  {
    var last := LastRestatement(lines, k + 1, End(DepthsOf(lines), k), lines[k].depth + 1);
    if last.None? then None else AttemptedRule(lines, last.value)
  }

  /** Only a permitted arrow names the rule that granted it. */
  function IfGranted(outcome: Option<bool>, rule: Option<string>): Option<string> {
    if outcome == Some(true) then rule else None
  }

  /** The requester of the first request line from `from` on that comes before any line shallower than
      `depth`. */
  function RequesterAhead(lines: seq<Line>, from: nat, depth: nat): Option<nat>
    requires from <= |lines|
    decreases |lines| - from
  {
    if from == |lines| || lines[from].depth < depth then None
    else if lines[from].event.Evaluating? then Some(lines[from].event.request.requester)
    else RequesterAhead(lines, from + 1, depth)
  }

  predicate AsksParties(line: Line) { line.event.Evaluating? && line.event.request.from.Parties? }

  predicate UnderQuantified(lines: seq<Line>, k: nat)
    requires k < |lines|
  {
    var parent := Parent(DepthsOf(lines), k);
    parent.Some? && AsksParties(lines[parent.value])
  }

  /** One past the run of candidate lines, all of one depth, from `k` on. */
  function CandidatesEnd(lines: seq<Line>, k: nat, depth: nat): (e: nat)
    requires k <= |lines|
    ensures k <= e <= |lines|
    ensures forall j :: k <= j < e ==> lines[j].event.Candidate? && lines[j].depth == depth
    decreases |lines| - k
  {
    if k < |lines| && lines[k].depth == depth && lines[k].event.Candidate? then CandidatesEnd(lines, k + 1, depth) else k
  }

  /** The parties that matched, on the candidate lines from `lo` up to `hi`. */
  function Matched(lines: seq<Line>, lo: nat, hi: nat): seq<nat>
    requires lo <= hi <= |lines|
    decreases hi
  {
    if lo == hi then []
    else
      var front := Matched(lines, lo, hi - 1);
      var e := lines[hi - 1].event;
      if e.Candidate? && e.permitted then front + [e.index] else front
  }

  // ----- The same, of the lines alone -----

  /** Line `j` is in the deeper run that follows line `k`. */
  ghost predicate Below(lines: seq<Line>, k: nat, j: nat)
    requires k < |lines|
  {
    k < j < |lines| && forall i :: k < i <= j ==> lines[i].depth > lines[k].depth
  }

  lemma BelowIsRun(lines: seq<Line>, k: nat, j: nat)
    requires k < |lines|
    ensures Below(lines, k, j) <==> k < j < End(DepthsOf(lines), k)
  {
    var d := DepthsOf(lines);
    var e := End(d, k);
    if e < |lines| {
      assert lines[e].depth == d[e];
    }
    if k < j < e {
      forall i | k < i <= j
        ensures lines[i].depth > lines[k].depth
      {
        assert d[i] > d[k];
      }
    }
  }

  // ----- Outcomes -----

  /** Line `j` states `outcome`, below `k`, and no later line below `k` states anything. */
  ghost predicate LastStates(lines: seq<Line>, k: nat, j: nat, outcome: TraceOutcome)
    requires k < |lines|
  {
    && Below(lines, k, j) && lines[j].outcome == outcome && outcome != Unstated
    && forall i :: j < i && Below(lines, k, i) ==> lines[i].outcome == Unstated
  }

  /** The last line below `k` that states an outcome states true; or states false, or is an error; or
      there is none. */
  ghost predicate OutcomeBelow(lines: seq<Line>, k: nat, outcome: Option<bool>)
    requires k < |lines|
  {
    if outcome == Some(true) then exists j: nat :: LastStates(lines, k, j, Stated(true))
    else if outcome == Some(false) then
      exists j: nat :: LastStates(lines, k, j, Stated(false)) || LastStates(lines, k, j, Errored)
    else forall j: nat :: Below(lines, k, j) ==> lines[j].outcome == Unstated
  }

  lemma {:induction false} LastOutcomeIs(lines: seq<Line>, lo: nat, hi: nat)
    requires hi <= |lines|
    ensures var outcome := LastOutcome(lines, lo, hi);
            if outcome == Unstated then forall j :: lo <= j < hi ==> lines[j].outcome == Unstated
            else exists j :: && lo <= j < hi && lines[j].outcome == outcome
                             && forall i :: j < i < hi ==> lines[i].outcome == Unstated
    decreases hi
  {
    if lo >= hi {
    } else if lines[hi - 1].outcome != Unstated {
      assert lines[hi - 1].outcome == LastOutcome(lines, lo, hi);
    } else {
      LastOutcomeIs(lines, lo, hi - 1);
    }
  }

  lemma OutcomesOf(stated: TraceOutcome, outcome: Option<bool>)
    ensures stated == Unstated || stated == Errored || stated == Stated(true) || stated == Stated(false)
    ensures outcome == None || outcome == Some(true) || outcome == Some(false)
  {
    match outcome
    case None =>
    case Some(b) => if b { assert outcome == Some(true); } else { assert outcome == Some(false); }
  }

  /** The outcome of a `policy N:` line is the last word of its subtree, for every line of every trace. */
  lemma SubtreeOutcomeExact(lines: seq<Line>, k: nat, outcome: Option<bool>)
    requires k < |lines|
    ensures outcome == SubtreeOutcome(lines, k) <==> OutcomeBelow(lines, k, outcome)
  {
    hide Below, End;
    var hi := End(DepthsOf(lines), k);
    forall j: nat
      ensures Below(lines, k, j) <==> k < j < hi
    {
      BelowIsRun(lines, k, j);
    }
    LastOutcomeIs(lines, k + 1, hi);
    var last := LastOutcome(lines, k + 1, hi);
    OutcomesOf(last, outcome);
    if last == Unstated {
      assert forall j: nat, o :: !LastStates(lines, k, j, o);
    } else {
      var at :| k + 1 <= at < hi && lines[at].outcome == last && forall i :: at < i < hi ==> lines[i].outcome == Unstated;
      assert LastStates(lines, k, at, last);
      assert forall j: nat, o :: LastStates(lines, k, j, o) ==> j == at && o == last;
    }
  }

  /** The first line after `k` that is not deeper is as deep, and is a `result:` that states `b`. */
  ghost predicate ResultAfter(lines: seq<Line>, k: nat, e: nat, b: bool)
    requires k < |lines|
  {
    && k < e < |lines| && (forall i :: k < i < e ==> lines[i].depth > lines[k].depth)
    && lines[e].depth == lines[k].depth && lines[e].event == Result && lines[e].outcome == Stated(b)
  }

  ghost predicate OutcomeBeside(lines: seq<Line>, k: nat, outcome: Option<bool>)
    requires k < |lines|
  {
    forall b :: outcome == Some(b) <==> exists e: nat :: ResultAfter(lines, k, e, b)
  }

  lemma SiblingResultExact(lines: seq<Line>, k: nat, outcome: Option<bool>)
    requires k < |lines|
    ensures outcome == SiblingResult(lines, k) <==> OutcomeBeside(lines, k, outcome)
  {
    var d := DepthsOf(lines);
    var end := End(d, k);
    var found := SiblingResult(lines, k);
    hide End;
    assert forall i :: k < i < end ==> lines[i].depth == d[i] > d[k] == lines[k].depth;
    assert end < |lines| ==> d[end] <= d[k];
    assert end < |lines| ==> lines[end].depth == d[end];
    assert forall e: nat, b :: ResultAfter(lines, k, e, b) ==> e >= end;
    assert forall e: nat, b :: ResultAfter(lines, k, e, b) ==> e <= end;
    if found.Some? {
      assert ResultAfter(lines, k, end, found.value);
    }
    forall b
      ensures found == Some(b) <==> exists e: nat :: ResultAfter(lines, k, e, b)
    {
    }
    assert OutcomeBeside(lines, k, found);
    if OutcomeBeside(lines, k, outcome) {
      forall b
        ensures found == Some(b) <==> outcome == Some(b)
      {
        assert found == Some(b) <==> exists e: nat :: ResultAfter(lines, k, e, b);
      }
      SomeSame(found, outcome);
    }
  }

  lemma SomeSame<T>(a: Option<T>, b: Option<T>)
    ensures (forall x :: a == Some(x) <==> b == Some(x)) ==> a == b
  {
    if a.Some? {
      assert a == Some(a.value);
    }
    if b.Some? {
      assert b == Some(b.value);
    }
  }

  // ----- Rules -----

  /** Line `j` is directly below line `k` and names a rule. */
  ghost predicate NamesRule(lines: seq<Line>, k: nat, j: nat)
    requires k < |lines|
  {
    Below(lines, k, j) && lines[j].depth == lines[k].depth + 1 && lines[j].rule.Some?
  }

  /** The rule of a `policy N:` line is the one that the first such line names. */
  ghost predicate Attempts(lines: seq<Line>, k: nat, rule: Option<string>)
    requires k < |lines|
  {
    if rule.None? then forall j: nat :: !NamesRule(lines, k, j)
    else exists j: nat :: && NamesRule(lines, k, j) && lines[j].rule == rule
                          && forall i: nat :: i < j ==> !NamesRule(lines, k, i)
  }

  lemma {:induction false} FirstRuleIs(lines: seq<Line>, lo: nat, hi: nat, depth: nat)
    requires hi <= |lines|
    ensures var rule := FirstRule(lines, lo, hi, depth);
            if rule.None? then forall j :: lo <= j < hi ==> lines[j].depth != depth || lines[j].rule.None?
            else exists j :: && lo <= j < hi && lines[j].depth == depth && lines[j].rule == rule
                             && forall i :: lo <= i < j ==> lines[i].depth != depth || lines[i].rule.None?
    decreases hi - lo
  {
    if lo >= hi {
    } else if lines[lo].depth == depth && lines[lo].rule.Some? {
      assert lines[lo].rule == FirstRule(lines, lo, hi, depth);
    } else {
      FirstRuleIs(lines, lo + 1, hi, depth);
    }
  }

  lemma AttemptedRuleExact(lines: seq<Line>, k: nat, rule: Option<string>)
    requires k < |lines|
    ensures rule == AttemptedRule(lines, k) <==> Attempts(lines, k, rule)
  {
    hide Below, End;
    var hi := End(DepthsOf(lines), k);
    forall j: nat
      ensures Below(lines, k, j) <==> k < j < hi
    {
      BelowIsRun(lines, k, j);
    }
    var depth := lines[k].depth + 1;
    FirstRuleIs(lines, k + 1, hi, depth);
    var found := AttemptedRule(lines, k);
    if found.Some? {
      var at :| k + 1 <= at < hi && lines[at].depth == depth && lines[at].rule == found
                && forall i :: k + 1 <= i < at ==> lines[i].depth != depth || lines[i].rule.None?;
      assert NamesRule(lines, k, at);
      assert forall i: nat :: i < at ==> !NamesRule(lines, k, i);
    }
  }

  /** Line `p` is directly below line `k` and restates its request for a policy. */
  ghost predicate RestatedBy(lines: seq<Line>, k: nat, p: nat)
    requires k < |lines|
  {
    Below(lines, k, p) && lines[p].depth == lines[k].depth + 1 && lines[p].event.Evaluating? && lines[p].event.request.policy.Some?
  }

  /** The rule that granted a request is the one that the last restatement of it attempts. */
  ghost predicate Grants(lines: seq<Line>, k: nat, rule: Option<string>)
    requires k < |lines|
  {
    || ((forall p: nat :: !RestatedBy(lines, k, p)) && rule == None)
    || exists p: nat :: RestatedBy(lines, k, p) && (forall q: nat :: p < q ==> !RestatedBy(lines, k, q)) && Attempts(lines, p, rule)
  }

  lemma GrantedRuleExact(lines: seq<Line>, k: nat, rule: Option<string>)
    requires k < |lines|
    ensures rule == GrantedRule(lines, k) <==> Grants(lines, k, rule)
  {
    hide Below, End, AttemptedRule, LastRestatement;
    var hi := End(DepthsOf(lines), k);
    forall j: nat
      ensures Below(lines, k, j) <==> k < j < hi
    {
      BelowIsRun(lines, k, j);
    }
    var last := LastRestatement(lines, k + 1, hi, lines[k].depth + 1);
    if last.None? {
      assert forall p: nat :: !RestatedBy(lines, k, p);
    } else {
      assert RestatedBy(lines, k, last.value);
      assert forall q: nat :: last.value < q ==> !RestatedBy(lines, k, q);
      AttemptedRuleExact(lines, last.value, rule);
    }
  }

  // ----- What an arrow says -----

  /** A request states the result beside it and, if that is true, the rule that granted it. */
  ghost predicate SaysBeside(lines: seq<Line>, k: nat, outcome: Option<bool>, grantedBy: Option<string>)
    requires k < |lines|
  {
    OutcomeBeside(lines, k, outcome) && if outcome == Some(true) then Grants(lines, k, grantedBy) else grantedBy == None
  }

  /** A `policy N:` line states the last word of its subtree and, if that is true, the rule it attempts. */
  ghost predicate SaysBelow(lines: seq<Line>, k: nat, outcome: Option<bool>, grantedBy: Option<string>)
    requires k < |lines|
  {
    OutcomeBelow(lines, k, outcome) && if outcome == Some(true) then Attempts(lines, k, grantedBy) else grantedBy == None
  }

  lemma ArrowBeside(lines: seq<Line>, k: nat)
    requires k < |lines|
    ensures var outcome := SiblingResult(lines, k); SaysBeside(lines, k, outcome, IfGranted(outcome, GrantedRule(lines, k)))
  {
    hide SiblingResult, GrantedRule, OutcomeBeside, Grants;
    SiblingResultExact(lines, k, SiblingResult(lines, k));
    GrantedRuleExact(lines, k, GrantedRule(lines, k));
  }

  lemma ArrowBelow(lines: seq<Line>, k: nat)
    requires k < |lines|
    ensures var outcome := SubtreeOutcome(lines, k); SaysBelow(lines, k, outcome, IfGranted(outcome, AttemptedRule(lines, k)))
  {
    hide SubtreeOutcome, AttemptedRule, OutcomeBelow, Attempts;
    SubtreeOutcomeExact(lines, k, SubtreeOutcome(lines, k));
    AttemptedRuleExact(lines, k, AttemptedRule(lines, k));
  }

  // ----- Requesters and quantifiers -----

  /** Line `j` is the first request from line `from` on, and no line up to it is shallower than `depth`. */
  ghost predicate NextRequest(lines: seq<Line>, from: nat, depth: nat, j: nat) {
    && from <= j < |lines| && lines[j].event.Evaluating?
    && (forall i :: from <= i < j ==> !lines[i].event.Evaluating?)
    && forall i :: from <= i <= j ==> lines[i].depth >= depth
  }

  ghost predicate Ahead(lines: seq<Line>, from: nat, depth: nat, requester: Option<nat>) {
    if requester.None? then forall j: nat :: !NextRequest(lines, from, depth, j)
    else exists j: nat :: NextRequest(lines, from, depth, j) && lines[j].event.request.requester == requester.value
  }

  lemma {:induction false} AheadIs(lines: seq<Line>, from: nat, depth: nat)
    requires from <= |lines|
    ensures Ahead(lines, from, depth, RequesterAhead(lines, from, depth))
    decreases |lines| - from
  {
    if from == |lines| || lines[from].depth < depth {
    } else if lines[from].event.Evaluating? {
      assert NextRequest(lines, from, depth, from);
    } else {
      AheadIs(lines, from + 1, depth);
      forall j: nat
        ensures NextRequest(lines, from, depth, j) <==> NextRequest(lines, from + 1, depth, j)
      {
      }
    }
  }

  lemma RequesterAheadExact(lines: seq<Line>, from: nat, depth: nat, requester: Option<nat>)
    requires from <= |lines|
    ensures requester == RequesterAhead(lines, from, depth) <==> Ahead(lines, from, depth, requester)
  {
    hide RequesterAhead;
    AheadIs(lines, from, depth);
    assert forall i: nat, j: nat :: NextRequest(lines, from, depth, i) && NextRequest(lines, from, depth, j) ==> i == j;
  }

  /** The line above `k` in the tree is a request to many. */
  lemma UnderQuantifiedExact(lines: seq<Line>, k: nat)
    requires k < |lines|
    ensures UnderQuantified(lines, k) <==>
            exists p: nat :: && p < k && lines[p].depth < lines[k].depth && lines[p].event.Evaluating? && lines[p].event.request.from.Parties?
                             && forall j :: p < j < k ==> lines[j].depth >= lines[k].depth
  {
    hide Parent;
    var d := DepthsOf(lines);
    assert forall j :: 0 <= j < |lines| ==> d[j] == lines[j].depth;
  }

  // ----- Candidates -----

  /** The candidate lines of one depth that start at `at` end before `e`. */
  ghost predicate RunOf(lines: seq<Line>, at: nat, e: nat) {
    && at < e <= |lines|
    && (forall j :: at <= j < e ==> lines[j].event.Candidate? && lines[j].depth == lines[at].depth)
    && (e < |lines| ==> !lines[e].event.Candidate? || lines[e].depth != lines[at].depth)
  }

  /** The `m`-th party is that of line `ps[m]`: the lines that state a match, all of them, in order. */
  ghost predicate Picks(lines: seq<Line>, lo: nat, hi: nat, ps: seq<nat>, matched: seq<nat>) {
    && hi <= |lines| && Ascending(ps) && |ps| == |matched|
    && (forall j: nat :: j in ps <==> lo <= j < hi && lines[j].event.Candidate? && lines[j].event.permitted)
    && forall m :: 0 <= m < |ps| ==> ps[m] < |lines| && lines[ps[m]].event.Candidate? && matched[m] == lines[ps[m]].event.index
  }

  ghost predicate MatchedFrom(lines: seq<Line>, at: nat, matched: seq<nat>) {
    exists e: nat, ps: seq<nat> :: RunOf(lines, at, e) && Picks(lines, at, e, ps, matched)
  }

  lemma {:induction false} MatchedIs(lines: seq<Line>, lo: nat, hi: nat) returns (ps: seq<nat>)
    requires lo <= hi <= |lines|
    ensures Picks(lines, lo, hi, ps, Matched(lines, lo, hi))
    decreases hi
  {
    if lo == hi {
      ps := [];
    } else {
      hide Picks;
      ps := MatchedIs(lines, lo, hi - 1);
      var e := lines[hi - 1].event;
      if e.Candidate? && e.permitted {
        PicksOne(lines, lo, hi - 1, ps, Matched(lines, lo, hi - 1));
        ps := ps + [hi - 1];
      } else {
        PicksNone(lines, lo, hi - 1, ps, Matched(lines, lo, hi - 1));
      }
    }
  }

  lemma PicksOne(lines: seq<Line>, lo: nat, hi: nat, ps: seq<nat>, matched: seq<nat>)
    requires lo <= hi < |lines| && Picks(lines, lo, hi, ps, matched) && lines[hi].event.Candidate? && lines[hi].event.permitted
    ensures Picks(lines, lo, hi + 1, ps + [hi], matched + [lines[hi].event.index])
  {
    forall m | 0 <= m < |ps|
      ensures ps[m] < hi
    {
      assert ps[m] in ps;
    }
  }

  lemma PicksNone(lines: seq<Line>, lo: nat, hi: nat, ps: seq<nat>, matched: seq<nat>)
    requires lo <= hi < |lines| && Picks(lines, lo, hi, ps, matched) && !(lines[hi].event.Candidate? && lines[hi].event.permitted)
    ensures Picks(lines, lo, hi + 1, ps, matched)
  {
  }

  lemma {:induction false} RunEnds(lines: seq<Line>, k: nat, depth: nat)
    requires k <= |lines|
    ensures var e := CandidatesEnd(lines, k, depth);
            e < |lines| ==> !lines[e].event.Candidate? || lines[e].depth != depth
    decreases |lines| - k
  {
    if k < |lines| && lines[k].depth == depth && lines[k].event.Candidate? {
      RunEnds(lines, k + 1, depth);
    }
  }

  lemma MatchedExact(lines: seq<Line>, at: nat)
    requires at < |lines| && lines[at].event.Candidate?
    ensures MatchedFrom(lines, at, Matched(lines, at, CandidatesEnd(lines, at, lines[at].depth)))
  {
    hide Matched;
    var e := CandidatesEnd(lines, at, lines[at].depth);
    RunEnds(lines, at, lines[at].depth);
    var ps := MatchedIs(lines, at, e);
    assert RunOf(lines, at, e);
  }

  // ----- The loops of the source -----

  method FindSiblingResult(lines: seq<Line>, index: nat) returns (outcome: Option<bool>)
    requires index < |lines|
    ensures outcome == SiblingResult(lines, index)
    ensures OutcomeBeside(lines, index, outcome)
  {
    hide OutcomeBeside;
    SiblingResultExact(lines, index, SiblingResult(lines, index));
    var depth := lines[index].depth;
    ghost var d := DepthsOf(lines);
    for i := index + 1 to |lines|
      invariant Forest.RunEnd(d, depth, i) == End(d, index)
    {
      if lines[i].depth <= depth {
        if lines[i].depth < depth {
          return None;
        }
        return if lines[i].event == Result then BooleanOutcome(lines[i].outcome) else None;
      }
    }
    return None;
  }

  method FindSubtreeOutcome(lines: seq<Line>, index: nat) returns (settled: Option<bool>)
    requires index < |lines|
    ensures settled == SubtreeOutcome(lines, index)
    ensures OutcomeBelow(lines, index, settled)
  {
    hide OutcomeBelow;
    SubtreeOutcomeExact(lines, index, SubtreeOutcome(lines, index));
    var depth := lines[index].depth;
    ghost var d := DepthsOf(lines);
    var outcome := Unstated;
    var i := index + 1;
    while i < |lines| && lines[i].depth > depth
      invariant index < i <= |lines|
      invariant Forest.RunEnd(d, depth, i) == End(d, index)
      invariant outcome == LastOutcome(lines, index + 1, i)
    {
      if lines[i].outcome != Unstated {
        outcome := lines[i].outcome;
      }
      i := i + 1;
    }
    return Settled(outcome);
  }

  method FindAttemptedRule(lines: seq<Line>, index: nat) returns (rule: Option<string>)
    requires index < |lines|
    ensures rule == AttemptedRule(lines, index)
    ensures Attempts(lines, index, rule)
  {
    hide Attempts;
    AttemptedRuleExact(lines, index, AttemptedRule(lines, index));
    var depth := lines[index].depth + 1;
    ghost var d := DepthsOf(lines);
    var i := index + 1;
    while i < |lines| && lines[i].depth >= depth
      invariant index < i <= |lines|
      invariant Forest.RunEnd(d, lines[index].depth, i) == End(d, index)
      invariant FirstRule(lines, i, End(d, index), depth) == AttemptedRule(lines, index)
    {
      if lines[i].depth == depth && lines[i].rule.Some? {
        return lines[i].rule;
      }
      i := i + 1;
    }
    return None;
  }

  lemma NoRestatement(lines: seq<Line>, lo: nat, depth: nat)
    requires lo <= |lines|
    ensures LastRestatement(lines, lo, lo, depth) == None
  {
  }

  lemma OneLineMore(lines: seq<Line>, lo: nat, hi: nat, depth: nat)
    requires lo <= hi < |lines|
    ensures LastRestatement(lines, lo, hi + 1, depth) == if Restatement(lines[hi], depth) then Some(hi) else LastRestatement(lines, lo, hi, depth)
  {
  }

  method FindGrantedRule(lines: seq<Line>, index: nat) returns (rule: Option<string>)
    requires index < |lines|
    ensures rule == GrantedRule(lines, index)
    ensures Grants(lines, index, rule)
  {
    hide Grants, Attempts, AttemptedRule, LastRestatement;
    GrantedRuleExact(lines, index, GrantedRule(lines, index));
    var depth := lines[index].depth + 1;
    ghost var d := DepthsOf(lines);
    var last: Option<nat> := None;
    var i := index + 1;
    NoRestatement(lines, i, depth);
    while i < |lines| && lines[i].depth >= depth
      invariant index < i <= |lines|
      invariant Forest.RunEnd(d, lines[index].depth, i) == End(d, index)
      invariant last == LastRestatement(lines, index + 1, i, depth)
    {
      OneLineMore(lines, index + 1, i, depth);
      if Restatement(lines[i], depth) {
        last := Some(i);
      }
      i := i + 1;
    }
    if last.None? {
      return None;
    }
    rule := FindAttemptedRule(lines, last.value);
  }

  method FindRequester(lines: seq<Line>, index: nat, depth: nat) returns (requester: Option<nat>)
    requires index <= |lines|
    ensures requester == RequesterAhead(lines, index, depth)
    ensures Ahead(lines, index, depth, requester)
  {
    hide Ahead;
    RequesterAheadExact(lines, index, depth, RequesterAhead(lines, index, depth));
    for i := index to |lines|
      invariant RequesterAhead(lines, i, depth) == RequesterAhead(lines, index, depth)
    {
      if lines[i].depth < depth {
        return None;
      }
      if lines[i].event.Evaluating? {
        return Some(lines[i].event.request.requester);
      }
    }
    return None;
  }

  method FindParent(lines: seq<Line>, index: nat) returns (parent: Option<nat>)
    requires index < |lines|
    ensures parent == Parent(DepthsOf(lines), index)
  {
    ghost var d := DepthsOf(lines);
    for i := index downto 0
      invariant Shallower(d, i, d[index]) == Parent(d, index)
    {
      if lines[i].depth < lines[index].depth {
        return Some(i);
      }
    }
    return None;
  }

  method CollectCandidates(lines: seq<Line>, index: nat) returns (matched: seq<nat>, end: nat)
    requires index < |lines|
    ensures lines[index].event.Candidate? ==> MatchedFrom(lines, index, matched)
    ensures end == CandidatesEnd(lines, index, lines[index].depth) && matched == Matched(lines, index, end)
  {
    hide MatchedFrom;
    if lines[index].event.Candidate? {
      MatchedExact(lines, index);
    }
    matched := [];
    end := index;
    while end < |lines| && lines[end].depth == lines[index].depth && lines[end].event.Candidate?
      invariant index <= end <= |lines|
      invariant CandidatesEnd(lines, end, lines[index].depth) == CandidatesEnd(lines, index, lines[index].depth)
      invariant matched == Matched(lines, index, end)
    {
      if lines[end].event.permitted {
        matched := matched + [lines[end].event.index];
      }
      end := end + 1;
    }
  }
}
