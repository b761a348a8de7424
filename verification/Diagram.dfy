/** `buildDiagram` (app/frontend/src/lib/bart/diagram.ts): one pass over the lines of a trace with four
    pieces of state. `Advance` is one turn of the loop on values; `BuildDiagram` is the loop. */
module Diagram {
  import opened Lex
  import opened Steps
  import opened Forest
  import opened Readings

  // ----- State -----

  /** What the next run of candidates belongs to. */
  datatype Quantified = Quantified(kind: Quant, pattern: string, from: nat)

  /** The arrow that takes in repeated `policy N:` lines. */
  datatype Fan = Fan(policy: nat, depth: nat, step: nat, nodes: seq<nat>)

  /** `at` numbers the line that opened the frame. */
  datatype OpenFrame = OpenFrame(rule: string, depth: nat, composite: bool, lastResult: Option<bool>, at: nat)

  datatype State = State(
    i: nat,
    steps: seq<DiagramStep>,
    open: seq<nat>,
    quantified: Option<Quantified>,
    fan: Option<Fan>,
    frames: seq<OpenFrame>)

  const START := State(0, [], [], None, None, [])

  // ----- One turn of the loop -----

  /** The depths above, after `while (open[open.length - 1] >= depth) open.pop()`. */
  function CutOpen(open: seq<nat>, depth: nat): seq<nat> {
    if open != [] && open[|open| - 1] >= depth then CutOpen(open[..|open| - 1], depth) else open
  }

  function ClosingOutcome(frame: OpenFrame, line: Line): Option<bool> {
    if frame.lastResult.Some? then frame.lastResult
    else if line.event == Result then BooleanOutcome(line.outcome)
    else None
  }

  predicate LeavesFrame(frames: seq<OpenFrame>, depth: nat) {
    frames != [] && !frames[|frames| - 1].composite && depth < frames[|frames| - 1].depth
  }

  /** A single exchange is closed by the dedent out of its policy. */
  function LeftFrames(frames: seq<OpenFrame>, line: Line): (r: (seq<DiagramStep>, seq<OpenFrame>))
    ensures forall k :: 0 <= k < |r.0| ==> r.0[k].FrameClose?
  {
    if LeavesFrame(frames, line.depth) then
      var rest := LeftFrames(frames[..|frames| - 1], line);
      ([FrameClose(ClosingOutcome(frames[|frames| - 1], line))] + rest.0, rest.1)
    else ([], frames)
  }

  function NoteResult(frames: seq<OpenFrame>, line: Line): seq<OpenFrame> {
    if line.event == Result && frames != [] then
      var m := |frames| - 1;
      if !frames[m].composite && line.depth >= frames[m].depth then
        frames[m := frames[m].(lastResult := BooleanOutcome(line.outcome))]
      else frames
    else frames
  }

  predicate OutsideFan(fan: Option<Fan>, depth: nat) { fan.None? || fan.value.depth >= depth }

  function ClearFan(fan: Option<Fan>, depth: nat): Option<Fan> { if OutsideFan(fan, depth) then None else fan }

  /** A line that is no request: at most, it says whom the next candidates are for. */
  function ReadQuantifier(lines: seq<Line>, s: State): State
    requires s.i < |lines|
  {
    var line := lines[s.i];
    if line.quantified.None? then s.(i := s.i + 1)
    else
      var from := RequesterAhead(lines, s.i + 1, line.depth);
      s.(i := s.i + 1,
         quantified := if from.None? then None else Some(Quantified(line.quantified.value.0, line.quantified.value.1, from.value)),
         fan := ClearFan(s.fan, line.depth))
  }

  function ReadCandidates(lines: seq<Line>, s: State): State
    requires s.i < |lines| && lines[s.i].event.Candidate?
  {
    var e := CandidatesEnd(lines, s.i, lines[s.i].depth);
    s.(i := e,
       quantified := None,
       steps := if s.quantified.None? then s.steps
                else
                  var q := s.quantified.value;
                  s.steps + [Candidates(|s.open|, q.from, q.kind, q.pattern, Matched(lines, s.i, e), s.i)])
  }

  function Draw(lines: seq<Line>, s: State, outcome: Option<bool>, rule: Option<string>): State
    requires s.i < |lines| && lines[s.i].event.Evaluating? && lines[s.i].event.request.from.Party?
  {
    var r := lines[s.i].event.request;
    s.(i := s.i + 1,
       steps := s.steps + [Request(|s.open|, r.requester, r.from.index, r.resource, outcome, IfGranted(outcome, rule), [s.i])],
       open := s.open + [lines[s.i].depth])
  }

  /** The line restates the request of the fan's arrow: the policy tries its next rule. */
  predicate Restates(lines: seq<Line>, s: State)
    requires s.i < |lines| && lines[s.i].event.Evaluating?
  {
    s.fan.Some? && lines[s.i].event.request.policy == Some(s.fan.value.policy) && s.fan.value.depth == lines[s.i].depth
  }

  function Merge(lines: seq<Line>, s: State): State
    requires s.i < |lines| && s.fan.Some?
  {
    var f := s.fan.value.(nodes := s.fan.value.nodes + [s.i]);
    var outcome := SubtreeOutcome(lines, s.i);
    s.(i := s.i + 1,
       fan := Some(f),
       open := s.open + [lines[s.i].depth],
       steps := if f.step < |s.steps| && s.steps[f.step].Request?
                then s.steps[f.step := s.steps[f.step].(outcome := outcome,
                                                        grantedBy := IfGranted(outcome, AttemptedRule(lines, s.i)), lines := f.nodes)]
                else s.steps)
  }

  function ReadRequest(lines: seq<Line>, s: State): State
    requires s.i < |lines| && lines[s.i].event.Evaluating?
  {
    var r := lines[s.i].event.request;
    var depth := lines[s.i].depth;
    if r.from.Parties? then
      s.(i := s.i + 1, quantified := Some(Quantified(r.from.kind, r.from.pattern, r.requester)), fan := ClearFan(s.fan, depth))
    else if r.policy.None? then Draw(lines, s, SiblingResult(lines, s.i), GrantedRule(lines, s.i))
    else if !UnderQuantified(lines, s.i) then s.(i := s.i + 1)
    else if Restates(lines, s) then Merge(lines, s)
    else
      Draw(lines, s.(fan := Some(Fan(r.policy.value, depth, |s.steps|, [s.i]))), SubtreeOutcome(lines, s.i), AttemptedRule(lines, s.i))
  }

  function EnterFrame(s: State, policy: nat, operator: Operator, rule: string, depth: nat): State {
    s.(frames := s.frames + [OpenFrame(rule, depth, operator != Single, None, s.i)],
       steps := s.steps + [FrameOpen(policy, operator, rule)])
  }

  predicate OperandOf(frames: seq<OpenFrame>, rule: string) { frames != [] && frames[|frames| - 1].rule == rule }

  function ReadEvent(lines: seq<Line>, s: State): State
    requires s.i < |lines|
  {
    match lines[s.i].event
    case EndExchange(_, permitted) =>
      s.(i := s.i + 1, steps := s.steps + [FrameClose(Some(permitted))],
         frames := if s.frames == [] then [] else s.frames[..|s.frames| - 1])
    case Connector(_) =>
      s.(i := s.i + 1, steps := if s.frames == [] then s.steps else s.steps + [FrameSeparator])
    case Composite(policy, rule, conjunction) =>
      EnterFrame(s, policy, if conjunction then And else Or, rule, lines[s.i].depth).(i := s.i + 1)
    case Exchange(policy, rule) =>
      ReadQuantifier(lines, if OperandOf(s.frames, rule) then s else EnterFrame(s, policy, Single, rule, lines[s.i].depth))
    case Candidate(_, _) => ReadCandidates(lines, s)
    case Compliant(r) =>
      if r.from.Party? then
        s.(i := s.i + 1, steps := s.steps + [Cycle(|s.open|, r.requester, r.from.index, r.resource, s.i)])
      else ReadQuantifier(lines, s)
    case Evaluating(_) => ReadRequest(lines, s)
    case _ => ReadQuantifier(lines, s)
  }

  /** What happens before the line itself is read: arrows and single frames it dedents out of close. */
  function Dedent(lines: seq<Line>, s: State): State
    requires s.i < |lines|
  {
    var line := lines[s.i];
    var left := LeftFrames(s.frames, line);
    s.(open := CutOpen(s.open, line.depth), steps := s.steps + left.0, frames := NoteResult(left.1, line))
  }

  function Advance(lines: seq<Line>, s: State): (t: State)
    requires s.i < |lines|
    ensures s.i < t.i <= |lines| && |s.steps| <= |t.steps|
  {
    ReadEvent(lines, Dedent(lines, s))
  }

  /** The state after `n` turns, or after as many as there are. */
  function After(lines: seq<Line>, n: nat): (s: State)
    ensures s.i <= |lines| && (s.i < |lines| ==> n <= s.i)
  {
    if n == 0 then START
    else
      var s := After(lines, n - 1);
      if s.i < |lines| then Advance(lines, s) else s
  }

  function StepsOf(lines: seq<Line>): seq<DiagramStep> { After(lines, |lines|).steps }

  // ----- The loop of the source -----

  method PopOpen(start: seq<nat>, depth: nat) returns (open: seq<nat>)
    ensures open == CutOpen(start, depth)
  {
    open := start;
    while open != [] && open[|open| - 1] >= depth
      invariant CutOpen(open, depth) == CutOpen(start, depth)
    {
      open := open[..|open| - 1];
    }
  }

  method CloseFrames(before: seq<DiagramStep>, start: seq<OpenFrame>, line: Line) returns (steps: seq<DiagramStep>, frames: seq<OpenFrame>)
    ensures var left := LeftFrames(start, line); steps == before + left.0 && frames == left.1
  {
    steps, frames := before, start;
    while |frames| > 0
      invariant before + LeftFrames(start, line).0 == steps + LeftFrames(frames, line).0
      invariant LeftFrames(start, line).1 == LeftFrames(frames, line).1
    {
      var top := frames[|frames| - 1];
      if top.composite || line.depth >= top.depth {
        break;
      }
      steps := steps + [FrameClose(ClosingOutcome(top, line))];
      frames := frames[..|frames| - 1];
    }
  }

  /** The rest of a turn on a line that may carry a quantifier. */
  method TakeQuantifier(lines: seq<Line>, i: nat, quantified: Option<Quantified>, fan: Option<Fan>, ghost s: State)
    returns (quantifiedAfter: Option<Quantified>, fanAfter: Option<Fan>)
    requires i < |lines| && s.i == i && s.quantified == quantified && s.fan == fan
    ensures ReadQuantifier(lines, s) == s.(i := i + 1, quantified := quantifiedAfter, fan := fanAfter)
  {
    quantifiedAfter, fanAfter := quantified, fan;
    var line := lines[i];
    if line.quantified.Some? {
      var from := FindRequester(lines, i + 1, line.depth);
      quantifiedAfter := if from.None? then None else Some(Quantified(line.quantified.value.0, line.quantified.value.1, from.value));
      if OutsideFan(fan, line.depth) {
        fanAfter := None;
      }
    }
  }

  method BuildDiagram(lines: seq<Line>) returns (steps: seq<DiagramStep>)
    ensures steps == StepsOf(lines)
  {
    hide After, Advance, ReadEvent, Dedent;
    steps := [];
    var open: seq<nat>, frames: seq<OpenFrame> := [], [];
    var quantified: Option<Quantified>, fan: Option<Fan> := None, None;
    var i := 0;
    ghost var n := 0;
    AfterNone(lines);
    while i < |lines|
      invariant n <= i <= |lines|
      invariant After(lines, n) == State(i, steps, open, quantified, fan, frames)
    {
      AfterOne(lines, n);
      n := n + 1;
      i, steps, open, quantified, fan, frames := Turn(lines, i, steps, open, quantified, fan, frames);
    }
    AfterEnd(lines, n, |lines|);
  }

  lemma AfterNone(lines: seq<Line>)
    ensures After(lines, 0) == START
  {
  }

  lemma AfterOne(lines: seq<Line>, n: nat)
    requires After(lines, n).i < |lines|
    ensures After(lines, n + 1) == Advance(lines, After(lines, n))
  {
  }

  lemma {:induction false} AfterEnd(lines: seq<Line>, m: nat, n: nat)
    requires m <= n && After(lines, m).i == |lines|
    ensures After(lines, n) == After(lines, m)
  {
    hide Advance;
    if m < n {
      AfterEnd(lines, m, n - 1);
    }
  }

  lemma DedentIs(lines: seq<Line>, s: State)
    requires s.i < |lines|
    ensures var left := LeftFrames(s.frames, lines[s.i]);
            Dedent(lines, s) == s.(open := CutOpen(s.open, lines[s.i].depth), steps := s.steps + left.0, frames := NoteResult(left.1, lines[s.i]))
  {
    hide CutOpen, LeftFrames, NoteResult;
  }

  /** The body of the loop. */
  method Turn(
      lines: seq<Line>, index: nat, before: seq<DiagramStep>, openBefore: seq<nat>,
      quantifiedBefore: Option<Quantified>, fanBefore: Option<Fan>, framesBefore: seq<OpenFrame>)
    returns (i: nat, steps: seq<DiagramStep>, open: seq<nat>, quantified: Option<Quantified>, fan: Option<Fan>, frames: seq<OpenFrame>)
    requires index < |lines|
    ensures State(i, steps, open, quantified, fan, frames)
         == Advance(lines, State(index, before, openBefore, quantifiedBefore, fanBefore, framesBefore))
  {
    hide Dedent, CutOpen, LeftFrames, NoteResult, MatchedFrom, Matched, CandidatesEnd, RequesterAhead, ReadRequest, DepthsOf;
    i, steps, open, quantified, fan, frames := index, before, openBefore, quantifiedBefore, fanBefore, framesBefore;
    var line := lines[i];
    DedentIs(lines, State(i, steps, open, quantified, fan, frames));
    open := PopOpen(open, line.depth);
    var level := |open|;
    steps, frames := CloseFrames(steps, frames, line);
    frames := NoteResult(frames, line);
    ghost var s := State(i, steps, open, quantified, fan, frames);
    match line.event
    case EndExchange(_, permitted) =>
      steps := steps + [FrameClose(Some(permitted))];
      if |frames| > 0 {
        frames := frames[..|frames| - 1];
      }
      i := i + 1;
    case Connector(_) =>
      if |frames| > 0 {
        steps := steps + [FrameSeparator];
      }
      i := i + 1;
    case Composite(policy, rule, conjunction) =>
      frames := frames + [OpenFrame(rule, line.depth, true, None, i)];
      steps := steps + [FrameOpen(policy, if conjunction then And else Or, rule)];
      i := i + 1;
    case Exchange(policy, rule) =>
      if !(|frames| > 0 && frames[|frames| - 1].rule == rule) {
        frames := frames + [OpenFrame(rule, line.depth, false, None, i)];
        steps := steps + [FrameOpen(policy, Single, rule)];
      }
      quantified, fan := TakeQuantifier(lines, i, quantified, fan, State(i, steps, open, quantified, fan, frames));
      i := i + 1;
    case Candidate(_, _) =>
      var matched, end := CollectCandidates(lines, i);
      if quantified.Some? {
        var q := quantified.value;
        steps := steps + [Candidates(level, q.from, q.kind, q.pattern, matched, i)];
      }
      quantified := None;
      i := end;
    case Compliant(request) =>
      if request.from.Party? {
        steps := steps + [Cycle(level, request.requester, request.from.index, request.resource, i)];
      } else {
        quantified, fan := TakeQuantifier(lines, i, quantified, fan, s);
      }
      i := i + 1;
    case Evaluating(request) =>
      steps, open, quantified, fan := TakeRequest(lines, i, steps, open, quantified, fan, frames);
      i := i + 1;
    case _ =>
      quantified, fan := TakeQuantifier(lines, i, quantified, fan, s);
      i := i + 1;
  }

  method TakeRequest(
      lines: seq<Line>, i: nat, stepsBefore: seq<DiagramStep>, openBefore: seq<nat>,
      quantifiedBefore: Option<Quantified>, fanBefore: Option<Fan>, ghost frames: seq<OpenFrame>)
    returns (steps: seq<DiagramStep>, open: seq<nat>, quantified: Option<Quantified>, fan: Option<Fan>)
    requires i < |lines| && lines[i].event.Evaluating?
    ensures State(i + 1, steps, open, quantified, fan, frames)
         == ReadRequest(lines, State(i, stepsBefore, openBefore, quantifiedBefore, fanBefore, frames))
  {
    hide SubtreeOutcome, SiblingResult, AttemptedRule, GrantedRule, OutcomeBelow, OutcomeBeside, Attempts, Grants, IfGranted, DepthsOf, Parent;
    steps, open, quantified, fan := stepsBefore, openBefore, quantifiedBefore, fanBefore;
    var request := lines[i].event.request;
    var depth := lines[i].depth;
    if request.from.Parties? {
      quantified := Some(Quantified(request.from.kind, request.from.pattern, request.requester));
      if OutsideFan(fan, depth) {
        fan := None;
      }
      return;
    }
    var parent := FindParent(lines, i);
    var underQuantified := parent.Some? && AsksParties(lines[parent.value]);
    if request.policy.Some? && !underQuantified {
      return;
    }
    var outcome;
    var rule;
    if request.policy.Some? {
      outcome := FindSubtreeOutcome(lines, i);
      rule := FindAttemptedRule(lines, i);
      if fan.Some? && fan.value.policy == request.policy.value && fan.value.depth == depth {
        fan := Some(fan.value.(nodes := fan.value.nodes + [i]));
        var k := fan.value.step;
        if k < |steps| && steps[k].Request? {
          steps := steps[k := steps[k].(outcome := outcome, grantedBy := IfGranted(outcome, rule), lines := fan.value.nodes)];
        }
        open := open + [depth];
        return;
      }
      fan := Some(Fan(request.policy.value, depth, |steps|, [i]));
    } else {
      outcome := FindSiblingResult(lines, i);
      rule := FindGrantedRule(lines, i);
    }
    steps := steps + [Request(|open|, request.requester, request.from.index, request.resource, outcome, IfGranted(outcome, rule), [i])];
    open := open + [depth];
  }
}
