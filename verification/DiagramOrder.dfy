/** Where each step of `buildDiagram` (app/frontend/src/lib/bart/diagram.ts) comes from: the steps stand in
    the order of the turns that made them, every marker says what the line of its turn says, and a single
    exchange closes with the last result noted in it. */
module DiagramOrder {
  import opened Lex
  import opened Steps
  import opened Readings
  import opened Diagram
  import opened DiagramLaws

  // ----- Results noted -----

  /** The line that opened the innermost frame, once turn `n` has closed what it leaves. */
  function Innermost(lines: seq<Line>, n: nat): Option<nat> {
    var s := After(lines, n);
    if s.i >= |lines| then None
    else
      var left := LeftFrames(s.frames, lines[s.i]).1;
      if left == [] then None else Some(left[|left| - 1].at)
  }

  /** Turn `n` reads a result while the frame opened by line `a` is innermost, on a line no shallower. */
  predicate NotesIn(lines: seq<Line>, n: nat, a: nat)
    requires a < |lines|
  {
    var s := After(lines, n);
    s.i < |lines| && lines[s.i].event == Result && lines[s.i].depth >= lines[a].depth && Innermost(lines, n) == Some(a)
  }

  /** What the last of those before turn `n` states. */
  function LastNoted(lines: seq<Line>, n: nat, a: nat): Option<bool>
    requires a < |lines|
  {
    if n == 0 then None
    else if NotesIn(lines, n - 1, a) then BooleanOutcome(lines[After(lines, n - 1).i].outcome)
    else LastNoted(lines, n - 1, a)
  }

  /** Turn `m` is the last before turn `n` to read a result in the frame that line `a` opened, and reads `b`. */
  ghost predicate LastNotes(lines: seq<Line>, n: nat, a: nat, m: nat, b: bool)
    requires a < |lines|
  {
    && m < n && NotesIn(lines, m, a) && lines[After(lines, m).i].outcome == Stated(b)
    && forall j :: m < j < n ==> !NotesIn(lines, j, a)
  }

  /** That result is `b`; or none was read, or the last one states nothing. */
  ghost predicate NotedLast(lines: seq<Line>, n: nat, a: nat, noted: Option<bool>)
    requires a < |lines|
  {
    forall b :: noted == Some(b) <==> exists m: nat :: LastNotes(lines, n, a, m, b)
  }

  lemma {:induction false} LastNotedIs(lines: seq<Line>, n: nat, a: nat)
    requires a < |lines|
    ensures NotedLast(lines, n, a, LastNoted(lines, n, a))
  {
    hide After, NotesIn;
    if n == 0 {
    } else if NotesIn(lines, n - 1, a) {
      NotesResult(lines, n - 1, a);
      assert forall m: nat, b :: LastNotes(lines, n, a, m, b) <==> m == n - 1 && lines[After(lines, m).i].outcome == Stated(b);
    } else {
      LastNotedIs(lines, n - 1, a);
      NotedStill(lines, n - 1, a, LastNoted(lines, n - 1, a));
    }
  }

  lemma NotedStill(lines: seq<Line>, n: nat, a: nat, noted: Option<bool>)
    requires a < |lines| && !NotesIn(lines, n, a) && NotedLast(lines, n, a, noted)
    ensures NotedLast(lines, n + 1, a, noted)
  {
    hide After, NotesIn;
    var next := n + 1;
    forall b
      ensures noted == Some(b) <==> exists m: nat :: LastNotes(lines, next, a, m, b)
    {
      if noted == Some(b) {
        var m: nat :| LastNotes(lines, n, a, m, b);
        assert LastNotes(lines, next, a, m, b);
      }
      if m: nat :| LastNotes(lines, next, a, m, b) {
        assert LastNotes(lines, n, a, m, b);
      }
    }
  }

  lemma NotesResult(lines: seq<Line>, n: nat, a: nat)
    requires a < |lines| && NotesIn(lines, n, a)
    ensures After(lines, n).i < |lines|
  {
    hide After, Innermost;
  }

  lemma LastNotedExact(lines: seq<Line>, n: nat, a: nat, noted: Option<bool>)
    requires a < |lines|
    ensures noted == LastNoted(lines, n, a) <==> NotedLast(lines, n, a, noted)
  {
    hide After, NotesIn, LastNotes, LastNoted;
    LastNotedIs(lines, n, a);
    if NotedLast(lines, n, a, noted) {
      var found := LastNoted(lines, n, a);
      forall b
        ensures found == Some(b) <==> noted == Some(b)
      {
        assert found == Some(b) <==> exists m: nat :: LastNotes(lines, n, a, m, b);
      }
      SomeSame(found, noted);
    }
  }

  ghost predicate NotedFrame(lines: seq<Line>, n: nat, f: OpenFrame) {
    && f.at < |lines| && lines[f.at].depth == f.depth
    && f.lastResult == if f.composite then None else LastNoted(lines, n, f.at)
  }

  /** Frames were opened one after another, and each single one holds the last result noted in it. */
  ghost predicate AllExact(lines: seq<Line>, n: nat, frames: seq<OpenFrame>, before: nat) {
    && (forall m :: 0 <= m < |frames| ==> NotedFrame(lines, n, frames[m]) && frames[m].at < before)
    && (forall l, m :: 0 <= l < m < |frames| ==> frames[l].at < frames[m].at)
  }

  lemma {:induction false} ExactAfter(lines: seq<Line>, n: nat)
    ensures AllExact(lines, n, After(lines, n).frames, After(lines, n).i)
    decreases n, 1
  {
    hide NotedFrame, After, Dedent, ReadEvent;
    AfterNone(lines);
    if n == 0 {
    } else {
      ExactAfter(lines, n - 1);
      var s := After(lines, n - 1);
      if s.i < |lines| {
        AfterOne(lines, n - 1);
        DedentOpen(lines, s);
        ExactDedent(lines, n - 1);
        NothingNotedYet(lines, n - 1, s.i);
        ExactEvent(lines, n, Dedent(lines, s));
      } else {
        AfterEnd(lines, n - 1, n);
        ExactIdle(lines, n - 1);
      }
    }
  }

  lemma ExactIdle(lines: seq<Line>, n: nat)
    requires After(lines, n).i >= |lines| && AllExact(lines, n, After(lines, n).frames, After(lines, n).i)
    ensures AllExact(lines, n + 1, After(lines, n).frames, After(lines, n).i)
  {
    hide After, Innermost;
    var frames := After(lines, n).frames;
    forall m | 0 <= m < |frames|
      ensures NotedFrame(lines, n + 1, frames[m])
    {
      assert NotedFrame(lines, n, frames[m]);
    }
  }

  /** Nothing was noted in a frame before the line that opens it. */
  lemma {:induction false} NothingNotedYet(lines: seq<Line>, n: nat, a: nat)
    requires a < |lines| && After(lines, n).i <= a
    ensures LastNoted(lines, n + 1, a) == None
    decreases n, 0
  {
    hide After, LeftFrames, NotedFrame, Advance;
    OpenedBefore(lines, n, a);
    if n == 0 {
    } else {
      AfterGrows(lines, n - 1);
      NothingNotedYet(lines, n - 1, a);
    }
  }

  lemma {:induction false} OpenedBefore(lines: seq<Line>, n: nat, a: nat)
    requires After(lines, n).i <= a < |lines|
    ensures Innermost(lines, n) != Some(a)
    decreases n, 2
  {
    hide After, LeftFrames;
    FramesOpenedBefore(lines, n);
    LeftExact(After(lines, n).frames, lines[After(lines, n).i]);
  }

  lemma {:induction false} FramesOpenedBefore(lines: seq<Line>, n: nat)
    ensures forall m :: 0 <= m < |After(lines, n).frames| ==> After(lines, n).frames[m].at < After(lines, n).i
  {
    hide After, StepsFan, OpenInv, QuantifierAt, FramesInv, StatedIn;
    InvAfter(lines, n);
    var s := After(lines, n);
    forall m | 0 <= m < |s.frames|
      ensures s.frames[m].at < s.i
    {
      assert Noted(lines, s.i, s.frames[m]);
    }
  }

  lemma AfterGrows(lines: seq<Line>, n: nat)
    ensures After(lines, n).i <= After(lines, n + 1).i
  {
    hide Advance;
  }

  /** What a turn's dedent leaves is exact with the turn's own result noted. */
  lemma ExactDedent(lines: seq<Line>, n: nat)
    requires var s := After(lines, n); s.i < |lines| && AllExact(lines, n, s.frames, s.i)
    ensures var s := After(lines, n); AllExact(lines, n + 1, Dedent(lines, s).frames, s.i)
  {
    hide After, LeftFrames, CutOpen;
    var s := After(lines, n);
    var line := lines[s.i];
    var left := LeftFrames(s.frames, line).1;
    var after := NoteResult(left, line);
    LeftExact(s.frames, line);
    forall m | 0 <= m < |after|
      ensures NotedFrame(lines, n + 1, after[m]) && after[m].at == left[m].at
    {
      assert left[m] == s.frames[m];
      assert NotedFrame(lines, n, s.frames[m]);
    }
  }

  /** A turn drops the innermost frame, or opens one, or leaves the frames as they are. */
  lemma EventFrames(lines: seq<Line>, s: State)
    requires s.i < |lines|
    ensures var t := ReadEvent(lines, s);
            || t.frames == s.frames
            || (s.frames != [] && t.frames == s.frames[..|s.frames| - 1])
            || (&& |t.frames| == |s.frames| + 1 && t.frames[..|s.frames|] == s.frames
                && var f := t.frames[|s.frames|];
                   && f.at == s.i && f.depth == lines[s.i].depth && f.lastResult == None
                   && (lines[s.i].event.Composite? || lines[s.i].event.Exchange?))
  {
    hide UnderQuantified, ReadQuantifier, ReadCandidates, ReadRequest;
    match lines[s.i].event
    case Exchange(policy, rule) =>
      QuantifierTurn(lines, if OperandOf(s.frames, rule) then s else EnterFrame(s, policy, Single, rule, lines[s.i].depth));
    case Candidate(_, _) => CandidatesTurn(lines, s);
    case Evaluating(_) => RequestFrames(lines, s);
    case _ => QuantifierTurn(lines, s);
  }

  lemma ExactEvent(lines: seq<Line>, n: nat, s: State)
    requires s.i < |lines| && AllExact(lines, n, s.frames, s.i) && LastNoted(lines, n, s.i) == None
    ensures AllExact(lines, n, ReadEvent(lines, s).frames, ReadEvent(lines, s).i)
  {
    hide ReadEvent, LastNoted;
    var t := ReadEvent(lines, s);
    EventFrames(lines, s);
    EventOpen(lines, s);
    if |t.frames| > |s.frames| {
      assert forall m :: 0 <= m < |s.frames| ==> t.frames[m] == t.frames[..|s.frames|][m];
    }
  }

  // ----- Where steps come from -----

  /** The line a step that is no marker stands for first. */
  function First(step: DiagramStep): nat
    requires !Marker(step) && (step.Request? ==> step.lines != [])
  {
    match step
    case Request(_, _, _, _, _, _, ls) => ls[0]
    case Candidates(_, _, _, _, _, at) => at
    case Cycle(_, _, _, _, at) => at
  }

  /** Turn `n` closes by dedent the single exchange that line `a` opened: with the last result noted in it
      or, if none was, with the one the line states. */
  ghost predicate ClosesByDedent(lines: seq<Line>, n: nat, a: nat, closing: Option<bool>) {
    var s := After(lines, n);
    && s.i < |lines| && a < s.i && lines[a].event.Exchange? && lines[s.i].depth < lines[a].depth
    && exists noted ::
         && NotedLast(lines, n, a, noted)
         && closing == if noted.Some? then noted
                       else if lines[s.i].event == Result then BooleanOutcome(lines[s.i].outcome)
                       else None
  }

  /** The step is one that turn `n` makes of its line. */
  ghost predicate MadeIn(lines: seq<Line>, step: DiagramStep, n: nat) {
    var s := After(lines, n);
    && s.i < |lines|
    && var event := lines[s.i].event;
       if step.FrameOpen? then
         event == if step.operator == Single then Exchange(step.policy, step.rule) else Composite(step.policy, step.rule, step.operator == And)
       else if step.FrameSeparator? then event.Connector?
       else if step.FrameClose? then
         (event.EndExchange? && step.closing == Some(event.permitted)) || exists a: nat :: ClosesByDedent(lines, n, a, step.closing)
       else (step.Request? ==> step.lines != []) && First(step) == s.i
  }

  /** The marker that turn `n` owes its line, if any: dedents aside, no more and no less. */
  function Own(lines: seq<Line>, n: nat): Option<DiagramStep> {
    var s := After(lines, n);
    if s.i >= |lines| then None else OwnOf(lines[s.i], LeftFrames(s.frames, lines[s.i]).1)
  }

  function OwnOf(line: Line, frames: seq<OpenFrame>): Option<DiagramStep> {
    match line.event
    case EndExchange(_, permitted) => Some(FrameClose(Some(permitted)))
    case Connector(_) => if frames == [] then None else Some(FrameSeparator)
    case Composite(policy, rule, conjunction) => Some(FrameOpen(policy, if conjunction then And else Or, rule))
    case Exchange(policy, rule) => if OperandOf(frames, rule) then None else Some(FrameOpen(policy, Single, rule))
    case _ => None
  }

  /** The turn that made each of the steps so far. */
  function Turns(lines: seq<Line>, n: nat): (turns: seq<nat>)
    ensures |turns| == |After(lines, n).steps|
  {
    if n == 0 then []
    else
      var s := After(lines, n - 1);
      Turns(lines, n - 1) + seq(|After(lines, n).steps| - |s.steps|, _ => n - 1)
  }

  /** A merge changes neither the first line of a step nor any marker. */
  predicate Same(a: DiagramStep, b: DiagramStep) {
    a == b || (a.Request? && b.Request? && a.lines != [] && b.lines != [] && a.lines[0] == b.lines[0])
  }

  lemma MadeStill(lines: seq<Line>, a: DiagramStep, b: DiagramStep, n: nat)
    requires Same(a, b) && MadeIn(lines, a, n)
    ensures MadeIn(lines, b, n)
  {
    hide After;
  }

  lemma ClosesAreMade(lines: seq<Line>, n: nat, j: nat)
    requires After(lines, n).i < |lines|
    requires var s := After(lines, n); j < |LeftFrames(s.frames, lines[s.i]).0|
    ensures var s := After(lines, n); MadeIn(lines, LeftFrames(s.frames, lines[s.i]).0[j], n)
  {
    hide After, LeftFrames, LastNoted, NotedLast, StepsFan, OpenInv, QuantifierAt, FramesInv, StatedIn;
    var s := After(lines, n);
    var line := lines[s.i];
    ExactAfter(lines, n);
    InvAfter(lines, n);
    LeftExact(s.frames, line);
    var f := s.frames[|s.frames| - 1 - j];
    var close := LeftFrames(s.frames, line).0[j];
    assert ClosesSingle(close, f, line);
    assert NotedFrame(lines, n, f) && Noted(lines, s.i, f);
    LastNotedIs(lines, n, f.at);
    assert ClosesByDedent(lines, n, f.at, close.closing);
  }

  /** What the event of a line adds to the steps. */
  ghost predicate Added(lines: seq<Line>, s: State, t: State)
    requires s.i < |lines|
  {
    && |s.steps| <= |t.steps|
    && (forall m :: 0 <= m < |s.steps| ==> Same(s.steps[m], t.steps[m]))
    && var own := OwnOf(lines[s.i], s.frames);
       if own.Some? then t.steps == s.steps + [own.value]
       else forall m :: |s.steps| <= m < |t.steps| ==>
              && !Marker(t.steps[m]) && (t.steps[m].Request? ==> t.steps[m].lines != []) && First(t.steps[m]) == s.i
  }

  lemma EventAdds(lines: seq<Line>, s: State)
    requires s.i < |lines| && FanInv(lines, s.i, s.steps, s.fan)
    ensures Added(lines, s, ReadEvent(lines, s))
  {
    hide UnderQuantified, ReadQuantifier, ReadCandidates, ReadRequest, NothingAsked;
    match lines[s.i].event
    case Exchange(policy, rule) =>
      QuantifierTurn(lines, if OperandOf(s.frames, rule) then s else EnterFrame(s, policy, Single, rule, lines[s.i].depth));
    case Candidate(_, _) => CandidatesTurn(lines, s);
    case Evaluating(_) => RequestAdds(lines, s);
    case _ => QuantifierTurn(lines, s);
  }

  lemma RequestAdds(lines: seq<Line>, s: State)
    requires s.i < |lines| && lines[s.i].event.Evaluating? && FanInv(lines, s.i, s.steps, s.fan)
    ensures Added(lines, s, ReadRequest(lines, s))
  {
    hide UnderQuantified, SubtreeOutcome, SiblingResult, AttemptedRule, GrantedRule, NothingAsked;
  }

  /** Every step so far was made by the turn it is put down to, in the order of turns, and every turn has
      made the marker it owes. */
  ghost predicate Ordered(lines: seq<Line>, n: nat) {
    var steps, turns := After(lines, n).steps, Turns(lines, n);
    && (forall m :: 0 <= m < |steps| ==> turns[m] < n && MadeIn(lines, steps[m], turns[m]))
    && (forall l, m :: 0 <= l < m < |steps| ==> turns[l] <= turns[m])
    && (forall k :: 0 <= k < n && Own(lines, k).Some? ==> Paid(steps, turns, k, Own(lines, k).value))
  }

  ghost predicate Paid(steps: seq<DiagramStep>, turns: seq<nat>, k: nat, step: DiagramStep) {
    exists m :: 0 <= m < |steps| && m < |turns| && turns[m] == k && steps[m] == step
  }

  lemma TurnsNext(lines: seq<Line>, n: nat)
    requires |After(lines, n).steps| <= |After(lines, n + 1).steps|
    ensures Turns(lines, n + 1) == Turns(lines, n) + seq(|After(lines, n + 1).steps| - |After(lines, n).steps|, _ => n)
  {
    hide After;
  }

  /** What one turn adds: the closes of its dedent, then what its line makes. */
  lemma TurnAdds(lines: seq<Line>, n: nat)
    requires After(lines, n).i < |lines|
    ensures var s, t := After(lines, n), After(lines, n + 1);
            && |s.steps| <= |t.steps|
            && (forall m :: 0 <= m < |s.steps| ==> Same(s.steps[m], t.steps[m]))
            && (forall m :: |s.steps| <= m < |t.steps| ==> MadeIn(lines, t.steps[m], n))
            && (Own(lines, n).Some? ==> |t.steps| > |s.steps| && t.steps[|t.steps| - 1] == Own(lines, n).value)
  {
    hide After, ReadEvent, Dedent, LeftFrames, OpenInv, QuantifierAt, FramesInv, AllNoted, StepsInv, FanKnown, FanInv, MadeIn, OwnOf, Same;
    AfterOne(lines, n);
    InvAfter(lines, n);
    var s := After(lines, n);
    var d := Dedent(lines, s);
    DedentOpen(lines, s);
    var t := ReadEvent(lines, d);
    DedentSteps(lines, s);
    EventAdds(lines, d);
    DedentOwn(lines, s);
    forall m | |s.steps| <= m < |t.steps|
      ensures MadeIn(lines, t.steps[m], n)
    {
      if m < |d.steps| {
        ClosesAreMade(lines, n, m - |s.steps|);
        assert Same(d.steps[m], t.steps[m]);
        MadeStill(lines, d.steps[m], t.steps[m], n);
      } else {
        AddedIsMade(lines, n, d, t, m);
      }
    }
    forall m | 0 <= m < |s.steps|
      ensures Same(s.steps[m], t.steps[m])
    {
      assert Same(d.steps[m], t.steps[m]);
    }
  }

  /** Noting a result changes nothing that decides which marker the line makes. */
  lemma DedentOwn(lines: seq<Line>, s: State)
    requires s.i < |lines|
    ensures OwnOf(lines[s.i], Dedent(lines, s).frames) == OwnOf(lines[s.i], LeftFrames(s.frames, lines[s.i]).1)
  {
    hide LeftFrames, CutOpen;
  }

  lemma AddedIsMade(lines: seq<Line>, n: nat, s: State, t: State, m: nat)
    requires s.i == After(lines, n).i && s.i < |lines| && Added(lines, s, t) && |s.steps| <= m < |t.steps|
    ensures MadeIn(lines, t.steps[m], n)
  {
    hide After, NotedLast, Same;
  }

  lemma {:induction false} OrderedAfter(lines: seq<Line>, n: nat)
    ensures Ordered(lines, n)
  {
    hide After, Turns, MadeIn, Own, Same;
    AfterNone(lines);
    if n == 0 {
    } else {
      OrderedAfter(lines, n - 1);
      OrderedNext(lines, n - 1);
    }
  }

  lemma OrderedNext(lines: seq<Line>, n: nat)
    requires Ordered(lines, n)
    ensures Ordered(lines, n + 1)
  {
    hide After, Turns, MadeIn, Same, OwnOf, LeftFrames;
    if After(lines, n).i < |lines| {
      TurnAdds(lines, n);
    } else {
      AfterEnd(lines, n, n + 1);
    }
    TurnsNext(lines, n);
    var before, after := After(lines, n).steps, After(lines, n + 1).steps;
    var was, turns := Turns(lines, n), Turns(lines, n + 1);
    assert |was| == |before| && |turns| == |after|;
    forall m | 0 <= m < |after|
      ensures turns[m] < n + 1 && MadeIn(lines, after[m], turns[m])
    {
      if m < |before| {
        assert turns[m] == was[m] && MadeIn(lines, before[m], was[m]);
        if After(lines, n).i < |lines| {
          MadeStill(lines, before[m], after[m], was[m]);
        }
      } else {
        assert turns[m] == n;
      }
    }
    forall k | 0 <= k < n + 1 && Own(lines, k).Some?
      ensures Paid(after, turns, k, Own(lines, k).value)
    {
      if k < n {
        PaidStill(lines, n, k);
      } else {
        assert turns[|after| - 1] == n;
      }
    }
    forall l, m | 0 <= l < m < |after|
      ensures turns[l] <= turns[m]
    {
      assert l < |before| ==> turns[l] == was[l];
    }
  }

  lemma PaidStill(lines: seq<Line>, n: nat, k: nat)
    requires Ordered(lines, n) && k < n && Own(lines, k).Some?
    requires var before, after := After(lines, n).steps, After(lines, n + 1).steps;
             |before| <= |after| && forall m :: 0 <= m < |before| ==> Same(before[m], after[m]) || before[m] == after[m]
    ensures Paid(After(lines, n + 1).steps, Turns(lines, n + 1), k, Own(lines, k).value)
  {
    hide After, Turns, MadeIn, LeftFrames;
    TurnsNext(lines, n);
    var before, turns := After(lines, n).steps, Turns(lines, n);
    var m :| 0 <= m < |before| && m < |turns| && turns[m] == k && before[m] == Own(lines, k).value;
    assert Marker(before[m]);
  }

  /** The diagram of every trace stands in the order of the lines. Its steps come from turns that never go
      back; each is made of the line of its turn, markers included; every turn makes the marker it owes; and
      the lines that arrows, candidates and cycles stand for first strictly increase. */
  lemma StepsInOrder(lines: seq<Line>)
    ensures var steps, turns := StepsOf(lines), Turns(lines, |lines|);
            && |turns| == |steps|
            && (forall m :: 0 <= m < |steps| ==> MadeIn(lines, steps[m], turns[m]))
            && (forall l, m :: 0 <= l < m < |steps| ==> turns[l] <= turns[m])
            && (forall k :: 0 <= k < |lines| && Own(lines, k).Some? ==> Paid(steps, turns, k, Own(lines, k).value))
            && (forall l, m :: 0 <= l < m < |steps| && !Marker(steps[l]) && !Marker(steps[m]) ==>
                  First(steps[l]) < First(steps[m]))
  {
    hide After, Turns, Own, StepOk, Shown, SpokenFor, Apart, MadeIn;
    OrderedAfter(lines, |lines|);
    DiagramExact(lines);
    var steps, turns := StepsOf(lines), Turns(lines, |lines|);
    forall l, m | 0 <= l < m < |steps| && !Marker(steps[l]) && !Marker(steps[m])
      ensures (steps[l].Request? ==> steps[l].lines != []) && (steps[m].Request? ==> steps[m].lines != [])
      ensures First(steps[l]) < First(steps[m])
    {
      FirstOfTurn(lines, steps[l], turns[l]);
      FirstOfTurn(lines, steps[m], turns[m]);
      LinesGrow(lines, turns[l], turns[m]);
      FirstsDiffer(steps[l], steps[m]);
    }
    forall m | 0 <= m < |steps| && steps[m].Request?
      ensures steps[m].lines != []
    {
      FirstOfTurn(lines, steps[m], turns[m]);
    }
  }

  lemma FirstOfTurn(lines: seq<Line>, step: DiagramStep, n: nat)
    requires MadeIn(lines, step, n) && !Marker(step)
    ensures (step.Request? ==> step.lines != []) && First(step) == After(lines, n).i
  {
    hide After;
  }

  lemma FirstsDiffer(a: DiagramStep, b: DiagramStep)
    requires Apart(a, b) && !Marker(a) && !Marker(b)
    requires (a.Request? ==> a.lines != []) && (b.Request? ==> b.lines != [])
    ensures First(a) != First(b)
  {
    assert Speaks(a, First(a)) && Speaks(b, First(b));
  }

  lemma {:induction false} LinesGrow(lines: seq<Line>, m: nat, n: nat)
    requires m <= n
    ensures After(lines, m).i <= After(lines, n).i
    decreases n
  {
    hide After;
    if m == n {
    } else {
      LinesGrow(lines, m, n - 1);
      AfterGrows(lines, n - 1);
    }
  }

  /** Every close made by a dedent, at every turn, is that of a single exchange, with the last result that a
      line no shallower stated while that exchange was the innermost frame, or else with the result of the
      line that closes it. */
  lemma SingleOutcomesExact(lines: seq<Line>, n: nat, j: nat)
    requires After(lines, n).i < |lines|
    requires j < |LeftFrames(After(lines, n).frames, lines[After(lines, n).i]).0|
    ensures var s := After(lines, n);
            var close := LeftFrames(s.frames, lines[s.i]).0[j];
            && close.FrameClose? && j < |s.frames|
            && ClosesByDedent(lines, n, s.frames[|s.frames| - 1 - j].at, close.closing)
  {
    hide After, LeftFrames, LastNoted, NotedLast, StepsFan, OpenInv, QuantifierAt, FramesInv, StatedIn;
    var s := After(lines, n);
    ExactAfter(lines, n);
    InvAfter(lines, n);
    LeftExact(s.frames, lines[s.i]);
    var f := s.frames[|s.frames| - 1 - j];
    assert ClosesSingle(LeftFrames(s.frames, lines[s.i]).0[j], f, lines[s.i]);
    assert NotedFrame(lines, n, f) && Noted(lines, s.i, f);
    LastNotedIs(lines, n, f.at);
  }
}
