/** What `buildDiagram` (app/frontend/src/lib/bart/diagram.ts) keeps on every trace, cut off or
    malformed: an invariant of every state of its loop, in five parts. */
module DiagramLaws {
  import opened Lex
  import opened Lists
  import opened Steps
  import opened Forest
  import opened Diagram
  import opened Readings
  import Frames

  // ----- Frames: the loop's stack is the stack of `nest` -----

  /** Rule and kind of the frames that `nest` has open after `steps`. */
  function Shape(steps: seq<DiagramStep>): seq<(string, bool)> {
    if steps == [] then [] else Taken(Shape(steps[..|steps| - 1]), steps[|steps| - 1])
  }

  function Taken(shape: seq<(string, bool)>, step: DiagramStep): seq<(string, bool)> {
    match step
    case FrameOpen(_, operator, rule) => shape + [(rule, operator != Single)]
    case FrameClose(_) => if shape == [] then [] else shape[..|shape| - 1]
    case _ => shape
  }

  ghost predicate ShapeOf(shape: seq<(string, bool)>, stack: seq<Frames.Level>) {
    |shape| == |stack| && forall m :: 0 <= m < |shape| ==> shape[m] == (stack[m].rule, stack[m].operator != Single)
  }

  lemma TakenIsTake(shape: seq<(string, bool)>, z: Frames.Nesting, step: DiagramStep)
    requires ShapeOf(shape, z.stack)
    ensures ShapeOf(Taken(shape, step), Frames.Take(z, step).stack)
  {
  }

  lemma {:induction false} ShapeIsNest(steps: seq<DiagramStep>)
    ensures ShapeOf(Shape(steps), Frames.TakeAll(steps).stack)
    decreases |steps|
  {
    hide Taken, Frames.Take, ShapeOf;
    if steps != [] {
      ShapeIsNest(steps[..|steps| - 1]);
      TakenIsTake(Shape(steps[..|steps| - 1]), Frames.TakeAll(steps[..|steps| - 1]), steps[|steps| - 1]);
    } else {
      NoShape();
    }
  }

  lemma NoShape()
    ensures ShapeOf([], Frames.Nesting([], []).stack)
  {
  }

  ghost predicate Mirrors(steps: seq<DiagramStep>, frames: seq<OpenFrame>) {
    |frames| == |Shape(steps)| && forall m :: 0 <= m < |frames| ==> Shape(steps)[m] == (frames[m].rule, frames[m].composite)
  }

  /** Every separator stands in a frame. */
  ghost predicate SeparatorsInside(steps: seq<DiagramStep>) {
    forall k :: 0 <= k < |steps| && steps[k].FrameSeparator? ==> Shape(steps[..k]) != []
  }

  ghost predicate FramesInv(steps: seq<DiagramStep>, frames: seq<OpenFrame>) {
    Mirrors(steps, frames) && SeparatorsInside(steps)
  }

  lemma SeparatorsMore(steps: seq<DiagramStep>, step: DiagramStep)
    requires SeparatorsInside(steps) && (step.FrameSeparator? ==> Shape(steps) != [])
    ensures SeparatorsInside(steps + [step])
  {
    hide Shape;
    var more := steps + [step];
    forall k | 0 <= k < |more| && more[k].FrameSeparator?
      ensures Shape(more[..k]) != []
    {
      assert more[..k] == if k < |steps| then steps[..k] else steps;
    }
  }

  lemma ShapeMore(steps: seq<DiagramStep>, step: DiagramStep)
    ensures Shape(steps + [step]) == Taken(Shape(steps), step)
  {
    assert (steps + [step])[..|steps|] == steps;
  }

  lemma FramesAdd(steps: seq<DiagramStep>, frames: seq<OpenFrame>, step: DiagramStep, after: seq<OpenFrame>)
    requires FramesInv(steps, frames) && (step.FrameSeparator? ==> frames != [])
    requires if step.FrameOpen? then
               && |after| == |frames| + 1 && after[..|frames|] == frames
               && after[|frames|].rule == step.rule && after[|frames|].composite == (step.operator != Single)
             else if step.FrameClose? then after == if frames == [] then [] else frames[..|frames| - 1]
             else after == frames
    ensures FramesInv(steps + [step], after)
  {
    ShapeMore(steps, step);
    SeparatorsMore(steps, step);
    hide Shape, SeparatorsInside;
    assert step.FrameOpen? ==> forall m :: 0 <= m < |frames| ==> after[m] == after[..|frames|][m];
  }

  lemma {:induction false} FramesLeft(steps: seq<DiagramStep>, frames: seq<OpenFrame>, line: Line)
    requires FramesInv(steps, frames)
    ensures FramesInv(steps + LeftFrames(frames, line).0, LeftFrames(frames, line).1)
    decreases |frames|
  {
    hide FramesInv;
    if LeavesFrame(frames, line.depth) {
      var close := FrameClose(ClosingOutcome(frames[|frames| - 1], line));
      var front := frames[..|frames| - 1];
      FramesAdd(steps, frames, close, front);
      FramesLeft(steps + [close], front, line);
      assert steps + [close] + LeftFrames(front, line).0 == steps + ([close] + LeftFrames(front, line).0);
    } else {
      assert steps + [] == steps;
    }
  }

  /** The step closes a single frame that the line is shallower than, with the last result noted in it, or
      with the result that the line states. */
  predicate ClosesSingle(step: DiagramStep, frame: OpenFrame, line: Line) {
    && !frame.composite && line.depth < frame.depth
    && step == FrameClose(match frame.lastResult
                          case Some(b) => Some(b)
                          case None => if line.event == Result then BooleanOutcome(line.outcome) else None)
  }

  /** A dedent closes single frames, innermost first, up to the first that is composite or that the line
      is still in. */
  lemma {:induction false} LeftExact(frames: seq<OpenFrame>, line: Line)
    ensures var (closes, left) := LeftFrames(frames, line);
            && |closes| + |left| == |frames| && left == frames[..|left|]
            && (left != [] ==> left[|left| - 1].composite || line.depth >= left[|left| - 1].depth)
            && forall j :: 0 <= j < |closes| ==> ClosesSingle(closes[j], frames[|frames| - 1 - j], line)
    decreases |frames|
  {
    if LeavesFrame(frames, line.depth) {
      var front := frames[..|frames| - 1];
      LeftExact(front, line);
      var (closes, left) := LeftFrames(frames, line);
      var rest := LeftFrames(front, line).0;
      forall j | 0 <= j < |closes|
        ensures ClosesSingle(closes[j], frames[|frames| - 1 - j], line)
      {
        if j > 0 {
          assert closes[j] == rest[j - 1] && front[|front| - 1 - (j - 1)] == frames[|frames| - 1 - j];
        }
      }
    }
  }

  lemma FramesNoted(steps: seq<DiagramStep>, frames: seq<OpenFrame>, line: Line)
    requires FramesInv(steps, frames)
    ensures FramesInv(steps, NoteResult(frames, line))
  {
    hide Shape, SeparatorsInside;
  }

  lemma {:induction false} SameShape(a: seq<DiagramStep>, b: seq<DiagramStep>)
    requires |a| == |b| && forall k :: 0 <= k < |a| ==> a[k] == b[k] || (!Marker(a[k]) && !Marker(b[k]))
    ensures Shape(a) == Shape(b)
    decreases |a|
  {
    if a == [] {
    } else {
      SameShape(a[..|a| - 1], b[..|b| - 1]);
    }
  }

  lemma FramesUpdate(steps: seq<DiagramStep>, frames: seq<OpenFrame>, k: nat, step: DiagramStep)
    requires FramesInv(steps, frames) && k < |steps| && !Marker(steps[k]) && !Marker(step)
    ensures FramesInv(steps[k := step], frames)
  {
    hide Shape;
    var after := steps[k := step];
    SameShape(steps, after);
    forall j | 0 <= j < |after| && after[j].FrameSeparator?
      ensures Shape(after[..j]) != []
    {
      SameShape(steps[..j], after[..j]);
    }
  }

  lemma FramesStep(lines: seq<Line>, s: State)
    requires s.i < |lines| && FramesInv(s.steps, s.frames)
    ensures FramesInv(Advance(lines, s).steps, Advance(lines, s).frames)
  {
    FramesLeft(s.steps, s.frames, lines[s.i]);
    FramesNoted(s.steps + LeftFrames(s.frames, lines[s.i]).0, LeftFrames(s.frames, lines[s.i]).1, lines[s.i]);
    FramesEvent(lines, Dedent(lines, s));
  }

  lemma FramesEvent(lines: seq<Line>, s: State)
    requires s.i < |lines| && FramesInv(s.steps, s.frames)
    ensures FramesInv(ReadEvent(lines, s).steps, ReadEvent(lines, s).frames)
  {
    hide FramesInv, UnderQuantified, SubtreeOutcome, SiblingResult, RequesterAhead, CandidatesEnd, Matched;
    var t := ReadEvent(lines, s);
    match lines[s.i].event
    case EndExchange(_, permitted) => FramesAdd(s.steps, s.frames, FrameClose(Some(permitted)), t.frames);
    case Connector(_) => if s.frames != [] { FramesAdd(s.steps, s.frames, FrameSeparator, t.frames); }
    case Composite(policy, rule, conjunction) =>
      FramesAdd(s.steps, s.frames, FrameOpen(policy, if conjunction then And else Or, rule), t.frames);
    case Exchange(policy, rule) =>
      if !OperandOf(s.frames, rule) { FramesAdd(s.steps, s.frames, FrameOpen(policy, Single, rule), t.frames); }
    case Candidate(_, _) =>
      if s.quantified.Some? { FramesAdd(s.steps, s.frames, t.steps[|s.steps|], t.frames); }
    case Compliant(r) =>
      if r.from.Party? { FramesAdd(s.steps, s.frames, t.steps[|s.steps|], t.frames); }
    case Evaluating(r) => FramesRequest(lines, s);
    case _ =>
  }

  lemma FramesRequest(lines: seq<Line>, s: State)
    requires s.i < |lines| && lines[s.i].event.Evaluating? && FramesInv(s.steps, s.frames)
    ensures FramesInv(ReadRequest(lines, s).steps, ReadRequest(lines, s).frames)
  {
    hide FramesInv, UnderQuantified, SubtreeOutcome, SiblingResult;
    var t := ReadRequest(lines, s);
    if t.steps != s.steps {
      if |t.steps| > |s.steps| {
        FramesAdd(s.steps, s.frames, t.steps[|s.steps|], t.frames);
      } else {
        var k := s.fan.value.step;
        FramesUpdate(s.steps, s.frames, k, t.steps[k]);
      }
    }
  }

  // ----- Results noted in frames -----

  /** A `result:` line between `lo` and `hi`, no shallower than `depth`, states `b`. */
  ghost predicate StatedIn(lines: seq<Line>, lo: nat, hi: nat, depth: nat, b: bool) {
    exists k :: lo < k < hi && k < |lines| && lines[k].event == Result && lines[k].depth >= depth && lines[k].outcome == Stated(b)
  }

  /** The frame was opened by the line it names, and holds no result that nothing in it stated. */
  ghost predicate Noted(lines: seq<Line>, n: nat, f: OpenFrame) {
    && f.at < n && f.at < |lines| && lines[f.at].depth == f.depth
    && (if f.composite then lines[f.at].event.Composite? && f.lastResult == None else lines[f.at].event.Exchange?)
    && (f.lastResult.Some? ==> StatedIn(lines, f.at, n, f.depth, f.lastResult.value))
  }

  ghost predicate AllNoted(lines: seq<Line>, n: nat, frames: seq<OpenFrame>) {
    forall m :: 0 <= m < |frames| ==> Noted(lines, n, frames[m])
  }

  lemma NotedOn(lines: seq<Line>, n: nat, frames: seq<OpenFrame>, after: nat)
    requires AllNoted(lines, n, frames) && n <= after
    ensures AllNoted(lines, after, frames)
  {
    forall m | 0 <= m < |frames|
      ensures Noted(lines, after, frames[m])
    {
      assert Noted(lines, n, frames[m]);
    }
  }

  lemma NotedDedent(lines: seq<Line>, s: State)
    requires s.i < |lines| && AllNoted(lines, s.i, s.frames)
    ensures AllNoted(lines, s.i + 1, Dedent(lines, s).frames)
  {
    hide Noted, LeftFrames;
    var line := lines[s.i];
    LeftExact(s.frames, line);
    var left := LeftFrames(s.frames, line).1;
    NotedOn(lines, s.i, s.frames, s.i + 1);
    if line.event == Result && left != [] {
      var m := |left| - 1;
      assert left[m] == s.frames[m];
      if !left[m].composite && line.depth >= left[m].depth {
        NoteOne(lines, s.i, left[m]);
      }
    }
  }

  lemma NoteOne(lines: seq<Line>, n: nat, f: OpenFrame)
    requires n < |lines| && lines[n].event == Result && Noted(lines, n + 1, f) && !f.composite && lines[n].depth >= f.depth
    ensures Noted(lines, n + 1, f.(lastResult := BooleanOutcome(lines[n].outcome)))
  {
    assert f.at < n;
  }

  lemma NotedEvent(lines: seq<Line>, s: State)
    requires s.i < |lines| && AllNoted(lines, s.i + 1, s.frames)
    ensures AllNoted(lines, ReadEvent(lines, s).i, ReadEvent(lines, s).frames)
  {
    hide UnderQuantified, ReadQuantifier, ReadCandidates, ReadRequest, StatedIn;
    var t := ReadEvent(lines, s);
    EventOpen(lines, s);
    match lines[s.i].event
    case Exchange(policy, rule) =>
      QuantifierTurn(lines, if OperandOf(s.frames, rule) then s else EnterFrame(s, policy, Single, rule, lines[s.i].depth));
    case Candidate(_, _) =>
      CandidatesTurn(lines, s);
      NotedOn(lines, s.i + 1, s.frames, t.i);
    case Evaluating(_) => RequestFrames(lines, s);
    case _ => QuantifierTurn(lines, s);
  }

  lemma RequestFrames(lines: seq<Line>, s: State)
    requires s.i < |lines| && lines[s.i].event.Evaluating?
    ensures ReadRequest(lines, s).frames == s.frames && ReadRequest(lines, s).i == s.i + 1
  {
    hide UnderQuantified, SubtreeOutcome, SiblingResult;
  }

  // ----- Levels: `open` holds the depths of the ancestors that are arrows -----

  /** Line `k` is an arrow, or is merged into one. */
  predicate Draws(lines: seq<Line>, k: nat)
    requires k < |lines|
  {
    && lines[k].event.Evaluating? && lines[k].event.request.from.Party?
    && (lines[k].event.request.policy.None? || UnderQuantified(lines, k))
  }

  /** Those among the ancestors of `k` in the tree, outermost first. */
  function DrawnAncestors(lines: seq<Line>, k: nat): (ks: seq<nat>)
    requires k < |lines|
    ensures forall m :: 0 <= m < |ks| ==> ks[m] < k
    decreases k, 0
  {
    var parent := Parent(DepthsOf(lines), k);
    if parent.None? then [] else UpTo(lines, parent.value)
  }

  function UpTo(lines: seq<Line>, k: nat): (ks: seq<nat>)
    requires k < |lines|
    ensures forall m :: 0 <= m < |ks| ==> ks[m] <= k
    decreases k, 1
  {
    if Draws(lines, k) then DrawnAncestors(lines, k) + [k] else DrawnAncestors(lines, k)
  }

  function DepthsAt(lines: seq<Line>, ks: seq<nat>): (depths: seq<nat>)
    requires forall m :: 0 <= m < |ks| ==> ks[m] < |lines|
    ensures |depths| == |ks|
  {
    seq(|ks|, m requires 0 <= m < |ks| => lines[ks[m]].depth)
  }

  lemma {:induction false} DepthsAscend(lines: seq<Line>, k: nat)
    requires k < |lines|
    ensures Ascending(DepthsAt(lines, DrawnAncestors(lines, k)))
    ensures forall m :: 0 <= m < |DrawnAncestors(lines, k)| ==> lines[DrawnAncestors(lines, k)[m]].depth < lines[k].depth
    decreases k
  {
    hide Draws, DepthsAt, Ascending;
    var parent := Parent(DepthsOf(lines), k);
    if parent.Some? {
      var p := parent.value;
      DepthsAscend(lines, p);
      DepthsAtMore(lines, DrawnAncestors(lines, p), p);
      AscendMore(lines, DrawnAncestors(lines, p), lines[p].depth);
    } else {
      Singleton(lines);
    }
  }

  lemma AscendMore(lines: seq<Line>, ks: seq<nat>, depth: nat)
    requires forall m :: 0 <= m < |ks| ==> ks[m] < |lines| && lines[ks[m]].depth < depth
    requires Ascending(DepthsAt(lines, ks))
    ensures Ascending(DepthsAt(lines, ks) + [depth])
  {
  }

  lemma Singleton(lines: seq<Line>)
    ensures DepthsAt(lines, []) == [] && Ascending([])
  {
  }

  /** Exactly the ancestors that draw. */
  lemma {:induction false} DrawnAncestorsExact(lines: seq<Line>, a: nat, k: nat)
    requires a < |lines| && k < |lines|
    ensures a in DrawnAncestors(lines, k) <==> Draws(lines, a) && Ancestor(DepthsOf(lines), a, k)
    decreases k
  {
    hide Draws;
    var parent := Parent(DepthsOf(lines), k);
    if parent.Some? {
      DrawnAncestorsExact(lines, a, parent.value);
      OnlyEarlier(DepthsOf(lines), a, parent.value);
    }
  }

  /** What `open` holds when the loop comes to line `n`. */
  function OpenLines(lines: seq<Line>, n: nat): (ks: seq<nat>)
    requires n <= |lines|
    ensures forall m :: 0 <= m < |ks| ==> ks[m] < |lines|
  {
    if n == 0 then [] else UpTo(lines, n - 1)
  }

  lemma CutShort(open: seq<nat>, depth: nat)
    requires open == [] || open[|open| - 1] < depth
    ensures CutOpen(open, depth) == open
  {
  }

  lemma CutLast(open: seq<nat>, depth: nat, last: nat)
    requires last >= depth
    ensures CutOpen(open + [last], depth) == CutOpen(open, depth)
  {
    assert (open + [last])[..|open|] == open;
  }

  lemma DepthsAtMore(lines: seq<Line>, ks: seq<nat>, k: nat)
    requires (forall m :: 0 <= m < |ks| ==> ks[m] < |lines|) && k < |lines|
    ensures DepthsAt(lines, ks + [k]) == DepthsAt(lines, ks) + [lines[k].depth]
  {
  }

  /** Popping what is as deep as line `n`, from the arrows around an earlier line that nothing
      shallower than `n` follows. */
  lemma {:induction false} CutUp(lines: seq<Line>, p: nat, n: nat)
    requires p < n < |lines| && forall j :: p < j < n ==> lines[j].depth >= lines[n].depth
    ensures CutOpen(DepthsAt(lines, UpTo(lines, p)), lines[n].depth) == DepthsAt(lines, DrawnAncestors(lines, n))
    decreases p
  {
    hide Draws, CutOpen, DepthsAt;
    var depth := lines[n].depth;
    var d := DepthsOf(lines);
    DepthsAscend(lines, p);
    var above := DrawnAncestors(lines, p);
    if lines[p].depth < depth {
      ParentIs(d, n, p);
      LastDepth(lines, UpTo(lines, p), depth);
      CutShort(DepthsAt(lines, UpTo(lines, p)), depth);
    } else {
      DepthsAtMore(lines, above, p);
      CutLast(DepthsAt(lines, above), depth, lines[p].depth);
      CutAbove(lines, p, n);
    }
  }

  lemma {:induction false} CutAbove(lines: seq<Line>, p: nat, n: nat)
    requires p < n < |lines| && forall j :: p <= j < n ==> lines[j].depth >= lines[n].depth
    ensures CutOpen(DepthsAt(lines, DrawnAncestors(lines, p)), lines[n].depth) == DepthsAt(lines, DrawnAncestors(lines, n))
    decreases p, 0
  {
    var q := Parent(DepthsOf(lines), p);
    if q.Some? {
      CutUp(lines, q.value, n);
    } else {
      assert Parent(DepthsOf(lines), n).None?;
      assert DepthsAt(lines, []) == [];
    }
  }

  lemma LastDepth(lines: seq<Line>, ks: seq<nat>, depth: nat)
    requires forall m :: 0 <= m < |ks| ==> ks[m] < |lines| && lines[ks[m]].depth < depth
    ensures var open := DepthsAt(lines, ks); open == [] || open[|open| - 1] < depth
  {
  }

  lemma ParentIs(d: Depths, k: nat, p: nat)
    requires p < k < |d| && d[p] < d[k] && forall j :: p < j < k ==> d[j] >= d[k]
    ensures Parent(d, k) == Some(p)
  {
  }

  ghost predicate OpenInv(lines: seq<Line>, n: nat, open: seq<nat>) {
    n <= |lines| && open == DepthsAt(lines, OpenLines(lines, n))
  }

  lemma DedentOpen(lines: seq<Line>, s: State)
    requires s.i < |lines|
    ensures Dedent(lines, s).open == CutOpen(s.open, lines[s.i].depth)
    ensures Dedent(lines, s).i == s.i && Dedent(lines, s).quantified == s.quantified && Dedent(lines, s).fan == s.fan
    ensures var left := LeftFrames(s.frames, lines[s.i]).0; Dedent(lines, s).steps == s.steps + left
  {
  }

  /** After the pops, `open` holds the depths of the ancestors of the line that draw. */
  lemma OpenDedent(lines: seq<Line>, s: State)
    requires s.i < |lines| && OpenInv(lines, s.i, s.open)
    ensures Dedent(lines, s).open == DepthsAt(lines, DrawnAncestors(lines, s.i))
  {
    hide Dedent, DrawnAncestors, UpTo, DepthsAt, CutOpen;
    DedentOpen(lines, s);
    if s.i > 0 {
      CutUp(lines, s.i - 1, s.i);
    } else {
      NoneOpen(lines, lines[0].depth);
    }
  }

  lemma NoneOpen(lines: seq<Line>, depth: nat)
    requires lines != []
    ensures CutOpen(DepthsAt(lines, []), depth) == DepthsAt(lines, DrawnAncestors(lines, 0))
  {
  }

  predicate Quantifies(line: Line) {
    match line.event
    case Evaluating(r) => r.from.Parties?
    case Compliant(r) => r.from.Parties? && line.quantified.Some?
    case Exchange(_, _) => line.quantified.Some?
    case Result => line.quantified.Some?
    case Other => line.quantified.Some?
    case _ => false
  }

  /** Whom line `k` says that the next candidates are for, and who asks. */
  function QuantifierOf(lines: seq<Line>, k: nat): Option<Quantified>
    requires k < |lines| && Quantifies(lines[k])
  {
    if lines[k].event.Evaluating? then
      var r := lines[k].event.request;
      Some(Quantified(r.from.kind, r.from.pattern, r.requester))
    else
      var from := RequesterAhead(lines, k + 1, lines[k].depth);
      if from.None? then None else Some(Quantified(lines[k].quantified.value.0, lines[k].quantified.value.1, from.value))
  }

  lemma QuantifierTurn(lines: seq<Line>, s: State)
    requires s.i < |lines|
    ensures var t := ReadQuantifier(lines, s);
            && t.i == s.i + 1 && t.open == s.open && t.steps == s.steps && t.frames == s.frames
            && t.quantified == (if Quantifies(lines[s.i]) && lines[s.i].quantified.Some? && !lines[s.i].event.Evaluating?
                                then QuantifierOf(lines, s.i)
                                else if lines[s.i].quantified.None? then s.quantified else t.quantified)
            && t.fan == (if lines[s.i].quantified.None? then s.fan else ClearFan(s.fan, lines[s.i].depth))
  {
    hide RequesterAhead;
  }

  lemma CandidatesTurn(lines: seq<Line>, s: State)
    requires s.i < |lines| && lines[s.i].event.Candidate?
    ensures var t := ReadCandidates(lines, s);
            && s.i < t.i <= |lines| && t.i == CandidatesEnd(lines, s.i, lines[s.i].depth)
            && (forall j :: s.i <= j < t.i ==> lines[j].event.Candidate? && lines[j].depth == lines[s.i].depth)
            && t.open == s.open && t.frames == s.frames && t.fan == s.fan && t.quantified == None
            && t.steps == if s.quantified.None? then s.steps
                          else
                            var q := s.quantified.value;
                            s.steps + [Candidates(|s.open|, q.from, q.kind, q.pattern, Matched(lines, s.i, t.i), s.i)]
  {
    hide Matched;
  }

  /** How far a turn goes, and what it opens. */
  lemma EventOpen(lines: seq<Line>, s: State)
    requires s.i < |lines|
    ensures var t := ReadEvent(lines, s);
            && s.i < t.i <= |lines|
            && (forall j :: s.i < j < t.i ==> lines[j].event.Candidate?)
            && (if lines[s.i].event.Candidate? then forall j :: s.i < j < t.i ==> lines[j].depth == lines[s.i].depth else t.i == s.i + 1)
            && t.open == (if Draws(lines, s.i) then s.open + [lines[s.i].depth] else s.open)
  {
    hide UnderQuantified, ReadQuantifier, ReadCandidates, ReadRequest;
    match lines[s.i].event
    case Candidate(_, _) => CandidatesTurn(lines, s);
    case Evaluating(_) => RequestOpen(lines, s);
    case Exchange(policy, rule) =>
      QuantifierTurn(lines, if OperandOf(s.frames, rule) then s else EnterFrame(s, policy, Single, rule, lines[s.i].depth));
    case _ => QuantifierTurn(lines, s);
  }

  lemma RequestOpen(lines: seq<Line>, s: State)
    requires s.i < |lines| && lines[s.i].event.Evaluating?
    ensures var t := ReadRequest(lines, s);
            t.i == s.i + 1 && t.open == (if Draws(lines, s.i) then s.open + [lines[s.i].depth] else s.open)
  {
    hide UnderQuantified, SubtreeOutcome, SiblingResult;
  }

  lemma OpenEvent(lines: seq<Line>, s: State)
    requires s.i < |lines| && s.open == DepthsAt(lines, DrawnAncestors(lines, s.i))
    ensures OpenInv(lines, ReadEvent(lines, s).i, ReadEvent(lines, s).open)
  {
    hide ReadEvent, DrawnAncestors, DepthsAt, Draws, UpTo;
    var t := ReadEvent(lines, s);
    EventOpen(lines, s);
    UpToUnfolds(lines, s.i);
    DepthsAtMore(lines, DrawnAncestors(lines, s.i), s.i);
    if lines[s.i].event.Candidate? {
      SameAncestors(lines, s.i, t.i - 1);
      UpToUnfolds(lines, t.i - 1);
    }
  }

  lemma UpToUnfolds(lines: seq<Line>, k: nat)
    requires k < |lines|
    ensures UpTo(lines, k) == if Draws(lines, k) then DrawnAncestors(lines, k) + [k] else DrawnAncestors(lines, k)
    ensures lines[k].event.Candidate? ==> !Draws(lines, k)
  {
    hide UnderQuantified;
  }

  /** Lines of one depth in a row have the same ancestors. */
  lemma {:induction false} SameAncestors(lines: seq<Line>, k: nat, l: nat)
    requires k <= l < |lines| && forall j :: k <= j <= l ==> lines[j].depth == lines[k].depth
    ensures DrawnAncestors(lines, l) == DrawnAncestors(lines, k)
    decreases l
  {
    if k < l {
      var d := DepthsOf(lines);
      SameAncestors(lines, k, l - 1);
      assert Shallower(d, l, d[l]) == Shallower(d, l - 1, d[l - 1]);
    }
  }

  // ----- Quantifiers: each explains the next run of candidates and no other -----

  /** The last quantifier before line `n`, unless candidates came after it. */
  function QuantifierAt(lines: seq<Line>, n: nat): Option<Quantified>
    requires n <= |lines|
  {
    if n == 0 || lines[n - 1].event.Candidate? then None
    else if Quantifies(lines[n - 1]) then QuantifierOf(lines, n - 1)
    else QuantifierAt(lines, n - 1)
  }

  /** Line `k` is the last to say, before line `n`, whom candidates are for, and none came since. */
  ghost predicate LastQuantifier(lines: seq<Line>, n: nat, k: nat)
    requires n <= |lines|
  {
    k < n && Quantifies(lines[k]) && forall j :: k < j < n ==> !Quantifies(lines[j]) && !lines[j].event.Candidate?
  }

  /** What line `k` says of them: a quantified request asks for itself, any other line for the requester of
      the next request. */
  ghost predicate Calls(lines: seq<Line>, k: nat, q: Quantified)
    requires k < |lines| && Quantifies(lines[k])
  {
    if lines[k].event.Evaluating? then
      var r := lines[k].event.request;
      q == Quantified(r.from.kind, r.from.pattern, r.requester)
    else lines[k].quantified == Some((q.kind, q.pattern)) && Ahead(lines, k + 1, lines[k].depth, Some(q.from))
  }

  ghost predicate Awaits(lines: seq<Line>, n: nat, q: Quantified)
    requires n <= |lines|
  {
    exists k: nat :: LastQuantifier(lines, n, k) && Calls(lines, k, q)
  }

  lemma CallsExact(lines: seq<Line>, k: nat, q: Quantified)
    requires k < |lines| && Quantifies(lines[k])
    ensures QuantifierOf(lines, k) == Some(q) <==> Calls(lines, k, q)
  {
    hide RequesterAhead, Ahead;
    RequesterAheadExact(lines, k + 1, lines[k].depth, Some(q.from));
  }

  /** Candidates at line `n` are put down to exactly what the last quantifier before them calls for. */
  lemma {:induction false} AwaitsExact(lines: seq<Line>, n: nat, q: Quantified)
    requires n <= |lines|
    ensures QuantifierAt(lines, n) == Some(q) <==> Awaits(lines, n, q)
    decreases n
  {
    hide Calls, QuantifierOf, Quantifies;
    if n == 0 {
    } else if lines[n - 1].event.Candidate? {
      assert !Quantifies(lines[n - 1]) by { QuietCandidate(lines[n - 1]); }
      assert forall k: nat :: !LastQuantifier(lines, n, k);
    } else if Quantifies(lines[n - 1]) {
      CallsExact(lines, n - 1, q);
      assert forall k: nat :: LastQuantifier(lines, n, k) <==> k == n - 1;
    } else {
      AwaitsExact(lines, n - 1, q);
      assert forall k: nat :: LastQuantifier(lines, n, k) <==> LastQuantifier(lines, n - 1, k);
    }
  }

  lemma QuietCandidate(line: Line)
    requires line.event.Candidate?
    ensures !Quantifies(line)
  {
  }

  lemma NobodyAwaits(lines: seq<Line>, n: nat)
    requires n < |lines| && QuantifierAt(lines, n) == None && lines[n].event.Candidate?
    ensures !Shown(lines, n)
  {
    hide QuantifierAt, Awaits;
    forall q
      ensures !Awaits(lines, n, q)
    {
      AwaitsExact(lines, n, q);
    }
  }

  lemma QuantifiedEvent(lines: seq<Line>, s: State)
    requires s.i < |lines| && s.quantified == QuantifierAt(lines, s.i)
    ensures ReadEvent(lines, s).quantified == QuantifierAt(lines, ReadEvent(lines, s).i)
  {
    hide QuantifierAt, QuantifierOf, UnderQuantified, ReadQuantifier, ReadCandidates, ReadRequest, RequesterAhead;
    match lines[s.i].event
    case Candidate(_, _) =>
      CandidatesTurn(lines, s);
      QuantifierSpent(lines, ReadCandidates(lines, s).i);
    case Exchange(policy, rule) =>
      QuantifierNext(lines, s.i);
      QuantifierTurn(lines, if OperandOf(s.frames, rule) then s else EnterFrame(s, policy, Single, rule, lines[s.i].depth));
    case Evaluating(_) =>
      QuantifierNext(lines, s.i);
      RequestQuantified(lines, s);
    case _ =>
      QuantifierNext(lines, s.i);
      QuantifierTurn(lines, s);
  }

  lemma QuantifierSpent(lines: seq<Line>, n: nat)
    requires 0 < n <= |lines| && lines[n - 1].event.Candidate?
    ensures QuantifierAt(lines, n) == None
  {
  }

  lemma QuantifierNext(lines: seq<Line>, k: nat)
    requires k < |lines| && !lines[k].event.Candidate?
    ensures QuantifierAt(lines, k + 1) == if Quantifies(lines[k]) then QuantifierOf(lines, k) else QuantifierAt(lines, k)
  {
  }

  lemma RequestQuantified(lines: seq<Line>, s: State)
    requires s.i < |lines| && lines[s.i].event.Evaluating?
    ensures var t := ReadRequest(lines, s);
            t.i == s.i + 1 && t.quantified == if Quantifies(lines[s.i]) then QuantifierOf(lines, s.i) else s.quantified
  {
    hide UnderQuantified, SubtreeOutcome, SiblingResult;
  }

  // ----- Steps: what each one speaks for -----

  /** The lines that must show: arrows, runs of candidates whose asker is known, and broken cycles. */
  ghost predicate Shown(lines: seq<Line>, k: nat)
    requires k < |lines|
  {
    match lines[k].event
    case Evaluating(_) => Draws(lines, k)
    case Candidate(_, _) => exists q :: Awaits(lines, k, q)
    case Compliant(r) => r.from.Party?
    case _ => false
  }

  predicate Speaks(step: DiagramStep, k: nat) {
    match step
    case Request(_, _, _, _, _, _, ls) => k in ls
    case Candidates(_, _, _, _, _, at) => k == at
    case Cycle(_, _, _, _, at) => k == at
    case _ => false
  }

  /** Line `k` is an arrow, or merged into one, that names the policy asked. */
  predicate DrawsPolicy(lines: seq<Line>, k: nat)
    requires k < |lines|
  {
    Draws(lines, k) && lines[k].event.request.policy.Some?
  }

  /** The last such line before line `n`, unless a quantifier as shallow as it came after it. */
  function FanAt(lines: seq<Line>, n: nat): (k: Option<nat>)
    requires n <= |lines|
    ensures k.Some? ==> k.value < n && DrawsPolicy(lines, k.value)
  {
    if n == 0 then None
    else if DrawsPolicy(lines, n - 1) then Some(n - 1)
    else
      var before := FanAt(lines, n - 1);
      if before.Some? && Quantifies(lines[n - 1]) && lines[n - 1].depth <= lines[before.value].depth then None else before
  }

  /** Line `k` is the last such line before line `n`, and no quantifier as shallow as it came since. */
  ghost predicate FanStands(lines: seq<Line>, n: nat, k: nat)
    requires n <= |lines|
  {
    && k < n && DrawsPolicy(lines, k)
    && forall j :: k < j < n ==> !DrawsPolicy(lines, j) && (Quantifies(lines[j]) ==> lines[j].depth > lines[k].depth)
  }

  lemma {:induction false} FanAtExact(lines: seq<Line>, n: nat, k: nat)
    requires n <= |lines|
    ensures FanAt(lines, n) == Some(k) <==> FanStands(lines, n, k)
    decreases n
  {
    hide DrawsPolicy, Quantifies;
    if n == 0 {
    } else if DrawsPolicy(lines, n - 1) {
    } else {
      FanAtExact(lines, n - 1, k);
    }
  }

  /** Line `k` tries the next rule of the policy that the line before it in the fan asked. */
  ghost predicate Continues(lines: seq<Line>, k: nat)
    requires k < |lines|
  {
    && DrawsPolicy(lines, k)
    && exists before: nat ::
         && FanStands(lines, k, before) && lines[before].depth == lines[k].depth
         && lines[before].event.request.policy == lines[k].event.request.policy
  }

  /** The first line continues no other, and each of the rest continues the one before it. */
  ghost predicate Chained(lines: seq<Line>, ls: seq<nat>)
    requires ls != [] && forall m :: 0 <= m < |ls| ==> ls[m] < |lines|
  {
    && !Continues(lines, ls[0])
    && forall m :: 0 < m < |ls| ==> Continues(lines, ls[m]) && FanStands(lines, ls[m], ls[m - 1])
  }

  /** Two lines restate one request: the same policy, the same depth, and the same quantified request
      as parent. */
  predicate Restated(lines: seq<Line>, k: nat, l: nat)
    requires k < |lines| && l < |lines|
  {
    && Draws(lines, k) && Draws(lines, l)
    && lines[k].event.request.policy.Some? && lines[k].event.request.policy == lines[l].event.request.policy
    && lines[k].depth == lines[l].depth
    && Parent(DepthsOf(lines), k) == Parent(DepthsOf(lines), l)
  }

  /** The arrow says what its first line says, at the level of the arrows around it; its other lines restate
      that one, each continuing the one before; and its outcome, with the rule that granted it, is that of
      its last line: the last word of that line's subtree, or the result beside a request of no policy. */
  ghost predicate ArrowOk(lines: seq<Line>, step: DiagramStep)
    requires step.Request?
  {
    && step.lines != [] && (forall m :: 0 <= m < |step.lines| ==> step.lines[m] < |lines|)
    && Draws(lines, step.lines[0])
    && (var r := lines[step.lines[0]].event.request;
        && step.from == r.requester && step.to == r.from.index && step.resource == r.resource
        && step.level == |DrawnAncestors(lines, step.lines[0])|
        && (r.policy.None? ==> |step.lines| == 1 && SaysBeside(lines, step.lines[0], step.outcome, step.grantedBy))
        && (r.policy.Some? ==> SaysBelow(lines, step.lines[|step.lines| - 1], step.outcome, step.grantedBy)))
    && Chained(lines, step.lines)
    && forall m :: 0 < m < |step.lines| ==> Restated(lines, step.lines[0], step.lines[m])
  }

  ghost predicate StepOk(lines: seq<Line>, step: DiagramStep) {
    match step
    case Request(_, _, _, _, _, _, _) => ArrowOk(lines, step)
    case Candidates(level, from, kind, pattern, matched, at) =>
      && at < |lines| && lines[at].event.Candidate?
      && Awaits(lines, at, Quantified(kind, pattern, from))
      && level == |DrawnAncestors(lines, at)|
      && MatchedFrom(lines, at, matched)
    case Cycle(level, from, to, resource, at) =>
      && at < |lines| && lines[at].event.Compliant?
      && (var r := lines[at].event.request;
          r.requester == from && r.from == Party(to) && r.resource == resource)
      && level == |DrawnAncestors(lines, at)|
    case _ => true
  }

  ghost predicate SpokenFor(steps: seq<DiagramStep>, k: nat) { exists m :: 0 <= m < |steps| && Speaks(steps[m], k) }

  ghost predicate SpeaksBelow(step: DiagramStep, n: nat) { forall k: nat :: Speaks(step, k) ==> k < n }

  ghost predicate Apart(a: DiagramStep, b: DiagramStep) { forall k: nat :: Speaks(a, k) ==> !Speaks(b, k) }

  /** Of the lines before `n`, each that must show has a step, no line has two, and every step is right. */
  ghost predicate StepsInv(lines: seq<Line>, n: nat, steps: seq<DiagramStep>) {
    && n <= |lines|
    && (forall m :: 0 <= m < |steps| ==> StepOk(lines, steps[m]) && SpeaksBelow(steps[m], n))
    && (forall k :: 0 <= k < n && Shown(lines, k) ==> SpokenFor(steps, k))
    && (forall l, m :: 0 <= l < m < |steps| ==> Apart(steps[l], steps[m]))
  }

  lemma StillSpokenFor(steps: seq<DiagramStep>, more: seq<DiagramStep>, k: nat)
    requires SpokenFor(steps, k)
    ensures SpokenFor(steps + more, k)
  {
    var m :| 0 <= m < |steps| && Speaks(steps[m], k);
    assert (steps + more)[m] == steps[m];
  }

  lemma StepsMarkers(lines: seq<Line>, n: nat, steps: seq<DiagramStep>, more: seq<DiagramStep>)
    requires StepsInv(lines, n, steps) && forall m :: 0 <= m < |more| ==> Marker(more[m])
    ensures StepsInv(lines, n, steps + more)
  {
    hide Shown, SpokenFor, ArrowOk;
    forall k | 0 <= k < n && Shown(lines, k)
      ensures SpokenFor(steps + more, k)
    {
      StillSpokenFor(steps, more, k);
    }
  }

  lemma StepsOn(lines: seq<Line>, n: nat, steps: seq<DiagramStep>, after: nat)
    requires StepsInv(lines, n, steps) && n <= after <= |lines|
    requires forall k :: n <= k < after && Shown(lines, k) ==> SpokenFor(steps, k)
    ensures StepsInv(lines, after, steps)
  {
    hide Shown, SpokenFor, StepOk, Apart;
  }

  lemma StepsAdd(lines: seq<Line>, n: nat, steps: seq<DiagramStep>, step: DiagramStep)
    requires StepsInv(lines, n, steps) && n < |lines| && StepOk(lines, step)
    requires forall k: nat :: Speaks(step, k) <==> k == n
    ensures StepsInv(lines, n + 1, steps + [step])
  {
    hide Shown, SpokenFor, StepOk, Speaks;
    var more := steps + [step];
    forall k | 0 <= k < n + 1 && Shown(lines, k)
      ensures SpokenFor(more, k)
    {
      if k < n {
        StillSpokenFor(steps, [step], k);
      } else {
        Spoken(more, |steps|, k);
      }
    }
  }

  lemma Spoken(steps: seq<DiagramStep>, m: nat, k: nat)
    requires m < |steps| && Speaks(steps[m], k)
    ensures SpokenFor(steps, k)
  {
  }

  lemma StepsMerge(lines: seq<Line>, n: nat, steps: seq<DiagramStep>, j: nat, step: DiagramStep)
    requires StepsInv(lines, n, steps) && n < |lines| && j < |steps| && StepOk(lines, step)
    requires forall k: nat :: Speaks(step, k) <==> k == n || Speaks(steps[j], k)
    ensures StepsInv(lines, n + 1, steps[j := step])
  {
    hide Shown, SpokenFor, StepOk, Speaks;
    var after := steps[j := step];
    forall k | 0 <= k < n + 1 && Shown(lines, k)
      ensures SpokenFor(after, k)
    {
      if k < n {
        SpokenMerged(steps, j, step, k);
      } else {
        Spoken(after, j, k);
      }
    }
    forall l, m | 0 <= l < m < |after|
      ensures Apart(after[l], after[m])
    {
      assert Apart(steps[l], steps[m]);
    }
  }

  lemma SpokenMerged(steps: seq<DiagramStep>, j: nat, step: DiagramStep, k: nat)
    requires j < |steps| && SpokenFor(steps, k) && forall k: nat :: Speaks(steps[j], k) ==> Speaks(step, k)
    ensures SpokenFor(steps[j := step], k)
  {
    var m :| 0 <= m < |steps| && Speaks(steps[m], k);
    assert Speaks(steps[j := step][m], k);
  }

  // ----- The fan -----

  /** No quantified request as shallow as `depth` on the lines from `lo` up to `hi`. */
  ghost predicate NothingAsked(lines: seq<Line>, lo: nat, hi: nat, depth: nat) {
    forall k :: lo <= k < hi && k < |lines| && AsksParties(lines[k]) ==> lines[k].depth > depth
  }

  /** The fan stands for one of the arrows drawn, whose lines it lists, and nobody has asked outside it. */
  ghost predicate FanInv(lines: seq<Line>, n: nat, steps: seq<DiagramStep>, fan: Option<Fan>) {
    fan.Some? ==>
      var f := fan.value;
      && f.step < |steps| && steps[f.step].Request? && steps[f.step].lines == f.nodes
      && f.nodes != [] && f.nodes[0] < n <= |lines|
      && lines[f.nodes[0]].event.Evaluating?
      && lines[f.nodes[0]].event.request.policy == Some(f.policy) && lines[f.nodes[0]].depth == f.depth
      && NothingAsked(lines, f.nodes[0], n, f.depth)
  }

  lemma FanOn(lines: seq<Line>, n: nat, steps: seq<DiagramStep>, fan: Option<Fan>, after: nat, more: seq<DiagramStep>)
    requires FanInv(lines, n, steps, fan) && n <= after <= |lines|
    requires fan.Some? ==> NothingAsked(lines, n, after, fan.value.depth)
    ensures FanInv(lines, after, steps + more, fan)
  {
  }

  /** The fan is there just when there is a line to continue, and takes the lines that continue it. */
  ghost predicate FanKnown(lines: seq<Line>, n: nat, fan: Option<Fan>) {
    && n <= |lines|
    && (fan.None? ==> FanAt(lines, n) == None)
    && (fan.Some? ==>
          var nodes := fan.value.nodes;
          && nodes != [] && FanAt(lines, n) == Some(nodes[|nodes| - 1]) && nodes[|nodes| - 1] < |lines|
          && lines[nodes[|nodes| - 1]].depth == fan.value.depth
          && lines[nodes[|nodes| - 1]].event.Evaluating?
          && lines[nodes[|nodes| - 1]].event.request.policy == Some(fan.value.policy))
  }

  lemma KnownQuiet(lines: seq<Line>, n: nat, fan: Option<Fan>)
    requires FanKnown(lines, n, fan) && n < |lines| && !DrawsPolicy(lines, n)
    ensures FanKnown(lines, n + 1, if Quantifies(lines[n]) then ClearFan(fan, lines[n].depth) else fan)
  {
    hide DrawsPolicy, Quantifies;
  }

  lemma {:induction false} KnownCandidates(lines: seq<Line>, n: nat, after: nat, fan: Option<Fan>)
    requires FanKnown(lines, n, fan) && n <= after <= |lines| && forall j :: n <= j < after ==> lines[j].event.Candidate?
    ensures FanKnown(lines, after, fan)
    decreases after
  {
    if n == after {
    } else {
      KnownCandidates(lines, n, after - 1, fan);
      KnownQuiet(lines, after - 1, fan);
    }
  }

  /** A line that restates the fan's first line is a sibling of it: the request above was not asked since. */
  lemma SameRequest(lines: seq<Line>, k: nat, n: nat)
    requires k < n < |lines| && Draws(lines, k) && Draws(lines, n)
    requires lines[n].event.request.policy.Some? && lines[k].event.request.policy == lines[n].event.request.policy
    requires lines[k].depth == lines[n].depth && NothingAsked(lines, k, n, lines[n].depth)
    ensures Restated(lines, k, n)
  {
    hide Parent;
    var d := DepthsOf(lines);
    var q := Parent(d, n).value;
    assert AsksParties(lines[q]);
    assert q < k;
    ParentIs(d, k, q);
  }

  // ----- One turn -----

  ghost predicate StepsFan(lines: seq<Line>, n: nat, steps: seq<DiagramStep>, fan: Option<Fan>) {
    StepsInv(lines, n, steps) && FanInv(lines, n, steps, fan) && FanKnown(lines, n, fan)
  }

  /** A turn that adds markers only, on a line that need not show. */
  lemma QuietTurn(lines: seq<Line>, n: nat, steps: seq<DiagramStep>, fan: Option<Fan>, more: seq<DiagramStep>, fanAfter: Option<Fan>)
    requires StepsFan(lines, n, steps, fan) && n < |lines| && !Shown(lines, n)
    requires forall m :: 0 <= m < |more| ==> Marker(more[m])
    requires fanAfter == if Quantifies(lines[n]) then ClearFan(fan, lines[n].depth) else fan
    ensures StepsFan(lines, n + 1, steps + more, fanAfter)
  {
    hide StepsInv, Shown, FanKnown, DrawsPolicy, FanAt;
    DrawsIsShown(lines, n);
    KnownQuiet(lines, n, fan);
    StepsMarkers(lines, n, steps, more);
    StepsOn(lines, n, steps + more, n + 1);
    FanOn(lines, n, steps, fanAfter, n + 1, more);
  }

  lemma DrawsIsShown(lines: seq<Line>, n: nat)
    requires n < |lines|
    ensures DrawsPolicy(lines, n) ==> Shown(lines, n)
  {
    hide UnderQuantified;
  }

  lemma DedentSteps(lines: seq<Line>, s: State)
    requires s.i < |lines| && StepsFan(lines, s.i, s.steps, s.fan)
    ensures StepsFan(lines, s.i, Dedent(lines, s).steps, s.fan)
  {
    hide StepsInv, FanInv, Dedent;
    var left := LeftFrames(s.frames, lines[s.i]).0;
    DedentOpen(lines, s);
    StepsMarkers(lines, s.i, s.steps, left);
    NothingYet(lines, s);
    FanOn(lines, s.i, s.steps, s.fan, s.i, left);
  }

  lemma NothingYet(lines: seq<Line>, s: State)
    ensures s.fan.Some? ==> NothingAsked(lines, s.i, s.i, s.fan.value.depth)
  {
  }

  lemma CandidatesSteps(lines: seq<Line>, s: State)
    requires s.i < |lines| && lines[s.i].event.Candidate? && StepsFan(lines, s.i, s.steps, s.fan)
    requires |s.open| == |DrawnAncestors(lines, s.i)| && s.quantified == QuantifierAt(lines, s.i)
    ensures var t := ReadCandidates(lines, s); StepsFan(lines, t.i, t.steps, t.fan)
  {
    hide StepsInv, FanInv, FanKnown, DrawnAncestors, ReadCandidates, Matched, CandidatesEnd, QuantifierAt, Awaits, MatchedFrom, Shown;
    var t := ReadCandidates(lines, s);
    CandidatesTurn(lines, s);
    MatchedExact(lines, s.i);
    KnownCandidates(lines, s.i, t.i, s.fan);
    forall k | s.i < k < t.i
      ensures !Shown(lines, k)
    {
      QuantifierSpent(lines, k);
      NobodyAwaits(lines, k);
    }
    if s.quantified.Some? {
      AwaitsExact(lines, s.i, s.quantified.value);
      StepsAdd(lines, s.i, s.steps, t.steps[|s.steps|]);
      StepsOn(lines, s.i + 1, t.steps, t.i);
      FanOn(lines, s.i, s.steps, s.fan, t.i, [t.steps[|s.steps|]]);
    } else {
      NobodyAwaits(lines, s.i);
      StepsOn(lines, s.i, s.steps, t.i);
      FanOn(lines, s.i, s.steps, s.fan, t.i, []);
      assert s.steps + [] == s.steps;
    }
  }

  lemma CycleSteps(lines: seq<Line>, s: State)
    requires s.i < |lines| && lines[s.i].event.Compliant? && lines[s.i].event.request.from.Party? && StepsFan(lines, s.i, s.steps, s.fan)
    requires |s.open| == |DrawnAncestors(lines, s.i)|
    ensures var t := ReadEvent(lines, s); StepsFan(lines, t.i, t.steps, t.fan)
  {
    hide StepsInv, FanInv, FanKnown, DrawnAncestors;
    var t := ReadEvent(lines, s);
    KnownQuiet(lines, s.i, s.fan);
    StepsAdd(lines, s.i, s.steps, t.steps[|s.steps|]);
    FanOn(lines, s.i, s.steps, s.fan, t.i, [t.steps[|s.steps|]]);
  }

  lemma DrawSteps(lines: seq<Line>, s: State, outcome: Option<bool>, rule: Option<string>, fan: Option<Fan>)
    requires s.i < |lines| && Draws(lines, s.i) && StepsFan(lines, s.i, s.steps, s.fan)
    requires |s.open| == |DrawnAncestors(lines, s.i)|
    requires var r := lines[s.i].event.request;
             if r.policy.None? then outcome == SiblingResult(lines, s.i) && rule == GrantedRule(lines, s.i) && fan == s.fan
             else
               && outcome == SubtreeOutcome(lines, s.i) && rule == AttemptedRule(lines, s.i) && !Restates(lines, s)
               && fan == Some(Fan(r.policy.value, lines[s.i].depth, |s.steps|, [s.i]))
    ensures var t := Draw(lines, s.(fan := fan), outcome, rule); StepsFan(lines, t.i, t.steps, t.fan)
  {
    hide StepsInv, DrawnAncestors, SiblingResult, SubtreeOutcome, GrantedRule, AttemptedRule, UnderQuantified, IfGranted, SaysBeside, SaysBelow, Continues;
    var t := Draw(lines, s.(fan := fan), outcome, rule);
    ContinuesIff(lines, s);
    ArrowBeside(lines, s.i);
    ArrowBelow(lines, s.i);
    StepsAdd(lines, s.i, s.steps, t.steps[|s.steps|]);
    if fan == s.fan {
      KnownQuiet(lines, s.i, s.fan);
      FanOn(lines, s.i, s.steps, s.fan, t.i, [t.steps[|s.steps|]]);
    }
  }

  /** The line continues the fan's just when the loop takes it for a restatement. */
  lemma ContinuesIff(lines: seq<Line>, s: State)
    requires s.i < |lines| && Draws(lines, s.i) && FanKnown(lines, s.i, s.fan)
    ensures Continues(lines, s.i) <==> lines[s.i].event.request.policy.Some? && Restates(lines, s)
  {
    hide UnderQuantified, FanAt, FanStands;
    forall k: nat
      ensures FanAt(lines, s.i) == Some(k) <==> FanStands(lines, s.i, k)
    {
      FanAtExact(lines, s.i, k);
    }
  }

  lemma MergeSteps(lines: seq<Line>, s: State)
    requires s.i < |lines| && lines[s.i].event.Evaluating? && Draws(lines, s.i) && Restates(lines, s)
    requires StepsFan(lines, s.i, s.steps, s.fan)
    ensures var t := Merge(lines, s); StepsFan(lines, t.i, t.steps, t.fan)
  {
    hide StepsInv, Draws, DrawnAncestors, SiblingResult, SubtreeOutcome, AttemptedRule, GrantedRule, Restated, FanAt, FanStands, Continues, IfGranted;
    var f := s.fan.value;
    var was := s.steps[f.step];
    var outcome := SubtreeOutcome(lines, s.i);
    var step := was.(outcome := outcome, grantedBy := IfGranted(outcome, AttemptedRule(lines, s.i)), lines := f.nodes + [s.i]);
    ContinuesIff(lines, s);
    FanAtExact(lines, s.i, was.lines[|was.lines| - 1]);
    FanHere(lines, s.i);
    OneStep(lines, s.i, s.steps, f.step);
    DrawsAParty(lines, s.i);
    DrawsAParty(lines, f.nodes[0]);
    SameRequest(lines, f.nodes[0], s.i);
    Grown(lines, was, s.i, step);
    StepsMerge(lines, s.i, s.steps, f.step, step);
  }

  lemma FanHere(lines: seq<Line>, n: nat)
    requires n < |lines| && DrawsPolicy(lines, n)
    ensures FanAt(lines, n + 1) == Some(n)
  {
    hide DrawsPolicy;
  }

  lemma DrawsAParty(lines: seq<Line>, k: nat)
    requires k < |lines| && Draws(lines, k)
    ensures lines[k].event.Evaluating? && !AsksParties(lines[k])
  {
  }

  lemma OneStep(lines: seq<Line>, n: nat, steps: seq<DiagramStep>, m: nat)
    requires StepsInv(lines, n, steps) && m < |steps| && steps[m].Request?
    ensures ArrowOk(lines, steps[m])
  {
    hide ArrowOk;
    assert StepOk(lines, steps[m]);
  }

  lemma Grown(lines: seq<Line>, was: DiagramStep, n: nat, step: DiagramStep)
    requires was.Request? && ArrowOk(lines, was) && n < |lines| && Restated(lines, was.lines[0], n)
    requires Continues(lines, n) && FanStands(lines, n, was.lines[|was.lines| - 1])
    requires var outcome := SubtreeOutcome(lines, n);
             step == was.(outcome := outcome, grantedBy := IfGranted(outcome, AttemptedRule(lines, n)), lines := was.lines + [n])
    ensures ArrowOk(lines, step)
  {
    hide Draws, DrawnAncestors, SubtreeOutcome, AttemptedRule, Restated, Chained, IfGranted, SaysBelow, SaysBeside, Continues, FanStands;
    ArrowBelow(lines, n);
    ChainedMore(lines, was.lines, n);
    SamePolicy(lines, was.lines[0], n);
  }

  lemma ChainedMore(lines: seq<Line>, ls: seq<nat>, n: nat)
    requires ls != [] && (forall m :: 0 <= m < |ls| ==> ls[m] < |lines|) && n < |lines|
    requires Chained(lines, ls) && Continues(lines, n) && FanStands(lines, n, ls[|ls| - 1])
    ensures Chained(lines, ls + [n])
  {
    hide Continues, FanStands;
  }

  lemma SamePolicy(lines: seq<Line>, k: nat, l: nat)
    requires k < |lines| && l < |lines| && Restated(lines, k, l)
    ensures lines[k].event.Evaluating? && lines[k].event.request.policy.Some?
  {
    hide UnderQuantified, Parent;
  }

  lemma RequestSteps(lines: seq<Line>, s: State)
    requires s.i < |lines| && lines[s.i].event.Evaluating? && StepsFan(lines, s.i, s.steps, s.fan)
    requires |s.open| == |DrawnAncestors(lines, s.i)|
    ensures var t := ReadRequest(lines, s); StepsFan(lines, t.i, t.steps, t.fan)
  {
    hide StepsFan, DrawnAncestors, SiblingResult, SubtreeOutcome, AttemptedRule, GrantedRule, UnderQuantified, Draw, Merge;
    var r := lines[s.i].event.request;
    if r.from.Parties? || (r.policy.Some? && !UnderQuantified(lines, s.i)) {
      QuietTurn(lines, s.i, s.steps, s.fan, [], ReadRequest(lines, s).fan);
      assert s.steps + [] == s.steps;
    } else if r.policy.None? {
      DrawSteps(lines, s, SiblingResult(lines, s.i), GrantedRule(lines, s.i), s.fan);
    } else if Restates(lines, s) {
      MergeSteps(lines, s);
    } else {
      DrawSteps(lines, s, SubtreeOutcome(lines, s.i), AttemptedRule(lines, s.i), Some(Fan(r.policy.value, lines[s.i].depth, |s.steps|, [s.i])));
    }
  }

  lemma QuantifierSteps(lines: seq<Line>, s: State, more: seq<DiagramStep>)
    requires s.i < |lines| && !Shown(lines, s.i) && !lines[s.i].event.Evaluating? && StepsFan(lines, s.i, s.steps, s.fan)
    requires Quantifies(lines[s.i]) == lines[s.i].quantified.Some?
    requires forall m :: 0 <= m < |more| ==> Marker(more[m])
    ensures var t := ReadQuantifier(lines, s.(steps := s.steps + more)); StepsFan(lines, t.i, t.steps, t.fan)
  {
    hide StepsFan, Shown, ReadQuantifier;
    var t := ReadQuantifier(lines, s.(steps := s.steps + more));
    QuantifierTurn(lines, s.(steps := s.steps + more));
    QuietTurn(lines, s.i, s.steps, s.fan, more, t.fan);
  }

  lemma EventSteps(lines: seq<Line>, s: State)
    requires s.i < |lines| && StepsFan(lines, s.i, s.steps, s.fan)
    requires |s.open| == |DrawnAncestors(lines, s.i)| && s.quantified == QuantifierAt(lines, s.i)
    ensures var t := ReadEvent(lines, s); StepsFan(lines, t.i, t.steps, t.fan)
  {
    hide StepsFan, DrawnAncestors, QuantifierAt, ReadRequest, ReadCandidates, UnderQuantified;
    match lines[s.i].event
    case EndExchange(_, permitted) => QuietTurn(lines, s.i, s.steps, s.fan, [FrameClose(Some(permitted))], s.fan);
    case Connector(_) =>
      QuietTurn(lines, s.i, s.steps, s.fan, if s.frames == [] then [] else [FrameSeparator], s.fan);
      assert s.steps + [] == s.steps;
    case Composite(policy, rule, conjunction) =>
      QuietTurn(lines, s.i, s.steps, s.fan, [FrameOpen(policy, if conjunction then And else Or, rule)], s.fan);
    case Exchange(policy, rule) => ExchangeSteps(lines, s, policy, rule);
    case Candidate(_, _) => CandidatesSteps(lines, s);
    case Compliant(r) => if r.from.Party? { CycleSteps(lines, s); } else { PlainSteps(lines, s); }
    case Evaluating(_) => RequestSteps(lines, s);
    case _ => PlainSteps(lines, s);
  }

  lemma PlainSteps(lines: seq<Line>, s: State)
    requires s.i < |lines| && !Shown(lines, s.i) && !lines[s.i].event.Evaluating? && StepsFan(lines, s.i, s.steps, s.fan)
    requires Quantifies(lines[s.i]) == lines[s.i].quantified.Some?
    ensures var t := ReadQuantifier(lines, s); StepsFan(lines, t.i, t.steps, t.fan)
  {
    hide StepsFan, Shown, ReadQuantifier;
    QuantifierSteps(lines, s, []);
    assert s.steps + [] == s.steps;
  }

  lemma ExchangeSteps(lines: seq<Line>, s: State, policy: nat, rule: string)
    requires s.i < |lines| && lines[s.i].event == Exchange(policy, rule) && StepsFan(lines, s.i, s.steps, s.fan)
    ensures var t := ReadEvent(lines, s); StepsFan(lines, t.i, t.steps, t.fan)
  {
    hide StepsFan, RequesterAhead;
    if OperandOf(s.frames, rule) {
      PlainSteps(lines, s);
    } else {
      QuantifierSteps(lines, s, [FrameOpen(policy, Single, rule)]);
    }
  }

  // ----- Every state of every run -----

  ghost predicate Inv(lines: seq<Line>, s: State) {
    && s.i <= |lines|
    && FramesInv(s.steps, s.frames)
    && AllNoted(lines, s.i, s.frames)
    && OpenInv(lines, s.i, s.open)
    && s.quantified == QuantifierAt(lines, s.i)
    && StepsFan(lines, s.i, s.steps, s.fan)
  }

  lemma InvStep(lines: seq<Line>, s: State)
    requires Inv(lines, s) && s.i < |lines|
    ensures Inv(lines, Advance(lines, s))
  {
    hide FramesInv, AllNoted, OpenInv, QuantifierAt, StepsFan, Dedent, ReadEvent, DrawnAncestors, DepthsAt;
    FramesStep(lines, s);
    NotedDedent(lines, s);
    DedentOpen(lines, s);
    OpenDedent(lines, s);
    DedentSteps(lines, s);
    var m := Dedent(lines, s);
    NotedEvent(lines, m);
    OpenEvent(lines, m);
    QuantifiedEvent(lines, m);
    EventSteps(lines, m);
  }

  lemma InvStart(lines: seq<Line>)
    ensures Inv(lines, START)
  {
  }

  lemma {:induction false} InvAfter(lines: seq<Line>, n: nat)
    ensures Inv(lines, After(lines, n))
  {
    hide Inv, Advance;
    if n == 0 {
      InvStart(lines);
    } else {
      InvAfter(lines, n - 1);
      if After(lines, n - 1).i < |lines| {
        InvStep(lines, After(lines, n - 1));
      }
    }
  }

  // ----- What follows -----

  /** At every turn of the loop on every trace, `frames` is the stack that `nest` has after the steps so
      far, rule for rule, composite exactly where no single exchange opened it; and `nest` drops none of
      their separators. */
  lemma FramesMirrorNest(lines: seq<Line>, n: nat)
    ensures var s := After(lines, n);
            var stack := Frames.TakeAll(s.steps).stack;
            && |s.frames| == |stack|
            && (forall m :: 0 <= m < |stack| ==>
                  s.frames[m].rule == stack[m].rule && (s.frames[m].composite <==> stack[m].operator != Single))
            && forall k :: 0 <= k < |s.steps| && s.steps[k].FrameSeparator? ==> Frames.TakeAll(s.steps[..k]).stack != []
  {
    hide After, AllNoted, StepsFan, OpenInv, QuantifierAt, Shape, Frames.TakeAll;
    InvAfter(lines, n);
    var s := After(lines, n);
    ShapeIsNest(s.steps);
    forall k | 0 <= k < |s.steps| && s.steps[k].FrameSeparator?
      ensures Frames.TakeAll(s.steps[..k]).stack != []
    {
      ShapeIsNest(s.steps[..k]);
    }
  }

  /** At every turn, a frame that the line closes by dedent is a single exchange, and the outcome it closes
      with, if any, was stated in it, on a `result:` line after the one that opened it and no shallower, or
      is stated by the line itself. */
  lemma SingleOutcomesAreStated(lines: seq<Line>, n: nat, j: nat)
    requires After(lines, n).i < |lines|
    requires j < |LeftFrames(After(lines, n).frames, lines[After(lines, n).i]).0|
    ensures var s := After(lines, n);
            var close := LeftFrames(s.frames, lines[s.i]).0[j];
            && close.FrameClose? && j < |s.frames|
            && var f := s.frames[|s.frames| - 1 - j];
               && f.at < s.i && lines[f.at].event.Exchange? && lines[s.i].depth < lines[f.at].depth
               && (close.closing.Some? ==>
                     || StatedIn(lines, f.at, s.i, lines[f.at].depth, close.closing.value)
                     || (lines[s.i].event == Result && lines[s.i].outcome == Stated(close.closing.value)))
  {
    hide After, StepsFan, OpenInv, QuantifierAt, FramesInv, LeftFrames, StatedIn;
    InvAfter(lines, n);
    var s := After(lines, n);
    LeftExact(s.frames, lines[s.i]);
    assert ClosesSingle(LeftFrames(s.frames, lines[s.i]).0[j], s.frames[|s.frames| - 1 - j], lines[s.i]);
    assert Noted(lines, s.i, s.frames[|s.frames| - 1 - j]);
  }

  /** At every turn: `open` is strictly increasing, and on coming to a line, once popped, it holds the
      depths of exactly the line's ancestors that draw. */
  lemma OpenIsAncestors(lines: seq<Line>, n: nat)
    requires After(lines, n).i < |lines|
    ensures var s := After(lines, n);
            var open := CutOpen(s.open, lines[s.i].depth);
            && Ascending(open)
            && open == DepthsAt(lines, DrawnAncestors(lines, s.i))
            && forall a :: 0 <= a < |lines| ==>
                 (a in DrawnAncestors(lines, s.i) <==> Draws(lines, a) && Ancestor(DepthsOf(lines), a, s.i))
  {
    hide After, AllNoted, StepsFan, QuantifierAt, FramesInv, Draws, DrawnAncestors, CutOpen, DepthsAt, Ascending;
    InvAfter(lines, n);
    var s := After(lines, n);
    DedentOpen(lines, s);
    OpenDedent(lines, s);
    DepthsAscend(lines, s.i);
    forall a | 0 <= a < |lines|
      ensures a in DrawnAncestors(lines, s.i) <==> Draws(lines, a) && Ancestor(DepthsOf(lines), a, s.i)
    {
      DrawnAncestorsExact(lines, a, s.i);
    }
  }

  /** The diagram of every trace: each line that must show is in exactly one step, each step is right. */
  lemma DiagramExact(lines: seq<Line>)
    ensures var steps := StepsOf(lines);
            && (forall m :: 0 <= m < |steps| ==> StepOk(lines, steps[m]))
            && (forall k :: 0 <= k < |lines| && Shown(lines, k) ==> SpokenFor(steps, k))
            && (forall l, m :: 0 <= l < m < |steps| ==> Apart(steps[l], steps[m]))
  {
    hide After, AllNoted, StepOk, Shown, SpokenFor, Apart, OpenInv, QuantifierAt, FramesInv;
    InvAfter(lines, |lines|);
  }

  /** All the lines merged into one arrow restate one request, at one level; nothing else is merged. */
  lemma FanNeverMixes(lines: seq<Line>, m: nat, j: nat)
    requires m < |StepsOf(lines)| && StepsOf(lines)[m].Request? && j < |StepsOf(lines)[m].lines|
    ensures var step := StepsOf(lines)[m];
            && step.lines[0] < |lines| && step.lines[j] < |lines| && Draws(lines, step.lines[j])
            && step.level == |DrawnAncestors(lines, step.lines[j])|
            && (j > 0 ==> Restated(lines, step.lines[0], step.lines[j]))
  {
    hide StepsOf, DrawnAncestors, Draws, SiblingResult, SubtreeOutcome;
    DiagramExact(lines);
    var step := StepsOf(lines)[m];
    assert StepOk(lines, step);
    if j > 0 {
      SameLevel(lines, step.lines[0], step.lines[j]);
    }
  }

  lemma SameLevel(lines: seq<Line>, k: nat, l: nat)
    requires k < |lines| && l < |lines| && Restated(lines, k, l)
    ensures DrawnAncestors(lines, k) == DrawnAncestors(lines, l) && Draws(lines, l)
  {
    hide Draws, UpTo, Parent;
  }

  /** A `policy N:` line to draw is merged into an arrow, not drawn as one of its own, if and only if the last
      such line whose fan is still open is of the same policy and depth; and then it is merged into the arrow
      of that very line. */
  lemma MergedExactly(lines: seq<Line>, k: nat)
    requires k < |lines| && DrawsPolicy(lines, k)
    ensures exists m, j: nat :: PlacedAt(StepsOf(lines), m, j, k) && (j > 0 <==> Continues(lines, k))
                                && (j > 0 ==> FanStands(lines, k, StepsOf(lines)[m].lines[j - 1]))
  {
    hide StepsOf, DrawnAncestors, Draws, SiblingResult, SubtreeOutcome, AttemptedRule, GrantedRule, Continues, FanStands;
    DiagramExact(lines);
    DrawsIsShown(lines, k);
    var m :| 0 <= m < |StepsOf(lines)| && Speaks(StepsOf(lines)[m], k);
    var step := StepsOf(lines)[m];
    assert StepOk(lines, step);
    SpeaksOfRequest(lines, step, k);
    var j :| 0 <= j < |step.lines| && step.lines[j] == k;
    assert PlacedAt(StepsOf(lines), m, j, k);
  }

  predicate PlacedAt(steps: seq<DiagramStep>, m: int, j: nat, k: nat) {
    0 <= m < |steps| && steps[m].Request? && j < |steps[m].lines| && steps[m].lines[j] == k
  }

  lemma SpeaksOfRequest(lines: seq<Line>, step: DiagramStep, k: nat)
    requires k < |lines| && DrawsPolicy(lines, k) && StepOk(lines, step) && Speaks(step, k)
    ensures step.Request? && k in step.lines
  {
    hide UnderQuantified, ArrowOk;
  }

  /** At every turn the fan, if there is one, is an arrow already drawn, and lists its lines. */
  lemma FanIsAnArrow(lines: seq<Line>, n: nat)
    ensures var s := After(lines, n);
            s.fan.Some? ==>
              && s.fan.value.step < |s.steps| && s.steps[s.fan.value.step].Request?
              && s.steps[s.fan.value.step].lines == s.fan.value.nodes
  {
    hide After, AllNoted, StepsInv, OpenInv, QuantifierAt, FramesInv;
    InvAfter(lines, n);
  }
}
