/** `nest` as the source runs it (app/frontend/src/lib/bart/frames.ts): a frame is pushed into its
    parent as it opens, and grows and closes there, in place. Proved against `Frames.Nest`. */
module FrameHeap {
  import opened Lex
  import opened Steps
  import opened Frames

  datatype DiagramNode = Plain(step: DiagramStep) | Separating(operator: Operator) | Framed(frame: FrameNode)

  class FrameNode {
    const policy: nat
    const operator: Operator
    const rule: string
    var outcome: Option<bool>
    var children: seq<DiagramNode>

    constructor (policy: nat, operator: Operator, rule: string)
      ensures this.policy == policy && this.operator == operator && this.rule == rule
      ensures outcome == None && children == []
    {
      this.policy := policy;
      this.operator := operator;
      this.rule := rule;
      outcome := None;
      children := [];
    }
  }

  /** The nodes are the tree `ts`; every frame reached is in `closed`. */
  ghost predicate Denotes(ns: seq<DiagramNode>, ts: seq<Node>, closed: set<FrameNode>)
    reads closed
    decreases ts
  {
    |ns| == |ts| && forall i :: 0 <= i < |ts| ==> DenotesOne(ns[i], ts[i], closed)
  }

  ghost predicate DenotesOne(n: DiagramNode, t: Node, closed: set<FrameNode>)
    reads closed
    decreases t
  {
    match t
    case Leaf(step) => n == Plain(step)
    case Divider(operator) => n == Separating(operator)
    case Frame(policy, operator, rule, outcome, children) =>
      && n.Framed? && n.frame in closed
      && n.frame.policy == policy && n.frame.operator == operator && n.frame.rule == rule
      && n.frame.outcome == outcome && Denotes(n.frame.children, children, closed)
  }

  lemma {:induction false} DenotesMore(ns: seq<DiagramNode>, ts: seq<Node>, closed: set<FrameNode>, more: set<FrameNode>)
    requires Denotes(ns, ts, closed) && closed <= more
    ensures Denotes(ns, ts, more)
    decreases ts
  {
    forall i | 0 <= i < |ts|
      ensures DenotesOne(ns[i], ts[i], more)
    {
      assert DenotesOne(ns[i], ts[i], closed);
      if ts[i].Frame? {
        DenotesMore(ns[i].frame.children, ts[i].children, closed, more);
      }
    }
  }

  // ----- The loop's state -----

  /** `ns` is the list `ts` with, after it, the frame that is open in it, if one is. */
  ghost predicate Holds(ns: seq<DiagramNode>, ts: seq<Node>, next: Option<FrameNode>, closed: set<FrameNode>)
    reads closed
  {
    match next
    case None => Denotes(ns, ts, closed)
    case Some(frame) => ns != [] && ns[|ns| - 1] == Framed(frame) && Denotes(ns[..|ns| - 1], ts, closed)
  }

  function At(stack: seq<FrameNode>, m: nat): Option<FrameNode> { if m < |stack| then Some(stack[m]) else None }

  ghost predicate HoldsLevel(frame: FrameNode, level: Level, next: Option<FrameNode>, closed: set<FrameNode>)
    reads closed, frame
  {
    && frame.policy == level.policy && frame.operator == level.operator && frame.rule == level.rule
    && frame.outcome == None && Holds(frame.children, level.items, next, closed)
  }

  ghost predicate Nested(roots: seq<DiagramNode>, stack: seq<FrameNode>, z: Nesting, closed: set<FrameNode>)
    reads closed, stack
  {
    && |stack| == |z.stack|
    && (forall m :: 0 <= m < |stack| ==> stack[m] !in closed)
    && (forall l, m :: 0 <= l < m < |stack| ==> stack[l] != stack[m])
    && Holds(roots, z.roots, At(stack, 0), closed)
    && forall m :: 0 <= m < |stack| ==> HoldsLevel(stack[m], z.stack[m], At(stack, m + 1), closed)
  }

  /** The node becomes the last child of the innermost open frame or, without one, the last root. */
  method Add(node: DiagramNode, roots: seq<DiagramNode>, stack: seq<FrameNode>, ghost t: Node, ghost z: Nesting, ghost closed: set<FrameNode>)
    returns (grown: seq<DiagramNode>)
    requires Nested(roots, stack, z, closed) && DenotesOne(node, t, closed)
    modifies if stack == [] then {} else {stack[|stack| - 1]}
    ensures Nested(grown, stack, Push(z, t), closed)
    ensures grown == if stack == [] then roots + [node] else roots
    ensures stack != [] ==> stack[|stack| - 1].children == old(stack[|stack| - 1].children) + [node]
  {
    hide Holds, HoldsLevel, Denotes, DenotesOne;
    grown := roots;
    if stack == [] {
      grown := roots + [node];
      RootsGrow(roots, z.roots, node, t, closed);
    } else {
      var top := stack[|stack| - 1];
      assert HoldsLevel(top, z.stack[|stack| - 1], None, closed);
      LevelGrows(top, node, t, z.stack[|stack| - 1], closed);
      forall m | 0 <= m < |stack| - 1
        ensures HoldsLevel(stack[m], z.stack[m], At(stack, m + 1), closed)
      {
        assert old(HoldsLevel(stack[m], z.stack[m], At(stack, m + 1), closed));
      }
    }
  }

  lemma RootsGrow(ns: seq<DiagramNode>, ts: seq<Node>, node: DiagramNode, t: Node, closed: set<FrameNode>)
    requires Holds(ns, ts, None, closed) && DenotesOne(node, t, closed)
    ensures Holds(ns + [node], ts + [t], None, closed)
  {
    hide DenotesOne;
  }

  method LevelGrows(top: FrameNode, node: DiagramNode, ghost t: Node, ghost level: Level, ghost closed: set<FrameNode>)
    requires top !in closed && HoldsLevel(top, level, None, closed) && DenotesOne(node, t, closed)
    modifies top
    ensures HoldsLevel(top, level.(items := level.items + [t]), None, closed)
    ensures top.children == old(top.children) + [node]
  {
    hide Denotes, DenotesOne, Holds;
    RootsGrow(top.children, level.items, node, t, closed);
    top.children := top.children + [node];
  }

  method OpenFrame(step: DiagramStep, roots: seq<DiagramNode>, stack: seq<FrameNode>, ghost z: Nesting, ghost closed: set<FrameNode>)
    returns (grown: seq<DiagramNode>, deeper: seq<FrameNode>)
    requires step.FrameOpen? && Nested(roots, stack, z, closed)
    modifies if stack == [] then {} else {stack[|stack| - 1]}
    ensures Nested(grown, deeper, Take(z, step), closed)
    ensures |deeper| == |stack| + 1 && deeper[..|stack|] == stack && fresh(deeper[|stack|]) && deeper[|stack|].children == []
    ensures grown == if stack == [] then roots + [Framed(deeper[0])] else roots
    ensures stack != [] ==> stack[|stack| - 1].children == old(stack[|stack| - 1].children) + [Framed(deeper[|stack|])]
  {
    hide Holds, HoldsLevel, Denotes, DenotesOne;
    var frame := new FrameNode(step.policy, step.operator, step.rule);
    var level := Level(step.policy, step.operator, step.rule, []);
    NewLevel(frame, level, closed);
    grown := roots;
    if stack == [] {
      grown := roots + [Framed(frame)];
      RootsOpen(roots, z.roots, frame, closed);
    } else {
      var top := stack[|stack| - 1];
      assert HoldsLevel(top, z.stack[|stack| - 1], None, closed);
      Grow(top, frame, z.stack[|stack| - 1], closed);
      forall m | 0 <= m < |stack| - 1
        ensures HoldsLevel(stack[m], z.stack[m], Some(stack[m + 1]), closed)
      {
        assert old(HoldsLevel(stack[m], z.stack[m], At(stack, m + 1), closed));
      }
      NewLevel(frame, level, closed);
    }
    deeper := stack + [frame];
    Opened(grown, stack, frame, z, level, closed);
  }

  lemma NewLevel(frame: FrameNode, level: Level, closed: set<FrameNode>)
    requires frame.policy == level.policy && frame.operator == level.operator && frame.rule == level.rule
    requires frame.outcome == None && frame.children == [] && level.items == []
    ensures HoldsLevel(frame, level, None, closed)
  {
  }

  lemma RootsOpen(ns: seq<DiagramNode>, ts: seq<Node>, frame: FrameNode, closed: set<FrameNode>)
    requires Holds(ns, ts, None, closed)
    ensures Holds(ns + [Framed(frame)], ts, Some(frame), closed)
  {
    hide Denotes;
    assert (ns + [Framed(frame)])[..|ns|] == ns;
  }

  method Grow(top: FrameNode, frame: FrameNode, ghost level: Level, ghost closed: set<FrameNode>)
    requires top !in closed && HoldsLevel(top, level, None, closed)
    modifies top
    ensures HoldsLevel(top, level, Some(frame), closed)
    ensures top.children == old(top.children) + [Framed(frame)]
  {
    hide Denotes, DenotesOne;
    ghost var before := top.children;
    top.children := top.children + [Framed(frame)];
    assert top.children[..|before|] == before;
  }

  lemma Opened(roots: seq<DiagramNode>, stack: seq<FrameNode>, frame: FrameNode, z: Nesting, level: Level, closed: set<FrameNode>)
    requires |stack| == |z.stack| && frame !in closed && frame !in stack
    requires forall m :: 0 <= m < |stack| ==> stack[m] !in closed
    requires forall l, m :: 0 <= l < m < |stack| ==> stack[l] != stack[m]
    requires Holds(roots, z.roots, if stack == [] then Some(frame) else Some(stack[0]), closed)
    requires stack != [] ==> HoldsLevel(stack[|stack| - 1], z.stack[|stack| - 1], Some(frame), closed)
    requires forall m :: 0 <= m < |stack| - 1 ==> HoldsLevel(stack[m], z.stack[m], Some(stack[m + 1]), closed)
    requires HoldsLevel(frame, level, None, closed)
    ensures Nested(roots, stack + [frame], z.(stack := z.stack + [level]), closed)
  {
    hide Holds, HoldsLevel;
  }

  method CloseFrame(outcome: Option<bool>, stack: seq<FrameNode>, ghost roots: seq<DiagramNode>, ghost z: Nesting, ghost closed: set<FrameNode>)
    returns (shallower: seq<FrameNode>, ghost more: set<FrameNode>)
    requires stack != [] && Nested(roots, stack, z, closed)
    modifies {stack[|stack| - 1]}
    ensures shallower == stack[..|stack| - 1] && more == closed + {stack[|stack| - 1]}
    ensures Nested(roots, shallower, Shut(z, outcome), more)
    ensures stack[|stack| - 1].children == old(stack[|stack| - 1].children)
  {
    ghost var m := |stack| - 1;
    var frame := stack[|stack| - 1];
    assert HoldsLevel(frame, z.stack[m], None, closed);
    frame.outcome := outcome;
    shallower := stack[..|stack| - 1];
    more := closed + {frame};
    forall l | 0 <= l < m
      ensures HoldsLevel(stack[l], z.stack[l], At(stack, l + 1), closed)
    {
      assert old(HoldsLevel(stack[l], z.stack[l], At(stack, l + 1), closed));
    }
    Shutting(roots, stack, z, closed, outcome);
  }

  lemma FrameDenotes(frame: FrameNode, top: Level, outcome: Option<bool>, closed: set<FrameNode>)
    requires frame.policy == top.policy && frame.operator == top.operator && frame.rule == top.rule
    requires frame.outcome == outcome && Denotes(frame.children, top.items, closed)
    ensures DenotesOne(Framed(frame), Frame(top.policy, top.operator, top.rule, outcome, top.items), closed + {frame})
  {
    DenotesMore(frame.children, top.items, closed, closed + {frame});
  }

  /** Once its outcome is set, the innermost frame counts as closed, where it already stands. */
  lemma Shutting(roots: seq<DiagramNode>, stack: seq<FrameNode>, z: Nesting, closed: set<FrameNode>, outcome: Option<bool>)
    requires |stack| == |z.stack| && stack != []
    requires forall m :: 0 <= m < |stack| ==> stack[m] !in closed
    requires forall l, m :: 0 <= l < m < |stack| ==> stack[l] != stack[m]
    requires Holds(roots, z.roots, At(stack, 0), closed)
    requires forall m :: 0 <= m < |stack| - 1 ==> HoldsLevel(stack[m], z.stack[m], Some(stack[m + 1]), closed)
    requires var top := z.stack[|stack| - 1];
             var frame := stack[|stack| - 1];
             && frame.policy == top.policy && frame.operator == top.operator && frame.rule == top.rule
             && frame.outcome == outcome && Denotes(frame.children, top.items, closed)
    ensures Nested(roots, stack[..|stack| - 1], Shut(z, outcome), closed + {stack[|stack| - 1]})
  {
    hide Holds, HoldsLevel, Denotes, DenotesOne;
    var m := |stack| - 1;
    var frame := stack[m];
    var more := closed + {frame};
    var top := z.stack[m];
    var t := Frame(top.policy, top.operator, top.rule, outcome, top.items);
    FrameDenotes(frame, top, outcome, closed);
    if m == 0 {
      Landed(roots, z.roots, frame, t, closed, more);
    } else {
      Stays(roots, z.roots, stack[0], closed, more);
    }
    forall l | 0 <= l < m
      ensures HoldsLevel(stack[l], Shut(z, outcome).stack[l], At(stack[..m], l + 1), more)
    {
      assert HoldsLevel(stack[l], z.stack[l], Some(stack[l + 1]), closed);
      if l < m - 1 {
        LevelStays(stack[l], z.stack[l], stack[l + 1], closed, more);
      } else {
        LevelLanded(stack[l], z.stack[l], frame, t, closed, more);
      }
    }
  }

  lemma Stays(ns: seq<DiagramNode>, ts: seq<Node>, next: FrameNode, closed: set<FrameNode>, more: set<FrameNode>)
    requires Holds(ns, ts, Some(next), closed) && closed <= more
    ensures Holds(ns, ts, Some(next), more)
  {
    hide Denotes;
    DenotesMore(ns[..|ns| - 1], ts, closed, more);
  }

  lemma Landed(ns: seq<DiagramNode>, ts: seq<Node>, frame: FrameNode, t: Node, closed: set<FrameNode>, more: set<FrameNode>)
    requires Holds(ns, ts, Some(frame), closed) && closed <= more && DenotesOne(Framed(frame), t, more)
    ensures Holds(ns, ts + [t], None, more)
  {
    hide DenotesOne;
    DenotesMore(ns[..|ns| - 1], ts, closed, more);
  }

  lemma LevelStays(frame: FrameNode, level: Level, next: FrameNode, closed: set<FrameNode>, more: set<FrameNode>)
    requires HoldsLevel(frame, level, Some(next), closed) && closed <= more
    ensures HoldsLevel(frame, level, Some(next), more)
  {
    hide Holds;
    Stays(frame.children, level.items, next, closed, more);
  }

  lemma LevelLanded(outer: FrameNode, level: Level, frame: FrameNode, t: Node, closed: set<FrameNode>, more: set<FrameNode>)
    requires HoldsLevel(outer, level, Some(frame), closed) && closed <= more && DenotesOne(Framed(frame), t, more)
    ensures HoldsLevel(outer, level.(items := level.items + [t]), None, more)
  {
    hide Holds, DenotesOne;
    Landed(outer.children, level.items, frame, t, closed, more);
  }

  lemma SameDepth(roots: seq<DiagramNode>, stack: seq<FrameNode>, z: Nesting, closed: set<FrameNode>)
    requires Nested(roots, stack, z, closed)
    ensures |stack| == |z.stack| && (stack != [] ==> stack[|stack| - 1].operator == z.stack[|z.stack| - 1].operator)
  {
    hide Denotes;
    if stack != [] {
      assert HoldsLevel(stack[|stack| - 1], z.stack[|stack| - 1], None, closed);
    }
  }

  // ----- No frame stands in two places -----

  /** The frames among the nodes, each as often as it stands there. */
  function FramesIn(ns: seq<DiagramNode>): multiset<FrameNode> {
    if ns == [] then multiset{}
    else
      var last := ns[|ns| - 1];
      FramesIn(ns[..|ns| - 1]) + One(last)
  }

  function AllIn(lists: seq<seq<DiagramNode>>): multiset<FrameNode> {
    if lists == [] then multiset{} else AllIn(lists[..|lists| - 1]) + FramesIn(lists[|lists| - 1])
  }

  function Lists(frames: seq<FrameNode>): (lists: seq<seq<DiagramNode>>)
    reads frames
    ensures |lists| == |frames|
  {
    seq(|frames|, k requires 0 <= k < |frames| reads frames => frames[k].children)
  }

  ghost predicate Apart(frames: seq<FrameNode>) { forall j, k :: 0 <= j < k < |frames| ==> frames[j] != frames[k] }

  /** Among the roots and the children of all frames, each frame stands exactly once. */
  ghost predicate Once(roots: seq<DiagramNode>, frames: seq<FrameNode>)
    reads frames
  {
    Apart(frames) && FramesIn(roots) + AllIn(Lists(frames)) == multiset(frames)
  }

  lemma FramesMore(ns: seq<DiagramNode>, node: DiagramNode)
    ensures FramesIn(ns + [node]) == FramesIn(ns) + One(node)
  {
    assert (ns + [node])[..|ns|] == ns;
  }

  lemma AllMore(lists: seq<seq<DiagramNode>>)
    ensures AllIn(lists + [[]]) == AllIn(lists)
  {
    assert (lists + [[]])[..|lists|] == lists;
  }

  function One(node: DiagramNode): multiset<FrameNode> { if node.Framed? then multiset{node.frame} else multiset{} }

  lemma AllSnoc(lists: seq<seq<DiagramNode>>, last: seq<DiagramNode>)
    ensures AllIn(lists + [last]) == AllIn(lists) + FramesIn(last)
  {
    assert (lists + [last])[..|lists|] == lists;
  }

  /** Pushing a node onto one of the lists adds the frame it is, if it is one. */
  lemma {:induction false} PushedOnto(lists: seq<seq<DiagramNode>>, k: nat, node: DiagramNode)
    requires k < |lists|
    ensures AllIn(lists[k := lists[k] + [node]]) == AllIn(lists) + One(node)
    decreases |lists|
  {
    hide FramesIn, AllIn, One;
    var front := lists[..|lists| - 1];
    var last := lists[|lists| - 1];
    assert lists == front + [last];
    AllSnoc(front, last);
    if k == |lists| - 1 {
      FramesMore(last, node);
      AllSnoc(front, last + [node]);
      assert lists[k := lists[k] + [node]] == front + [last + [node]];
    } else {
      PushedOnto(front, k, node);
      AllSnoc(front[k := front[k] + [node]], last);
      assert lists[k := lists[k] + [node]] == front[k := front[k] + [node]] + [last];
    }
  }

  /** After `node` was pushed, and `frame` created with no children if the node is one. */
  lemma OnceAfter(
      roots: seq<DiagramNode>, grown: seq<DiagramNode>, frames: seq<FrameNode>, lists: seq<seq<DiagramNode>>,
      after: seq<FrameNode>, k: Option<nat>, node: DiagramNode)
    requires Apart(frames) && |lists| == |frames| && FramesIn(roots) + AllIn(lists) == multiset(frames)
    requires after == if node.Framed? then frames + [node.frame] else frames
    requires node.Framed? ==> node.frame !in frames
    requires var expected := if k.None? then lists else if k.value < |lists| then lists[k.value := lists[k.value] + [node]] else [];
             && (k.Some? ==> k.value < |lists|)
             && grown == (if k.None? then roots + [node] else roots)
             && Lists(after) == if node.Framed? then expected + [[]] else expected
    ensures Once(grown, after)
  {
    hide FramesIn, AllIn, Lists;
    if k.None? {
      FramesMore(roots, node);
      AllMore(lists);
    } else {
      var expected := lists[k.value := lists[k.value] + [node]];
      PushedOnto(lists, k.value, node);
      AllMore(expected);
    }
  }

  /** The list that the innermost frame's children are. */
  ghost function Slot(stack: seq<FrameNode>, frames: seq<FrameNode>): (k: Option<nat>)
    requires stack != [] ==> stack[|stack| - 1] in frames
    ensures stack == [] <==> k.None?
    ensures k.Some? ==> k.value < |frames| && frames[k.value] == stack[|stack| - 1]
  {
    if stack == [] then None else Some(IndexOf(frames, stack[|stack| - 1]))
  }

  ghost function IndexOf(frames: seq<FrameNode>, frame: FrameNode): (k: nat)
    requires frame in frames
    ensures k < |frames| && frames[k] == frame
  {
    if frames[|frames| - 1] == frame then |frames| - 1 else IndexOf(frames[..|frames| - 1], frame)
  }

  ghost function SetOf(frames: seq<FrameNode>): set<FrameNode> { set f | f in frames }

  /** All frames there are: those closed and those still open. */
  ghost predicate Known(frames: seq<FrameNode>, stack: seq<FrameNode>, closed: set<FrameNode>) {
    SetOf(frames) == closed + SetOf(stack)
  }

  lemma KnownStack(frames: seq<FrameNode>, stack: seq<FrameNode>, closed: set<FrameNode>)
    requires Known(frames, stack, closed)
    ensures forall k :: 0 <= k < |stack| ==> stack[k] in frames
  {
    forall k | 0 <= k < |stack|
      ensures stack[k] in frames
    {
      assert stack[k] in SetOf(stack);
      assert stack[k] in SetOf(frames);
    }
  }

  method ReadOpen(step: DiagramStep, roots: seq<DiagramNode>, stack: seq<FrameNode>, ghost z: Nesting, ghost closed: set<FrameNode>, ghost frames: seq<FrameNode>)
    returns (grown: seq<DiagramNode>, deeper: seq<FrameNode>, ghost more: seq<FrameNode>)
    requires step.FrameOpen? && Nested(roots, stack, z, closed) && Known(frames, stack, closed) && Once(roots, frames)
    modifies stack
    ensures Nested(grown, deeper, Take(z, step), closed) && Known(more, deeper, closed) && Once(grown, more)
    ensures frames <= more && fresh(more[|frames|..])
  {
    hide Nested, Denotes, FramesIn, AllIn, One, Take;
    KnownStack(frames, stack, closed);
    ghost var lists := Lists(frames);
    ghost var k := Slot(stack, frames);
    grown, deeper := OpenFrame(step, roots, stack, z, closed);
    ghost var frame := deeper[|stack|];
    more := frames + [frame];
    assert deeper == stack + [frame];
    assert SetOf(more) == SetOf(frames) + {frame};
    assert SetOf(deeper) == SetOf(stack) + {frame};
    OnceAfter(roots, grown, frames, lists, more, k, Framed(frame));
  }

  method ReadClose(outcome: Option<bool>, roots: seq<DiagramNode>, stack: seq<FrameNode>, ghost z: Nesting, ghost closed: set<FrameNode>, ghost frames: seq<FrameNode>)
    returns (shallower: seq<FrameNode>, ghost more: set<FrameNode>)
    requires stack != [] && Nested(roots, stack, z, closed) && Known(frames, stack, closed) && Once(roots, frames)
    modifies stack
    ensures z.stack != [] && Nested(roots, shallower, Shut(z, outcome), more) && Known(frames, shallower, more) && Once(roots, frames)
  {
    hide Nested, Denotes, FramesIn, AllIn, One, Shut;
    SameDepth(roots, stack, z, closed);
    ghost var lists := Lists(frames);
    shallower, more := CloseFrame(outcome, stack, roots, z, closed);
    assert stack == shallower + [stack[|stack| - 1]];
    assert SetOf(stack) == SetOf(shallower) + {stack[|stack| - 1]};
    assert Lists(frames) == lists;
  }

  method ReadNode(node: DiagramNode, roots: seq<DiagramNode>, stack: seq<FrameNode>, ghost t: Node, ghost z: Nesting, ghost closed: set<FrameNode>, ghost frames: seq<FrameNode>)
    returns (grown: seq<DiagramNode>)
    requires !node.Framed? && DenotesOne(node, t, closed)
    requires Nested(roots, stack, z, closed) && Known(frames, stack, closed) && Once(roots, frames)
    modifies stack
    ensures Nested(grown, stack, Push(z, t), closed) && Once(grown, frames)
  {
    hide Nested, Denotes, DenotesOne, FramesIn, AllIn, One, Push;
    KnownStack(frames, stack, closed);
    ghost var lists := Lists(frames);
    ghost var k := Slot(stack, frames);
    grown := Add(node, roots, stack, t, z, closed);
    OnceAfter(roots, grown, frames, lists, frames, k, node);
  }

  /** The body of the loop. */
  method Read(step: DiagramStep, roots: seq<DiagramNode>, stack: seq<FrameNode>, ghost z: Nesting, ghost closed: set<FrameNode>, ghost frames: seq<FrameNode>)
    returns (grown: seq<DiagramNode>, after: seq<FrameNode>, ghost more: set<FrameNode>, ghost framesAfter: seq<FrameNode>)
    requires Nested(roots, stack, z, closed) && Known(frames, stack, closed) && Once(roots, frames)
    modifies stack
    ensures Nested(grown, after, Take(z, step), more) && Known(framesAfter, after, more) && Once(grown, framesAfter)
    ensures frames <= framesAfter && fresh(framesAfter[|frames|..])
  {
    hide Nested, Denotes, Push, Shut, Once, Known;
    SameDepth(roots, stack, z, closed);
    grown, after, more, framesAfter := roots, stack, closed, frames;
    match step
    case FrameOpen(_, _, _) =>
      grown, after, framesAfter := ReadOpen(step, roots, stack, z, closed, frames);
    case FrameClose(outcome) =>
      if |stack| > 0 {
        after, more := ReadClose(outcome, roots, stack, z, closed, frames);
      }
    case FrameSeparator =>
      if |stack| > 0 {
        var operator := stack[|stack| - 1].operator;
        grown := ReadNode(Separating(operator), roots, stack, Divider(operator), z, closed, frames);
      }
    case _ =>
      grown := ReadNode(Plain(step), roots, stack, Leaf(step), z, closed, frames);
  }

  /** What the stream stands for, on the heap: the tree of `Frames.Nest`, in frames that are all new and of
      which none stands in two places. */
  method Build(steps: seq<DiagramStep>) returns (roots: seq<DiagramNode>, ghost frames: seq<FrameNode>)
    ensures fresh(frames) && Denotes(roots, Nest(steps), SetOf(frames)) && Once(roots, frames)
  {
    hide Nested, Take, Once, Denotes;
    var stack: seq<FrameNode> := [];
    roots := [];
    frames := [];
    ghost var closed: set<FrameNode> := {};
    Start();
    for i := 0 to |steps|
      invariant Nested(roots, stack, TakeAll(steps[..i]), closed) && Known(frames, stack, closed) && Once(roots, frames)
      invariant fresh(frames)
    {
      assert steps[..i + 1][..i] == steps[..i];
      KnownStack(frames, stack, closed);
      ghost var before := frames;
      roots, stack, closed, frames := Read(steps[i], roots, stack, TakeAll(steps[..i]), closed, frames);
      assert frames == before + frames[|before|..];
    }
    assert steps[..|steps|] == steps;
    closed := ShutAll(roots, stack, TakeAll(steps), closed);
    assert closed == SetOf(frames);
  }

  lemma Start()
    ensures Nested([], [], TakeAll([]), {}) && Once([], [])
  {
  }

  /** Frames never closed stay as they are: their outcome was `None` all along. */
  ghost method ShutAll(roots: seq<DiagramNode>, stack: seq<FrameNode>, z: Nesting, closed: set<FrameNode>) returns (more: set<FrameNode>)
    requires Nested(roots, stack, z, closed)
    ensures Denotes(roots, Collapse(z), more) && more == closed + SetOf(stack)
    decreases |stack|
  {
    hide Nested, Denotes, Shut;
    if stack == [] {
      more := closed;
      AllShut(roots, z, closed);
    } else {
      var m := |stack| - 1;
      ShutTop(roots, stack, z, closed);
      more := ShutAll(roots, stack[..m], Shut(z, None), closed + {stack[m]});
      assert stack == stack[..m] + [stack[m]];
    }
  }

  lemma AllShut(roots: seq<DiagramNode>, z: Nesting, closed: set<FrameNode>)
    requires Nested(roots, [], z, closed)
    ensures Denotes(roots, Collapse(z), closed)
  {
    hide Denotes;
  }

  lemma ShutTop(roots: seq<DiagramNode>, stack: seq<FrameNode>, z: Nesting, closed: set<FrameNode>)
    requires Nested(roots, stack, z, closed) && stack != []
    ensures z.stack != [] && Collapse(z) == Collapse(Shut(z, None))
    ensures Nested(roots, stack[..|stack| - 1], Shut(z, None), closed + {stack[|stack| - 1]})
  {
    hide Denotes, Shut;
    assert HoldsLevel(stack[|stack| - 1], z.stack[|stack| - 1], None, closed);
    Shutting(roots, stack, z, closed, None);
  }
}
