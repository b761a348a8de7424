/** `nest` and `terms` (app/frontend/src/lib/bart/frames.ts): the tree of frames that a flat stream of
    markers stands for. The spec builds it over values, as a stack of levels; `Build` builds it as
    the source does, on the heap, with frames that sit in their parent while they still grow. */
module Frames {
  import opened Lex
  import opened Steps

  datatype Node =
    | Leaf(step: DiagramStep)
    | Divider(between: Operator)
    | Frame(policy: nat, operator: Operator, rule: string, outcome: Option<bool>, children: seq<Node>)

  /** A frame still open, with the children it has so far. */
  datatype Level = Level(policy: nat, operator: Operator, rule: string, items: seq<Node>)

  datatype Nesting = Nesting(roots: seq<Node>, stack: seq<Level>)

  function Push(z: Nesting, node: Node): Nesting {
    if z.stack == [] then z.(roots := z.roots + [node])
    else
      var m := |z.stack| - 1;
      z.(stack := z.stack[m := z.stack[m].(items := z.stack[m].items + [node])])
  }

  /** The innermost frame, closed, becomes a child of the one around it. */
  function Shut(z: Nesting, outcome: Option<bool>): Nesting
    requires z.stack != []
  {
    var m := |z.stack| - 1;
    var top := z.stack[m];
    Push(z.(stack := z.stack[..m]), Frame(top.policy, top.operator, top.rule, outcome, top.items))
  }

  function Take(z: Nesting, step: DiagramStep): Nesting {
    match step
    case FrameOpen(policy, operator, rule) => z.(stack := z.stack + [Level(policy, operator, rule, [])])
    case FrameClose(outcome) => if z.stack == [] then z else Shut(z, outcome)
    case FrameSeparator => if z.stack == [] then z else Push(z, Divider(z.stack[|z.stack| - 1].operator))
    case _ => Push(z, Leaf(step))
  }

  function TakeFrom(z: Nesting, steps: seq<DiagramStep>): Nesting {
    if steps == [] then z else Take(TakeFrom(z, steps[..|steps| - 1]), steps[|steps| - 1])
  }

  function TakeAll(steps: seq<DiagramStep>): Nesting { TakeFrom(Nesting([], []), steps) }

  /** Frames never closed close without an outcome. */
  function Collapse(z: Nesting): seq<Node>
    decreases |z.stack|
  {
    if z.stack == [] then z.roots else Collapse(Shut(z, None))
  }

  function Nest(steps: seq<DiagramStep>): seq<Node> { Collapse(TakeAll(steps)) }

  // ----- Rendering the tree back -----

  function Render(nodes: seq<Node>): seq<DiagramStep> {
    if nodes == [] then [] else Render(nodes[..|nodes| - 1]) + RenderOne(nodes[|nodes| - 1])
  }

  function RenderOne(node: Node): seq<DiagramStep> {
    match node
    case Leaf(step) => [step]
    case Divider(_) => [FrameSeparator]
    case Frame(policy, operator, rule, outcome, children) =>
      [FrameOpen(policy, operator, rule)] + Render(children) + [FrameClose(outcome)]
  }

  /** How many frames are open after `steps`; a close with none open does not count. */
  function Depth(steps: seq<DiagramStep>): nat {
    if steps == [] then 0
    else
      var before := Depth(steps[..|steps| - 1]);
      match steps[|steps| - 1]
      case FrameOpen(_, _, _) => before + 1
      case FrameClose(_) => if before == 0 then 0 else before - 1
      case _ => before
  }

  /** The steps that mean something where they stand: no stray close, no separator outside a frame. */
  function Sound(steps: seq<DiagramStep>): seq<DiagramStep> {
    if steps == [] then []
    else
      var step := steps[|steps| - 1];
      var front := steps[..|steps| - 1];
      Sound(front) + if Depth(front) == 0 && (step.FrameClose? || step.FrameSeparator?) then [] else [step]
  }

  function Closes(n: nat): seq<DiagramStep> { if n == 0 then [] else Closes(n - 1) + [FrameClose(None)] }

  /** What the levels of a nesting stand for, in order. */
  function RenderLevels(stack: seq<Level>): seq<DiagramStep> {
    if stack == [] then []
    else
      var top := stack[|stack| - 1];
      RenderLevels(stack[..|stack| - 1]) + [FrameOpen(top.policy, top.operator, top.rule)] + Render(top.items)
  }

  function RenderNesting(z: Nesting): seq<DiagramStep> { Render(z.roots) + RenderLevels(z.stack) }

  lemma RenderMore(nodes: seq<Node>, node: Node)
    ensures Render(nodes + [node]) == Render(nodes) + RenderOne(node)
  {
    assert (nodes + [node])[..|nodes|] == nodes;
  }

  lemma RenderTop(stack: seq<Level>, top: Level)
    ensures RenderLevels(stack + [top]) == RenderLevels(stack) + ([FrameOpen(top.policy, top.operator, top.rule)] + Render(top.items))
  {
    assert (stack + [top])[..|stack|] == stack;
  }

  lemma RenderPush(z: Nesting, node: Node)
    ensures RenderNesting(Push(z, node)) == RenderNesting(z) + RenderOne(node)
  {
    hide Render, RenderLevels, RenderOne;
    if z.stack == [] {
      RenderMore(z.roots, node);
      NoLevels();
    } else {
      var m := |z.stack| - 1;
      var top := z.stack[m];
      RenderMore(top.items, node);
      RenderTop(z.stack[..m], top);
      RenderTop(z.stack[..m], top.(items := top.items + [node]));
      assert z.stack == z.stack[..m] + [top];
      assert Push(z, node).stack == z.stack[..m] + [top.(items := top.items + [node])];
    }
  }

  lemma NoLevels()
    ensures RenderLevels([]) == [] && Render([]) == []
  {
  }

  lemma RenderShut(z: Nesting, outcome: Option<bool>)
    requires z.stack != []
    ensures RenderNesting(Shut(z, outcome)) == RenderNesting(z) + [FrameClose(outcome)]
  {
    hide Render, RenderLevels, Push;
    var m := |z.stack| - 1;
    var top := z.stack[m];
    RenderPush(z.(stack := z.stack[..m]), Frame(top.policy, top.operator, top.rule, outcome, top.items));
    RenderTop(z.stack[..m], top);
    assert z.stack == z.stack[..m] + [top];
  }

  lemma RenderTake(z: Nesting, step: DiagramStep)
    ensures RenderNesting(Take(z, step)) ==
              RenderNesting(z) + if z.stack == [] && (step.FrameClose? || step.FrameSeparator?) then [] else [step]
  {
    hide RenderNesting, Push, Shut;
    match step
    case FrameOpen(policy, operator, rule) => RenderOpen(z, policy, operator, rule);
    case FrameClose(outcome) => if z.stack != [] { RenderShut(z, outcome); }
    case FrameSeparator => if z.stack != [] { RenderPush(z, Divider(z.stack[|z.stack| - 1].operator)); }
    case _ => RenderPush(z, Leaf(step));
  }

  lemma RenderOpen(z: Nesting, policy: nat, operator: Operator, rule: string)
    ensures RenderNesting(z.(stack := z.stack + [Level(policy, operator, rule, [])])) == RenderNesting(z) + [FrameOpen(policy, operator, rule)]
  {
    hide Render, RenderLevels;
    RenderTop(z.stack, Level(policy, operator, rule, []));
    NoLevels();
  }

  lemma DepthTake(z: Nesting, step: DiagramStep)
    ensures |Take(z, step).stack| ==
              if step.FrameOpen? then |z.stack| + 1 else if step.FrameClose? && z.stack != [] then |z.stack| - 1 else |z.stack|
  {
  }

  lemma {:induction false} RenderTakeAll(steps: seq<DiagramStep>)
    ensures RenderNesting(TakeAll(steps)) == Sound(steps) && |TakeAll(steps).stack| == Depth(steps)
    decreases |steps|
  {
    if steps != [] {
      hide RenderNesting, Take;
      var front := steps[..|steps| - 1];
      RenderTakeAll(front);
      RenderTake(TakeAll(front), steps[|steps| - 1]);
      DepthTake(TakeAll(front), steps[|steps| - 1]);
    } else {
      NoLevels();
    }
  }

  lemma {:induction false} RenderCollapse(z: Nesting)
    ensures Render(Collapse(z)) == RenderNesting(z) + Closes(|z.stack|)
    decreases |z.stack|
  {
    hide Render, RenderNesting, Shut;
    if z.stack != [] {
      RenderShut(z, None);
      ShutLevel(z);
      RenderCollapse(Shut(z, None));
      ClosesFirst(|z.stack| - 1);
    } else {
      NothingOpen(z);
    }
  }

  lemma ShutLevel(z: Nesting)
    requires z.stack != []
    ensures |Shut(z, None).stack| == |z.stack| - 1
  {
  }

  lemma NothingOpen(z: Nesting)
    requires z.stack == []
    ensures RenderNesting(z) == Render(z.roots)
  {
  }

  lemma {:induction false} ClosesFirst(n: nat)
    ensures Closes(n + 1) == [FrameClose(None)] + Closes(n)
  {
    if n == 0 {
    } else {
      ClosesFirst(n - 1);
    }
  }

  /** `nest` loses nothing: rendered back, its tree is the stream without its stray closes and its
      separators outside any frame, and with a close for every frame left open. */
  lemma NestLosesNothing(steps: seq<DiagramStep>)
    ensures Render(Nest(steps)) == Sound(steps) + Closes(Depth(steps))
  {
    RenderTakeAll(steps);
    RenderCollapse(TakeAll(steps));
  }

  /** On a balanced stream it is the identity. */
  predicate Balanced(steps: seq<DiagramStep>) { Sound(steps) == steps && Depth(steps) == 0 }

  lemma NestBalanced(steps: seq<DiagramStep>)
    requires Balanced(steps)
    ensures Render(Nest(steps)) == steps
  {
    NestLosesNothing(steps);
  }

  // ----- Every well-named tree is the tree of its rendering -----

  /** No leaf is a marker, and every divider names the frame it stands in. */
  predicate WellNamed(nodes: seq<Node>, around: Option<Operator>) {
    forall i :: 0 <= i < |nodes| ==> WellNamedOne(nodes[i], around)
  }

  predicate WellNamedOne(node: Node, around: Option<Operator>) {
    match node
    case Leaf(step) => !Marker(step)
    case Divider(operator) => around == Some(operator)
    case Frame(_, operator, _, _, children) => WellNamed(children, Some(operator))
  }

  function Around(z: Nesting): Option<Operator> {
    if z.stack == [] then None else Some(z.stack[|z.stack| - 1].operator)
  }

  predicate WellNamedNesting(z: Nesting) {
    WellNamed(z.roots, None) && forall m :: 0 <= m < |z.stack| ==> WellNamed(z.stack[m].items, Some(z.stack[m].operator))
  }

  lemma TakeNamed(z: Nesting, step: DiagramStep)
    requires WellNamedNesting(z)
    ensures WellNamedNesting(Take(z, step))
  {
    if step.FrameClose? && z.stack != [] {
      ShutNamed(z, step.closing);
    }
  }

  lemma ShutNamed(z: Nesting, outcome: Option<bool>)
    requires WellNamedNesting(z) && z.stack != []
    ensures WellNamedNesting(Shut(z, outcome))
  {
    var top := z.stack[|z.stack| - 1];
    assert WellNamedOne(Frame(top.policy, top.operator, top.rule, outcome, top.items), None);
  }

  lemma {:induction false} TakeAllNamed(steps: seq<DiagramStep>)
    ensures WellNamedNesting(TakeAll(steps))
    decreases |steps|
  {
    hide WellNamedNesting, Take;
    if steps != [] {
      TakeAllNamed(steps[..|steps| - 1]);
      TakeNamed(TakeAll(steps[..|steps| - 1]), steps[|steps| - 1]);
    } else {
      EmptyNamed();
    }
  }

  lemma EmptyNamed()
    ensures WellNamedNesting(Nesting([], []))
  {
  }

  lemma {:induction false} CollapseNamed(z: Nesting)
    requires WellNamedNesting(z)
    ensures WellNamed(Collapse(z), None)
    decreases |z.stack|
  {
    if z.stack == [] {
    } else {
      ShutNamed(z, None);
      CollapseNamed(Shut(z, None));
    }
  }

  /** The tree of every stream is well named: each divider can name the frame it divides. */
  lemma NestNamed(steps: seq<DiagramStep>)
    ensures WellNamed(Nest(steps), None)
  {
    TakeAllNamed(steps);
    CollapseNamed(TakeAll(steps));
  }

  function PushAll(z: Nesting, nodes: seq<Node>): Nesting {
    if z.stack == [] then z.(roots := z.roots + nodes)
    else
      var m := |z.stack| - 1;
      z.(stack := z.stack[m := z.stack[m].(items := z.stack[m].items + nodes)])
  }

  lemma PushAllMore(z: Nesting, front: seq<Node>, last: Node)
    ensures Push(PushAll(z, front), last) == PushAll(z, front + [last]) && Around(PushAll(z, front)) == Around(z)
  {
    assert z.stack == [] ==> z.roots + front + [last] == z.roots + (front + [last]);
    if z.stack != [] {
      var items := z.stack[|z.stack| - 1].items;
      assert items + front + [last] == items + (front + [last]);
    }
  }

  lemma {:induction false} TakeFromAppend(z: Nesting, a: seq<DiagramStep>, b: seq<DiagramStep>)
    ensures TakeFrom(z, a + b) == TakeFrom(TakeFrom(z, a), b)
    decreases |b|
  {
    hide Take;
    if b == [] {
      assert a + b == a;
    } else {
      TakeFromAppend(z, a, b[..|b| - 1]);
      assert (a + b)[..|a + b| - 1] == a + b[..|b| - 1];
    }
  }

  lemma TakeOne(z: Nesting, step: DiagramStep)
    ensures TakeFrom(z, [step]) == Take(z, step)
  {
    assert [step][..0] == [];
  }

  lemma {:induction false} TakeRender(z: Nesting, nodes: seq<Node>)
    requires WellNamed(nodes, Around(z))
    ensures TakeFrom(z, Render(nodes)) == PushAll(z, nodes)
    decreases nodes
  {
    hide TakeFrom, PushAll, Push, Around, RenderOne, WellNamedOne;
    if nodes == [] {
      PushNothing(z);
    } else {
      var front := nodes[..|nodes| - 1];
      var last := nodes[|nodes| - 1];
      TakeRender(z, front);
      TakeFromAppend(z, Render(front), RenderOne(last));
      PushAllMore(z, front, last);
      TakeRenderOne(PushAll(z, front), last);
      assert nodes == front + [last];
    }
  }

  lemma PushNothing(z: Nesting)
    ensures TakeFrom(z, []) == z && PushAll(z, []) == z
  {
    if z.stack != [] {
      var top := z.stack[|z.stack| - 1];
      assert top.items + [] == top.items;
    }
  }

  lemma {:induction false} TakeRenderOne(z: Nesting, node: Node)
    requires WellNamedOne(node, Around(z))
    ensures TakeFrom(z, RenderOne(node)) == Push(z, node)
    decreases node
  {
    hide TakeFrom, Render, PushAll, Push;
    match node
    case Leaf(step) => TakeOne(z, step);
    case Divider(_) => TakeOne(z, FrameSeparator);
    case Frame(policy, operator, rule, outcome, children) =>
      var inside := z.(stack := z.stack + [Level(policy, operator, rule, [])]);
      var inner := Render(children);
      TakeOne(z, FrameOpen(policy, operator, rule));
      TakeFromAppend(z, [FrameOpen(policy, operator, rule)], inner);
      TakeRender(inside, children);
      TakeFromAppend(z, [FrameOpen(policy, operator, rule)] + inner, [FrameClose(outcome)]);
      TakeOne(PushAll(inside, children), FrameClose(outcome));
      ShutFilled(z, node);
  }

  lemma ShutFilled(z: Nesting, node: Node)
    requires node.Frame?
    ensures var inside := z.(stack := z.stack + [Level(node.policy, node.operator, node.rule, [])]);
            PushAll(inside, node.children).stack != [] && Shut(PushAll(inside, node.children), node.outcome) == Push(z, node)
  {
    var inside := z.(stack := z.stack + [Level(node.policy, node.operator, node.rule, [])]);
    var filled := PushAll(inside, node.children);
    assert [] + node.children == node.children;
    assert filled.stack == z.stack + [Level(node.policy, node.operator, node.rule, node.children)];
    assert filled.stack[..|z.stack|] == z.stack;
  }

  /** So trees and balanced streams are in bijection: this is the other way round. */
  lemma RenderNest(nodes: seq<Node>)
    requires WellNamed(nodes, None)
    ensures Nest(Render(nodes)) == nodes
  {
    TakeRender(Nesting([], []), nodes);
    assert [] + nodes == nodes;
  }

  // ----- Terms -----

  function NotDividers(children: seq<Node>): seq<Node> {
    if children == [] then []
    else
      var front := NotDividers(children[..|children| - 1]);
      if children[|children| - 1].Divider? then front else front + [children[|children| - 1]]
  }

  function Concat(blocks: seq<seq<Node>>): seq<Node> {
    if blocks == [] then [] else Concat(blocks[..|blocks| - 1]) + blocks[|blocks| - 1]
  }

  function NonEmpty(blocks: seq<seq<Node>>): seq<seq<Node>> {
    if blocks == [] then []
    else
      var front := NonEmpty(blocks[..|blocks| - 1]);
      if blocks[|blocks| - 1] == [] then front else front + [blocks[|blocks| - 1]]
  }

  function Dividers(children: seq<Node>): nat {
    if children == [] then 0 else Dividers(children[..|children| - 1]) + if children[|children| - 1].Divider? then 1 else 0
  }

  /** Block `b` holds the children that have `b` dividers before them, in order. */
  function Block(children: seq<Node>, b: nat): seq<Node> {
    if children == [] then []
    else
      var front := children[..|children| - 1];
      var last := children[|children| - 1];
      if Dividers(front) == b && !last.Divider? then Block(front, b) + [last] else Block(front, b)
  }

  /** The first `n` blocks. */
  function Blocks(children: seq<Node>, n: nat): (blocks: seq<seq<Node>>)
    ensures |blocks| == n
  {
    seq(n, b requires 0 <= b => Block(children, b))
  }

  function AllBlocks(children: seq<Node>): (blocks: seq<seq<Node>>)
    ensures blocks != []
  {
    Blocks(children, Dividers(children) + 1)
  }

  lemma {:induction false} LaterEmpty(children: seq<Node>, b: nat)
    requires b > Dividers(children)
    ensures Block(children, b) == []
  {
    if children == [] {
    } else {
      LaterEmpty(children[..|children| - 1], b);
    }
  }

  lemma BlocksMore(front: seq<Node>, last: Node)
    ensures var blocks := AllBlocks(front);
            var m := |blocks| - 1;
            AllBlocks(front + [last]) == if last.Divider? then blocks + [[]] else blocks[..m] + [blocks[m] + [last]]
  {
    assert (front + [last])[..|front|] == front;
    LaterEmpty(front, Dividers(front) + 1);
  }

  lemma BlocksNone()
    ensures AllBlocks([]) == [[]]
  {
  }

  /** One block per operand, the empty ones dropped. */
  method Terms(children: seq<Node>) returns (kept: seq<seq<Node>>)
    ensures kept == NonEmpty(AllBlocks(children))
  {
    hide AllBlocks;
    var blocks: seq<seq<Node>> := [[]];
    BlocksNone();
    for i := 0 to |children|
      invariant blocks == AllBlocks(children[..i])
    {
      assert children[..i + 1] == children[..i] + [children[i]];
      BlocksMore(children[..i], children[i]);
      if children[i].Divider? {
        blocks := blocks + [[]];
      } else {
        blocks := blocks[..|blocks| - 1] + [blocks[|blocks| - 1] + [children[i]]];
      }
    }
    assert children[..|children|] == children;
    kept := [];
    for i := 0 to |blocks|
      invariant kept == NonEmpty(blocks[..i])
    {
      assert blocks[..i + 1][..i] == blocks[..i];
      if blocks[i] != [] {
        kept := kept + [blocks[i]];
      }
    }
    assert blocks[..|blocks|] == blocks;
  }

  lemma ConcatMore(blocks: seq<seq<Node>>, last: seq<Node>)
    ensures Concat(blocks + [last]) == Concat(blocks) + last
  {
    assert (blocks + [last])[..|blocks|] == blocks;
  }

  lemma {:induction false} BlocksLoseNothing(children: seq<Node>)
    ensures Concat(AllBlocks(children)) == NotDividers(children)
    decreases |children|
  {
    hide AllBlocks, Concat;
    if children == [] {
      BlocksNone();
      NoBlocks();
    } else {
      var front := children[..|children| - 1];
      var last := children[|children| - 1];
      assert children == front + [last];
      BlocksLoseNothing(front);
      BlocksMore(front, last);
      var blocks := AllBlocks(front);
      var m := |blocks| - 1;
      assert blocks == blocks[..m] + [blocks[m]];
      ConcatMore(blocks[..m], blocks[m]);
      ConcatMore(blocks, []);
      ConcatMore(blocks[..m], blocks[m] + [last]);
    }
  }

  lemma NoBlocks()
    ensures Concat([[]]) == []
  {
    ConcatMore([], []);
  }

  lemma {:induction false} NonEmptyKeeps(blocks: seq<seq<Node>>)
    ensures Concat(NonEmpty(blocks)) == Concat(blocks) && [] !in NonEmpty(blocks)
    decreases |blocks|
  {
    if blocks == [] {
    } else {
      var front := blocks[..|blocks| - 1];
      var last := blocks[|blocks| - 1];
      NonEmptyKeeps(front);
      ConcatMore(NonEmpty(front), last);
      assert Concat(front) + [] == Concat(front);
    }
  }

  /** The terms concatenate to the children that are not dividers, and none is empty. */
  lemma TermsLoseNothing(children: seq<Node>)
    ensures var kept := NonEmpty(AllBlocks(children)); Concat(kept) == NotDividers(children) && [] !in kept
  {
    BlocksLoseNothing(children);
    NonEmptyKeeps(AllBlocks(children));
  }

  lemma {:induction false} BlocksSplit(left: seq<Node>, divider: Node, right: seq<Node>)
    requires divider.Divider?
    ensures AllBlocks(left + [divider] + right) == AllBlocks(left) + AllBlocks(right)
    decreases |right|
  {
    hide AllBlocks;
    var before := left + [divider];
    BlocksMore(left, divider);
    BlocksNone();
    if right == [] {
      assert before + right == before;
    } else {
      var front, last := right[..|right| - 1], right[|right| - 1];
      BlocksSplit(left, divider, front);
      BlocksMore(before + front, last);
      BlocksMore(front, last);
      assert right == front + [last] && before + right == (before + front) + [last];
      GrowLast(AllBlocks(left), AllBlocks(front), last);
    }
  }

  lemma GrowLast(a: seq<seq<Node>>, b: seq<seq<Node>>, last: Node)
    requires b != []
    ensures var all, m, n := a + b, |a + b| - 1, |b| - 1;
            && all + [[]] == a + (b + [[]])
            && all[..m] + [all[m] + [last]] == a + (b[..n] + [b[n] + [last]])
  {
  }

  lemma {:induction false} OneBlock(children: seq<Node>)
    requires forall node :: node in children ==> !node.Divider?
    ensures AllBlocks(children) == [children]
    decreases |children|
  {
    hide AllBlocks;
    BlocksNone();
    if children == [] {
    } else {
      var front, last := children[..|children| - 1], children[|children| - 1];
      OneBlock(front);
      BlocksMore(front, last);
      assert children == front + [last];
    }
  }

  lemma {:induction false} NonEmptyAppend(a: seq<seq<Node>>, b: seq<seq<Node>>)
    ensures NonEmpty(a + b) == NonEmpty(a) + NonEmpty(b)
    decreases |b|
  {
    if b == [] {
      assert a + b == a;
    } else {
      NonEmptyAppend(a, b[..|b| - 1]);
      assert (a + b)[..|a + b| - 1] == a + b[..|b| - 1];
    }
  }

  /** The terms on the two sides of a divider are the terms of the two sides; with no divider, all children
      are one term, if there are any. */
  lemma TermsSplit(left: seq<Node>, divider: Node, right: seq<Node>)
    ensures divider.Divider? ==>
              NonEmpty(AllBlocks(left + [divider] + right)) == NonEmpty(AllBlocks(left)) + NonEmpty(AllBlocks(right))
    ensures (forall node :: node in left ==> !node.Divider?) ==> NonEmpty(AllBlocks(left)) == if left == [] then [] else [left]
  {
    hide AllBlocks;
    if divider.Divider? {
      BlocksSplit(left, divider, right);
      NonEmptyAppend(AllBlocks(left), AllBlocks(right));
    }
    if forall node :: node in left ==> !node.Divider? {
      OneBlock(left);
      assert [left][..0] == [] && NonEmpty([]) == [];
    }
  }
}
