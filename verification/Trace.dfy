/** Reading the evaluator's trace into a tree (app/frontend/src/lib/bart/trace.ts): nodes on the heap
    whose `children` grow in place, and a stack indexed by depth that may have holes. */
module Trace {
  import opened Lex
  import opened Parse
  import opened Lists
  import opened Trims
  import opened Steps
  import opened Forest

  /** `text` is the line without its indentation, two blanks to a level. */
  datatype Line = Line(text: string, depth: nat)

  // ----- Lines -----

  /** The rows of the text, cut at its line feeds. */
  function SplitLines(raw: string): (rows: seq<string>)
    ensures rows != []
  {
    if raw == "" then [""]
    else
      var rows := SplitLines(raw[1..]);
      if raw[0] == '\n' then [""] + rows else [[raw[0]] + rows[0]] + rows[1..]
  }

  function Rejoin(rows: seq<string>): string
    requires rows != []
  {
    if |rows| == 1 then rows[0] else rows[0] + "\n" + Rejoin(rows[1..])
  }

  /** Splitting loses nothing, and no row holds a line break. */
  lemma {:induction false} SplitExact(raw: string)
    ensures Rejoin(SplitLines(raw)) == raw
    ensures forall row :: row in SplitLines(raw) ==> '\n' !in row
  {
    if raw == "" {
    } else {
      var rest := SplitLines(raw[1..]);
      SplitExact(raw[1..]);
      assert raw == [raw[0]] + raw[1..];
      if raw[0] == '\n' {
        assert ([""] + rest)[1..] == rest;
      } else {
        GrowFirst(raw[0], rest);
        assert forall row :: row in rest[1..] ==> row in rest;
      }
    }
  }

  lemma GrowFirst(c: char, rows: seq<string>)
    requires rows != []
    ensures Rejoin([[c] + rows[0]] + rows[1..]) == [c] + Rejoin(rows)
  {
    var grown := [[c] + rows[0]] + rows[1..];
    assert grown[1..] == rows[1..];
    if |rows| > 1 {
      assert ([c] + rows[0]) + "\n" + Rejoin(rows[1..]) == [c] + (rows[0] + "\n" + Rejoin(rows[1..]));
    }
  }

  /** How much white space the row starts with. */
  function Leading(row: string): (n: nat)
    ensures n <= |row| && TrimStart(row) == row[n..]
  {
    if row != "" && IsSpace(row[0]) then 1 + Leading(row[1..]) else 0
  }

  function ReadLine(row: string): Line { Line(Trim(row), Leading(row) / 2) }

  /** The rows that are not blank, read, in order. */
  function Lines(rows: seq<string>): seq<Line> {
    if rows == [] then []
    else
      var n := |rows| - 1;
      Lines(rows[..n]) + if Trim(rows[n]) == "" then [] else [ReadLine(rows[n])]
  }

  ghost predicate IsBlankRow(row: string) { forall k :: 0 <= k < |row| ==> IsSpace(row[k]) }

  /** The row's text is what white space leaves of it, and its depth is half of the white space before that. */
  ghost predicate ReadFrom(row: string, line: Line) {
    && Trimmed(row, line.text)
    && exists n: nat ::
         && (n == 2 * line.depth || n == 2 * line.depth + 1)
         && n < |row| && !IsSpace(row[n]) && forall k :: 0 <= k < n ==> IsSpace(row[k])
  }

  /** The lines are read from the rows at positions `ks`: all that are not blank, in order. */
  ghost predicate AreLines(rows: seq<string>, ks: seq<nat>, lines: seq<Line>) {
    && Ascending(ks) && |ks| == |lines|
    && (forall k: nat :: k in ks <==> k < |rows| && !IsBlankRow(rows[k]))
    && forall m :: 0 <= m < |ks| ==> ks[m] < |rows| && ReadFrom(rows[ks[m]], lines[m])
  }

  lemma {:induction false} LeadingFrom(row: string)
    ensures forall k :: 0 <= k < Leading(row) ==> IsSpace(row[k])
    ensures Leading(row) < |row| ==> !IsSpace(row[Leading(row)])
  {
    hide IsSpace;
    if row != "" && IsSpace(row[0]) {
      LeadingFrom(row[1..]);
      forall k | 0 <= k < Leading(row)
        ensures IsSpace(row[k])
      {
        if k > 0 {
          assert row[1..][k - 1] == row[k];
        }
      }
    }
  }

  lemma BlankExact(row: string)
    ensures Trim(row) == "" <==> IsBlankRow(row)
  {
    hide IsSpace, Trim;
    TrimIs(row);
    TrimExact(row, "");
    if IsBlankRow(row) {
      assert row[|row|..|row|] == "";
      assert Trimmed(row, "");
    }
  }

  lemma ReadLineExact(row: string)
    requires !IsBlankRow(row)
    ensures ReadFrom(row, ReadLine(row))
  {
    hide IsSpace, Trim, Leading, Trimmed;
    TrimIs(row);
    LeadingFrom(row);
    var n := Leading(row);
    assert n == 2 * (n / 2) || n == 2 * (n / 2) + 1;
  }

  lemma LinesMore(rows: seq<string>, ks: seq<nat>, lines: seq<Line>, row: string, line: Line)
    requires AreLines(rows, ks, lines)
    ensures IsBlankRow(row) ==> AreLines(rows + [row], ks, lines)
    ensures !IsBlankRow(row) && ReadFrom(row, line) ==> AreLines(rows + [row], ks + [|rows|], lines + [line])
  {
    hide IsBlankRow, ReadFrom;
    forall m | 0 <= m < |ks|
      ensures ks[m] < |rows|
    {
      assert ks[m] in ks;
    }
  }

  /** The lines of a text are its rows that are not blank, each with its depth and its text, in order. */
  lemma {:induction false} LinesExact(rows: seq<string>) returns (ks: seq<nat>)
    ensures AreLines(rows, ks, Lines(rows))
    decreases |rows|
  {
    hide IsBlankRow, ReadFrom, Trim, ReadLine;
    if rows == [] {
      ks := [];
    } else {
      var n := |rows| - 1;
      var front, row := rows[..n], rows[n];
      assert rows == front + [row];
      ks := LinesExact(front);
      BlankExact(row);
      LinesMore(front, ks, Lines(front), row, ReadLine(row));
      if !IsBlankRow(row) {
        ReadLineExact(row);
        ks := ks + [n];
      }
    }
  }

  function DepthsOf(lines: seq<Line>): (d: Depths)
    ensures |d| == |lines|
  {
    seq(|lines|, i requires 0 <= i < |lines| => lines[i].depth)
  }

  // ----- The tree on the heap -----

  datatype LineKind = Request | Policy | Rule | Exchange | Connector | Compliance | Result | Other

  /** How the text of a line is classified, and what outcome is read in it. */
  datatype Reader = Reader(classify: string -> LineKind, readOutcome: string -> TraceOutcome)

  class TraceNode {
    const id: nat
    const line: Line
    const kind: LineKind
    const outcome: TraceOutcome
    var children: seq<TraceNode>

    constructor (id: nat, line: Line, reader: Reader)
      ensures Says(this, id, line, reader) && children == []
    {
      this.id := id;
      this.line := line;
      kind := reader.classify(line.text);
      outcome := reader.readOutcome(line.text);
      children := [];
    }
  }

  /** The node carries line number `id`, and what is read in its text. */
  predicate Says(node: TraceNode, id: nat, line: Line, reader: Reader) {
    && node.id == id && node.line == line
    && node.kind == reader.classify(line.text) && node.outcome == reader.readOutcome(line.text)
  }

  function Pick(nodes: seq<TraceNode>, ks: seq<nat>): (picked: seq<TraceNode>)
    requires forall i :: 0 <= i < |ks| ==> ks[i] < |nodes|
    ensures |picked| == |ks|
  {
    seq(|ks|, i requires 0 <= i < |ks| => nodes[ks[i]])
  }

  /** `nodes` are the lines in the order read, and each one's children are, in order, the lines whose
      parent it is. */
  ghost predicate Tree(nodes: seq<TraceNode>, d: Depths)
    reads nodes
  {
    && |nodes| == |d|
    && (forall i, j :: 0 <= i < j < |nodes| ==> nodes[i] != nodes[j])
    && forall k :: 0 <= k < |nodes| ==> nodes[k].line.depth == d[k] && nodes[k].children == Pick(nodes, Kids(d, Some(k), |d|))
  }

  // ----- The stack -----

  /** Line `k` is the last one at its depth, and nothing shallower came after it. */
  predicate OpenAt(d: Depths, k: nat) {
    k < |d| && forall j :: k < j < |d| ==> d[j] > d[k]
  }

  /** Slot `e` of the stack holds the line that is open at depth `e`, or is a hole. */
  predicate Mirrors(stack: seq<Option<nat>>, d: Depths) {
    && (d == [] ==> stack == [])
    && (d != [] ==> |stack| == d[|d| - 1] + 1)
    && (forall e :: 0 <= e < |stack| && stack[e].Some? ==> OpenAt(d, stack[e].value) && d[stack[e].value] == e)
    && (forall k :: 0 <= k < |d| && OpenAt(d, k) ==> d[k] < |stack| && stack[d[k]] == Some(k))
  }

  /** The node goes into the slot of its depth, past holes if need be, and nothing stays above it. */
  function Put<T>(stack: seq<Option<T>>, depth: nat, x: T): seq<Option<T>> {
    (if depth <= |stack| then stack[..depth] else stack + seq(depth - |stack|, _ => None)) + [Some(x)]
  }

  lemma PutMirrors(stack: seq<Option<nat>>, d: Depths, depth: nat)
    requires Mirrors(stack, d)
    ensures Mirrors(Put<nat>(stack, depth, |d|), d + [depth])
  {
    var after := d + [depth];
    var put := Put<nat>(stack, depth, |d|);
    forall k: nat
      ensures OpenAt(after, k) <==> k == |d| || (OpenAt(d, k) && d[k] < depth)
    {
      if k < |d| {
        assert after[|d|] == depth;
        assert forall j :: k < j < |d| ==> after[j] == d[j];
      }
    }
    forall k | 0 <= k < |after| && OpenAt(after, k)
      ensures after[k] < |put| && put[after[k]] == Some(k)
    {
    }
  }

  /** The slots at and above `e` and below `depth` are holes: then no line open is that deep. */
  lemma NearestOpen(stack: seq<Option<nat>>, d: Depths, depth: nat, e: int)
    requires Mirrors(stack, d) && -1 <= e < depth
    requires forall f :: e < f < depth && f < |stack| ==> stack[f].None?
    requires 0 <= e ==> e < |stack| && stack[e].Some?
    ensures Shallower(d, |d|, depth) == if e < 0 then None else stack[e]
  {
    var r := Shallower(d, |d|, depth);
    if r.Some? {
      assert OpenAt(d, r.value);
      if 0 <= e {
        var k := stack[e].value;
        assert k <= r.value;
      }
    }
  }

  /** The nearest line already read that is shallower than `depth`. */
  method FindAncestor(stack: seq<Option<TraceNode>>, depth: nat, ghost ids: seq<Option<nat>>, ghost d: Depths)
    returns (found: Option<TraceNode>)
    requires |ids| == |stack| && Mirrors(ids, d)
    requires forall e :: 0 <= e < |stack| ==> (stack[e].Some? <==> ids[e].Some?)
    ensures var above := Shallower(d, |d|, depth);
            if above.None? then found == None
            else d[above.value] < |stack| && ids[d[above.value]] == above && found == stack[d[above.value]]
  {
    var e := depth - 1;
    while e >= 0
      invariant -1 <= e < depth
      invariant forall f :: e < f < depth && f < |stack| ==> ids[f].None?
    {
      if e < |stack| && stack[e].Some? {
        NearestOpen(ids, d, depth, e);
        return stack[e];
      }
      e := e - 1;
    }
    NearestOpen(ids, d, depth, -1);
    return None;
  }

  // ----- One more line -----

  lemma {:induction false} ShallowerPrefix(d: Depths, x: nat, n: nat, depth: nat)
    requires n <= |d|
    ensures Shallower(d + [x], n, depth) == Shallower(d, n, depth)
  {
    if n == 0 {
    } else {
      ShallowerPrefix(d, x, n - 1, depth);
    }
  }

  lemma {:induction false} KidsPrefix(d: Depths, x: nat, p: Option<nat>, n: nat)
    requires n <= |d|
    ensures Kids(d + [x], p, n) == Kids(d, p, n)
  {
    hide Shallower;
    if n == 0 {
    } else {
      KidsPrefix(d, x, p, n - 1);
      ShallowerPrefix(d, x, n - 1, d[n - 1]);
    }
  }

  lemma KidsGrow(d: Depths, x: nat, p: Option<nat>)
    ensures Kids(d + [x], p, |d| + 1) == if Shallower(d, |d|, x) == p then Kids(d, p, |d|) + [|d|] else Kids(d, p, |d|)
  {
    KidsPrefix(d, x, p, |d|);
    ShallowerPrefix(d, x, |d|, x);
  }

  lemma PickGrow(nodes: seq<TraceNode>, node: TraceNode, ks: seq<nat>)
    requires forall i :: 0 <= i < |ks| ==> ks[i] < |nodes|
    ensures Pick(nodes + [node], ks) == Pick(nodes, ks)
    ensures Pick(nodes + [node], ks + [|nodes|]) == Pick(nodes, ks) + [node]
  {
  }

  /** The node becomes the last child of its parent or, without one, the last root. */
  method Attach(parent: Option<TraceNode>, roots: seq<TraceNode>, node: TraceNode, ghost nodes: seq<TraceNode>, ghost d: Depths)
    returns (grown: seq<TraceNode>)
    requires Tree(nodes, d) && node !in nodes && node.children == []
    requires roots == Pick(nodes, Kids(d, None, |d|))
    requires var above := Shallower(d, |d|, node.line.depth);
             parent == if above.None? then None else Some(nodes[above.value])
    modifies if parent.Some? then {parent.value} else {}
    ensures Tree(nodes + [node], d + [node.line.depth])
    ensures grown == Pick(nodes + [node], Kids(d + [node.line.depth], None, |d| + 1))
  {
    hide Kids, Shallower, Pick;
    ghost var x := node.line.depth;
    ghost var above := Shallower(d, |d|, x);
    if parent.Some? {
      parent.value.children := parent.value.children + [node];
      grown := roots;
    } else {
      grown := roots + [node];
    }
    KidsGrow(d, x, None);
    PickGrow(nodes, node, Kids(d, None, |d|));
    forall k | 0 <= k < |nodes|
      ensures nodes[k].children == Pick(nodes + [node], Kids(d + [x], Some(k), |d| + 1))
    {
      KidsGrow(d, x, Some(k));
      PickGrow(nodes, node, Kids(d, Some(k), |d|));
    }
    NoKidsYet(d + [x]);
  }

  lemma NoKidsYet(d: Depths)
    requires d != []
    ensures Kids(d, Some(|d| - 1), |d|) == []
  {
    KidsNone(d, Some(|d| - 1), 0, |d|);
  }

  lemma LinesGrow(rows: seq<string>, i: nat)
    requires i < |rows|
    ensures Lines(rows[..i + 1]) == Lines(rows[..i]) + if Trim(rows[i]) == "" then [] else [ReadLine(rows[i])]
  {
    assert rows[..i + 1][..i] == rows[..i];
  }

  lemma DepthsGrow(lines: seq<Line>, line: Line)
    ensures DepthsOf(lines + [line]) == DepthsOf(lines) + [line.depth]
  {
  }

  /** The stack of nodes is the stack of line numbers. */
  ghost predicate Holds(stack: seq<Option<TraceNode>>, ids: seq<Option<nat>>, nodes: seq<TraceNode>) {
    && |stack| == |ids|
    && (forall e :: 0 <= e < |ids| && ids[e].Some? ==> ids[e].value < |nodes|)
    && forall e :: 0 <= e < |stack| ==> stack[e] == if ids[e].None? then None else Some(nodes[ids[e].value])
  }

  lemma PutHolds(stack: seq<Option<TraceNode>>, ids: seq<Option<nat>>, nodes: seq<TraceNode>, depth: nat, node: TraceNode)
    requires Holds(stack, ids, nodes)
    ensures Holds(Put(stack, depth, node), Put<nat>(ids, depth, |nodes|), nodes + [node])
  {
  }

  /** What the loop keeps: the tree of the lines read so far, and the stack that says where the next
      one goes. */
  ghost predicate Reading(
      reader: Reader, lines: seq<Line>, nodes: seq<TraceNode>, roots: seq<TraceNode>, stack: seq<Option<TraceNode>>, ids: seq<Option<nat>>)
    reads nodes
  {
    && |nodes| == |lines| && (forall k :: 0 <= k < |lines| ==> Says(nodes[k], k, lines[k], reader))
    && Tree(nodes, DepthsOf(lines)) && roots == Pick(nodes, Kids(DepthsOf(lines), None, |lines|))
    && Mirrors(ids, DepthsOf(lines)) && Holds(stack, ids, nodes)
  }

  /** The body of the loop, on a line that is not blank. */
  method Read(reader: Reader, counter: nat, line: Line, roots: seq<TraceNode>, stack: seq<Option<TraceNode>>,
              ghost lines: seq<Line>, ghost nodes: seq<TraceNode>, ghost ids: seq<Option<nat>>)
    returns (grown: seq<TraceNode>, after: seq<Option<TraceNode>>, node: TraceNode, ghost idsAfter: seq<Option<nat>>)
    requires counter == |lines| && Reading(reader, lines, nodes, roots, stack, ids)
    modifies nodes
    ensures fresh(node) && Reading(reader, lines + [line], nodes + [node], grown, after, idsAfter)
  {
    hide DepthsOf, Mirrors, Holds, Put, Shallower, Kids, Pick;
    node := new TraceNode(counter, line, reader);
    HoldsSome(stack, ids, nodes);
    var parent := FindAncestor(stack, line.depth, ids, DepthsOf(lines));
    grown := Attach(parent, roots, node, nodes, DepthsOf(lines));
    PutMirrors(ids, DepthsOf(lines), line.depth);
    PutHolds(stack, ids, nodes, line.depth, node);
    DepthsGrow(lines, line);
    after := Put(stack, line.depth, node);
    idsAfter := Put<nat>(ids, line.depth, |lines|);
  }

  /** The tree of `raw`: every line that is not blank, once, under the nearest earlier line that is
      shallower. `nodes` names them in the order read. */
  method ParseTrace(raw: string, reader: Reader) returns (roots: seq<TraceNode>, ghost nodes: seq<TraceNode>)
    ensures var lines := Lines(SplitLines(raw));
            && |nodes| == |lines| && (forall k :: 0 <= k < |lines| ==> fresh(nodes[k]) && Says(nodes[k], k, lines[k], reader))
            && Tree(nodes, DepthsOf(lines))
            && roots == Pick(nodes, Kids(DepthsOf(lines), None, |lines|))
  {
    hide Lines, Reading, Trim;
    var rows := SplitLines(raw);
    var stack: seq<Option<TraceNode>> := [];
    var counter := 0;
    ghost var ids: seq<Option<nat>> := [];
    ghost var lines: seq<Line> := [];
    roots := [];
    nodes := [];
    Nothing(reader, rows);
    for i := 0 to |rows|
      invariant counter == |lines| && lines == Lines(rows[..i])
      invariant forall k :: 0 <= k < |nodes| ==> fresh(nodes[k])
      invariant Reading(reader, lines, nodes, roots, stack, ids)
    {
      LinesGrow(rows, i);
      if Trim(rows[i]) != "" {
        var line := ReadLine(rows[i]);
        var node;
        ghost var idsAfter;
        roots, stack, node, idsAfter := Read(reader, counter, line, roots, stack, lines, nodes, ids);
        counter := counter + 1;
        ids := idsAfter;
        lines := lines + [line];
        nodes := nodes + [node];
      }
    }
    assert rows[..|rows|] == rows;
    ReadAll(reader, lines, nodes, roots, stack, ids);
  }

  lemma Nothing(reader: Reader, rows: seq<string>)
    ensures Lines(rows[..0]) == [] && Reading(reader, [], [], [], [], [])
  {
  }

  lemma ReadAll(reader: Reader, lines: seq<Line>, nodes: seq<TraceNode>, roots: seq<TraceNode>, stack: seq<Option<TraceNode>>, ids: seq<Option<nat>>)
    requires Reading(reader, lines, nodes, roots, stack, ids)
    ensures |nodes| == |lines| && forall k :: 0 <= k < |lines| ==> Says(nodes[k], k, lines[k], reader)
    ensures Tree(nodes, DepthsOf(lines)) && roots == Pick(nodes, Kids(DepthsOf(lines), None, |lines|))
  {
  }

  lemma HoldsSome(stack: seq<Option<TraceNode>>, ids: seq<Option<nat>>, nodes: seq<TraceNode>)
    requires Holds(stack, ids, nodes)
    ensures |stack| == |ids|
    ensures forall e :: 0 <= e < |ids| && ids[e].Some? ==> ids[e].value < |nodes|
    ensures forall e :: 0 <= e < |stack| ==> stack[e] == if ids[e].None? then None else Some(nodes[ids[e].value])
  {
  }

  // ----- Back to the listing -----

  lemma TilesHead(nodes: seq<TraceNode>, d: Depths, at: nat, hi: nat)
    requires |nodes| == |d| && at <= hi <= |d| && (at < hi ==> End(d, at) <= hi)
    ensures Pick(nodes, Tiles(d, at, hi)) ==
              if at == hi then [] else [nodes[at]] + Pick(nodes, Tiles(d, End(d, at), hi))
  {
    if at < hi && End(d, at) == hi {
      assert Tiles(d, hi, hi) == [];
    }
  }

  /** Each node followed by the nodes below it: on the children of `p`, the lines below `p` in the order
      they were read. */
  method FlattenTrace(roots: seq<TraceNode>, ghost nodes: seq<TraceNode>, ghost d: Depths, ghost p: Option<nat>)
    returns (flat: seq<TraceNode>)
    requires Tree(nodes, d) && (p.Some? ==> p.value < |d|)
    requires roots == Pick(nodes, Kids(d, p, |d|))
    ensures flat == nodes[From(p)..To(d, p)]
    decreases To(d, p) - From(p)
  {
    hide Kids, Pick, Tiles, Within, End, Forest.RunEnd, Shallower, Parent;
    KidsAreTiles(d, p);
    flat := [];
    ghost var at := From(p);
    ghost var hi := To(d, p);
    FirstChild(d, p);
    for i := 0 to |roots|
      invariant From(p) <= at <= hi && Within(d, p, at)
      invariant flat == nodes[From(p)..at]
      invariant roots[i..] == Pick(nodes, Tiles(d, at, hi))
    {
      TilesHead(nodes, d, at, at);
      NextChild(d, p, at);
      WithinBounds(d, p, End(d, at));
      TilesHead(nodes, d, at, hi);
      assert roots[i..][0] == roots[i];
      var below := FlattenTrace(roots[i].children, nodes, d, Some(at));
      flat := flat + [roots[i]] + below;
      at := End(d, at);
      assert roots[i + 1..] == roots[i..][1..];
    }
    if at < hi {
      NextChild(d, p, at);
      WithinBounds(d, p, End(d, at));
    }
    TilesHead(nodes, d, at, hi);
  }

  lemma WithinBounds(d: Depths, p: Option<nat>, k: nat)
    requires Within(d, p, k)
    ensures From(p) <= k <= To(d, p)
  {
  }

  /** Reading and flattening gives back the lines that are not blank, in order; parents and subtrees are
      those of `Forest`. */
  method ReadBack(raw: string, reader: Reader) returns (flat: seq<TraceNode>)
    ensures |flat| == |Lines(SplitLines(raw))|
    ensures forall k :: 0 <= k < |flat| ==> Says(flat[k], k, Lines(SplitLines(raw))[k], reader)
    ensures Tree(flat, DepthsOf(Lines(SplitLines(raw))))
  {
    ghost var nodes;
    var roots;
    roots, nodes := ParseTrace(raw, reader);
    flat := FlattenTrace(roots, nodes, DepthsOf(Lines(SplitLines(raw))), None);
    assert flat == nodes;
  }
}
