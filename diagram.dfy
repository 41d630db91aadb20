/**
  The diagram engine of diagram.ts: `applyCommand` and its helpers. A
  diagram is held only as text; every operation reads the nodes and edges
  back out of the text (ParseNodes, ParseEdges), decides, and writes new
  text. The spec functions here (Terminal, AddOne, AddAll, RemoveStep,
  Apply) say what each branch returns; the methods (FindTerminalNode,
  CreateDiagram, AddNode, AddSteps, RemoveNode, ApplyCommand) keep the
  source's loops and are proved to return what the spec functions say.
 */
module Diagram {
  import opened Text
  import opened MermaidSyntax
  import opened Commands

  /** What a call returns, or that it never returns: the terminal-node walk
      has no cycle guard. */
  datatype Outcome<T> = Returns(value: T) | Hangs

  // ---------------------------------------------------------------------------
  // baseDiagram

  function BaseLines(): seq<Line> {
    [HeaderLine,
     NodeLine(Node('A', "Start")), NodeLine(Node('B', "Process")), NodeLine(Node('C', "End")),
     EdgeLine(Edge('A', 'B')), EdgeLine(Edge('B', 'C'))]
  }

  lemma BaseWellFormed()
    ensures WellFormed(BaseLines())
  {
    assert SafeLabel("Start") by { assert forall c | c in "Start" :: c in {'S', 't', 'a', 'r'}; }
    assert SafeLabel("Process") by { assert forall c | c in "Process" :: c in {'P', 'r', 'o', 'c', 'e', 's'}; }
    assert SafeLabel("End") by { assert forall c | c in "End" :: c in {'E', 'n', 'd'}; }
  }

  /** The default diagram: the chain Start -> Process -> End. */
  function BaseDiagram(): (r: string)
    ensures ParseNodes(r) == [Node('A', "Start"), Node('B', "Process"), Node('C', "End")]
    ensures ParseEdges(r) == [Edge('A', 'B'), Edge('B', 'C')]
  {
    BaseWellFormed();
    BaseNodesEdges(BaseLines());
    ParseRender(BaseLines());
    Render(BaseLines())
  }

  lemma BaseNodesEdges(lines: seq<Line>)
    requires lines == BaseLines()
    ensures NodesOf(lines) == [Node('A', "Start"), Node('B', "Process"), Node('C', "End")]
    ensures EdgesOf(lines) == [Edge('A', 'B'), Edge('B', 'C')]
  {
    NodesOfAppend(lines[..4], lines[4..]);
    EdgesOfAppend(lines[..4], lines[4..]);
    assert lines[..4] + lines[4..] == lines;
  }

  // ---------------------------------------------------------------------------
  // findTerminalNode

  function HasId(id: char): Node -> bool { (n: Node) => n.id == id }

  /** The id set `new Set(edges.map(e => e.to))`. */
  function Targets(edges: seq<Edge>): (r: set<char>)
    ensures forall i :: 0 <= i < |edges| ==> edges[i].to in r
    ensures forall c | c in r :: exists i :: 0 <= i < |edges| && edges[i].to == c
  {
    set i | 0 <= i < |edges| :: edges[i].to
  }

  function Outside(ids: set<char>): Node -> bool { (n: Node) => n.id !in ids }

  /** `edges[i]` is the last edge out of `k`. */
  predicate LastFrom(edges: seq<Edge>, i: int, k: char) {
    0 <= i < |edges| && edges[i].from == k && forall j :: i < j < |edges| ==> edges[j].from != k
  }

  /** The map `next` after `for (const e of edges) next.set(e.from, e.to)`. */
  function Successors(edges: seq<Edge>): map<char, char> {
    if |edges| == 0 then map[]
    else Successors(edges[..|edges| - 1])[edges[|edges| - 1].from := edges[|edges| - 1].to]
  }

  /** Every source id is a key of `next`, and its value comes from the LAST edge out of it. */
  lemma {:induction false} SuccessorsLast(edges: seq<Edge>)
    ensures forall i :: 0 <= i < |edges| ==> edges[i].from in Successors(edges)
    ensures forall k | k in Successors(edges) :: exists i :: LastFrom(edges, i, k) && edges[i].to == Successors(edges)[k]
  {
    if |edges| > 0 {
      var n := |edges| - 1;
      var init := edges[..n];
      SuccessorsLast(init);
      var m := Successors(edges);
      forall k | k in m
        ensures exists i :: LastFrom(edges, i, k) && edges[i].to == m[k]
      {
        if k == edges[n].from {
          assert LastFrom(edges, n, k);
        } else {
          var i :| LastFrom(init, i, k) && init[i].to == Successors(init)[k];
          assert LastFrom(edges, i, k);
        }
      }
      forall i | 0 <= i < |edges| ensures edges[i].from in m {
        if i < n { assert init[i] == edges[i]; }
      }
    }
  }

  /** Where the walk starts: the first node that no edge points to, else the first node. */
  function Entry(nodes: seq<Node>, edges: seq<Edge>): (r: Node)
    requires |nodes| > 0
    ensures r in nodes
    ensures r.id !in Targets(edges) ==> exists i :: 0 <= i < |nodes| && nodes[i] == r && forall j :: 0 <= j < i ==> nodes[j].id in Targets(edges)
    ensures r.id in Targets(edges) ==> r == nodes[0] && forall j :: 0 <= j < |nodes| ==> nodes[j].id in Targets(edges)
  {
    match Find(nodes, Outside(Targets(edges)))
    case Some(n) => n
    case None => nodes[0]
  }

  /** One turn of the `while` loop: the node the walk moves on to, if any. */
  function Step(nodes: seq<Node>, next: map<char, char>, cur: Node): (r: Option<Node>)
    ensures r.Some? ==> r.value in nodes && cur.id in next && r.value.id == next[cur.id]
    ensures r.None? <==> cur.id !in next || forall j :: 0 <= j < |nodes| ==> nodes[j].id != next[cur.id]
  {
    if cur.id in next then Find(nodes, HasId(next[cur.id])) else None
  }

  /** The outcome of the walk. `Cycles` means the walk was still moving
      after as many steps as there are nodes; WalkCyclesForever shows that
      it then never stops. */
  datatype Walked = NoNodes | Stopped(node: Node) | Cycles

  function Walk(nodes: seq<Node>, next: map<char, char>, cur: Node, fuel: nat): (r: Walked)
    decreases fuel
    ensures r != NoNodes
    ensures r.Stopped? ==> (r.node == cur || r.node in nodes) && Step(nodes, next, r.node).None?
  {
    match Step(nodes, next, cur)
    case None => Stopped(cur)
    case Some(n) => if fuel == 0 then Cycles else Walk(nodes, next, n, fuel - 1)
  }

  // The termination argument below is about any step function whose moves
  // land on one of finitely many nodes.

  function StepFn(nodes: seq<Node>, next: map<char, char>): Node -> Option<Node> {
    (p: Node) => Step(nodes, next, p)
  }

  /** The node the walk is at after `k` turns of the loop; once the walk
      has stopped it stays where it is. */
  function Pos(step: Node -> Option<Node>, cur: Node, k: nat): Node {
    if k == 0 then cur
    else
      var p := Pos(step, cur, k - 1);
      match step(p)
      case None => p
      case Some(n) => n
  }

  /** The walk still moves on at turn `k`. */
  predicate Moves(step: Node -> Option<Node>, cur: Node, k: nat) {
    step(Pos(step, cur, k)).Some?
  }

  lemma {:induction false} PosShift(step: Node -> Option<Node>, cur: Node, k: nat)
    requires step(cur).Some?
    ensures Pos(step, step(cur).value, k) == Pos(step, cur, k + 1)
  {
    if k > 0 {
      PosShift(step, cur, k - 1);
    }
  }

  /** With fuel `f` the walk reports Cycles exactly when it moves at every turn 0..f. */
  lemma {:induction false} WalkMoves(nodes: seq<Node>, next: map<char, char>, cur: Node, f: nat)
    decreases f
    ensures Walk(nodes, next, cur, f) == Cycles <==> forall k :: 0 <= k <= f ==> Moves(StepFn(nodes, next), cur, k)
  {
    var step := StepFn(nodes, next);
    assert step(cur) == Step(nodes, next, cur);
    match Step(nodes, next, cur)
    case None =>
      assert !Moves(step, cur, 0);
    case Some(n) =>
      if f > 0 {
        WalkMoves(nodes, next, n, f - 1);
        forall k | 0 <= k <= f - 1 ensures Pos(step, n, k) == Pos(step, cur, k + 1) {
          PosShift(step, cur, k);
        }
        if Walk(nodes, next, cur, f) == Cycles {
          forall k | 0 <= k <= f ensures Moves(step, cur, k) {
            if k > 0 { assert Moves(step, n, k - 1); }
          }
        } else {
          var k :| 0 <= k <= f - 1 && !Moves(step, n, k);
          assert !Moves(step, cur, k + 1);
        }
      }
  }

  /** Every move lands on one of `nodes`. */
  ghost predicate LandsIn(step: Node -> Option<Node>, nodes: seq<Node>) {
    forall p :: step(p).Some? ==> step(p).value in nodes
  }

  /** Positions after the walk has moved once lie among the nodes. */
  lemma {:induction false} PosInNodes(step: Node -> Option<Node>, nodes: seq<Node>, cur: Node, k: nat)
    requires LandsIn(step, nodes) && k >= 1 && Moves(step, cur, 0)
    ensures Pos(step, cur, k) in nodes
  {
    if k > 1 {
      PosInNodes(step, nodes, cur, k - 1);
    }
  }

  /** The walk is deterministic: equal positions stay equal. */
  lemma {:induction false} PosRepeat(step: Node -> Option<Node>, cur: Node, i: nat, j: nat, t: nat)
    requires Pos(step, cur, i) == Pos(step, cur, j)
    ensures Pos(step, cur, i + t) == Pos(step, cur, j + t)
  {
    if t > 0 {
      PosRepeat(step, cur, i, j, t - 1);
    }
  }

  /** A sequence longer than `xs` whose elements all come from `xs` repeats an element. */
  lemma Pigeonhole<T>(ts: seq<T>, xs: seq<T>)
    requires |ts| > |xs| && forall i :: 0 <= i < |ts| ==> ts[i] in xs
    ensures exists i, j :: 0 <= i < j < |ts| && ts[i] == ts[j]
  {
    if forall i, j :: 0 <= i < j < |ts| ==> ts[i] != ts[j] {
      DistinctCard(ts);
      SeqSetCard(xs);
      SubsetCard(set t | t in ts, set x | x in xs);
      assert false;
    }
  }

  lemma {:induction false} DistinctCard<T>(ts: seq<T>)
    requires forall i, j :: 0 <= i < j < |ts| ==> ts[i] != ts[j]
    ensures |set t | t in ts| == |ts|
  {
    if |ts| > 0 {
      var rest := ts[1..];
      DistinctCard(rest);
      assert (set t | t in ts) == {ts[0]} + (set t | t in rest);
      assert ts[0] !in rest;
    } else {
      assert (set t | t in ts) == {};
    }
  }

  lemma {:induction false} SeqSetCard<T>(xs: seq<T>)
    ensures |set x | x in xs| <= |xs|
  {
    if |xs| > 0 {
      var rest := xs[1..];
      SeqSetCard(rest);
      assert (set x | x in xs) == {xs[0]} + (set x | x in rest);
    } else {
      assert (set x | x in xs) == {};
    }
  }

  lemma {:induction false} SubsetCard<T>(a: set<T>, b: set<T>)
    requires a <= b
    ensures |a| <= |b|
    decreases |b|
  {
    if a != {} {
      var x :| x in a;
      SubsetCard(a - {x}, b - {x});
    }
  }

  /** A walk that is still moving after as many turns as there are nodes has
      revisited a node, and so moves on forever: `Cycles` is a walk that never
      ends, whatever fuel it is given. */
  lemma WalkCyclesForever(nodes: seq<Node>, next: map<char, char>, cur: Node, fuel: nat)
    requires Walk(nodes, next, cur, |nodes|) == Cycles
    ensures Walk(nodes, next, cur, fuel) == Cycles
    ensures forall k: nat :: Moves(StepFn(nodes, next), cur, k)
  {
    var step := StepFn(nodes, next);
    WalkMoves(nodes, next, cur, |nodes|);
    assert LandsIn(step, nodes) by {
      forall p | step(p).Some? ensures step(p).value in nodes {
        assert step(p) == Step(nodes, next, p);
      }
    }
    var a, b := RepeatWithin(step, nodes, cur);
    forall k: nat ensures Moves(step, cur, k) {
      MovesAll(step, cur, a, b, k);
    }
    WalkMoves(nodes, next, cur, fuel);
  }

  /** A walk that moves at every turn 0..|nodes| has been at some node twice. */
  lemma RepeatWithin(step: Node -> Option<Node>, nodes: seq<Node>, cur: Node) returns (a: nat, b: nat)
    requires LandsIn(step, nodes)
    requires forall k :: 0 <= k <= |nodes| ==> Moves(step, cur, k)
    ensures a < b <= |nodes| + 1 && Pos(step, cur, a) == Pos(step, cur, b)
  {
    var n := |nodes|;
    var ts := seq(n + 1, k requires 0 <= k <= n => Pos(step, cur, k + 1));
    forall k | 0 <= k <= n ensures ts[k] in nodes {
      PosInNodes(step, nodes, cur, k + 1);
    }
    Pigeonhole(ts, nodes);
    var i, j :| 0 <= i < j < |ts| && ts[i] == ts[j];
    a, b := i + 1, j + 1;
  }

  /** From a repeated position on, the walk moves forever. */
  lemma {:induction false} MovesAll(step: Node -> Option<Node>, cur: Node, a: nat, b: nat, k: nat)
    requires a < b && Pos(step, cur, a) == Pos(step, cur, b)
    requires forall m :: 0 <= m < b ==> Moves(step, cur, m)
    decreases k
    ensures Moves(step, cur, k)
  {
    if k >= b {
      var t := k - b;
      MovesAll(step, cur, a, b, a + t);
      PosRepeat(step, cur, a, b, t);
      assert b + t == k;
    }
  }

  /** A walk that stops, stops where the loop does: at the position of the
      first turn at which there is no successor to move to. */
  lemma {:induction false} WalkStopsAtPos(nodes: seq<Node>, next: map<char, char>, cur: Node, f: nat)
    requires Walk(nodes, next, cur, f).Stopped?
    ensures var step := StepFn(nodes, next);
            exists k :: 0 <= k <= f && Walk(nodes, next, cur, f).node == Pos(step, cur, k) &&
                        !Moves(step, cur, k) && forall m :: 0 <= m < k ==> Moves(step, cur, m)
  {
    var k := StopTurn(StepFn(nodes, next), nodes, next, cur, f);
  }

  /** The turn at which the walk from `cur` stops, with the facts that pin it. */
  lemma {:induction false} StopTurn(step: Node -> Option<Node>, nodes: seq<Node>, next: map<char, char>, cur: Node, f: nat)
      returns (k: nat)
    requires step == StepFn(nodes, next) && Walk(nodes, next, cur, f).Stopped?
    decreases f
    ensures k <= f && Walk(nodes, next, cur, f).node == Pos(step, cur, k) && !Moves(step, cur, k)
    ensures forall m :: 0 <= m < k ==> Moves(step, cur, m)
  {
    assert step(cur) == Step(nodes, next, cur);
    match Step(nodes, next, cur)
    case None =>
      k := 0;
    case Some(n) =>
      var j := StopTurn(step, nodes, next, n, f - 1);
      PosShift(step, cur, j);
      MovesBefore(step, cur, j);
      k := j + 1;
  }

  /** A walk that moves at its first turn and then at its next `j` turns
      moves at each of its first `j + 1` turns. */
  lemma MovesBefore(step: Node -> Option<Node>, cur: Node, j: nat)
    requires step(cur).Some? && forall m :: 0 <= m < j ==> Moves(step, step(cur).value, m)
    ensures forall m :: 0 <= m < j + 1 ==> Moves(step, cur, m)
  {
    forall m | 0 <= m < j + 1 ensures Moves(step, cur, m) {
      if m == 0 {
        assert Pos(step, cur, 0) == cur;
      } else {
        MovesShift(step, cur, m - 1);
      }
    }
  }

  lemma MovesShift(step: Node -> Option<Node>, cur: Node, k: nat)
    requires step(cur).Some?
    ensures Moves(step, step(cur).value, k) == Moves(step, cur, k + 1)
  {
    PosShift(step, cur, k);
  }

  /** Once stopped, more fuel changes nothing. */
  lemma {:induction false} WalkStoppedMoreFuel(nodes: seq<Node>, next: map<char, char>, cur: Node, f: nat, g: nat)
    requires Walk(nodes, next, cur, f).Stopped? && f <= g
    decreases f
    ensures Walk(nodes, next, cur, g) == Walk(nodes, next, cur, f)
  {
    match Step(nodes, next, cur)
    case None =>
    case Some(n) =>
      WalkStoppedMoreFuel(nodes, next, n, f - 1, g - 1);
  }

  /** `findTerminalNode`: no node at all, the node the walk stops at, or a
      walk that never stops. */
  function Terminal(s: string): (r: Walked)
    ensures r == NoNodes <==> ParseNodes(s) == []
    ensures r.Stopped? ==> r.node in ParseNodes(s) && Step(ParseNodes(s), Successors(ParseEdges(s)), r.node).None?
    ensures r != NoNodes ==>
            var step := StepFn(ParseNodes(s), Successors(ParseEdges(s)));
            var start := Entry(ParseNodes(s), ParseEdges(s));
            (r.Stopped? ==> exists k :: 0 <= k <= |ParseNodes(s)| && r.node == Pos(step, start, k) &&
                                        !Moves(step, start, k) && forall m :: 0 <= m < k ==> Moves(step, start, m)) &&
            (r == Cycles ==> forall k: nat :: Moves(step, start, k))
  {
    var nodes := ParseNodes(s);
    if |nodes| == 0 then NoNodes
    else
      var next := Successors(ParseEdges(s));
      var start := Entry(nodes, ParseEdges(s));
      var w := Walk(nodes, next, start, |nodes|);
      if w.Stopped? then
        WalkStopsAtPos(nodes, next, start, |nodes|);
        w
      else
        WalkCyclesForever(nodes, next, start, 0);
        w
  }

  /** The loop that fills the map `next`, one edge at a time. */
  method SuccessorMap(edges: seq<Edge>) returns (next: map<char, char>)
    ensures next == Successors(edges)
  {
    next := map[];
    for i := 0 to |edges|
      invariant next == Successors(edges[..i])
    {
      assert edges[..i + 1][..i] == edges[..i];
      next := next[edges[i].from := edges[i].to];
    }
    assert edges[..|edges|] == edges;
  }

  method FindTerminalNode(diagram: string) returns (r: Walked)
    ensures r == Terminal(diagram)
  {
    var nodes := ParseNodes(diagram);
    var edges := ParseEdges(diagram);
    if |nodes| == 0 {
      return NoNodes;
    }
    var next := SuccessorMap(edges);
    var current := Entry(nodes, edges);
    r := WalkLoop(nodes, next, current);
  }

  /** The `while` loop of findTerminalNode from the node `start`; the fuel
      only tells the model when the walk has become a cycle. */
  method WalkLoop(nodes: seq<Node>, next: map<char, char>, start: Node) returns (r: Walked)
    ensures r == Walk(nodes, next, start, |nodes|)
  {
    ghost var goal := Walk(nodes, next, start, |nodes|);
    var current := start;
    var fuel: nat := |nodes|;
    while current.id in next
      invariant Walk(nodes, next, current, fuel) == goal
      decreases fuel
    {
      var nextNode := Find(nodes, HasId(next[current.id]));
      assert Step(nodes, next, current) == nextNode;
      if nextNode.None? {
        return Stopped(current);
      }
      if fuel == 0 {
        return Cycles;
      }
      current := nextNode.value;
      fuel := fuel - 1;
    }
    assert Step(nodes, next, current).None?;
    return Stopped(current);
  }

  // ---------------------------------------------------------------------------
  // nextId and findNodeIdByLabel

  /** The largest id, which `ids.sort().pop()` leaves. */
  function MaxId(ids: seq<char>): (m: char)
    requires |ids| > 0
    ensures m in ids && forall c | c in ids :: c <= m
  {
    if |ids| == 1 then ids[0]
    else
      var rest := MaxId(ids[1..]);
      assert forall c | c in ids :: c == ids[0] || c in ids[1..];
      if ids[0] > rest then ids[0] else rest
  }

  function Ids(nodes: seq<Node>): (r: seq<char>)
    ensures |r| == |nodes| && forall i :: 0 <= i < |nodes| ==> r[i] == nodes[i].id
  {
    seq(|nodes|, i requires 0 <= i < |nodes| => nodes[i].id)
  }

  /** `nextId`: one past the largest id in use, and 'B' when there is no node. */
  function NextId(s: string): (r: char)
    ensures forall i :: 0 <= i < |ParseNodes(s)| ==> ParseNodes(s)[i].id < r
    ensures ParseNodes(s) == [] ==> r == 'B'
    ensures ParseNodes(s) != [] ==> exists i :: 0 <= i < |ParseNodes(s)| && r as int == ParseNodes(s)[i].id as int + 1
    ensures r <= '['
  {
    var nodes := ParseNodes(s);
    var ids := Ids(nodes);
    var last := if |ids| == 0 then 'A' else MaxId(ids);
    assert IsUpper(last) by {
      if |ids| > 0 {
        var i :| 0 <= i < |ids| && ids[i] == last;
        assert nodes[i] in nodes;
      }
    }
    assert forall i :: 0 <= i < |nodes| ==> nodes[i].id <= last by {
      forall i | 0 <= i < |nodes| ensures nodes[i].id <= last { assert ids[i] in ids; }
    }
    (last as int + 1) as char
  }

  function LabelIs(name: string): Node -> bool {
    (n: Node) => Lower(n.name) == Lower(name)
  }

  /** `findNodeIdByLabel`: the id of the first node whose label equals `name`
      once both are lowercased. */
  function FindNodeIdByLabel(s: string, name: string): (r: Option<char>)
    ensures r.None? ==> forall i :: 0 <= i < |ParseNodes(s)| ==> Lower(ParseNodes(s)[i].name) != Lower(name)
    ensures r.Some? ==> exists i :: FirstLabelled(ParseNodes(s), name, i) && ParseNodes(s)[i].id == r.value
  {
    var nodes := ParseNodes(s);
    match FindFrom(nodes, LabelIs(name), 0)
    case Some(i) =>
      assert LabelIs(name)(nodes[i]);
      assert FirstLabelled(nodes, name, i) by {
        forall j | 0 <= j < i ensures Lower(nodes[j].name) != Lower(name) { assert !LabelIs(name)(nodes[j]); }
      }
      Some(nodes[i].id)
    case None =>
      assert forall j :: 0 <= j < |nodes| ==> Lower(nodes[j].name) != Lower(name) by {
        forall j | 0 <= j < |nodes| ensures Lower(nodes[j].name) != Lower(name) { assert !LabelIs(name)(nodes[j]); }
      }
      None
  }

  /** `nodes[i]` is the first node labelled `name`, ignoring case. */
  predicate FirstLabelled(nodes: seq<Node>, name: string, i: int) {
    0 <= i < |nodes| && Lower(nodes[i].name) == Lower(name) &&
    forall j :: 0 <= j < i ==> Lower(nodes[j].name) != Lower(name)
  }

  // ---------------------------------------------------------------------------
  // applyCommand, create branch

  /** Ids are made by `String.fromCharCode(65 + i)`; a Dafny `char` is a
      Unicode scalar value, so the model stops below the surrogate range. */
  const MaxLabels: nat := 0xD800 - 65

  function IdChar(i: nat): (c: char)
    requires i < MaxLabels
    ensures c as int == 65 + i
  {
    (65 + i) as char
  }

  /** The lines the create loop pushes for `names`: the header, then for each
      label its node line and, from the second label on, the edge from the
      previous id. */
  function CreateLines(names: seq<string>): seq<Line>
    requires |names| <= MaxLabels
  {
    if |names| == 0 then [HeaderLine]
    else
      var i := |names| - 1;
      CreateLines(names[..i]) + [NodeLine(Node(IdChar(i), names[i]))] +
      (if i > 0 then [EdgeLine(Edge(IdChar(i - 1), IdChar(i)))] else [])
  }

  /** The text a create command writes, whatever the diagram was. */
  function CreateText(names: Option<seq<string>>): string
    requires names.Some? ==> |names.value| <= MaxLabels
  {
    if names.None? || |names.value| < 2 then BaseDiagram() else Render(CreateLines(names.value))
  }

  method CreateDiagram(names: seq<string>) returns (r: string)
    requires 2 <= |names| <= MaxLabels
    ensures r == CreateText(Some(names))
  {
    var lines := [HeaderLine];
    for i := 0 to |names|
      invariant lines == CreateLines(names[..i])
    {
      assert names[..i + 1][..i] == names[..i];
      lines := lines + [NodeLine(Node(IdChar(i), names[i]))];
      if i > 0 {
        lines := lines + [EdgeLine(Edge(IdChar(i - 1), IdChar(i)))];
      }
    }
    assert names[..|names|] == names;
    return Render(lines);
  }

  // ---------------------------------------------------------------------------
  // applyCommand, add branch

  /** The node an add hangs its new node after: the first node with the
      anchor label, or, when there is no anchor (or it is empty, which is
      falsy), the terminal node. */
  function Anchor(s: string, after: Option<string>): Outcome<Option<Node>> {
    if after.Some? && after.value != "" then Returns(Find(ParseNodes(s), LabelIs(after.value)))
    else
      match Terminal(s)
      case NoNodes => Returns(None)
      case Stopped(n) => Returns(Some(n))
      case Cycles => Hangs
  }

  function OutOf(id: char): Edge -> bool { (e: Edge) => e.from == id }

  function Lacks(p: string): string -> bool { (l: string) => !Contains(l, p) }

  /** The kept lines followed by those an add pushes: the new node, the edge
      from the anchor `a` to it and, when the anchor had an outgoing edge,
      the edge from the new node to that edge's target. */
  function Pushed(kept: seq<string>, newId: char, name: string, a: char, outgoing: Option<Edge>): seq<string> {
    if outgoing.Some? then
      kept + [NodeText(Node(newId, name))] + [EdgeText(Edge(a, newId))] + [EdgeText(Edge(newId, outgoing.value.to))]
    else
      kept + [NodeText(Node(newId, name))] + [EdgeText(Edge(a, newId))]
  }

  /** The text an add writes once its anchor `a` is known: every line that
      contains the anchor's first outgoing edge is dropped, and the new node
      is spliced in after the anchor. */
  function Splice(s: string, a: Node, name: string): string {
    var outgoing := Find(ParseEdges(s), OutOf(a.id));
    Join(Pushed(Kept(Split(s, '\n'), a.id, outgoing), NextId(s), name, a.id, outgoing), "\n")
  }

  /** The lines an add keeps: those without the anchor's first outgoing edge. */
  function Kept(lines: seq<string>, a: char, outgoing: Option<Edge>): seq<string> {
    if outgoing.Some? then Filter(lines, Lacks(EdgeText(Edge(a, outgoing.value.to)))) else lines
  }

  /** The add branch on a non-empty diagram text. */
  function AddOne(s: string, name: string, after: Option<string>): Outcome<string> {
    match Anchor(s, after)
    case Hangs => Hangs
    case Returns(None) => Returns(s)
    case Returns(Some(a)) => Returns(Splice(s, a, name))
  }

  method AddNode(s: string, name: string, after: Option<string>) returns (r: Outcome<string>)
    ensures r == AddOne(s, name, after)
  {
    var nodes := ParseNodes(s);
    var edges := ParseEdges(s);
    var afterNode: Option<Node>;
    if after.Some? && after.value != "" {
      afterNode := Find(nodes, LabelIs(after.value));
    } else {
      var t := FindTerminalNode(s);
      if t.Cycles? {
        return Hangs;
      }
      afterNode := if t.Stopped? then Some(t.node) else None;
    }
    assert Anchor(s, after) == Returns(afterNode);
    if afterNode.None? {
      return Returns(s);
    }
    var a := afterNode.value;
    var newId := NextId(s);
    var outgoing := Find(edges, OutOf(a.id));
    var lines := Split(s, '\n');
    if outgoing.Some? {
      lines := Filter(lines, Lacks(EdgeText(Edge(a.id, outgoing.value.to))));
    }
    ghost var kept := lines;
    assert kept == Kept(Split(s, '\n'), a.id, outgoing);
    lines := lines + [NodeText(Node(newId, name))];
    lines := lines + [EdgeText(Edge(a.id, newId))];
    if outgoing.Some? {
      lines := lines + [EdgeText(Edge(newId, outgoing.value.to))];
    }
    assert lines == Pushed(kept, newId, name, a.id, outgoing);
    return Returns(Join(lines, "\n"));
  }

  // ---------------------------------------------------------------------------
  // applyCommand, add_multiple branch

  /** The add_multiple branch: anchorless adds, one per label, each on the
      text the previous one wrote; an empty (falsy) result stops the loop. */
  function AddAll(s: string, steps: seq<string>): Outcome<string>
    decreases |steps|
  {
    if |steps| == 0 then Returns(s)
    else
      match AddOne(s, steps[0], None)
      case Hangs => Hangs
      case Returns(r) => if r == "" then Returns(s) else AddAll(r, steps[1..])
  }

  method AddSteps(s: string, steps: seq<string>) returns (r: Outcome<string>)
    ensures r == AddAll(s, steps)
  {
    var current := s;
    for i := 0 to |steps|
      invariant AddAll(current, steps[i..]) == AddAll(s, steps)
    {
      assert steps[i..][1..] == steps[i + 1..];
      var result := AddNode(current, steps[i], None);
      if result.Hangs? {
        return Hangs;
      }
      if result.value == "" {
        break;
      }
      current := result.value;
    }
    return Returns(current);
  }

  // ---------------------------------------------------------------------------
  // applyCommand, remove branch

  function Into(id: char): Edge -> bool { (e: Edge) => e.to == id }

  function Avoids(id: char): Edge -> bool { (e: Edge) => e.from != id && e.to != id }

  function Other(id: char): Node -> bool { (n: Node) => n.id != id }

  /** The reconnections pushed for one incoming edge. */
  function Row(inc: Edge, outs: seq<Edge>): (r: seq<Edge>)
    ensures |r| == |outs| && forall j :: 0 <= j < |outs| ==> r[j] == Edge(inc.from, outs[j].to)
  {
    if |outs| == 0 then [] else Row(inc, outs[..|outs| - 1]) + [Edge(inc.from, outs[|outs| - 1].to)]
  }

  /** The reconnections of the nested loop: for each incoming edge, in order,
      an edge from its source to the target of each outgoing edge. */
  function Cross(ins: seq<Edge>, outs: seq<Edge>): seq<Edge> {
    if |ins| == 0 then [] else Cross(ins[..|ins| - 1], outs) + Row(ins[|ins| - 1], outs)
  }

  function NodeLines(nodes: seq<Node>): (r: seq<Line>)
    ensures |r| == |nodes| && forall i :: 0 <= i < |nodes| ==> r[i] == NodeLine(nodes[i])
  {
    seq(|nodes|, i requires 0 <= i < |nodes| => NodeLine(nodes[i]))
  }

  function EdgeLines(edges: seq<Edge>): (r: seq<Line>)
    ensures |r| == |edges| && forall i :: 0 <= i < |edges| ==> r[i] == EdgeLine(edges[i])
  {
    seq(|edges|, i requires 0 <= i < |edges| => EdgeLine(edges[i]))
  }

  /** The lines the remove branch writes for the removed id. */
  function RemoveLines(nodes: seq<Node>, edges: seq<Edge>, id: char): seq<Line> {
    [HeaderLine] + NodeLines(Filter(nodes, Other(id))) + EdgeLines(RemoveEdges(edges, id))
  }

  /** The edges the remove branch writes: the survivors, then the reconnections. */
  function RemoveEdges(edges: seq<Edge>, id: char): seq<Edge> {
    Filter(edges, Avoids(id)) + Cross(Filter(edges, Into(id)), Filter(edges, OutOf(id)))
  }

  /** The remove branch on a non-empty diagram text: nothing (undefined) when
      no label matches, else the text without the node and with its
      neighbours reconnected. */
  function RemoveStep(s: string, target: string): Option<string> {
    match FindNodeIdByLabel(s, target)
    case None => None
    case Some(id) => Some(Render(RemoveLines(ParseNodes(s), ParseEdges(s), id)))
  }

  method RemoveNode(s: string, target: string) returns (r: Option<string>)
    ensures r == RemoveStep(s, target)
  {
    var found := FindNodeIdByLabel(s, target);
    if found.None? {
      return None;
    }
    var id := found.value;
    var nodes := ParseNodes(s);
    var edges := ParseEdges(s);
    var incoming := Filter(edges, Into(id));
    var outgoing := Filter(edges, OutOf(id));
    var nodeLines := NodeLines(Filter(nodes, Other(id)));
    var edgeLines := Reconnect(Filter(edges, Avoids(id)), incoming, outgoing);
    return Some(Render([HeaderLine] + nodeLines + EdgeLines(edgeLines)));
  }

  /** The nested loop of the remove branch: after the surviving edges, one
      edge per (incoming, outgoing) pair. */
  method Reconnect(kept: seq<Edge>, incoming: seq<Edge>, outgoing: seq<Edge>) returns (edgeLines: seq<Edge>)
    ensures edgeLines == kept + Cross(incoming, outgoing)
  {
    edgeLines := kept;
    for i := 0 to |incoming|
      invariant edgeLines == kept + Cross(incoming[..i], outgoing)
    {
      assert incoming[..i + 1][..i] == incoming[..i];
      for j := 0 to |outgoing|
        invariant edgeLines == kept + Cross(incoming[..i], outgoing) + Row(incoming[i], outgoing[..j])
      {
        assert outgoing[..j + 1][..j] == outgoing[..j];
        edgeLines := edgeLines + [Edge(incoming[i].from, outgoing[j].to)];
      }
      assert outgoing[..|outgoing|] == outgoing;
    }
    assert incoming[..|incoming|] == incoming;
  }

  // ---------------------------------------------------------------------------
  // applyCommand

  /** Ids for a create must stay representable. */
  predicate CreateFits(cmd: Command) {
    cmd.Create? && cmd.names.Some? ==> |cmd.names.value| <= MaxLabels
  }

  function Lift(o: Outcome<string>): Outcome<Option<string>> {
    match o
    case Hangs => Hangs
    case Returns(s) => Returns(Some(s))
  }

  /** `applyCommand(diagram, command)`; `None` is `undefined`. */
  function Apply(d: Option<string>, cmd: Command): (r: Outcome<Option<string>>)
    requires CreateFits(cmd)
    ensures cmd.Create? ==> r.Returns? && r.value.Some?
    ensures cmd.Create? && (cmd.names.None? || |cmd.names.value| < 2) ==> r == Returns(Some(BaseDiagram()))
    ensures !cmd.Create? && (d.None? || d.value == "") ==> r == Returns(d)
    ensures cmd.Undo? || cmd.Unknown? || cmd.RemoveAll? ==> r == Returns(d)
    ensures r.Hangs? ==> cmd.Add? || cmd.AddMultiple?
  {
    if cmd.Create? then Returns(Some(CreateText(cmd.names)))
    else if d.None? || d.value == "" then Returns(d)
    else
      match cmd
      case Add(name, after) => Lift(AddOne(d.value, name, after))
      case AddMultiple(steps) => Lift(AddAll(d.value, steps))
      case Remove(target) => Returns(RemoveStep(d.value, target))
      case _ => Returns(d)
  }

  method ApplyCommand(d: Option<string>, cmd: Command) returns (r: Outcome<Option<string>>)
    requires CreateFits(cmd)
    ensures r == Apply(d, cmd)
  {
    if cmd.Create? {
      if cmd.names.None? || |cmd.names.value| < 2 {
        return Returns(Some(BaseDiagram()));
      }
      var text := CreateDiagram(cmd.names.value);
      return Returns(Some(text));
    }
    if d.None? || d.value == "" {
      return Returns(d);
    }
    match cmd
    case Add(name, after) =>
      var o := AddNode(d.value, name, after);
      r := Lift(o);
    case AddMultiple(steps) =>
      var o := AddSteps(d.value, steps);
      r := Lift(o);
    case Remove(target) =>
      var o := RemoveNode(d.value, target);
      r := Returns(o);
    case _ =>
      r := Returns(d);
  }

  // ---------------------------------------------------------------------------
  // Well-formed diagrams, line by line

  function NotEdge(e: Edge): Line -> bool { (l: Line) => l != EdgeLine(e) }

  function Differs(e: Edge): Edge -> bool { (x: Edge) => x != e }

  lemma WellFormedTail(lines: seq<Line>)
    requires |lines| > 0 && WellFormed(lines)
    ensures WellFormed(lines[1..])
  {
    forall k | 0 <= k < |lines| - 1 ensures WellFormedLine(lines[1..][k]) {
      assert lines[1..][k] == lines[k + 1];
    }
  }

  lemma WellFormedFilter(lines: seq<Line>, p: Line -> bool)
    requires WellFormed(lines)
    ensures WellFormed(Filter(lines, p))
  {
    var r := Filter(lines, p);
    forall k | 0 <= k < |r| ensures WellFormedLine(r[k]) {
      assert r[k] in lines;
      var i :| 0 <= i < |lines| && lines[i] == r[k];
    }
  }

  lemma WellFormedAppend(a: seq<Line>, b: seq<Line>)
    requires WellFormed(a) && WellFormed(b)
    ensures WellFormed(a + b)
  {
    forall k | 0 <= k < |a + b| ensures WellFormedLine((a + b)[k]) {
      if k >= |a| { assert (a + b)[k] == b[k - |a|]; }
    }
  }

  /** The node lines of a well-formed diagram declare upper-case ids and safe labels. */
  lemma {:induction false} NodesOfSafe(lines: seq<Line>)
    requires WellFormed(lines)
    ensures forall n | n in NodesOf(lines) :: IsUpper(n.id) && SafeLabel(n.name)
  {
    if |lines| > 0 {
      WellFormedTail(lines);
      NodesOfSafe(lines[1..]);
    }
  }

  /** In a well-formed diagram, the only line whose text contains the text
      of the edge `e` is the line of `e` itself. */
  lemma LineMentions(l: Line, e: Edge)
    requires WellFormedLine(l) && IsUpper(e.from) && IsUpper(e.to)
    ensures Contains(LineText(l), EdgeText(e)) <==> l == EdgeLine(e)
  {
    var p := EdgeText(e);
    assert p[4] == '>';
    match l
    case HeaderLine =>
      var h := Header;
      assert h == "flowchart" + " " + "TD";
      assert '>' !in h;
      NotContainsChar(h, p, '>');
    case NodeLine(n) =>
      var t := NodeText(n);
      assert t == [n.id] + "[" + n.name + "]";
      assert '>' !in t by {
        forall k | 0 <= k < |t| ensures t[k] != '>' {
          if 2 <= k < |t| - 1 { assert t[k] == n.name[k - 2] && n.name[k - 2] in n.name; }
        }
      }
      NotContainsChar(t, p, '>');
    case EdgeLine(x) =>
      ContainsSameLength(EdgeText(x), p);
      if EdgeText(x) == p {
        assert EdgeText(x)[0] == p[0] && EdgeText(x)[6] == p[6];
      }
  }

  /** Dropping every line that contains the text of the edge `e` drops
      exactly the lines of `e`. */
  lemma {:induction false} KeptLineTexts(lines: seq<Line>, e: Edge)
    requires WellFormed(lines) && IsUpper(e.from) && IsUpper(e.to)
    ensures Filter(Texts(lines), Lacks(EdgeText(e))) == Texts(Filter(lines, NotEdge(e)))
  {
    if |lines| > 0 {
      var head := lines[0];
      var rest := lines[1..];
      LineMentions(head, e);
      WellFormedTail(lines);
      KeptLineTexts(rest, e);
      assert Texts(lines)[1..] == Texts(rest);
      var keep := if NotEdge(e)(head) then [head] else [];
      assert Filter(lines, NotEdge(e)) == keep + Filter(rest, NotEdge(e));
      TextsAppend(keep, Filter(rest, NotEdge(e)));
    }
  }

  /** Dropping the lines of an edge keeps every node and every other edge. */
  lemma {:induction false} DropEdgeLines(lines: seq<Line>, e: Edge)
    ensures NodesOf(Filter(lines, NotEdge(e))) == NodesOf(lines)
    ensures EdgesOf(Filter(lines, NotEdge(e))) == Filter(EdgesOf(lines), Differs(e))
  {
    if |lines| > 0 {
      var head := lines[0];
      var rest := lines[1..];
      DropEdgeLines(rest, e);
      var keep := if NotEdge(e)(head) then [head] else [];
      assert Filter(lines, NotEdge(e)) == keep + Filter(rest, NotEdge(e));
      NodesOfAppend(keep, Filter(rest, NotEdge(e)));
      EdgesOfAppend(keep, Filter(rest, NotEdge(e)));
      var he := if head.EdgeLine? then [head.edge] else [];
      assert EdgesOf(lines) == he + EdgesOf(rest);
      FilterAppend(he, EdgesOf(rest), Differs(e));
    }
  }

  // ---------------------------------------------------------------------------
  // Create, read back

  /** The nodes of a created chain: label i under id `chr(65 + i)`. */
  function ChainNodes(names: seq<string>): (r: seq<Node>)
    requires |names| <= MaxLabels
    ensures |r| == |names| && forall i :: 0 <= i < |names| ==> r[i] == Node(IdChar(i), names[i])
  {
    seq(|names|, i requires 0 <= i < |names| => Node(IdChar(i), names[i]))
  }

  /** The edges of a created chain of `n` nodes: i --> i + 1. */
  function ChainEdges(n: nat): (r: seq<Edge>)
    requires n <= MaxLabels
    ensures |r| == (if n == 0 then 0 else n - 1)
    ensures forall i :: 0 <= i < |r| ==> r[i] == Edge(IdChar(i), IdChar(i + 1))
  {
    if n <= 1 then [] else seq(n - 1, i requires 0 <= i < n - 1 => Edge(IdChar(i), IdChar(i + 1)))
  }

  /** The last label's lines: its node and, after the first label, the edge into it. */
  lemma CreateLinesLast(names: seq<string>)
    requires 0 < |names| <= MaxLabels
    ensures var i := |names| - 1;
      CreateLines(names) == CreateLines(names[..i]) + ([NodeLine(Node(IdChar(i), names[i]))] +
        (if i > 0 then [EdgeLine(Edge(IdChar(i - 1), IdChar(i)))] else []))
  {
  }

  lemma {:induction false} CreateWellFormed(names: seq<string>)
    requires |names| <= 26 && forall i :: 0 <= i < |names| ==> SafeLabel(names[i])
    ensures WellFormed(CreateLines(names))
  {
    if |names| > 0 {
      var i := |names| - 1;
      CreateWellFormed(names[..i]);
      CreateLinesLast(names);
      WellFormedAppend(CreateLines(names[..i]), [NodeLine(Node(IdChar(i), names[i]))] +
        (if i > 0 then [EdgeLine(Edge(IdChar(i - 1), IdChar(i)))] else []));
    }
  }

  lemma {:induction false} CreateNodes(names: seq<string>)
    requires |names| <= MaxLabels
    ensures NodesOf(CreateLines(names)) == ChainNodes(names)
  {
    if |names| > 0 {
      var i := |names| - 1;
      CreateNodes(names[..i]);
      CreateLinesLast(names);
      var tail := [NodeLine(Node(IdChar(i), names[i]))] + (if i > 0 then [EdgeLine(Edge(IdChar(i - 1), IdChar(i)))] else []);
      NodesOfAppend(CreateLines(names[..i]), tail);
      var edge: seq<Line> := if i > 0 then [EdgeLine(Edge(IdChar(i - 1), IdChar(i)))] else [];
      NodesOfAppend([NodeLine(Node(IdChar(i), names[i]))], edge);
      assert NodesOf(edge) == [] by { if i > 0 { assert edge[1..] == []; } }
      assert NodesOf(tail) == [Node(IdChar(i), names[i])];
      assert ChainNodes(names) == ChainNodes(names[..i]) + [Node(IdChar(i), names[i])];
    }
  }

  lemma {:induction false} CreateEdges(names: seq<string>)
    requires |names| <= MaxLabels
    ensures EdgesOf(CreateLines(names)) == ChainEdges(|names|)
  {
    if |names| > 0 {
      var i := |names| - 1;
      CreateEdges(names[..i]);
      CreateLinesLast(names);
      var tail := [NodeLine(Node(IdChar(i), names[i]))] + (if i > 0 then [EdgeLine(Edge(IdChar(i - 1), IdChar(i)))] else []);
      EdgesOfAppend(CreateLines(names[..i]), tail);
      var edge: seq<Line> := if i > 0 then [EdgeLine(Edge(IdChar(i - 1), IdChar(i)))] else [];
      EdgesOfAppend([NodeLine(Node(IdChar(i), names[i]))], edge);
      assert EdgesOf([NodeLine(Node(IdChar(i), names[i]))]) == [];
      if i > 0 {
        assert edge[1..] == [];
        assert EdgesOf(tail) == [Edge(IdChar(i - 1), IdChar(i))];
        assert ChainEdges(|names|) == ChainEdges(i) + [Edge(IdChar(i - 1), IdChar(i))];
      } else {
        assert EdgesOf(tail) == [];
      }
    }
  }

  /** Create with two or more labels (at most 26, none with `]`, `>` or a
      line break) writes a text that reads back as the labels in order under
      ids A, B, C, ... and the chain of edges between consecutive ids. */
  lemma CreateChain(names: seq<string>)
    requires 2 <= |names| <= 26 && forall i :: 0 <= i < |names| ==> SafeLabel(names[i])
    ensures ParseNodes(CreateText(Some(names))) == ChainNodes(names)
    ensures ParseEdges(CreateText(Some(names))) == ChainEdges(|names|)
  {
    CreateWellFormed(names);
    CreateNodes(names);
    CreateEdges(names);
    ParseRender(CreateLines(names));
  }

  // ---------------------------------------------------------------------------
  // Add, read back

  /** The lines an add keeps of a well-formed diagram `lines`. */
  function KeptLines(lines: seq<Line>, a: char, o: Option<Edge>): seq<Line> {
    if o.Some? then Filter(lines, NotEdge(Edge(a, o.value.to))) else lines
  }

  /** The lines an add pushes. */
  function AddedLines(newId: char, name: string, a: char, o: Option<Edge>): seq<Line> {
    if o.Some? then [NodeLine(Node(newId, name)), EdgeLine(Edge(a, newId)), EdgeLine(Edge(newId, o.value.to))]
    else [NodeLine(Node(newId, name)), EdgeLine(Edge(a, newId))]
  }

  lemma PushedTexts(kept: seq<Line>, newId: char, name: string, a: char, o: Option<Edge>)
    ensures Pushed(Texts(kept), newId, name, a, o) == Texts(kept + AddedLines(newId, name, a, o))
  {
    var added := AddedLines(newId, name, a, o);
    TextsAppend(kept, added);
    if o.Some? {
      assert Texts(added) == [LineText(added[0]), LineText(added[1]), LineText(added[2])];
    } else {
      assert Texts(added) == [LineText(added[0]), LineText(added[1])];
    }
  }

  lemma KeptTexts(lines: seq<Line>, a: char, o: Option<Edge>)
    requires WellFormed(lines) && IsUpper(a) && (o.Some? ==> IsUpper(o.value.to))
    ensures Kept(Texts(lines), a, o) == Texts(KeptLines(lines, a, o))
  {
    if o.Some? {
      KeptLineTexts(lines, Edge(a, o.value.to));
    }
  }

  /** On a rendered well-formed diagram, the line filter of an add acts on
      whole lines: the text it writes renders the kept lines and the pushed ones. */
  lemma SpliceRender(lines: seq<Line>, a: Node, name: string)
    requires |lines| >= 1 && WellFormed(lines) && a in NodesOf(lines)
    ensures var s := Render(lines);
            var o := Find(EdgesOf(lines), OutOf(a.id));
            Splice(s, a, name) == Render(KeptLines(lines, a.id, o) + AddedLines(NextId(s), name, a.id, o))
  {
    var s := Render(lines);
    SplitRender(lines);
    ParseRender(lines);
    var o := Find(EdgesOf(lines), OutOf(a.id));
    assert IsUpper(a.id);
    assert o.Some? ==> o.value in ParseEdges(s);
    KeptTexts(lines, a.id, o);
    PushedTexts(KeptLines(lines, a.id, o), NextId(s), name, a.id, o);
  }

  lemma AddedRead(newId: char, name: string, a: char, o: Option<Edge>)
    ensures NodesOf(AddedLines(newId, name, a, o)) == [Node(newId, name)]
    ensures EdgesOf(AddedLines(newId, name, a, o)) ==
            if o.Some? then [Edge(a, newId), Edge(newId, o.value.to)] else [Edge(a, newId)]
  {
    var n, ae := NodeLine(Node(newId, name)), EdgeLine(Edge(a, newId));
    ReadOne(n);
    ReadOne(ae);
    NodesOfAppend([n], [ae]);
    EdgesOfAppend([n], [ae]);
    assert [n] + [ae] == [n, ae];
    if o.Some? {
      var f := EdgeLine(Edge(newId, o.value.to));
      ReadOne(f);
      NodesOfAppend([n, ae], [f]);
      EdgesOfAppend([n, ae], [f]);
      assert [n, ae] + [f] == AddedLines(newId, name, a, o);
    }
  }

  lemma ReadOne(l: Line)
    ensures NodesOf([l]) == (if l.NodeLine? then [l.node] else [])
    ensures EdgesOf([l]) == (if l.EdgeLine? then [l.edge] else [])
  {
    assert [l][1..] == [];
  }

  /** Nodes and edges of the lines an add writes. */
  lemma SpliceLinesRead(lines: seq<Line>, newId: char, name: string, a: char, o: Option<Edge>)
    requires WellFormed(lines) && IsUpper(newId) && IsUpper(a) && SafeLabel(name)
    requires o.Some? ==> IsUpper(o.value.to)
    ensures var out := KeptLines(lines, a, o) + AddedLines(newId, name, a, o);
            WellFormed(out) &&
            NodesOf(out) == NodesOf(lines) + [Node(newId, name)] &&
            EdgesOf(out) ==
              if o.Some? then Filter(EdgesOf(lines), Differs(Edge(a, o.value.to))) + [Edge(a, newId), Edge(newId, o.value.to)]
              else EdgesOf(lines) + [Edge(a, newId)]
  {
    var kept := KeptLines(lines, a, o);
    var added := AddedLines(newId, name, a, o);
    if o.Some? {
      WellFormedFilter(lines, NotEdge(Edge(a, o.value.to)));
      DropEdgeLines(lines, Edge(a, o.value.to));
    }
    WellFormedAppend(kept, added);
    NodesOfAppend(kept, added);
    EdgesOfAppend(kept, added);
    AddedRead(newId, name, a, o);
  }

  lemma NextIdUpper(lines: seq<Line>)
    requires WellFormed(lines) && NextId(Render(lines)) <= 'Z'
    ensures IsUpper(NextId(Render(lines)))
  {
    var s := Render(lines);
    if ParseNodes(s) != [] {
      var i :| 0 <= i < |ParseNodes(s)| && NextId(s) as int == ParseNodes(s)[i].id as int + 1;
      assert ParseNodes(s)[i] in ParseNodes(s);
    }
  }

  /** The nodes and edges an add writes, read back: the new node comes after
      all existing ones; when the anchor `a` had an outgoing edge a --> T,
      every copy of that edge gives way to a --> new and new --> T; otherwise
      a --> new is appended. */
  lemma AddSplices(lines: seq<Line>, a: Node, name: string)
    requires |lines| >= 1 && WellFormed(lines) && a in NodesOf(lines) && SafeLabel(name)
    requires NextId(Render(lines)) <= 'Z'
    ensures var s := Render(lines);
            var newId := NextId(s);
            var o := Find(EdgesOf(lines), OutOf(a.id));
            ParseNodes(Splice(s, a, name)) == NodesOf(lines) + [Node(newId, name)] &&
            ParseEdges(Splice(s, a, name)) ==
              if o.Some? then Filter(EdgesOf(lines), Differs(Edge(a.id, o.value.to))) + [Edge(a.id, newId), Edge(newId, o.value.to)]
              else EdgesOf(lines) + [Edge(a.id, newId)]
  {
    var s := Render(lines);
    var o := Find(EdgesOf(lines), OutOf(a.id));
    SpliceRender(lines, a, name);
    ParseRender(lines);
    NextIdUpper(lines);
    assert IsUpper(a.id);
    assert o.Some? ==> o.value in ParseEdges(s);
    SpliceLinesRead(lines, NextId(s), name, a.id, o);
    ParseRender(KeptLines(lines, a.id, o) + AddedLines(NextId(s), name, a.id, o));
  }

  /** The node an add anchors at is a node of the diagram. */
  lemma AnchorIsNode(s: string, after: Option<string>)
    requires Anchor(s, after).Returns? && Anchor(s, after).value.Some?
    ensures Anchor(s, after).value.value in ParseNodes(s)
  {
  }

  /** No anchor is found exactly when the anchor label matches no node (case
      ignored), or, without an anchor label, when there is no node at all. */
  lemma AnchorMissing(s: string, after: Option<string>)
    ensures Anchor(s, after) == Returns(None) <==>
      if after.Some? && after.value != "" then
        forall i :: 0 <= i < |ParseNodes(s)| ==> Lower(ParseNodes(s)[i].name) != Lower(after.value)
      else ParseNodes(s) == []
  {
    if after.Some? && after.value != "" {
      var nodes := ParseNodes(s);
      if Anchor(s, after) == Returns(None) {
        forall i | 0 <= i < |nodes|
          ensures Lower(nodes[i].name) != Lower(after.value)
        {
          assert !LabelIs(after.value)(nodes[i]);
        }
      } else {
        var n := Find(nodes, LabelIs(after.value)).value;
        var i :| 0 <= i < |nodes| && nodes[i] == n;
        assert Lower(nodes[i].name) == Lower(after.value);
      }
    }
  }

  /** On a well-formed diagram, an add leaves the text as it was exactly when
      it finds no anchor: the anchor label matches no node, or there is no
      anchor and no node. Otherwise the text gains a node. */
  lemma AddUnchangedIff(lines: seq<Line>, name: string, after: Option<string>)
    requires |lines| >= 1 && WellFormed(lines) && SafeLabel(name) && NextId(Render(lines)) <= 'Z'
    requires Anchor(Render(lines), after).Returns?
    ensures AddOne(Render(lines), name, after) == Returns(Render(lines)) <==> Anchor(Render(lines), after) == Returns(None)
  {
    var s := Render(lines);
    match Anchor(s, after)
    case Returns(Some(a)) =>
      AnchorIsNode(s, after);
      ParseRender(lines);
      AddSplices(lines, a, name);
      assert |ParseNodes(Splice(s, a, name))| == |ParseNodes(s)| + 1;
    case Returns(None) =>
  }

  // ---------------------------------------------------------------------------
  // Add several: a left fold of anchorless adds

  lemma JoinNonEmpty(parts: seq<string>, sep: string)
    requires |parts| >= 2 && sep != ""
    ensures Join(parts, sep) != ""
  {
    assert |Join(parts, sep)| >= |sep|;
  }

  /** An add on a non-empty text never writes an empty one, so the loop of
      add_multiple never stops early. */
  lemma AddOneNonEmpty(s: string, name: string, after: Option<string>)
    requires s != "" && AddOne(s, name, after).Returns?
    ensures AddOne(s, name, after).value != ""
  {
    match Anchor(s, after)
    case Returns(Some(a)) =>
      var o := Find(ParseEdges(s), OutOf(a.id));
      JoinNonEmpty(Pushed(Kept(Split(s, '\n'), a.id, o), NextId(s), name, a.id, o), "\n");
    case Returns(None) =>
  }

  lemma {:induction false} AddAllNonEmpty(s: string, steps: seq<string>)
    requires s != "" && AddAll(s, steps).Returns?
    decreases |steps|
    ensures AddAll(s, steps).value != ""
  {
    if |steps| > 0 {
      AddOneNonEmpty(s, steps[0], None);
      AddAllNonEmpty(AddOne(s, steps[0], None).value, steps[1..]);
    }
  }

  /** Running the rest of a fold on an outcome. */
  function Then(o: Outcome<string>, steps: seq<string>): Outcome<string> {
    match o
    case Hangs => Hangs
    case Returns(t) => AddAll(t, steps)
  }

  /** add_multiple is a left fold: adding `xs + ys` is adding `xs`, then `ys`
      to the result. */
  lemma {:induction false} AddAllAppend(s: string, xs: seq<string>, ys: seq<string>)
    requires s != ""
    decreases |xs|
    ensures AddAll(s, xs + ys) == Then(AddAll(s, xs), ys)
  {
    if |xs| == 0 {
      assert xs + ys == ys;
    } else {
      assert (xs + ys)[0] == xs[0] && (xs + ys)[1..] == xs[1..] + ys;
      match AddOne(s, xs[0], None)
      case Hangs =>
      case Returns(r) =>
        AddOneNonEmpty(s, xs[0], None);
        AddAllAppend(r, xs[1..], ys);
    }
  }

  /** add_multiple of one label is the anchorless add of that label. */
  lemma AddAllOne(s: string, name: string)
    requires s != ""
    ensures AddAll(s, [name]) == AddOne(s, name, None)
  {
    assert [name][0] == name && [name][1..] == [];
    match AddOne(s, name, None)
    case Hangs =>
    case Returns(r) =>
      AddOneNonEmpty(s, name, None);
  }

  // ---------------------------------------------------------------------------
  // Remove, read back

  lemma {:induction false} CrossMembers(ins: seq<Edge>, outs: seq<Edge>)
    ensures forall e :: e in Cross(ins, outs) <==>
              exists i, j :: 0 <= i < |ins| && 0 <= j < |outs| && e == Edge(ins[i].from, outs[j].to)
  {
    if |ins| > 0 {
      var k := |ins| - 1;
      var init := ins[..k];
      CrossMembers(init, outs);
      forall e ensures e in Cross(ins, outs) <==>
                       exists i, j :: 0 <= i < |ins| && 0 <= j < |outs| && e == Edge(ins[i].from, outs[j].to)
      {
        if e in Cross(init, outs) {
          var i, j :| 0 <= i < |init| && 0 <= j < |outs| && e == Edge(init[i].from, outs[j].to);
          assert init[i] == ins[i];
        } else if e in Row(ins[k], outs) {
          var j :| 0 <= j < |outs| && Row(ins[k], outs)[j] == e;
        }
        if exists i, j :: 0 <= i < |ins| && 0 <= j < |outs| && e == Edge(ins[i].from, outs[j].to) {
          var i, j :| 0 <= i < |ins| && 0 <= j < |outs| && e == Edge(ins[i].from, outs[j].to);
          if i < k {
            assert init[i] == ins[i];
          } else {
            assert Row(ins[k], outs)[j] == e;
          }
        }
      }
    }
  }

  /** One reconnection per (incoming, outgoing) pair. */
  lemma {:induction false} CrossSize(ins: seq<Edge>, outs: seq<Edge>)
    ensures |Cross(ins, outs)| == |ins| * |outs|
  {
    if |ins| > 0 {
      var k := |ins| - 1;
      CrossSize(ins[..k], outs);
      assert k * |outs| + |outs| == (k + 1) * |outs|;
    }
  }

  lemma {:induction false} NodeLinesRead(nodes: seq<Node>)
    ensures NodesOf(NodeLines(nodes)) == nodes && EdgesOf(NodeLines(nodes)) == []
  {
    if |nodes| > 0 {
      assert NodeLines(nodes)[1..] == NodeLines(nodes[1..]);
      NodeLinesRead(nodes[1..]);
    }
  }

  lemma {:induction false} EdgeLinesRead(edges: seq<Edge>)
    ensures NodesOf(EdgeLines(edges)) == [] && EdgesOf(EdgeLines(edges)) == edges
  {
    if |edges| > 0 {
      assert EdgeLines(edges)[1..] == EdgeLines(edges[1..]);
      EdgeLinesRead(edges[1..]);
    }
  }

  predicate AllUpper(edges: seq<Edge>) {
    forall e | e in edges :: IsUpper(e.from) && IsUpper(e.to)
  }

  lemma RemoveEdgesUpper(edges: seq<Edge>, id: char)
    requires AllUpper(edges)
    ensures AllUpper(RemoveEdges(edges, id))
  {
    var kept := Filter(edges, Avoids(id));
    var ins, outs := Filter(edges, Into(id)), Filter(edges, OutOf(id));
    CrossMembers(ins, outs);
    forall e | e in Cross(ins, outs) ensures IsUpper(e.from) && IsUpper(e.to) {
      var i, j :| 0 <= i < |ins| && 0 <= j < |outs| && e == Edge(ins[i].from, outs[j].to);
      assert ins[i] in edges && outs[j] in edges;
    }
    forall e | e in kept ensures IsUpper(e.from) && IsUpper(e.to) {
      var k :| 0 <= k < |kept| && kept[k] == e;
    }
  }

  lemma NodeLinesWellFormed(nodes: seq<Node>)
    requires forall n | n in nodes :: IsUpper(n.id) && SafeLabel(n.name)
    ensures WellFormed(NodeLines(nodes))
  {
    forall k | 0 <= k < |nodes| ensures WellFormedLine(NodeLines(nodes)[k]) {
      assert nodes[k] in nodes;
    }
  }

  lemma EdgeLinesWellFormed(edges: seq<Edge>)
    requires AllUpper(edges)
    ensures WellFormed(EdgeLines(edges))
  {
    forall k | 0 <= k < |edges| ensures WellFormedLine(EdgeLines(edges)[k]) {
      assert edges[k] in edges;
    }
  }

  lemma EdgesOfUpper(lines: seq<Line>)
    requires WellFormed(lines) && |lines| >= 1
    ensures AllUpper(EdgesOf(lines))
  {
    ParseRender(lines);
  }

  lemma RemoveLinesWellFormed(lines: seq<Line>, id: char)
    requires WellFormed(lines) && |lines| >= 1
    ensures WellFormed(RemoveLines(NodesOf(lines), EdgesOf(lines), id))
  {
    EdgesOfUpper(lines);
    NodesOfSafe(lines);
    var ns := Filter(NodesOf(lines), Other(id));
    forall n | n in ns ensures IsUpper(n.id) && SafeLabel(n.name) {
      var k :| 0 <= k < |ns| && ns[k] == n;
    }
    NodeLinesWellFormed(ns);
    RemoveEdgesUpper(EdgesOf(lines), id);
    EdgeLinesWellFormed(RemoveEdges(EdgesOf(lines), id));
    assert WellFormed([HeaderLine]);
    WellFormedAppend([HeaderLine], NodeLines(ns));
    WellFormedAppend([HeaderLine] + NodeLines(ns), EdgeLines(RemoveEdges(EdgesOf(lines), id)));
  }

  /** What the remove branch writes, read back: the other nodes in order,
      the edges that do not touch the removed id in order, then one edge
      from the source of each incoming edge to the target of each outgoing
      edge, |incoming| times |outgoing| of them. */
  lemma RemoveReconnects(lines: seq<Line>, target: string, id: char)
    requires |lines| >= 1 && WellFormed(lines)
    requires FindNodeIdByLabel(Render(lines), target) == Some(id)
    ensures RemoveStep(Render(lines), target).Some?
    ensures ParseNodes(RemoveStep(Render(lines), target).value) == Filter(NodesOf(lines), Other(id))
    ensures ParseEdges(RemoveStep(Render(lines), target).value) == RemoveEdges(EdgesOf(lines), id)
    ensures |Cross(Filter(EdgesOf(lines), Into(id)), Filter(EdgesOf(lines), OutOf(id)))| ==
            |Filter(EdgesOf(lines), Into(id))| * |Filter(EdgesOf(lines), OutOf(id))|
  {
    ParseRender(lines);
    var edges := EdgesOf(lines);
    var ns := Filter(NodesOf(lines), Other(id));
    var es := RemoveEdges(edges, id);
    RemoveLinesWellFormed(lines, id);
    var out := RemoveLines(NodesOf(lines), edges, id);
    ParseRender(out);
    ReadOne(HeaderLine);
    NodeLinesRead(ns);
    EdgeLinesRead(es);
    NodesOfAppend([HeaderLine], NodeLines(ns));
    EdgesOfAppend([HeaderLine], NodeLines(ns));
    NodesOfAppend([HeaderLine] + NodeLines(ns), EdgeLines(es));
    EdgesOfAppend([HeaderLine] + NodeLines(ns), EdgeLines(es));
    CrossSize(Filter(edges, Into(id)), Filter(edges, OutOf(id)));
  }

  /** Without a self-loop on `id`, no reconnection touches `id`. */
  lemma RemoveEdgesAvoid(edges: seq<Edge>, id: char)
    requires Edge(id, id) !in edges
    ensures forall e | e in RemoveEdges(edges, id) :: e.from != id && e.to != id
  {
    var kept := Filter(edges, Avoids(id));
    var ins, outs := Filter(edges, Into(id)), Filter(edges, OutOf(id));
    CrossMembers(ins, outs);
    forall e | e in Cross(ins, outs) ensures e.from != id && e.to != id {
      var i, j :| 0 <= i < |ins| && 0 <= j < |outs| && e == Edge(ins[i].from, outs[j].to);
      assert Into(id)(ins[i]) && OutOf(id)(outs[j]);
      assert ins[i] in edges && outs[j] in edges;
    }
    forall e | e in kept ensures e.from != id && e.to != id {
      var k :| 0 <= k < |kept| && kept[k] == e;
      assert Avoids(id)(kept[k]);
    }
  }

  lemma OthersAvoid(nodes: seq<Node>, id: char)
    ensures forall n | n in Filter(nodes, Other(id)) :: n.id != id
  {
    var r := Filter(nodes, Other(id));
    forall n | n in r ensures n.id != id {
      var k :| 0 <= k < |r| && r[k] == n;
      assert Other(id)(r[k]);
    }
  }

  /** Unless the removed node has an edge to itself, nothing that the remove
      branch writes mentions its id. */
  lemma RemoveForgets(lines: seq<Line>, target: string, id: char)
    requires |lines| >= 1 && WellFormed(lines)
    requires FindNodeIdByLabel(Render(lines), target) == Some(id)
    requires Edge(id, id) !in EdgesOf(lines)
    ensures var r := RemoveStep(Render(lines), target).value;
            (forall n | n in ParseNodes(r) :: n.id != id) &&
            (forall e | e in ParseEdges(r) :: e.from != id && e.to != id)
  {
    RemoveReconnects(lines, target, id);
    RemoveEdgesAvoid(EdgesOf(lines), id);
    OthersAvoid(NodesOf(lines), id);
  }

  /** A removed node with an edge to itself leaves that edge behind, now
      pointing at a node that is no longer declared. */
  lemma RemoveSelfLoop(lines: seq<Line>, target: string, id: char)
    requires |lines| >= 1 && WellFormed(lines)
    requires FindNodeIdByLabel(Render(lines), target) == Some(id)
    requires Edge(id, id) in EdgesOf(lines)
    ensures var r := RemoveStep(Render(lines), target).value;
            Edge(id, id) in ParseEdges(r) && forall n | n in ParseNodes(r) :: n.id != id
  {
    RemoveReconnects(lines, target, id);
    var edges := EdgesOf(lines);
    var ins, outs := Filter(edges, Into(id)), Filter(edges, OutOf(id));
    FilterKeeps(edges, Into(id), Edge(id, id));
    FilterKeeps(edges, OutOf(id), Edge(id, id));
    CrossMembers(ins, outs);
    var i :| 0 <= i < |ins| && ins[i] == Edge(id, id);
    var j :| 0 <= j < |outs| && outs[j] == Edge(id, id);
    assert Edge(id, id) in Cross(ins, outs);
    OthersAvoid(NodesOf(lines), id);
  }

  /** The remove branch always changes a diagram written by this system:
      the removed node is no longer declared. */
  lemma RemoveChanges(lines: seq<Line>, target: string, id: char)
    requires |lines| >= 1 && WellFormed(lines)
    requires FindNodeIdByLabel(Render(lines), target) == Some(id)
    ensures RemoveStep(Render(lines), target).value != Render(lines)
  {
    var s := Render(lines);
    RemoveReconnects(lines, target, id);
    ParseRender(lines);
    OthersAvoid(NodesOf(lines), id);
    var i :| FirstLabelled(ParseNodes(s), target, i) && ParseNodes(s)[i].id == id;
    assert ParseNodes(s)[i] !in ParseNodes(RemoveStep(s, target).value);
  }

  /** Remove writes nothing (undefined) exactly when no label matches the target. */
  lemma RemoveNotFound(s: string, target: string)
    ensures RemoveStep(s, target).None? <==>
            forall i :: 0 <= i < |ParseNodes(s)| ==> Lower(ParseNodes(s)[i].name) != Lower(target)
  {
    match FindNodeIdByLabel(s, target)
    case Some(id) =>
      var i :| FirstLabelled(ParseNodes(s), target, i) && ParseNodes(s)[i].id == id;
      assert Lower(ParseNodes(s)[i].name) == Lower(target);
    case None =>
  }

  // ---------------------------------------------------------------------------
  // A worked case: "add testing after process" on the default diagram

  lemma ProcessLabel()
    ensures LabelIs("process")(Node('B', "Process"))
    ensures !LabelIs("process")(Node('A', "Start"))
  {
    assert Lower("Process") == "process" by {
      forall i | 0 <= i < 7 ensures Lower("Process")[i] == "process"[i] {}
    }
    assert Lower("process") == "process" by {
      forall i | 0 <= i < 7 ensures Lower("process")[i] == "process"[i] {}
    }
    assert |Lower("Start")| == 5;
  }

  lemma FindProcess(nodes: seq<Node>)
    requires nodes == [Node('A', "Start"), Node('B', "Process"), Node('C', "End")]
    ensures Find(nodes, LabelIs("process")) == Some(Node('B', "Process"))
  {
    ProcessLabel();
    var r := Find(nodes, LabelIs("process"));
    assert r.Some? by { assert LabelIs("process")(nodes[1]); }
    var i :| 0 <= i < |nodes| && nodes[i] == r.value && forall j :: 0 <= j < i ==> !LabelIs("process")(nodes[j]);
    assert i != 0;
  }

  lemma FindOutOfB(edges: seq<Edge>)
    requires edges == [Edge('A', 'B'), Edge('B', 'C')]
    ensures Find(edges, OutOf('B')) == Some(Edge('B', 'C'))
    ensures Filter(edges, Differs(Edge('B', 'C'))) == [Edge('A', 'B')]
  {
    var r := Find(edges, OutOf('B'));
    assert r.Some? by { assert OutOf('B')(edges[1]); }
    assert edges[1..] == [Edge('B', 'C')] && edges[1..][1..] == [];
  }

  lemma TestingSafe()
    ensures SafeLabel("testing")
  {
    assert forall c | c in "testing" :: c in {'t', 'e', 's', 'i', 'n', 'g'};
  }

  lemma BaseRead()
    ensures BaseDiagram() == Render(BaseLines())
    ensures WellFormed(BaseLines())
    ensures NodesOf(BaseLines()) == [Node('A', "Start"), Node('B', "Process"), Node('C', "End")]
    ensures EdgesOf(BaseLines()) == [Edge('A', 'B'), Edge('B', 'C')]
  {
    BaseWellFormed();
    ParseRender(BaseLines());
  }

  lemma BaseNextId(s: string)
    requires ParseNodes(s) == [Node('A', "Start"), Node('B', "Process"), Node('C', "End")]
    ensures s != "" && NextId(s) == 'D'
  {
    var r := NextId(s);
    var i :| 0 <= i < 3 && r as int == ParseNodes(s)[i].id as int + 1;
    assert ParseNodes(s)[2].id < r;
  }

  lemma AnchorProcess(s: string)
    requires ParseNodes(s) == [Node('A', "Start"), Node('B', "Process"), Node('C', "End")]
    ensures Anchor(s, Some("process")) == Returns(Some(Node('B', "Process")))
  {
    FindProcess(ParseNodes(s));
  }

  lemma AddTestingAnchor(s: string)
    requires ParseNodes(s) == [Node('A', "Start"), Node('B', "Process"), Node('C', "End")]
    ensures s != "" && NextId(s) == 'D'
    ensures AddOne(s, "testing", Some("process")) == Returns(Splice(s, Node('B', "Process"), "testing"))
  {
    BaseNextId(s);
    AnchorProcess(s);
  }

  /** The read-back of an add whose anchor has an outgoing edge `o`. */
  lemma AddBetween(lines: seq<Line>, a: Node, name: string, o: Edge, kept: seq<Edge>, newId: char)
    requires |lines| >= 1 && WellFormed(lines) && a in NodesOf(lines) && SafeLabel(name)
    requires newId == NextId(Render(lines)) && newId <= 'Z'
    requires Find(EdgesOf(lines), OutOf(a.id)) == Some(o)
    requires Filter(EdgesOf(lines), Differs(Edge(a.id, o.to))) == kept
    ensures ParseNodes(Splice(Render(lines), a, name)) == NodesOf(lines) + [Node(newId, name)]
    ensures ParseEdges(Splice(Render(lines), a, name)) == kept + [Edge(a.id, newId), Edge(newId, o.to)]
  {
    AddSplices(lines, a, name);
  }

  lemma AddTestingSplice(lines: seq<Line>, s: string)
    requires |lines| >= 1 && WellFormed(lines) && s == Render(lines) && NextId(s) == 'D'
    requires NodesOf(lines) == [Node('A', "Start"), Node('B', "Process"), Node('C', "End")]
    requires EdgesOf(lines) == [Edge('A', 'B'), Edge('B', 'C')]
    ensures ParseNodes(Splice(s, Node('B', "Process"), "testing")) == NodesOf(lines) + [Node('D', "testing")]
    ensures ParseEdges(Splice(s, Node('B', "Process"), "testing")) ==
            [Edge('A', 'B'), Edge('B', 'D'), Edge('D', 'C')]
  {
    var b, edges := Node('B', "Process"), EdgesOf(lines);
    TestingSafe();
    FindOutOfB(edges);
    AddBetween(lines, b, "testing", Edge('B', 'C'), [Edge('A', 'B')], 'D');
  }

  lemma AddTestingOn(lines: seq<Line>, s: string)
    requires |lines| >= 1 && WellFormed(lines) && s == Render(lines)
    requires NodesOf(lines) == [Node('A', "Start"), Node('B', "Process"), Node('C', "End")]
    requires EdgesOf(lines) == [Edge('A', 'B'), Edge('B', 'C')]
    ensures s != "" && AddOne(s, "testing", Some("process")).Returns?
    ensures ParseNodes(AddOne(s, "testing", Some("process")).value) == ParseNodes(s) + [Node('D', "testing")]
    ensures ParseEdges(AddOne(s, "testing", Some("process")).value) == [Edge('A', 'B'), Edge('B', 'D'), Edge('D', 'C')]
  {
    ParseRender(lines);
    AddTestingAnchor(s);
    AddTestingSplice(lines, s);
  }

  /** On any well-formed text that declares the default diagram's nodes and
      edges (BaseRead shows that BaseDiagram does), the new step gets the
      next free id, D, and is spliced between Process and End: the edge
      B -> C gives way to B -> D and D -> C. */
  lemma AddTestingAfterProcess(lines: seq<Line>, s: string)
    requires |lines| >= 1 && WellFormed(lines) && s == Render(lines)
    requires NodesOf(lines) == [Node('A', "Start"), Node('B', "Process"), Node('C', "End")]
    requires EdgesOf(lines) == [Edge('A', 'B'), Edge('B', 'C')]
    ensures var r := Apply(Some(s), Add("testing", Some("process")));
            r.Returns? && r.value.Some? &&
            ParseNodes(r.value.value) == ParseNodes(s) + [Node('D', "testing")] &&
            ParseEdges(r.value.value) == [Edge('A', 'B'), Edge('B', 'D'), Edge('D', 'C')]
  {
    AddTestingOn(lines, s);
    var r := AddOne(s, "testing", Some("process"));
    assert Apply(Some(s), Add("testing", Some("process"))) == Returns(Some(r.value));
  }
}