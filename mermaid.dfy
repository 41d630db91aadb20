/**
  The diagram text format of diagram.ts: a `flowchart TD` header, node lines
  `X[label]` and edge lines `X --> Y`, one per line. The engine never keeps a
  graph between calls; it reads nodes and edges back out of the whole text
  with two global regular-expression scans, modelled here as ParseNodes and
  ParseEdges.
 */
module MermaidSyntax {
  import opened Text

  datatype Node = Node(id: char, name: string)
  datatype Edge = Edge(from: char, to: char)

  const Header: string := "flowchart TD"
  const Arrow: string := " --> "

  /** The end of the lazy `(.+?)\]`: the first `]` at or after `j`, unless a
      line terminator or the end of the text comes first. */
  function LabelClose(s: string, j: nat): (r: Option<nat>)
    decreases |s| - j
    ensures r.Some? ==> j <= r.value < |s| && s[r.value] == ']'
    ensures r.Some? ==> forall k :: j <= k < r.value ==> s[k] != ']' && !IsLineTerminator(s[k])
  {
    if j >= |s| || IsLineTerminator(s[j]) then None
    else if s[j] == ']' then Some(j)
    else LabelClose(s, j + 1)
  }

  /** One match of `/([A-Z])\[(.+?)\]/` at the very start of `s`, with the
      number of characters it spans. */
  function MatchNode(s: string): (r: Option<(Node, nat)>)
    ensures r.Some? ==> 4 <= r.value.1 <= |s| && IsUpper(r.value.0.id) && r.value.0.name != ""
    ensures r.Some? ==> s[..r.value.1] == [r.value.0.id] + "[" + r.value.0.name + "]"
    ensures r.Some? ==> NoLineTerminator(r.value.0.name)
  {
    if 3 <= |s| && IsUpper(s[0]) && s[1] == '[' && !IsLineTerminator(s[2]) then
      match LabelClose(s, 3)
      case Some(k) =>
        assert s[..k + 1] == [s[0]] + "[" + s[2..k] + "]";
        Some((Node(s[0], s[2..k]), k + 1))
      case None => None
    else None
  }

  /** `parseNodes`: every match of `/([A-Z])\[(.+?)\]/g` in the whole text, in
      text order; the scan resumes after each match. */
  function ParseNodes(s: string): (r: seq<Node>)
    decreases |s|
    ensures forall n | n in r :: IsUpper(n.id) && n.name != ""
  {
    if |s| == 0 then []
    else
      match MatchNode(s)
      case Some((n, k)) => [n] + ParseNodes(s[k..])
      case None => ParseNodes(s[1..])
  }

  /** One match of `/([A-Z]) --> ([A-Z])/` at the very start of `s` (it spans 7 characters). */
  function MatchEdge(s: string): (r: Option<Edge>)
    ensures r.Some? ==> 7 <= |s| && s[..7] == [r.value.from] + Arrow + [r.value.to]
    ensures r.Some? ==> IsUpper(r.value.from) && IsUpper(r.value.to)
  {
    if 7 <= |s| && IsUpper(s[0]) && s[1..6] == Arrow && IsUpper(s[6]) then
      assert s[..7] == [s[0]] + s[1..6] + [s[6]];
      Some(Edge(s[0], s[6]))
    else None
  }

  /** `parseEdges`: every match of `/([A-Z]) --> ([A-Z])/g` in the whole text, in text order. */
  function ParseEdges(s: string): (r: seq<Edge>)
    decreases |s|
    ensures forall e | e in r :: IsUpper(e.from) && IsUpper(e.to)
  {
    if |s| < 7 then []
    else
      match MatchEdge(s)
      case Some(e) => [e] + ParseEdges(s[7..])
      case None => ParseEdges(s[1..])
  }

  /** The line `${id}[${label}]` */
  function NodeText(n: Node): string {
    [n.id] + "[" + n.name + "]"
  }

  /** The line `${from} --> ${to}` */
  function EdgeText(e: Edge): string {
    [e.from] + Arrow + [e.to]
  }

  /** One line of a diagram text as the engine writes it. */
  datatype Line = HeaderLine | NodeLine(node: Node) | EdgeLine(edge: Edge)

  function LineText(l: Line): string {
    match l
    case HeaderLine => Header
    case NodeLine(n) => NodeText(n)
    case EdgeLine(e) => EdgeText(e)
  }

  function Texts(lines: seq<Line>): (r: seq<string>)
    ensures |r| == |lines| && forall k :: 0 <= k < |lines| ==> r[k] == LineText(lines[k])
  {
    if |lines| == 0 then [] else [LineText(lines[0])] + Texts(lines[1..])
  }

  /** `lines.join("\n")` */
  function Render(lines: seq<Line>): string {
    Join(Texts(lines), "\n")
  }

  /** A label that reads back as itself: the lazy label group stops at its
      closing bracket, and no edge can be seen inside it. */
  predicate SafeLabel(name: string) {
    name != "" && ']' !in name && '>' !in name && NoLineTerminator(name)
  }

  predicate WellFormedLine(l: Line) {
    match l
    case HeaderLine => true
    case NodeLine(n) => IsUpper(n.id) && SafeLabel(n.name)
    case EdgeLine(e) => IsUpper(e.from) && IsUpper(e.to)
  }

  predicate WellFormed(lines: seq<Line>) {
    forall k :: 0 <= k < |lines| ==> WellFormedLine(lines[k])
  }

  /** The nodes that the node lines declare, in order. */
  function NodesOf(lines: seq<Line>): seq<Node> {
    if |lines| == 0 then []
    else (if lines[0].NodeLine? then [lines[0].node] else []) + NodesOf(lines[1..])
  }

  /** The edges that the edge lines declare, in order. */
  function EdgesOf(lines: seq<Line>): seq<Edge> {
    if |lines| == 0 then []
    else (if lines[0].EdgeLine? then [lines[0].edge] else []) + EdgesOf(lines[1..])
  }

  lemma {:induction false} NodesOfAppend(a: seq<Line>, b: seq<Line>)
    ensures NodesOf(a + b) == NodesOf(a) + NodesOf(b)
  {
    if |a| > 0 {
      assert (a + b)[1..] == a[1..] + b;
      NodesOfAppend(a[1..], b);
    } else {
      assert a + b == b;
    }
  }

  lemma {:induction false} EdgesOfAppend(a: seq<Line>, b: seq<Line>)
    ensures EdgesOf(a + b) == EdgesOf(a) + EdgesOf(b)
  {
    if |a| > 0 {
      assert (a + b)[1..] == a[1..] + b;
      EdgesOfAppend(a[1..], b);
    } else {
      assert a + b == b;
    }
  }

  lemma {:induction false} TextsAppend(a: seq<Line>, b: seq<Line>)
    ensures Texts(a + b) == Texts(a) + Texts(b)
  {
  }

  // ---------------------------------------------------------------------------
  // Reading a rendered text back

  lemma {:induction false} LabelCloseNewline(a: string, b: string, j: nat)
    requires j <= |a|
    decreases |a| - j
    ensures LabelClose(a + "\n" + b, j) == LabelClose(a, j)
  {
    if j < |a| {
      assert (a + "\n" + b)[j] == a[j];
      LabelCloseNewline(a, b, j + 1);
    } else {
      assert (a + "\n" + b)[j] == '\n';
    }
  }

  lemma MatchNodeNewline(a: string, b: string)
    requires |a| > 0
    ensures MatchNode(a + "\n" + b) == MatchNode(a)
  {
    var s := a + "\n" + b;
    if |a| >= 3 {
      assert s[0] == a[0] && s[1] == a[1] && s[2] == a[2];
      LabelCloseNewline(a, b, 3);
      match LabelClose(a, 3)
      case Some(k) => assert s[2..k] == a[2..k];
      case None =>
    } else {
      assert s[|a|] == '\n';
    }
  }

  /** A scan for node lines never crosses a line break. */
  lemma {:induction false} NodesNewline(a: string, b: string)
    decreases |a|
    ensures ParseNodes(a + "\n" + b) == ParseNodes(a) + ParseNodes(b)
  {
    var s := a + "\n" + b;
    if |a| == 0 {
      assert s[1..] == b;
    } else {
      MatchNodeNewline(a, b);
      match MatchNode(a)
      case Some((n, k)) =>
        assert s[k..] == a[k..] + "\n" + b;
        NodesNewline(a[k..], b);
      case None =>
        assert s[1..] == a[1..] + "\n" + b;
        NodesNewline(a[1..], b);
    }
  }

  lemma MatchEdgeNewline(a: string, b: string)
    requires |a| > 0
    ensures MatchEdge(a + "\n" + b) == MatchEdge(a)
  {
    var s := a + "\n" + b;
    if |a| >= 7 {
      assert s[..7] == a[..7];
      assert s[1..6] == a[1..6];
    } else {
      assert s[|a|] == '\n';
      if 7 <= |s| && |a| < 6 { assert s[1..6][|a| - 1] == '\n'; }
    }
  }

  /** A scan for edge lines never crosses a line break. */
  lemma {:induction false} EdgesNewline(a: string, b: string)
    decreases |a|
    ensures ParseEdges(a + "\n" + b) == ParseEdges(a) + ParseEdges(b)
  {
    var s := a + "\n" + b;
    if |a| == 0 {
      assert !IsUpper(s[0]);
      EdgesSkip(s);
      assert s[1..] == b;
      EdgesShort(a);
    } else {
      MatchEdgeNewline(a, b);
      match MatchEdge(a)
      case Some(e) =>
        EdgesTake(s, e);
        EdgesTake(a, e);
        assert s[7..] == a[7..] + "\n" + b;
        EdgesNewline(a[7..], b);
      case None =>
        EdgesSkip(s);
        EdgesSkip(a);
        assert s[1..] == a[1..] + "\n" + b;
        EdgesNewline(a[1..], b);
    }
  }

  lemma EdgesTake(s: string, e: Edge)
    requires MatchEdge(s) == Some(e)
    ensures ParseEdges(s) == [e] + ParseEdges(s[7..])
  {
  }

  lemma EdgesSkip(s: string)
    requires |s| > 0 && (MatchEdge(s).None? || !IsUpper(s[0]))
    ensures ParseEdges(s) == ParseEdges(s[1..])
  {
  }

  lemma EdgesShort(s: string)
    requires |s| < 7
    ensures ParseEdges(s) == []
  {
  }

  lemma {:induction false} NoBracketNoNodes(s: string)
    requires '[' !in s
    decreases |s|
    ensures ParseNodes(s) == []
  {
    if |s| > 0 {
      assert MatchNode(s).None? by { if |s| >= 3 { assert s[1] in s; } }
      NoBracketNoNodes(s[1..]);
    }
  }

  lemma {:induction false} NoArrowNoEdges(s: string)
    requires '>' !in s
    decreases |s|
    ensures ParseEdges(s) == []
  {
    if |s| >= 7 {
      assert MatchEdge(s).None? by { assert s[4] in s; assert s[1..6][3] == s[4]; }
      NoArrowNoEdges(s[1..]);
    }
  }

  lemma {:induction false} LabelCloseSafe(s: string, p: string, name: string, j: nat)
    requires ']' !in name && NoLineTerminator(name)
    requires s == p + name + "]" && |p| <= j <= |p| + |name|
    decreases |p| + |name| - j
    ensures LabelClose(s, j) == Some(|p| + |name|)
  {
    if j < |p| + |name| {
      assert s[j] == name[j - |p|] && name[j - |p|] in name;
      LabelCloseSafe(s, p, name, j + 1);
    }
  }

  lemma ReadNodeLine(n: Node)
    requires IsUpper(n.id) && SafeLabel(n.name)
    ensures ParseNodes(NodeText(n)) == [n]
    ensures ParseEdges(NodeText(n)) == []
  {
    var s := NodeText(n);
    assert s == [n.id] + "[" + n.name + "]";
    assert n.name[0] in n.name;
    LabelCloseSafe(s, [n.id] + "[", n.name, 3);
    assert s[2..|s| - 1] == n.name;
    assert MatchNode(s) == Some((n, |s|));
    assert s[|s|..] == [];
    NoArrowNoEdges(s);
  }

  lemma ReadEdgeLine(e: Edge)
    requires IsUpper(e.from) && IsUpper(e.to)
    ensures ParseNodes(EdgeText(e)) == []
    ensures ParseEdges(EdgeText(e)) == [e]
  {
    var s := EdgeText(e);
    assert s[1..6] == Arrow;
    assert MatchEdge(s) == Some(e);
    assert s[7..] == [];
    assert '[' !in s;
    NoBracketNoNodes(s);
  }

  lemma ReadHeaderLine()
    ensures ParseNodes(Header) == [] && ParseEdges(Header) == []
  {
    var h := Header;
    assert h == "flowchart" + " " + "TD";
    assert '[' !in h && '>' !in h;
    NoBracketNoNodes(h);
    NoArrowNoEdges(h);
  }

  lemma ReadLine(l: Line)
    requires WellFormedLine(l)
    ensures ParseNodes(LineText(l)) == NodesOf([l])
    ensures ParseEdges(LineText(l)) == EdgesOf([l])
  {
    match l
    case HeaderLine => ReadHeaderLine();
    case NodeLine(n) => ReadNodeLine(n);
    case EdgeLine(e) => ReadEdgeLine(e);
  }

  lemma RenderCons(lines: seq<Line>)
    requires |lines| > 1
    ensures Render(lines) == LineText(lines[0]) + "\n" + Render(lines[1..])
  {
    assert Texts(lines)[1..] == Texts(lines[1..]);
  }

  lemma RenderOne(l: Line)
    ensures Render([l]) == LineText(l)
  {
  }

  /** Round trip of the text format: reading a rendered text back yields
      exactly the declared nodes and edges, each in declaration order. */
  lemma {:induction false} ParseRender(lines: seq<Line>)
    requires WellFormed(lines)
    ensures ParseNodes(Render(lines)) == NodesOf(lines)
    ensures ParseEdges(Render(lines)) == EdgesOf(lines)
  {
    if |lines| == 1 {
      RenderOne(lines[0]);
      ReadLine(lines[0]);
      assert lines == [lines[0]];
    } else if |lines| > 1 {
      var head, rest := lines[0], lines[1..];
      var a, b := LineText(head), Render(rest);
      RenderCons(lines);
      NodesNewline(a, b);
      EdgesNewline(a, b);
      ReadLine(head);
      assert WellFormed(rest) by {
        forall k | 0 <= k < |rest| ensures WellFormedLine(rest[k]) { assert rest[k] == lines[k + 1]; }
      }
      ParseRender(rest);
      assert lines == [head] + rest;
      NodesOfAppend([head], rest);
      EdgesOfAppend([head], rest);
    }
  }

  lemma LineHasNoBreak(l: Line)
    requires WellFormedLine(l)
    ensures '\n' !in LineText(l)
  {
    match l
    case HeaderLine =>
    case NodeLine(n) =>
      assert NodeText(n) == [n.id] + "[" + n.name + "]";
    case EdgeLine(e) =>
  }

  /** Splitting a rendered text at its line breaks gives back its lines. */
  lemma SplitRender(lines: seq<Line>)
    requires |lines| >= 1 && WellFormed(lines)
    ensures Split(Render(lines), '\n') == Texts(lines)
  {
    var ts := Texts(lines);
    forall k | 0 <= k < |ts| ensures '\n' !in ts[k] { LineHasNoBreak(lines[k]); }
    SplitJoin(ts, '\n');
  }
}
