/**
  The command-mode chat responder: it takes the conversation and the current
  diagram text, interprets the last user message as a command, applies it,
  and answers with a message and the diagram to show next.
 */
module Provider {
  import opened Text
  import opened MermaidSyntax
  import opened Commands
  import opened Diagram

  datatype Role = User | Assistant

  datatype ChatMessage = ChatMessage(role: Role, content: string)

  /** The reply; an absent `diagram` is `undefined`. */
  datatype ChatResponse = ChatResponse(message: string, diagram: Option<string>)

  const NoInput := "No input received."
  const NotUnderstood := "I didn\U{2019}t understand that request."
  const Cleared := "Cleared the diagram."
  const RemoveUnclear := "I dont understand the request " + "please tell me what you would like to remove"

  // ---------------------------------------------------------------------------
  // Decimal numerals, as a template literal writes a count

  function Digit(d: nat): (c: char)
    requires d < 10
    ensures IsDigit(c) && (c as int) - ('0' as int) == d
  {
    ['0', '1', '2', '3', '4', '5', '6', '7', '8', '9'][d]
  }

  /** The decimal numeral of `n`: digits only, without a leading zero. */
  function DecimalString(n: nat): (r: string)
    decreases n
    ensures |r| > 0 && forall i :: 0 <= i < |r| ==> IsDigit(r[i])
    ensures |r| > 1 ==> r[0] != '0'
  {
    if n < 10 then [Digit(n)] else DecimalString(n / 10) + [Digit(n % 10)]
  }

  function DigitValue(c: char): nat
    requires IsDigit(c)
  {
    (c as int) - ('0' as int)
  }

  /** The number a string of digits denotes. */
  function DecimalValue(s: string): nat
    requires forall i :: 0 <= i < |s| ==> IsDigit(s[i])
  {
    if |s| == 0 then 0
    else DecimalValue(s[..|s| - 1]) * 10 + DigitValue(s[|s| - 1])
  }

  lemma {:induction false} DecimalRoundTrip(n: nat)
    decreases n
    ensures DecimalValue(DecimalString(n)) == n
  {
    var r := DecimalString(n);
    if n >= 10 {
      DecimalRoundTrip(n / 10);
      assert r[..|r| - 1] == DecimalString(n / 10);
    }
  }

  // ---------------------------------------------------------------------------
  // messageFor

  /** The success message of each command. */
  function MessageFor(cmd: Command): string {
    match cmd
    case Create(_) => "Created a new diagram."
    case Add(name, _) => "Added \"" + name + "\" to the diagram."
    case AddMultiple(steps) => "Added " + DecimalString(|steps|) + " steps to the diagram."
    case Remove(target) => "Removed \"" + target + "\"."
    case RemoveAll => Cleared
    case Undo => "Undid the last change."
    case Unknown => NotUnderstood
  }

  /** The count in the add-several message reads back as the number of steps. */
  lemma MessageCount(steps: seq<string>)
    ensures var m := MessageFor(AddMultiple(steps));
            var digits := m[6..|m| - 22];
            (forall i :: 0 <= i < |digits| ==> IsDigit(digits[i])) &&
            DecimalValue(digits) == |steps|
  {
    var d := DecimalString(|steps|);
    var m := MessageFor(AddMultiple(steps));
    assert m[6..|m| - 22] == d;
    DecimalRoundTrip(|steps|);
  }

  /** Which of the seven messages a command gets. */
  function KindOf(cmd: Command): nat {
    match cmd
    case Create(_) => 0
    case Add(_, _) => 1
    case AddMultiple(_) => 2
    case Remove(_) => 3
    case RemoveAll => 4
    case Undo => 5
    case Unknown => 6
  }

  lemma MessageHead(cmd: Command)
    ensures var m := MessageFor(cmd);
            |m| > 7 && m[0] == "CAARCUI"[KindOf(cmd)] &&
            (cmd.Create? ==> m[1] == 'r') && (cmd.RemoveAll? ==> m[1] == 'l') &&
            (cmd.Add? ==> m[6] == '"') && (cmd.AddMultiple? ==> IsDigit(m[6]))
  {
    if cmd.AddMultiple? {
      assert MessageFor(cmd)[6] == DecimalString(|cmd.steps|)[0];
    }
  }

  /** The message tells the commands apart: equal messages come from commands
      of the same kind carrying the same label, target or step count. */
  lemma MessageDistinguishes(c1: Command, c2: Command)
    requires MessageFor(c1) == MessageFor(c2)
    ensures KindOf(c1) == KindOf(c2)
    ensures c1.Add? ==> c2.Add? && c1.name == c2.name
    ensures c1.AddMultiple? ==> c2.AddMultiple? && |c1.steps| == |c2.steps|
    ensures c1.Remove? ==> c2.Remove? && c1.target == c2.target
  {
    var m := MessageFor(c1);
    MessageHead(c1);
    MessageHead(c2);
    if c1.Add? {
      assert |c1.name| == |c2.name|;
      assert c1.name == m[7..7 + |c1.name|] == c2.name;
    } else if c1.AddMultiple? {
      MessageCount(c1.steps);
      MessageCount(c2.steps);
    } else if c1.Remove? {
      assert |c1.target| == |c2.target|;
      assert c1.target == m[9..9 + |c1.target|] == c2.target;
    }
  }

  // ---------------------------------------------------------------------------
  // respondCommand

  /** The content of the last message whose role is the user's. */
  function LastUserContent(messages: seq<ChatMessage>): (r: Option<string>)
    ensures r.None? ==> forall i :: 0 <= i < |messages| ==> messages[i].role != User
    ensures r.Some? ==> exists i :: 0 <= i < |messages| && messages[i].role == User &&
                          messages[i].content == r.value &&
                          forall j :: i < j < |messages| ==> messages[j].role != User
  {
    if |messages| == 0 then None
    else if messages[|messages| - 1].role == User then Some(messages[|messages| - 1].content)
    else
      var r := LastUserContent(messages[..|messages| - 1]);
      assert forall i :: 0 <= i < |messages| - 1 ==> messages[..|messages| - 1][i] == messages[i];
      r
  }

  /** The command the conversation asks for: none when the last user message
      is missing or empty. */
  function Request(messages: seq<ChatMessage>): Option<Command> {
    match LastUserContent(messages)
    case None => None
    case Some(input) => if input == "" then None else Some(ParseCommand(input))
  }

  /** The conversations whose command the model can apply: a create command
      may name at most MaxLabels labels. */
  predicate Fits(messages: seq<ChatMessage>) {
    var request := Request(messages);
    request.Some? ==> CreateFits(request.value)
  }

  /** The reply once the command has been applied: `before` is the diagram
      given, `after` what applying the command produced. */
  function Reply(cmd: Command, before: Option<string>, after: Option<string>): ChatResponse {
    if cmd.Remove? && (after.None? || after.value == "") then
      ChatResponse("Step \"" + cmd.target + "\" not found.", before)
    else if after == before && cmd.Remove? then ChatResponse(RemoveUnclear, before)
    else if after == before && cmd.Add? then ChatResponse("Could not add \"" + cmd.name + "\".", before)
    else ChatResponse(MessageFor(cmd), if after.Some? then after else before)
  }

  /** `respondCommand(messages, currentDiagram)`; `current` is `None` for both
      `null` and `undefined`. */
  function RespondCommand(messages: seq<ChatMessage>, current: Option<string>): (r: Outcome<ChatResponse>)
    requires Fits(messages)
    ensures r.Hangs? ==> Request(messages).Some? && Apply(current, Request(messages).value).Hangs?
    ensures Request(messages).None? ==> r == Returns(ChatResponse(NoInput, current))
    ensures Request(messages) == Some(Unknown) ==> r == Returns(ChatResponse(NotUnderstood, current))
    ensures Request(messages) == Some(RemoveAll) ==> r == Returns(ChatResponse(Cleared, None))
    ensures Request(messages).Some? && Apply(current, Request(messages).value).Returns? ==>
              var cmd := Request(messages).value;
              var after := Apply(current, cmd).value;
              if cmd.Unknown? || cmd.RemoveAll? then true
              else if cmd.Remove? && (after.None? || after.value == "") then
                r == Returns(ChatResponse("Step \"" + cmd.target + "\" not found.", current))
              else if after == current && cmd.Remove? then r == Returns(ChatResponse(RemoveUnclear, current))
              else if after == current && cmd.Add? then
                r == Returns(ChatResponse("Could not add \"" + cmd.name + "\".", current))
              else r == Returns(ChatResponse(MessageFor(cmd), if after.Some? then after else current))
  {
    match Request(messages)
    case None => Returns(ChatResponse(NoInput, current))
    case Some(cmd) =>
      if cmd.Unknown? then Returns(ChatResponse(NotUnderstood, current))
      else if cmd.RemoveAll? then Returns(ChatResponse(Cleared, None))
      else
        match Apply(current, cmd)
        case Hangs => Hangs
        case Returns(after) => Returns(Reply(cmd, current, after))
  }

  /** Only an add can fail to answer: every other command terminates. */
  lemma HangsOnlyOnAdd(messages: seq<ChatMessage>, current: Option<string>)
    requires Fits(messages)
    ensures RespondCommand(messages, current).Hangs? ==>
              Request(messages).value.Add? || Request(messages).value.AddMultiple?
  {
  }

  /** A reply shows the diagram before or the diagram after, and one that
      changes the diagram carries the command's success message. */
  lemma ReplyFacts(cmd: Command, before: Option<string>, after: Option<string>)
    ensures var r := Reply(cmd, before, after);
            (r.diagram == before || r.diagram == after) &&
            (r.diagram != before ==> r.message == MessageFor(cmd))
  {
  }

  /** The reply shows the diagram as it was, nothing after a clear, or the
      diagram that applying the command produced; a reply that changes the
      diagram carries its command's success message. */
  lemma ReplyShows(messages: seq<ChatMessage>, current: Option<string>)
    requires Fits(messages)
    requires RespondCommand(messages, current).Returns?
    ensures var r := RespondCommand(messages, current).value;
            r.diagram == current ||
            (r.diagram.None? && Request(messages) == Some(RemoveAll) && r.message == Cleared) ||
            (Request(messages).Some? && Apply(current, Request(messages).value) == Returns(r.diagram) &&
             r.message == MessageFor(Request(messages).value))
  {
    match Request(messages)
    case None =>
    case Some(cmd) =>
      if !cmd.Unknown? && !cmd.RemoveAll? {
        var after := Apply(current, cmd).value;
        ReplyFacts(cmd, current, after);
      }
  }

  lemma ReplyNotCleared(cmd: Command, before: Option<string>, after: Option<string>)
    requires !cmd.RemoveAll?
    ensures Reply(cmd, before, after).message != Cleared
  {
    var m := Reply(cmd, before, after).message;
    assert Cleared[0] == 'C' && Cleared[1] == 'l';
    MessageHead(cmd);
    if cmd.Remove? && (after.None? || after.value == "") {
      assert m[0] == 'S';
    } else if after == before && cmd.Remove? {
      assert m[0] == RemoveUnclear[0] == "I dont understand the request "[0];
    } else if after == before && cmd.Add? {
      assert m[1] == 'o';
    }
  }

  /** The parser never yields remove_all, so the reply that clears the
      diagram is never given. */
  lemma NeverCleared(messages: seq<ChatMessage>, current: Option<string>)
    requires Fits(messages)
    requires RespondCommand(messages, current).Returns?
    ensures RespondCommand(messages, current).value.message != Cleared
  {
    assert Cleared[0] == 'C';
    match Request(messages)
    case None =>
      assert NoInput[0] == 'N';
    case Some(cmd) =>
      if cmd.Unknown? {
        assert NotUnderstood[0] == 'I';
      } else {
        var after := Apply(current, cmd).value;
        Responds(messages, current, cmd, after);
        ReplyNotCleared(cmd, current, after);
      }
  }

  /** The responder never undoes anything: undo is acknowledged and the
      diagram is returned as given. */
  lemma UndoKeeps(messages: seq<ChatMessage>, current: Option<string>)
    requires Request(messages) == Some(Undo)
    ensures RespondCommand(messages, current) == Returns(ChatResponse("Undid the last change.", current))
  {
    assert Apply(current, Undo) == Returns(current);
    assert Reply(Undo, current, current) == ChatResponse("Undid the last change.", current);
    Responds(messages, current, Undo, current);
  }

  /** A remove whose target labels no step is reported as not found and
      leaves the diagram as it was. */
  lemma RemoveMissing(messages: seq<ChatMessage>, s: string, target: string)
    requires s != "" && Request(messages) == Some(Remove(target))
    requires forall i :: 0 <= i < |ParseNodes(s)| ==> Lower(ParseNodes(s)[i].name) != Lower(target)
    ensures RespondCommand(messages, Some(s)) ==
            Returns(ChatResponse("Step \"" + target + "\" not found.", Some(s)))
  {
    RemoveNotFound(s, target);
    RemoveApplies(s, target);
    Responds(messages, Some(s), Remove(target), None);
  }

  /** Respond to an applied command: the reply to what applying it produced. */
  lemma Responds(messages: seq<ChatMessage>, current: Option<string>, cmd: Command, after: Option<string>)
    requires Fits(messages) && Request(messages) == Some(cmd) && !cmd.Unknown? && !cmd.RemoveAll?
    requires Apply(current, cmd) == Returns(after)
    ensures RespondCommand(messages, current) == Returns(Reply(cmd, current, after))
  {
  }

  lemma RemoveApplies(s: string, target: string)
    requires s != ""
    ensures Apply(Some(s), Remove(target)) == Returns(RemoveStep(s, target))
  {
  }

  lemma RenderNonEmpty(lines: seq<Line>)
    requires |lines| >= 1
    ensures Render(lines) != ""
  {
    var ts := Texts(lines);
    assert |ts[0]| > 0 by {
      match lines[0]
      case HeaderLine =>
      case NodeLine(n) => assert |NodeText(n)| >= 3;
      case EdgeLine(e) => assert |EdgeText(e)| >= 2;
    }
    if |ts| >= 2 {
      JoinCons(ts, "\n");
    }
  }

  lemma RemoveReplyClear(target: string, before: Option<string>, after: Option<string>)
    requires after.None? || after.value == "" || after != before
    ensures Reply(Remove(target), before, after).message != RemoveUnclear
  {
    var m := Reply(Remove(target), before, after).message;
    assert RemoveUnclear[0] == "I dont understand the request "[0] == 'I';
    assert m[0] == 'S' || m[0] == 'R';
  }

  /** On a diagram written by this system, a remove either finds its step and
      changes the diagram or reports it not found: the reply asking what to
      remove is never given. */
  lemma RemoveNeverUnclear(messages: seq<ChatMessage>, lines: seq<Line>, target: string)
    requires |lines| >= 1 && WellFormed(lines) && Request(messages) == Some(Remove(target))
    ensures RespondCommand(messages, Some(Render(lines))).Returns?
    ensures RespondCommand(messages, Some(Render(lines))).value.message != RemoveUnclear
  {
    var s := Render(lines);
    RenderNonEmpty(lines);
    RemoveApplies(s, target);
    var after := RemoveStep(s, target);
    Responds(messages, Some(s), Remove(target), after);
    if after.Some? {
      var id := FindNodeIdByLabel(s, target).value;
      RemoveChanges(lines, target, id);
    }
    RemoveReplyClear(target, Some(s), after);
  }

  /** The worked example end to end: on a diagram with the default steps,
      "add testing after process" answers with the add message and the
      diagram with the new step D between Process and End. */
  lemma RespondAddTesting(lines: seq<Line>, s: string, x: string, y: string)
    requires |lines| >= 1 && WellFormed(lines) && s == Render(lines)
    requires NodesOf(lines) == [Node('A', "Start"), Node('B', "Process"), Node('C', "End")]
    requires EdgesOf(lines) == [Edge('A', 'B'), Edge('B', 'C')]
    requires x == "testing" && y == "process"
    ensures Fits([ChatMessage(User, "add " + x + " after " + y)])
    ensures var r := RespondCommand([ChatMessage(User, "add " + x + " after " + y)], Some(s));
            r.Returns? && r.value.message == "Added \"" + x + "\" to the diagram." &&
            r.value.diagram.Some? &&
            ParseNodes(r.value.diagram.value) == ParseNodes(s) + [Node('D', "testing")] &&
            ParseEdges(r.value.diagram.value) == [Edge('A', 'B'), Edge('B', 'D'), Edge('D', 'C')]
  {
    var messages := [ChatMessage(User, "add " + x + " after " + y)];
    var cmd := Add("testing", Some("process"));
    ParseAddTesting(x, y);
    assert LastUserContent(messages) == Some("add " + x + " after " + y);
    assert Request(messages) == Some(cmd);
    AddTestingAfterProcess(lines, s);
    var after := Apply(Some(s), cmd).value;
    assert after != Some(s) by {
      assert |ParseNodes(after.value)| != |ParseNodes(s)|;
    }
    Responds(messages, Some(s), cmd, after);
  }
}
