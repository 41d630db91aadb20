# Command-mode diagram assistant, modelled in Dafny

The assistant keeps a Mermaid flowchart as plain text. A chat message in
command mode goes through four pieces:

* **the command interpreter** (`commands.ts`) lower-cases and trims the
  message. It then tries its rules in a fixed order: undo, create, "add X
  between Y and Z", "add several", "add X [after Y]", "remove X", and
  otherwise unknown. Labels go through `cleanLabel`.
* **the diagram engine** (`diagram.ts`) reads node lines `A[Label]` and edge
  lines `A --> B` back out of the text with regular expressions. It applies
  a command to the text:
  * create writes a chain of nodes;
  * add splices a new node after an anchor (a named node, or the end of the
    chain found by walking successor edges from an entry node);
  * add several folds add over the labels;
  * remove drops a node and reconnects each of its predecessors to each of
    its successors.
* **the responder** (`provider.ts`) picks the last user message, parses it,
  applies it to the current diagram and chooses the reply text and the
  diagram to show.
* **the normaliser** (`normalizeMermaid` in `openai-genai-sse.ts`) trims
  Mermaid text and puts the `flowchart TD` header in front when it is
  missing.

The Dafny modules follow that structure:

* `Text` holds the string primitives the TypeScript code takes from its
  runtime: `toLowerCase`, `trim`, `split`, `join`, `includes`, `filter` and
  `find`.
* `MermaidSyntax` holds node and edge parsing, and the lines the engine
  writes.
* `Commands`, `Diagram`, `Provider` and `Normalize` model the four pieces
  above.

The model rests on a few decisions:

* Strings are `seq<char>`. A regular expression becomes a function that
  searches the text position by position, with the same greediness as the
  original expression.
* `findTerminalNode` walks successor edges with no guard against cycles, so
  on a cyclic diagram it never returns. The model gives every operation
  that can reach that walk an `Outcome` result: `Returns(value)` or `Hangs`.
  A fuel-bounded walk is proved to report a cycle exactly when the loop
  would run forever (`WalkCyclesForever`, `WalkStoppedMoreFuel`).
* The loops of the engine are methods:
  * `FindTerminalNode` and `CreateDiagram`;
  * `AddNode`, `AddSteps` and `RemoveNode`;
  * `Reconnect`, the nested loop of the remove branch;
  * `ApplyCommand`.

  Each one is proved equal to a specification function. The properties are
  then proved about those functions.
* Most diagram properties are stated over a diagram text produced by
  `Render(lines)` from well-formed `Line`s. On such a text, reading the
  nodes and edges back gives exactly the lines' nodes and edges
  (`ParseRender`).

## Model

| member | source | states |
|---|---|---|
| Commands.CleanLabel | apps/api/src/ai/commands.ts:104-113 | The result is a suffix of the trimmed label, or of the trimmed label without one final `.` or `,`. It keeps a lower-case label lower-case. A single word with no final stop comes back unchanged. |
| Commands.CleanLabelKindCalled | apps/api/src/ai/commands.ts:104-113 | "the step called X." (or stage, node) cleans to the one-word label X: the article, the kind word with "called" and the final full stop are all stripped. |
| Commands.CleanLabelArticleKind | apps/api/src/ai/commands.ts:104-113 | "a step X," (or stage, node) cleans to the one-word label X: the article, the kind word and the final comma are stripped. |
| Commands.CleanLabelOnce | apps/api/src/ai/commands.ts:104-113 | Each leading word is stripped at most once: "the the X" cleans to "the X". |
| Commands.CreateRule | apps/api/src/ai/commands.ts:18-43 | Fires exactly when the text contains "create", and yields a create command. When labels are present there are at least two, each non-empty with no white space and no comma, and they stay lower-case. |
| Commands.ParseCreateWith | apps/api/src/ai/commands.ts:18-43 | "create with " followed by two or more one-word labels joined by " and " parses to a create of exactly those labels, in order. |
| Commands.ParseCreateWithTwo | apps/api/src/ai/commands.ts:18-43 | "create with X and Y" with one-word labels parses to a create of X and Y, in that order. |
| Commands.BetweenRule | apps/api/src/ai/commands.ts:45-53 | On a match, the text holds "add ", " between " and " and ", and the result is an add command with an anchor. |
| Commands.ParseAddBetween | apps/api/src/ai/commands.ts:45-53 | "add X between Y and Z" with one-word labels parses to add X after Y. The third label is dropped. |
| Commands.MultiAddRule | apps/api/src/ai/commands.ts:55-76 | On a match, the text holds "add" and a comma, " and " or "&". The result has at least two labels, each non-empty with no white space and no comma. |
| Commands.ParseAddSeveral | apps/api/src/ai/commands.ts:55-76 | "add X, Y and Z" with one-word labels parses to an add-several of X, Y and Z, in order. |
| Commands.AndAfterLists | apps/api/src/ai/commands.ts:45-76 | "add and after Y" fires neither the between rule nor the add-several rule, so it reaches the plain add rule. |
| Commands.AddRule | apps/api/src/ai/commands.ts:78-88 | On a match, the text holds "add ". Without " after " the command has no anchor. Labels stay lower-case. |
| Commands.RemoveRule | apps/api/src/ai/commands.ts:90-98 | On a match, the text holds "remove " and the result is a remove command. |
| Commands.ParseCommand | apps/api/src/ai/commands.ts:13-101 | Never yields remove-all. Yields undo exactly when the trimmed lower-cased text is "undo". Yields create exactly when the text is not "undo" and mentions "create". An add needs "add". A remove needs "remove " and no "create". Add-several has at least two tokens. Every label is lower-case. |
| Commands.ParseAddAfter | apps/api/src/ai/commands.ts:78-88 | "add X after Y" with one-word labels parses to add X after Y, including the label "and". |
| Commands.ParseAddPlain | apps/api/src/ai/commands.ts:78-88 | "add X" with a one-word label parses to add X with no anchor. |
| Commands.ParseRemove | apps/api/src/ai/commands.ts:90-98 | "remove X" with a one-word target parses to remove X, including targets such as "address" that contain "add". |
| Commands.ParseRemoveAll | apps/api/src/ai/commands.ts:90-98 | "remove all" parses to remove with target "all", not to remove-all. |
| Commands.ParseUndoIt | apps/api/src/ai/commands.ts:16 | "undo" is undo, and "undo it" is not. |
| Commands.ParseAddTesting | apps/api/src/ai/commands.ts:78-88 | "add testing after process" parses to add "testing" after "process". |
| MermaidSyntax.ParseNodes | apps/api/src/ai/diagram.ts:16-21 | Every node read has an upper-case id and a non-empty label. |
| MermaidSyntax.ParseEdges | apps/api/src/ai/diagram.ts:24-29 | Every edge read joins two upper-case ids. |
| MermaidSyntax.ParseRender | apps/api/src/ai/diagram.ts:16-29 | Reading back a text written from well-formed lines gives exactly the lines' nodes and edges, in order. |
| MermaidSyntax.SplitRender | apps/api/src/ai/diagram.ts:113-115 | Splitting a written text at newlines gives back its lines. |
| Diagram.BaseDiagram | apps/api/src/ai/diagram.ts:4-13 | The base diagram reads as Start, Process, End joined A→B→C. |
| Diagram.SuccessorsLast | apps/api/src/ai/diagram.ts:39-42 | Every edge source is a key of the successor map, and its value comes from the last edge out of it. |
| Diagram.Entry | apps/api/src/ai/diagram.ts:44-45 | The entry is the first node that no edge points to, or the first node when every node has an incoming edge. |
| Diagram.Walk | apps/api/src/ai/diagram.ts:47-52 | A stopped walk rests on a node with no successor node. |
| Diagram.WalkStopsAtPos | apps/api/src/ai/diagram.ts:47-52 | A stopped walk rests where the loop stops: at its position after k turns, where turn k is the first with no successor to move to and every earlier turn moved on. |
| Diagram.WalkCyclesForever | apps/api/src/ai/diagram.ts:47-52 | A walk still moving after as many steps as there are nodes moves forever: the loop never ends. |
| Diagram.WalkStoppedMoreFuel | apps/api/src/ai/diagram.ts:47-52 | More fuel does not change a walk that stopped. |
| Diagram.Terminal | apps/api/src/ai/diagram.ts:34-55 | There is no terminal node exactly when there are no nodes. Otherwise the walk starts at `Entry`, and the result is the node where following successors from there first has no successor, or `Cycles` when the walk moves on at every turn. |
| Diagram.SuccessorMap | apps/api/src/ai/diagram.ts:39-42 | The loop builds `Successors`: each source maps to the target of its last edge (`SuccessorsLast`). |
| Diagram.WalkLoop | apps/api/src/ai/diagram.ts:47-52 | The `while` loop from a start node computes `Walk` with one step of fuel per node. |
| Diagram.FindTerminalNode | apps/api/src/ai/diagram.ts:34-55 | The loop computes `Terminal`. |
| Diagram.NextId | apps/api/src/ai/diagram.ts:57-61 | The new id is one past the largest id, so it is above every existing id. With no nodes it is 'B'. |
| Diagram.FindNodeIdByLabel | apps/api/src/ai/diagram.ts:63-68 | Gives the id of the first node whose lower-cased label matches, or nothing when no label matches. |
| Diagram.CreateDiagram | apps/api/src/ai/diagram.ts:74-93 | The loop writes `CreateText`. |
| Diagram.CreateChain | apps/api/src/ai/diagram.ts:74-93 | Two to 26 labels read back as nodes A, B, … in order, joined in one chain. |
| Diagram.AnchorMissing | apps/api/src/ai/diagram.ts:104-108 | No anchor is found exactly when no label matches the anchor label, or, with no anchor label, when there are no nodes. |
| Diagram.AddNode | apps/api/src/ai/diagram.ts:99-124 | The add branch computes `AddOne`. |
| Diagram.AddSplices | apps/api/src/ai/diagram.ts:110-121 | After an add, the nodes are the old nodes plus the new id with the new label. The anchor's first outgoing edge is replaced by anchor→new→old target, or anchor→new is appended when there was none. |
| Diagram.AddUnchangedIff | apps/api/src/ai/diagram.ts:104-108 | An add leaves the text as it was exactly when no anchor is found. |
| Diagram.AddOneNonEmpty | apps/api/src/ai/diagram.ts:99-124 | An add on a non-empty text gives a non-empty text. |
| Diagram.AddSteps | apps/api/src/ai/diagram.ts:127-142 | The loop computes `AddAll`. |
| Diagram.AddAllAppend | apps/api/src/ai/diagram.ts:127-142 | Adding `xs + ys` is adding `xs`, then `ys` to the result. |
| Diagram.AddAllOne | apps/api/src/ai/diagram.ts:127-142 | Adding one label through add-several is a plain add with no anchor. |
| Diagram.RemoveNode | apps/api/src/ai/diagram.ts:146-171 | The remove branch computes `RemoveStep`. |
| Diagram.Reconnect | apps/api/src/ai/diagram.ts:164-168 | The nested loop appends every predecessor→successor pair to the kept edges. |
| Diagram.CrossMembers | apps/api/src/ai/diagram.ts:164-168 | An edge is a reconnection exactly when it goes from the source of an incoming edge to the target of an outgoing edge. |
| Diagram.CrossSize | apps/api/src/ai/diagram.ts:164-168 | There are |incoming| × |outgoing| reconnections. |
| Diagram.RemoveReconnects | apps/api/src/ai/diagram.ts:146-171 | A remove of a found label keeps every other node. It keeps the edges not touching the removed id, followed by the reconnections. |
| Diagram.RemoveForgets | apps/api/src/ai/diagram.ts:146-171 | Without a self-loop, no node or edge of the result mentions the removed id. |
| Diagram.RemoveSelfLoop | apps/api/src/ai/diagram.ts:153-168 | A self-loop on the removed node is reconnected to itself and survives, although the node is gone. |
| Diagram.RemoveChanges | apps/api/src/ai/diagram.ts:146-171 | A remove that finds its node changes the text. |
| Diagram.RemoveNotFound | apps/api/src/ai/diagram.ts:147-148 | A remove gives nothing exactly when no lower-cased label matches the target. |
| Diagram.Apply | apps/api/src/ai/diagram.ts:72-174 | Create always gives a diagram, which is the base diagram for fewer than two labels. Any other command on a missing or empty diagram returns it as given. Undo, unknown and remove-all leave the diagram alone. Only add and add-several can hang. |
| Diagram.ApplyCommand | apps/api/src/ai/diagram.ts:72-174 | The method computes `Apply`. |
| Diagram.AddTestingAfterProcess | apps/api/src/ai/diagram.ts:99-124 | Adding "testing" after "process" on the base diagram gives node D, and edges A→B, B→D, D→C. |
| Diagram.BaseRead | apps/api/src/ai/diagram.ts:4-13 | The base diagram is the text written from its well-formed lines. |
| Provider.DecimalRoundTrip | apps/api/src/ai/provider.ts:20-21 | The decimal numeral of a count reads back as that count. |
| Provider.MessageCount | apps/api/src/ai/provider.ts:20-21 | The add-several message holds the number of labels. |
| Provider.MessageDistinguishes | apps/api/src/ai/provider.ts:14-31 | Equal messages come from commands of the same kind, with the same add label, the same number of labels, and the same remove target. |
| Provider.LastUserContent | apps/api/src/ai/provider.ts:39-42 | Gives the content of the last user message, or nothing when there is no user message. |
| Provider.RespondCommand | apps/api/src/ai/provider.ts:34-94 | Without input, the reply is "No input received." with the current diagram. Unknown gives the "didn't understand" reply on the current diagram, and remove-all clears it. A remove with no result gives `Step "X" not found.`; an add that leaves the text as it was gives `Could not add "X".`; both keep the current diagram. Every other case replies with `MessageFor(command)` and the result, or the current diagram when the result is absent. It hangs only where applying the command hangs. |
| Provider.HangsOnlyOnAdd | apps/api/src/ai/provider.ts:64-65 | A reply can only hang on add or add-several. |
| Provider.ReplyShows | apps/api/src/ai/provider.ts:57-93 | The diagram shown is one of three things: the current one; none, with "Cleared the diagram.", for remove-all; or the result of applying the command, with that command's message. |
| Provider.NeverCleared | apps/api/src/ai/provider.ts:57-62 | The reply is never "Cleared the diagram.": the interpreter never produces remove-all. |
| Provider.UndoKeeps | apps/api/src/ai/provider.ts:64-93 | Undo keeps the current diagram and says "Undid the last change." |
| Provider.RemoveMissing | apps/api/src/ai/provider.ts:67-72 | Removing a label no node has says `Step "X" not found.` and keeps the diagram. |
| Provider.RemoveNeverUnclear | apps/api/src/ai/provider.ts:74-80 | On a diagram written by the engine, a remove never gets the "I dont understand" reply. |
| Provider.RespondAddTesting | apps/api/src/ai/provider.ts:34-94 | "add testing after process" on the base diagram replies `Added "testing" to the diagram.` with node D spliced between B and C. |
| Normalize.HasHeaderMatches | apps/api/src/ai/openai-genai-sse.ts:86 | The greedy header test holds exactly when `flowchart\s+TD\b` matches at the start. |
| Normalize.NormalizeShape | apps/api/src/ai/openai-genai-sse.ts:83-90 | The result is empty exactly when the input is missing or blank. Otherwise it is trimmed and starts with the header. Text that has the header comes back trimmed. Text without it gets `flowchart TD` and a newline in front. |
| Normalize.NormalizeIdempotent | apps/api/src/ai/openai-genai-sse.ts:83-90 | Normalising twice is normalising once. |

## Left out

- Lower-casing covers ASCII letters only, and white space is the ECMAScript set. Unicode case mapping is not modelled.
- Create with more than `MaxLabels` labels is not modelled. Ids from U+D800 on are UTF-16 surrogates, which are not Dafny `char`s. This is why `Diagram.Apply`, `Diagram.ApplyCommand` and `Provider.RespondCommand` require `CreateFits`/`Fits`.
- Diagram.CreateChain, Diagram.AddSplices, Diagram.AddUnchangedIff: stated only while ids stay at or below 'Z'. Ids past 'Z' are written by the engine but cannot be read back by its own `[A-Z]` patterns.
- Diagram.Terminal: the walk that never ends on a cyclic diagram is modelled as the value `Hangs`, not as a non-terminating computation.
- Commands.BetweenRule, Commands.MultiAddRule, Commands.CreateRule: the general contracts give the shape of the command. The exact labels are proved only for one-word phrasings (`ParseAddBetween`, `ParseAddSeveral`, `ParseCreateWith`, `ParseAddAfter`, `ParseAddPlain`, `ParseRemove`).
- Commands.CleanLabel: the general contract bounds the result as a suffix. Which leading words are stripped is proved only for one-word labels (`CleanLabelKindCalled`, `CleanLabelArticleKind`, `CleanLabelOnce`).
- `null` and `undefined` for the current diagram are both `None`. The `async`/`Promise` wrapping of `respondCommand` is left out.
- The web client, the HTTP server, undo history, the OpenAI and GenAI streaming paths, and AI titles are not part of this model. Of `openai-genai-sse.ts`, only `normalizeMermaid` is modelled.
