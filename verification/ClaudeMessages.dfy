/** Items as Anthropic Messages API turns (llmprovider/claude.go, claudeItemsToMessages). */
module ClaudeMessages {
  import opened Items
  import opened Grouping

  /** The two roles of the Messages API. */
  datatype Speaker = User | Assistant

  /** What a turn holds: texts, tool calls and tool results. `O` is a decoded JSON object. */
  datatype Entry<O> =
    | TextEntry(role: Speaker, text: string)
    | ToolUse(id: string, name: string, input: O)
    | ToolResult(callId: string, output: string)
  {
    function Role(): Speaker {
      match this
      case TextEntry(role, _) => role
      case ToolUse(_, _, _) => Assistant
      case ToolResult(_, _) => User
    }
  }

  datatype Content<O> = Text(text: string) | Blocks(blocks: seq<Entry<O>>)

  datatype Turn<O> = Turn(role: Speaker, content: Content<O>)

  function NormalRole(role: string): Speaker {
    if role == "" || role == ROLE_USER then User else Assistant
  }

  /** The entries an item contributes: none for system messages and reasoning. */
  function EntriesOf<O>(item: Item, toolArguments: string -> O): seq<Entry<O>> {
    match item
    case Message(role, text) => if role == ROLE_SYSTEM then [] else [TextEntry(NormalRole(role), text)]
    case FunctionCall(callId, name, arguments, _) => [ToolUse(callId, name, toolArguments(arguments))]
    case FunctionCallOutput(callId, output) => [ToolResult(callId, output)]
    case Reasoning(_) => []
  }

  function Entries<O>(items: seq<Item>, toolArguments: string -> O): seq<Entry<O>> {
    if items == [] then []
    else Entries(items[..|items| - 1], toolArguments) + EntriesOf(items[|items| - 1], toolArguments)
  }

  /** A call joins an assistant turn; a result joins a user turn that already holds results; a text never joins. */
  function Joined<O>(turn: seq<Entry<O>>, e: Entry<O>): bool {
    && turn != [] && !e.TextEntry?
    && turn[0].Role() == e.Role()
    && (IsText(turn) ==> e.Role() == Assistant)
  }

  predicate IsText<O>(turn: seq<Entry<O>>) {
    |turn| == 1 && turn[0].TextEntry?
  }

  function Render<O>(turn: seq<Entry<O>>): Turn<O>
    requires turn != []
  {
    Turn(turn[0].Role(), if IsText(turn) then Text(turn[0].text) else Blocks(turn))
  }

  /** The entries a rendered turn shows. */
  function Shown<O>(turn: Turn<O>): seq<Entry<O>> {
    match turn.content
    case Text(text) => [TextEntry(turn.role, text)]
    case Blocks(blocks) => blocks
  }

  /** The turns are the groups, rendered one by one. */
  ghost predicate Renders<O>(turns: seq<Turn<O>>, groups: seq<seq<Entry<O>>>) {
    && |turns| == |groups|
    && forall i :: 0 <= i < |groups| ==> groups[i] != [] && turns[i] == Render(groups[i])
  }

  /** The turns the items make. */
  function Turns<O>(items: seq<Item>, toolArguments: string -> O): seq<seq<Entry<O>>> {
    Grouped(Joined<O>, Entries(items, toolArguments))
  }

  lemma TurnsStep<O>(items: seq<Item>, item: Item, toolArguments: string -> O)
    ensures var added := EntriesOf(item, toolArguments);
            Turns(items + [item], toolArguments)
            == (if added == [] then Turns(items, toolArguments)
                else AddEntry(Joined<O>, Turns(items, toolArguments), added[0]))
  {
    assert (items + [item])[..|items|] == items;
    GroupedStep(Joined<O>, Entries(items, toolArguments), EntriesOf(item, toolArguments));
  }

  method ItemsToMessages<O>(items: seq<Item>, toolArguments: string -> O) returns (messages: seq<Turn<O>>)
    ensures Renders(messages, Turns(items, toolArguments))
  {
    messages := [];
    for i := 0 to |items|
      invariant Renders(messages, Turns(items[..i], toolArguments))
    {
      ghost var groups := Turns(items[..i], toolArguments);
      assert items[..i + 1] == items[..i] + [items[i]];
      TurnsStep(items[..i], items[i], toolArguments);
      hide Renders, Turns, AddEntry;
      match items[i] {
        case Message(role, text) =>
          if role != ROLE_SYSTEM {
            messages := AppendText(messages, NormalRole(role), text, groups);
          }
        case FunctionCall(callId, name, arguments, _) =>
          messages := AppendBlock(messages, ToolUse(callId, name, toolArguments(arguments)), groups);
        case FunctionCallOutput(callId, output) =>
          messages := AppendBlock(messages, ToolResult(callId, output), groups);
        case Reasoning(_) =>
      }
    }
    assert items[..|items|] == items;
  }

  /** A message item always opens a message. */
  method AppendText<O>(messages: seq<Turn<O>>, role: Speaker, text: string, ghost groups: seq<seq<Entry<O>>>)
    returns (r: seq<Turn<O>>)
    requires Renders(messages, groups)
    ensures Renders(r, AddEntry(Joined<O>, groups, TextEntry(role, text)))
  {
    r := messages + [Turn(role, Text(text))];
  }

  /** The appendBlock closure: the block goes into the last message when that message can take it. */
  method AppendBlock<O>(messages: seq<Turn<O>>, block: Entry<O>, ghost groups: seq<seq<Entry<O>>>)
    returns (r: seq<Turn<O>>)
    requires !block.TextEntry? && Renders(messages, groups)
    ensures Renders(r, AddEntry(Joined<O>, groups, block))
  {
    var n := |messages|;
    if n > 0 && messages[n - 1].role == block.Role() {
      assert messages[n - 1] == Render(groups[n - 1]);
      match messages[n - 1].content {
        case Blocks(blocks) =>
          return messages[n - 1 := messages[n - 1].(content := Blocks(blocks + [block]))];
        case Text(text) =>
          if block.Role() == Assistant {
            assert groups[n - 1] + [block] == [TextEntry(Assistant, text), block];
            return messages[n - 1 := messages[n - 1].(content := Blocks([TextEntry(Assistant, text), block]))];
          }
      }
    }
    r := messages + [Turn(block.Role(), Blocks([block]))];
  }

  // ----- Properties -----

  function ShownAll<O>(turns: seq<Turn<O>>): seq<Entry<O>> {
    if turns == [] then [] else ShownAll(turns[..|turns| - 1]) + Shown(turns[|turns| - 1])
  }

  lemma {:induction false} RenderingShowsEverything<O>(turns: seq<Turn<O>>, groups: seq<seq<Entry<O>>>)
    requires Renders(turns, groups)
    ensures ShownAll(turns) == Flatten(groups)
  {
    if turns != [] {
      var last := |turns| - 1;
      RenderingShowsEverything(turns[..last], groups[..last]);
      assert turns[last] == Render(groups[last]);
    }
  }

  /** What a text, a tool_use block or a tool_result block says is exactly the item. */
  predicate Says<O(==)>(e: Entry<O>, item: Item, toolArguments: string -> O) {
    match item
    case Message(role, text) => e == TextEntry(if IsUserRole(role) then User else Assistant, text)
    case FunctionCall(callId, name, arguments, _) => e == ToolUse(callId, name, toolArguments(arguments))
    case FunctionCallOutput(callId, output) => e == ToolResult(callId, output)
    case Reasoning(_) => false
  }

  predicate SayAll<O(==)>(entries: seq<Entry<O>>, items: seq<Item>, toolArguments: string -> O) {
    |entries| == |items| && forall k :: 0 <= k < |items| ==> Says(entries[k], items[k], toolArguments)
  }

  lemma {:induction false} EntriesSayTheItems<O>(items: seq<Item>, toolArguments: string -> O)
    ensures SayAll(Entries(items, toolArguments), Sent(items), toolArguments)
  {
    if items != [] {
      EntriesSayTheItems(items[..|items| - 1], toolArguments);
    }
  }

  /** An assistant message is a text, or at most a text and then calls; a user message is a text, or results. */
  predicate RoleFits<O(!new)>(turn: Turn<O>) {
    match turn.content
    case Text(_) => true
    case Blocks(blocks) =>
      && blocks != []
      && forall k :: 0 <= k < |blocks| ==>
           if turn.role == User then blocks[k].ToolResult?
           else blocks[k].ToolUse? || (k == 0 && blocks[k].TextEntry? && blocks[k].role == Assistant)
  }

  lemma RenderedRoleFits<O(!new)>(group: seq<Entry<O>>)
    requires WholeTurn(Joined<O>, group)
    ensures RoleFits(Render(group))
  {
    forall k | 0 < k < |group| ensures !group[k].TextEntry? && group[k].Role() == group[0].Role() {
      assert Joined(group[..k], group[k]);
    }
    if |group| > 1 {
      assert Joined(group[..1], group[1]);
      assert group[..1] == [group[0]];
    }
  }

  /**
   Flattening the messages gives back the items in order, less system messages and reasoning: none is
   lost, duplicated or moved, and each is said as it is. Every message holds what its role may. And the
   arrangement is the only one with a turn's calls in one message and a turn's results in one message.
   */
  lemma MessagesKeepTheItems<O(!new)>(items: seq<Item>, toolArguments: string -> O, messages: seq<Turn<O>>)
    requires Renders(messages, Turns(items, toolArguments))
    ensures ShownAll(messages) == Entries(items, toolArguments)
    ensures SayAll(ShownAll(messages), Sent(items), toolArguments)
    ensures forall k :: 0 <= k < |messages| ==> RoleFits(messages[k])
    ensures forall groups :: WellGrouped(Joined<O>, groups) && Flatten(groups) == Entries(items, toolArguments) ==>
              Renders(messages, groups)
    ensures WellGrouped(Joined<O>, Turns(items, toolArguments))
  {
    var entries := Entries(items, toolArguments);
    GroupedIsWellGrouped(Joined<O>, entries);
    RenderingShowsEverything(messages, Grouped(Joined<O>, entries));
    EntriesSayTheItems(items, toolArguments);
    forall k | 0 <= k < |messages| ensures RoleFits(messages[k]) {
      assert WholeTurn(Joined<O>, Turns(items, toolArguments)[k]);
      RenderedRoleFits(Turns(items, toolArguments)[k]);
    }
    forall groups | WellGrouped(Joined<O>, groups) && Flatten(groups) == entries ensures Renders(messages, groups) {
      GroupingIsUnique(Joined<O>, groups);
    }
  }

  /** A call right after an assistant text or another call is in the same message as it: it opens none. */
  lemma CallStaysInItsTurn<O>(items: seq<Item>, call: Item, toolArguments: string -> O)
    requires call.FunctionCall? && items != [] && IsAssistants(items[|items| - 1])
    ensures |Turns(items + [call], toolArguments)| == |Turns(items, toolArguments)|
  {
    hide Grouped, WellGrouped, Flatten, Entries, AddEntry;
    LastEntryIsAssistants(items, toolArguments);
    var groups := Turns(items, toolArguments);
    GroupedIsWellGrouped(Joined<O>, Entries(items, toolArguments));
    LastGroupRole(groups, Entries(items, toolArguments));
    TurnsStep(items, call, toolArguments);
    CallJoins(groups, EntriesOf(call, toolArguments)[0]);
  }

  lemma CallJoins<O>(groups: seq<seq<Entry<O>>>, block: Entry<O>)
    requires groups != [] && groups[|groups| - 1] != [] && groups[|groups| - 1][0].Role() == Assistant && block.ToolUse?
    ensures |AddEntry(Joined<O>, groups, block)| == |groups|
  {
  }

  lemma LastEntryIsAssistants<O>(items: seq<Item>, toolArguments: string -> O)
    requires items != [] && IsAssistants(items[|items| - 1])
    ensures var entries := Entries(items, toolArguments); entries != [] && entries[|entries| - 1].Role() == Assistant
  {
    var last := EntriesOf(items[|items| - 1], toolArguments);
    assert last[0].Role() == Assistant;
  }

  /** The last group ends with the last entry and has its role throughout. */
  lemma LastGroupRole<O>(groups: seq<seq<Entry<O>>>, entries: seq<Entry<O>>)
    requires WellGrouped(Joined<O>, groups) && Flatten(groups) == entries && entries != []
    ensures groups != [] && groups[|groups| - 1] != []
    ensures groups[|groups| - 1][0].Role() == entries[|entries| - 1].Role()
  {
    var turn := groups[|groups| - 1];
    assert WholeTurn(Joined<O>, turn);
    assert turn[|turn| - 1] == entries[|entries| - 1];
    if |turn| > 1 {
      assert Joined(turn[..|turn| - 1], turn[|turn| - 1]);
    }
  }

  /** The last group is a user's text exactly when its last entry is one. */
  lemma LastGroupIsText<O>(groups: seq<seq<Entry<O>>>, entries: seq<Entry<O>>)
    requires WellGrouped(Joined<O>, groups) && Flatten(groups) == entries && entries != []
    requires entries[|entries| - 1].Role() == User
    ensures groups != [] && (IsText(groups[|groups| - 1]) <==> entries[|entries| - 1].TextEntry?)
  {
    LastGroupRole(groups, entries);
    var turn := groups[|groups| - 1];
    assert WholeTurn(Joined<O>, turn);
    assert turn[|turn| - 1] == entries[|entries| - 1];
    if |turn| > 1 {
      assert Joined(turn[..|turn| - 1], turn[|turn| - 1]);
    }
  }

  /** The number of messages grows by one exactly with the items that open a turn. */
  lemma OneMessagePerTurn<O(!new)>(items: seq<Item>, item: Item, toolArguments: string -> O)
    ensures |Turns(items + [item], toolArguments)|
         == |Turns(items, toolArguments)| + if OpensTurn(Sent(items), item) then 1 else 0
  {
    var groups, entries := Turns(items, toolArguments), Entries(items, toolArguments);
    TurnsStep(items, item, toolArguments);
    GroupedIsWellGrouped(Joined<O>, entries);
    EntriesSayTheItems(items, toolArguments);
    hide Entries, Grouped, WellGrouped, Flatten;
    if entries != [] {
      var last := Sent(items)[|entries| - 1];
      assert Says(entries[|entries| - 1], last, toolArguments);
      LastGroupRole(groups, entries);
      var turn := groups[|groups| - 1];
      if entries[|entries| - 1].Role() == User {
        LastGroupIsText(groups, entries);
      }
      if IsSent(item) {
        var e := EntriesOf(item, toolArguments)[0];
        assert Says(e, item, toolArguments);
        assert Joined(turn, e) <==> !OpensTurn(Sent(items), item);
        assert |AddEntry(Joined<O>, groups, e)| == |groups| + if Joined(turn, e) then 0 else 1;
      }
    } else {
      NoEntriesNoGroups(groups, entries);
    }
  }

  lemma NoEntriesNoGroups<O>(groups: seq<seq<Entry<O>>>, entries: seq<Entry<O>>)
    requires WellGrouped(Joined<O>, groups) && Flatten(groups) == entries && entries == []
    ensures groups == []
  {
    assert forall i :: 0 <= i < |groups| ==> WholeTurn(Joined<O>, groups[i]);
  }
}
