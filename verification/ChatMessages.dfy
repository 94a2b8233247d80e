/** Items as Chat Completions messages, with reasoning replayed on request (llmprovider/chatcompletions.go). */
module ChatMessages {
  import opened Options
  import opened Items
  import opened Grouping

  datatype Speaker = Assistant | Other(name: string)

  datatype Entry =
    | TextEntry(role: Speaker, text: string)
    | CallEntry(callId: string, name: string, arguments: string)
    | OutputEntry(callId: string, output: string)
  {
    /** The entry belongs to an assistant turn. */
    predicate IsAssistants() {
      CallEntry? || (TextEntry? && role == Assistant)
    }
  }

  /** One message: a text with the calls that follow it and the replay field, or a tool result. */
  datatype ChatMessage =
    | TextMessage(role: Speaker, content: string, calls: seq<Entry>, reasoning: Option<string>)
    | ToolMessage(callId: string, content: string)
  {
    predicate IsAssistant() {
      TextMessage? && role == Assistant
    }

    function ReasoningField(): Option<string> {
      if TextMessage? then reasoning else None
    }
  }

  function NormalRole(role: string): Speaker {
    if role == "" then Other(ROLE_USER) else if role == ROLE_ASSISTANT then Assistant else Other(role)
  }

  /** The entries an item contributes: none for reasoning. */
  function EntriesOf(item: Item): seq<Entry> {
    match item
    case Message(role, text) => [TextEntry(NormalRole(role), text)]
    case FunctionCall(callId, name, arguments, _) => [CallEntry(callId, name, arguments)]
    case FunctionCallOutput(callId, output) => [OutputEntry(callId, output)]
    case Reasoning(_) => []
  }

  function Entries(items: seq<Item>): seq<Entry> {
    if items == [] then [] else Entries(items[..|items| - 1]) + EntriesOf(items[|items| - 1])
  }

  /** Only a call joins, and only an assistant turn. */
  function Joined(turn: seq<Entry>, e: Entry): bool {
    turn != [] && e.CallEntry? && turn[0].IsAssistants()
  }

  function Turns(items: seq<Item>): seq<seq<Entry>> {
    Grouped(Joined, Entries(items))
  }

  function Render(turn: seq<Entry>, reasoning: Option<string>): ChatMessage
    requires turn != []
  {
    match turn[0]
    case TextEntry(role, text) => TextMessage(role, text, turn[1..], reasoning)
    case CallEntry(_, _, _) => TextMessage(Assistant, "", turn, reasoning)
    case OutputEntry(callId, output) => ToolMessage(callId, output)
  }

  /** The messages are the turns; in replay mode exactly the assistant messages have the reasoning field. */
  ghost predicate Renders(messages: seq<ChatMessage>, turns: seq<seq<Entry>>, replay: bool) {
    && |messages| == |turns|
    && forall i :: 0 <= i < |turns| ==>
         && turns[i] != []
         && messages[i] == Render(turns[i], messages[i].ReasoningField())
         && (messages[i].ReasoningField().Some? <==> replay && messages[i].IsAssistant())
  }

  lemma TurnsStep(items: seq<Item>, item: Item)
    ensures var added := EntriesOf(item);
            Turns(items + [item]) == (if added == [] then Turns(items) else AddEntry(Joined, Turns(items), added[0]))
  {
    assert (items + [item])[..|items|] == items;
    GroupedStep(Joined, Entries(items), EntriesOf(item));
  }

  /** The item opens an assistant message after `before`. */
  predicate OpensAssistant(before: seq<seq<Entry>>, item: Item) {
    var added := EntriesOf(item);
    added != [] && added[0].IsAssistants() && !(before != [] && Joined(before[|before| - 1], added[0]))
  }

  /**
   The reasoning put on each assistant message, and what is still pending: the reasoning since the last message
   it could be put on.
   */
  function Replayed(items: seq<Item>): (seq<string>, string) {
    if items == [] then ([], "")
    else
      var before, item := items[..|items| - 1], items[|items| - 1];
      var (done, pending) := Replayed(before);
      if item.Reasoning? then (done, pending + item.text)
      else if OpensAssistant(Turns(before), item) then (done + [pending], "")
      else (done, pending)
  }

  lemma ReplayedStep(items: seq<Item>, item: Item)
    ensures var (done, pending) := Replayed(items);
            Replayed(items + [item])
            == (if item.Reasoning? then (done, pending + item.text)
                else if OpensAssistant(Turns(items), item) then (done + [pending], "")
                else (done, pending))
  {
    assert (items + [item])[..|items|] == items;
  }

  /** The reasoning fields of the messages that have one, in order. */
  function ReasoningFields(messages: seq<ChatMessage>): seq<string> {
    if messages == [] then []
    else
      ReasoningFields(messages[..|messages| - 1])
      + (match messages[|messages| - 1].ReasoningField() case Some(text) => [text] case None => [])
  }

  lemma MoreReasoningFields(messages: seq<ChatMessage>, m: ChatMessage)
    ensures ReasoningFields(messages + [m])
         == if m.ReasoningField().Some? then ReasoningFields(messages) + [m.ReasoningField().value]
             else ReasoningFields(messages)
  {
    assert (messages + [m])[..|messages|] == messages;
    assert ReasoningFields(messages) + [] == ReasoningFields(messages);
  }

  lemma {:induction false} SameReasoningFields(a: seq<ChatMessage>, b: seq<ChatMessage>)
    requires |a| == |b| && forall i :: 0 <= i < |a| ==> a[i].ReasoningField() == b[i].ReasoningField()
    ensures ReasoningFields(a) == ReasoningFields(b)
  {
    if a != [] {
      SameReasoningFields(a[..|a| - 1], b[..|b| - 1]);
    }
  }

  /** The state of the loop after `items`: the messages so far and the reasoning still to be placed. */
  ghost predicate Converted(items: seq<Item>, messages: seq<ChatMessage>, pending: string, replay: bool) {
    && Renders(messages, Turns(items), replay)
    && (replay ==> Replayed(items) == (ReasoningFields(messages), pending))
  }

  /** itemsToChatMessagesReplaying; `replay` says that the reasoning field has a name. */
  method ItemsToChatMessages(items: seq<Item>, replay: bool) returns (messages: seq<ChatMessage>)
    ensures Renders(messages, Turns(items), replay)
    ensures replay ==> ReasoningFields(messages) == Replayed(items).0
  {
    messages := [];
    var pending := "";
    for i := 0 to |items|
      invariant Converted(items[..i], messages, pending, replay)
    {
      assert items[..i + 1] == items[..i] + [items[i]];
      messages, pending := AddItem(items[..i], items[i], messages, pending, replay);
    }
    assert items[..|items|] == items;
  }

  /** The loop's body: what one item does to the messages and to the pending reasoning. */
  method AddItem(ghost items: seq<Item>, item: Item, messages: seq<ChatMessage>, pending: string, replay: bool)
    returns (r: seq<ChatMessage>, left: string)
    requires Converted(items, messages, pending, replay)
    ensures Converted(items + [item], r, left, replay)
  {
    TurnsStep(items, item);
    ReplayedStep(items, item);
    ghost var turns := Turns(items);
    match item {
      case Reasoning(text) =>
        r, left := messages, pending + text;
      case Message(role, text) =>
        r := Open(messages, TextEntry(NormalRole(role), text), turns, replay, pending);
        left := if replay && NormalRole(role) == Assistant then "" else pending;
      case FunctionCall(callId, name, arguments, _) =>
        var call := CallEntry(callId, name, arguments);
        if messages != [] && messages[|messages| - 1].IsAssistant() {
          r := Join(messages, call, turns, replay);
          left := pending;
        } else {
          r := Open(messages, call, turns, replay, pending);
          left := if replay then "" else pending;
        }
      case FunctionCallOutput(callId, output) =>
        r := Open(messages, OutputEntry(callId, output), turns, replay, pending);
        left := pending;
    }
  }

  /** A call joins the assistant message before it. */
  method Join(messages: seq<ChatMessage>, call: Entry, ghost turns: seq<seq<Entry>>, replay: bool)
    returns (r: seq<ChatMessage>)
    requires call.CallEntry? && Renders(messages, turns, replay)
    requires messages != [] && messages[|messages| - 1].IsAssistant()
    ensures Renders(r, AddEntry(Joined, turns, call), replay)
    ensures ReasoningFields(r) == ReasoningFields(messages)
    ensures Joined(turns[|turns| - 1], call)
  {
    var n := |messages|;
    r := messages[n - 1 := messages[n - 1].(calls := messages[n - 1].calls + [call])];
    SameReasoningFields(messages, r);
    assert (turns[n - 1] + [call])[1..] == turns[n - 1][1..] + [call];
  }

  lemma RendersMore(messages: seq<ChatMessage>, turns: seq<seq<Entry>>, e: Entry, m: ChatMessage, replay: bool)
    requires Renders(messages, turns, replay)
    requires m == Render([e], m.ReasoningField()) && (m.ReasoningField().Some? <==> replay && m.IsAssistant())
    ensures Renders(messages + [m], turns + [[e]], replay)
  {
    hide Render;
  }

  /** Any other entry opens a message, which takes the pending reasoning when it is the assistant's. */
  method Open(messages: seq<ChatMessage>, e: Entry, ghost turns: seq<seq<Entry>>, replay: bool, pending: string)
    returns (r: seq<ChatMessage>)
    requires Renders(messages, turns, replay)
    requires !(turns != [] && Joined(turns[|turns| - 1], e))
    ensures Renders(r, AddEntry(Joined, turns, e), replay)
    ensures ReasoningFields(r)
              == if replay && e.IsAssistants() then ReasoningFields(messages) + [pending]
              else ReasoningFields(messages)
  {
    hide Renders, ReasoningFields;
    var reasoning := if replay && e.IsAssistants() then Some(pending) else None;
    var message := Render([e], reasoning);
    r := messages + [message];
    MoreReasoningFields(messages, message);
    RendersMore(messages, turns, e, message, replay);
  }

  // ----- Properties -----

  /** What a message shows: its text unless it is the assistant's and empty, then its calls. */
  function Shown(m: ChatMessage): seq<Entry> {
    match m
    case ToolMessage(callId, content) => [OutputEntry(callId, content)]
    case TextMessage(role, content, calls, _) =>
      (if role == Assistant && content == "" then [] else [TextEntry(role, content)]) + calls
  }

  function ShownAll(messages: seq<ChatMessage>): seq<Entry> {
    if messages == [] then [] else ShownAll(messages[..|messages| - 1]) + Shown(messages[|messages| - 1])
  }

  /** The entries less the assistant's empty texts, which a message cannot show. */
  function Visible(entries: seq<Entry>): seq<Entry> {
    if entries == [] then []
    else
      var e := entries[|entries| - 1];
      Visible(entries[..|entries| - 1]) + (if e == TextEntry(Assistant, "") then [] else [e])
  }

  lemma {:induction false} VisibleConcat(a: seq<Entry>, b: seq<Entry>)
    ensures Visible(a + b) == Visible(a) + Visible(b)
  {
    if b == [] {
      assert a + b == a;
    } else {
      VisibleConcat(a, b[..|b| - 1]);
      assert (a + b)[..|a + b| - 1] == a + b[..|b| - 1];
    }
  }

  lemma {:induction false} CallsAreVisible(calls: seq<Entry>)
    requires forall i :: 0 <= i < |calls| ==> calls[i].CallEntry?
    ensures Visible(calls) == calls
  {
    if calls != [] {
      CallsAreVisible(calls[..|calls| - 1]);
    }
  }

  lemma RenderShowsVisible(turn: seq<Entry>, reasoning: Option<string>)
    requires WholeTurn(Joined, turn)
    ensures Shown(Render(turn, reasoning)) == Visible(turn)
  {
    var first, calls := turn[0], turn[1..];
    assert turn == [first] + calls;
    forall i | 0 <= i < |calls| ensures calls[i].CallEntry? && first.IsAssistants() {
      assert Joined(turn[..i + 1], turn[i + 1]);
    }
    CallsAreVisible(calls);
    VisibleConcat([first], calls);
    VisibleOne(first);
    if |calls| > 0 {
      assert calls[0].CallEntry?;
    }
  }

  lemma VisibleOne(e: Entry)
    ensures Visible([e]) == if e == TextEntry(Assistant, "") then [] else [e]
  {
    assert [e][..0] == Entries([]);
  }

  lemma {:induction false} RenderingShowsVisible(messages: seq<ChatMessage>, turns: seq<seq<Entry>>, replay: bool)
    requires Renders(messages, turns, replay) && forall i :: 0 <= i < |turns| ==> WholeTurn(Joined, turns[i])
    ensures ShownAll(messages) == Visible(Flatten(turns))
  {
    if turns != [] {
      var last := |turns| - 1;
      RenderingShowsVisible(messages[..last], turns[..last], replay);
      RenderShowsVisible(turns[last], messages[last].ReasoningField());
      VisibleConcat(Flatten(turns[..last]), turns[last]);
    }
  }

  /** Reasoning is no message, and a message cannot show an empty text of the assistant's. */
  predicate IsShown(item: Item) {
    !item.Reasoning? && !(item.Message? && item.role == "assistant" && item.text == "")
  }

  function ShownItems(items: seq<Item>): seq<Item> {
    if items == [] then []
    else ShownItems(items[..|items| - 1]) + (if IsShown(items[|items| - 1]) then [items[|items| - 1]] else [])
  }

  /** What a message or a call of it says is exactly the item; an absent role is the user's. */
  predicate Says(e: Entry, item: Item) {
    match item
    case Message(role, text) =>
      e.TextEntry? && e.text == text
      && e.role == (if role == "assistant" then Assistant else if role == "" then Other("user") else Other(role))
    case FunctionCall(callId, name, arguments, _) => e == CallEntry(callId, name, arguments)
    case FunctionCallOutput(callId, output) => e == OutputEntry(callId, output)
    case Reasoning(_) => false
  }

  predicate SayAll(entries: seq<Entry>, items: seq<Item>) {
    |entries| == |items| && forall k :: 0 <= k < |items| ==> Says(entries[k], items[k])
  }

  lemma ShownStep(items: seq<Item>, item: Item)
    ensures ShownItems(items + [item]) == ShownItems(items) + (if IsShown(item) then [item] else [])
  {
    assert (items + [item])[..|items|] == items;
  }

  lemma EntriesStep(items: seq<Item>, item: Item)
    ensures Entries(items + [item]) == Entries(items) + EntriesOf(item)
  {
    assert (items + [item])[..|items|] == items;
  }

  /** The entry of one item is visible exactly when the item is shown, and says it. */
  lemma OneItemIsSaid(item: Item)
    ensures SayAll(Visible(EntriesOf(item)), if IsShown(item) then [item] else [])
  {
    var entries := EntriesOf(item);
    if !item.Reasoning? {
      assert |entries| == 1 && Says(entries[0], item);
      VisibleOne(entries[0]);
      assert entries == [entries[0]];
      hide Visible, EntriesOf, Says;
    }
  }

  lemma SayAllConcat(a: seq<Entry>, b: seq<Item>, c: seq<Entry>, d: seq<Item>)
    requires SayAll(a, b) && SayAll(c, d)
    ensures SayAll(a + c, b + d)
  {
    hide Says;
  }

  lemma {:induction false} VisibleSayTheItems(items: seq<Item>)
    ensures SayAll(Visible(Entries(items)), ShownItems(items))
  {
    if items != [] {
      hide *;
      var before, item := items[..|items| - 1], items[|items| - 1];
      LastOne(items);
      VisibleSayTheItems(before);
      EntriesStep(before, item);
      ShownStep(before, item);
      VisibleConcat(Entries(before), EntriesOf(item));
      OneItemIsSaid(item);
      SayAllConcat(Visible(Entries(before)), ShownItems(before), Visible(EntriesOf(item)),
                   if IsShown(item) then [item] else []);
    }
  }

  /**
   Flattening the messages gives back the items in order, each said as it is, less reasoning and the
   assistant's empty texts; the arrangement is the only one in which calls join the assistant turn before them.
   */
  lemma MessagesKeepTheItems(items: seq<Item>, messages: seq<ChatMessage>, replay: bool)
    requires Renders(messages, Turns(items), replay)
    ensures ShownAll(messages) == Visible(Entries(items))
    ensures SayAll(ShownAll(messages), ShownItems(items))
    ensures forall turns :: WellGrouped(Joined, turns) && Flatten(turns) == Entries(items) ==>
              Renders(messages, turns, replay)
  {
    GroupedIsWellGrouped(Joined, Entries(items));
    RenderingShowsVisible(messages, Turns(items), replay);
    VisibleSayTheItems(items);
    forall turns | WellGrouped(Joined, turns) && Flatten(turns) == Entries(items)
        ensures Renders(messages, turns, replay) {
      GroupingIsUnique(Joined, turns);
    }
  }

  function Concat(texts: seq<string>): string {
    if texts == [] then "" else Concat(texts[..|texts| - 1]) + texts[|texts| - 1]
  }

  function AllReasoning(items: seq<Item>): string {
    if items == [] then ""
    else AllReasoning(items[..|items| - 1]) + (if items[|items| - 1].Reasoning? then items[|items| - 1].text else "")
  }

  /**
   The replayed reasoning, then what is still pending at the end, is all the reasoning of the conversation in
   order.
   */
  lemma {:induction false} ReasoningIsConserved(items: seq<Item>)
    ensures Concat(Replayed(items).0) + Replayed(items).1 == AllReasoning(items)
  {
    if items != [] {
      hide *;
      var before, item := items[..|items| - 1], items[|items| - 1];
      ReasoningIsConserved(before);
      ConservedByOne(before, item);
      LastOne(items);
    }
  }

  lemma LastOne(items: seq<Item>)
    requires items != []
    ensures items[..|items| - 1] + [items[|items| - 1]] == items
  {
  }

  lemma ConservedByOne(items: seq<Item>, item: Item)
    requires Concat(Replayed(items).0) + Replayed(items).1 == AllReasoning(items)
    ensures Concat(Replayed(items + [item]).0) + Replayed(items + [item]).1 == AllReasoning(items + [item])
  {
    hide *;
    var (done, pending) := Replayed(items);
    ReplayedStep(items, item);
    AllReasoningStep(items, item);
    MorePending(done, pending, if item.Reasoning? then item.text else "", AllReasoning(items));
    Attached(done, pending, AllReasoning(items));
  }

  lemma AllReasoningStep(items: seq<Item>, item: Item)
    ensures AllReasoning(items + [item]) == AllReasoning(items) + (if item.Reasoning? then item.text else "")
  {
    assert (items + [item])[..|items|] == items;
  }

  lemma MorePending(done: seq<string>, pending: string, text: string, all: string)
    requires Concat(done) + pending == all
    ensures Concat(done) + (pending + text) == all + text
    ensures all + "" == all
  {
    assert Concat(done) + (pending + text) == (Concat(done) + pending) + text;
  }

  lemma Attached(done: seq<string>, pending: string, all: string)
    requires Concat(done) + pending == all
    ensures Concat(done + [pending]) + "" == all
  {
    assert (done + [pending])[..|done|] == done;
  }

  /** The conversation so far ends in an assistant turn, which a call would join. */
  predicate EndsInAssistantTurn(items: seq<Item>) {
    var turns := Turns(items); turns != [] && turns[|turns| - 1] != [] && turns[|turns| - 1][0].IsAssistants()
  }

  /**
   Reasoning before a call that joins the turn in front of it is not put on that turn, after whatever
   conversation: it waits, with what was pending, for the next message that opens an assistant turn.
   */
  lemma ReasoningInsideATurnMovesOn(items: seq<Item>, text: string, call: Item)
    requires EndsInAssistantTurn(items) && call.FunctionCall?
    ensures var more := items + [Reasoning(text)] + [call];
            && |Turns(more)| == |Turns(items)| && EndsInAssistantTurn(more)
            && Replayed(more) == (Replayed(items).0, Replayed(items).1 + text)
  {
    var noted := items + [Reasoning(text)];
    TurnsStep(items, Reasoning(text));
    ReplayedStep(items, Reasoning(text));
    TurnsStep(noted, call);
    ReplayedStep(noted, call);
    hide Turns, Replayed;
    CallJoins(Turns(items), EntriesOf(call)[0]);
  }

  lemma CallJoins(turns: seq<seq<Entry>>, call: Entry)
    requires turns != [] && turns[|turns| - 1] != [] && turns[|turns| - 1][0].IsAssistants() && call.CallEntry?
    ensures Joined(turns[|turns| - 1], call)
    ensures var more := AddEntry(Joined, turns, call);
            |more| == |turns| && more[|more| - 1] != [] && more[|more| - 1][0].IsAssistants()
  {
  }

  // ----- Which items open a message, and which reasoning goes with it -----

  predicate IsAssistantItem(item: Item) {
    item.FunctionCall? || (item.Message? && item.role == "assistant")
  }

  /** The last item that is not reasoning. */
  function LastSpoken(items: seq<Item>): Option<Item> {
    if items == [] then None
    else if !items[|items| - 1].Reasoning? then Some(items[|items| - 1])
    else LastSpoken(items[..|items| - 1])
  }

  /** Everything but reasoning opens a message, except a call right after the assistant's text or another call. */
  predicate OpensMessage(items: seq<Item>, item: Item) {
    !item.Reasoning? && !(item.FunctionCall? && LastSpoken(items).Some? && IsAssistantItem(LastSpoken(items).value))
  }

  lemma {:induction false} LastEntrySpeaks(items: seq<Item>)
    ensures Entries(items) == [] <==> LastSpoken(items).None?
    ensures Entries(items) != [] ==>
              Says(Entries(items)[|Entries(items)| - 1], LastSpoken(items).value)
  {
    if items != [] && items[|items| - 1].Reasoning? {
      LastEntrySpeaks(items[..|items| - 1]);
    }
  }

  /** The last turn belongs to the assistant exactly when the last entry does. */
  lemma LastTurnSpeaks(turns: seq<seq<Entry>>, entries: seq<Entry>)
    requires WellGrouped(Joined, turns) && Flatten(turns) == entries
    ensures turns == [] <==> entries == []
    ensures turns != [] ==>
              turns[|turns| - 1] != [] &&
              (turns[|turns| - 1][0].IsAssistants() <==> entries[|entries| - 1].IsAssistants())
  {
    assert forall i :: 0 <= i < |turns| ==> WholeTurn(Joined, turns[i]);
    if turns != [] {
      var turn := turns[|turns| - 1];
      assert turn[|turn| - 1] == entries[|entries| - 1];
      if |turn| > 1 {
        assert Joined(turn[..|turn| - 1], turn[|turn| - 1]);
      }
    }
  }

  /**
   The number of messages grows by one exactly with those items; an assistant message is opened by the
   assistant's.
   */
  lemma OneMessagePerTurn(items: seq<Item>, item: Item)
    ensures |Turns(items + [item])| == |Turns(items)| + if OpensMessage(items, item) then 1 else 0
    ensures OpensAssistant(Turns(items), item) <==> OpensMessage(items, item) && IsAssistantItem(item)
  {
    TurnsStep(items, item);
    LastTurnIsTheLastSpoken(items);
    OpensExactlyWhen(Turns(items), LastSpoken(items), item);
    hide Turns, LastSpoken, OpensAssistant, EntriesOf, AddEntry, Joined, IsAssistantItem, EndsLike;
  }

  /** The turns end with one of the assistant's exactly when the last item that is not reasoning is. */
  ghost predicate EndsLike(turns: seq<seq<Entry>>, spoken: Option<Item>) {
    && (turns == [] <==> spoken.None?)
    && (turns != [] ==>
          && turns[|turns| - 1] != []
          && (turns[|turns| - 1][0].IsAssistants() <==> IsAssistantItem(spoken.value)))
  }

  lemma LastTurnIsTheLastSpoken(items: seq<Item>)
    ensures EndsLike(Turns(items), LastSpoken(items))
  {
    GroupedIsWellGrouped(Joined, Entries(items));
    LastTurnSpeaks(Turns(items), Entries(items));
    LastEntrySpeaks(items);
    hide Entries, Grouped, WellGrouped, Flatten, LastSpoken, Joined;
  }

  lemma OpensExactlyWhen(turns: seq<seq<Entry>>, spoken: Option<Item>, item: Item)
    requires EndsLike(turns, spoken)
    ensures var added := EntriesOf(item);
            var opens := !item.Reasoning?
                         && !(item.FunctionCall? && spoken.Some? && IsAssistantItem(spoken.value));
            && (added == [] <==> item.Reasoning?)
            && (added != [] ==> |AddEntry(Joined, turns, added[0])| == |turns| + if opens then 1 else 0)
            && (OpensAssistant(turns, item) <==> opens && IsAssistantItem(item))
  {
  }

  /** No item of b opens an assistant message after `items`. */
  ghost predicate NoneOpens(items: seq<Item>, b: seq<Item>) {
    forall i :: 0 <= i < |b| ==> !(OpensMessage(items + b[..i], b[i]) && IsAssistantItem(b[i]))
  }

  lemma OneMoreWaits(items: seq<Item>, item: Item)
    requires !(OpensMessage(items, item) && IsAssistantItem(item))
    ensures Replayed(items + [item]).0 == Replayed(items).0
    ensures Replayed(items + [item]).1 == Replayed(items).1 + (if item.Reasoning? then item.text else "")
  {
    OneMessagePerTurn(items, item);
    ReplayedStep(items, item);
    hide OpensMessage, OpensAssistant, Turns, Replayed;
    assert Replayed(items).1 + "" == Replayed(items).1;
  }

  lemma NothingWaits(items: seq<Item>)
    ensures items + [] == items && AllReasoning([]) == ""
  {
  }

  lemma TextsAssociate(a: string, b: string, c: string)
    ensures (a + b) + c == a + (b + c) && a + "" == a
  {
  }

  lemma OpeningTakesThePending(items: seq<Item>, item: Item)
    requires OpensMessage(items, item) && IsAssistantItem(item)
    ensures Replayed(items + [item]) == (Replayed(items).0 + [Replayed(items).1], "")
  {
    OneMessagePerTurn(items, item);
    ReplayedStep(items, item);
    hide OpensAssistant, Turns;
  }

  lemma NoneOpensBefore(items: seq<Item>, b: seq<Item>)
    requires b != [] && NoneOpens(items, b)
    ensures NoneOpens(items, b[..|b| - 1])
    ensures !(OpensMessage(items + b[..|b| - 1], b[|b| - 1]) && IsAssistantItem(b[|b| - 1]))
  {
    hide OpensMessage, IsAssistantItem;
    var before := b[..|b| - 1];
    assert forall i :: 0 <= i < |before| ==> before[..i] == b[..i] && before[i] == b[i];
  }

  /** Until an assistant message is opened, reasoning waits. */
  lemma {:induction false} ReasoningWaits(items: seq<Item>, b: seq<Item>)
    requires NoneOpens(items, b)
    ensures Replayed(items + b).0 == Replayed(items).0
    ensures Replayed(items + b).1 == Replayed(items).1 + AllReasoning(b)
  {
    hide *;
    TextsAssociate(Replayed(items).1, AllReasoning(b), "");
    if b == [] {
      NothingWaits(items);
    } else {
      var before, item := b[..|b| - 1], b[|b| - 1];
      TextsAssociate(Replayed(items).1, AllReasoning(before), if item.Reasoning? then item.text else "");
      NoneOpensBefore(items, b);
      ReasoningWaits(items, before);
      LastOne(b);
      assert items + (before + [item]) == (items + before) + [item];
      OneMoreWaits(items + before, item);
      AllReasoningStep(before, item);
    }
  }

  /**
   The reasoning replayed on an assistant message is exactly what was reasoned since the message before it
   was opened, in order, and then nothing is pending.
   */
  lemma FieldIsTheReasoningSince(items: seq<Item>, first: Item, between: seq<Item>, second: Item)
    requires OpensMessage(items, first) && IsAssistantItem(first)
    requires NoneOpens(items + [first], between)
    requires OpensMessage(items + [first] + between, second) && IsAssistantItem(second)
    ensures Replayed(items + [first] + between + [second]).0
         == Replayed(items).0 + [Replayed(items).1] + [AllReasoning(between)]
    ensures Replayed(items + [first] + between + [second]).1 == ""
  {
    hide *;
    OpeningTakesThePending(items, first);
    ReasoningWaits(items + [first], between);
    OpeningTakesThePending(items + [first] + between, second);
    assert "" + AllReasoning(between) == AllReasoning(between);
  }
}
