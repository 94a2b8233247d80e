/** Items as Gemini generateContent contents (llmprovider/gemini.go, geminiItemsToContents). */
module GeminiContents {
  import opened Items
  import opened Grouping

  datatype Speaker = User | Model

  /** One part of a content. `O` is a decoded JSON object. */
  datatype Part<O> =
    | TextPart(role: Speaker, text: string)
    | CallPart(name: string, args: O, signature: string)
    | ResponsePart(name: string, output: string)
  {
    function Role(): Speaker {
      match this
      case TextPart(role, _) => role
      case CallPart(_, _, _) => Model
      case ResponsePart(_, _) => User
    }
  }

  datatype Content<O> = Content(role: Speaker, parts: seq<Part<O>>)

  function NormalRole(role: string): Speaker {
    if role == "" || role == ROLE_USER then User else Model
  }

  /** The name of the last call with each id. */
  function CallNames(items: seq<Item>): map<string, string> {
    if items == [] then map[]
    else
      var before, last := CallNames(items[..|items| - 1]), items[|items| - 1];
      if last.FunctionCall? then before[last.callId := last.name] else before
  }

  /** A result is named after its call, or after its id when the call is unknown or unnamed. */
  function ResultName(names: map<string, string>, callId: string): string {
    if callId in names && names[callId] != "" then names[callId] else callId
  }

  /** A call Gemini did not issue carries the placeholder. */
  function Signed(signature: string): string {
    if signature == "" then SKIP_SIGNATURE else signature
  }

  /** The parts an item contributes: none for system messages and reasoning. */
  function PartsOf<O>(item: Item, names: map<string, string>, toolArguments: string -> O): seq<Part<O>> {
    match item
    case Message(role, text) => if role == ROLE_SYSTEM then [] else [TextPart(NormalRole(role), text)]
    case FunctionCall(_, name, arguments, signature) =>
      [CallPart(name, toolArguments(arguments), Signed(signature))]
    case FunctionCallOutput(callId, output) => [ResponsePart(ResultName(names, callId), output)]
    case Reasoning(_) => []
  }

  function Parts<O>(items: seq<Item>, names: map<string, string>, toolArguments: string -> O): seq<Part<O>> {
    if items == [] then []
    else Parts(items[..|items| - 1], names, toolArguments) + PartsOf(items[|items| - 1], names, toolArguments)
  }

  /** A call joins a model turn; a result joins results; a text never joins. */
  function Joined<O>(turn: seq<Part<O>>, e: Part<O>): bool {
    && turn != []
    && ((e.CallPart? && turn[0].Role() == Model)
        || (e.ResponsePart? && turn[0].Role() == User && turn[|turn| - 1].ResponsePart?))
  }

  ghost predicate Renders<O>(contents: seq<Content<O>>, turns: seq<seq<Part<O>>>) {
    && |contents| == |turns|
    && forall i :: 0 <= i < |turns| ==> turns[i] != [] && contents[i] == Content(turns[i][0].Role(), turns[i])
  }

  function Turns<O>(items: seq<Item>, names: map<string, string>, toolArguments: string -> O): seq<seq<Part<O>>> {
    Grouped(Joined<O>, Parts(items, names, toolArguments))
  }

  lemma TurnsStep<O>(items: seq<Item>, item: Item, names: map<string, string>, toolArguments: string -> O)
    ensures var added := PartsOf(item, names, toolArguments);
            Turns(items + [item], names, toolArguments)
            == (if added == [] then Turns(items, names, toolArguments)
                else AddEntry(Joined<O>, Turns(items, names, toolArguments), added[0]))
  {
    assert (items + [item])[..|items|] == items;
    GroupedStep(Joined<O>, Parts(items, names, toolArguments), PartsOf(item, names, toolArguments));
  }

  method NamesOf(items: seq<Item>) returns (names: map<string, string>)
    ensures names == CallNames(items)
  {
    names := map[];
    for i := 0 to |items|
      invariant names == CallNames(items[..i])
    {
      assert items[..i + 1][..i] == items[..i];
      if items[i].FunctionCall? {
        names := names[items[i].callId := items[i].name];
      }
    }
    assert items[..|items|] == items;
  }

  /** The last part appended is a result. */
  predicate EndsInResponse<O>(turns: seq<seq<Part<O>>>) {
    turns != [] && var last := turns[|turns| - 1]; last != [] && last[|last| - 1].ResponsePart?
  }

  method ItemsToContents<O>(items: seq<Item>, toolArguments: string -> O) returns (contents: seq<Content<O>>)
    ensures Renders(contents, Turns(items, CallNames(items), toolArguments))
  {
    var names := NamesOf(items);
    contents := [];
    var lastIsResponses := false;
    for i := 0 to |items|
      invariant Renders(contents, Turns(items[..i], names, toolArguments))
      invariant lastIsResponses == EndsInResponse(Turns(items[..i], names, toolArguments))
    {
      ghost var turns := Turns(items[..i], names, toolArguments);
      assert items[..i + 1] == items[..i] + [items[i]];
      TurnsStep(items[..i], items[i], names, toolArguments);
      hide Renders, Turns;
      match items[i] {
        case Message(role, text) =>
          if role != ROLE_SYSTEM {
            contents := AppendPart(contents, TextPart(NormalRole(role), text), false, turns);
            lastIsResponses := false;
          }
        case FunctionCall(_, name, arguments, signature) =>
          contents := AppendPart(contents, CallPart(name, toolArguments(arguments), Signed(signature)), true, turns);
          lastIsResponses := false;
        case FunctionCallOutput(callId, output) =>
          contents := AppendPart(contents, ResponsePart(ResultName(names, callId), output), lastIsResponses, turns);
          lastIsResponses := true;
        case Reasoning(_) =>
      }
    }
    assert items[..|items|] == items;
  }

  /** The appendPart closure: the part goes into the last content of its role when asked to merge. */
  method AppendPart<O>(contents: seq<Content<O>>, part: Part<O>, merge: bool, ghost turns: seq<seq<Part<O>>>)
    returns (r: seq<Content<O>>)
    requires Renders(contents, turns)
    requires merge == match part
                      case TextPart(_, _) => false
                      case CallPart(_, _, _) => true
                      case ResponsePart(_, _) => EndsInResponse(turns)
    ensures Renders(r, AddEntry(Joined<O>, turns, part))
    ensures EndsInResponse(AddEntry(Joined<O>, turns, part)) == part.ResponsePart?
  {
    var n := |contents|;
    if merge && n > 0 && contents[n - 1].role == part.Role() {
      return contents[n - 1 := contents[n - 1].(parts := contents[n - 1].parts + [part])];
    }
    r := contents + [Content(part.Role(), [part])];
  }

  // ----- Properties -----

  function AllParts<O>(contents: seq<Content<O>>): seq<Part<O>> {
    if contents == [] then [] else AllParts(contents[..|contents| - 1]) + contents[|contents| - 1].parts
  }

  lemma {:induction false} RenderingKeepsParts<O>(contents: seq<Content<O>>, turns: seq<seq<Part<O>>>)
    requires Renders(contents, turns)
    ensures AllParts(contents) == Flatten(turns)
  {
    if contents != [] {
      RenderingKeepsParts(contents[..|contents| - 1], turns[..|turns| - 1]);
    }
  }

  /** The last call with the id. */
  ghost predicate LastCallAt(items: seq<Item>, callId: string, i: nat) {
    && i < |items| && items[i].FunctionCall? && items[i].callId == callId
    && forall j :: i < j < |items| && items[j].FunctionCall? ==> items[j].callId != callId
  }

  /**
   A result's name is that of the last call with its id, or the id itself when that has no name or there
   is no call.
   */
  ghost predicate NameFits(items: seq<Item>, callId: string, name: string) {
    && (forall i: nat :: LastCallAt(items, callId, i) ==> name == if items[i].name != "" then items[i].name else callId)
    && ((forall i: nat :: !LastCallAt(items, callId, i)) ==> name == callId)
  }

  lemma {:induction false} ResultNameFits(items: seq<Item>, callId: string)
    ensures callId in CallNames(items) <==> exists i: nat :: LastCallAt(items, callId, i)
    ensures forall i: nat :: LastCallAt(items, callId, i) ==>
              callId in CallNames(items) && CallNames(items)[callId] == items[i].name
    ensures NameFits(items, callId, ResultName(CallNames(items), callId))
  {
    if items != [] {
      var n := |items| - 1;
      ResultNameFits(items[..n], callId);
      if items[n].FunctionCall? && items[n].callId == callId {
        assert LastCallAt(items, callId, n);
      } else {
        forall i: nat ensures LastCallAt(items, callId, i) <==> LastCallAt(items[..n], callId, i) {
        }
      }
    }
  }

  /** What a part says is exactly the item; a call that was not signed has the placeholder Gemini accepts. */
  ghost predicate Says<O>(part: Part<O>, item: Item, items: seq<Item>, toolArguments: string -> O) {
    match item
    case Message(role, text) => part == TextPart(if IsUserRole(role) then User else Model, text)
    case FunctionCall(_, name, arguments, signature) =>
      part == CallPart(name, toolArguments(arguments),
                       if signature != "" then signature else "skip_thought_signature_validator")
    case FunctionCallOutput(callId, output) =>
      part.ResponsePart? && part.output == output && NameFits(items, callId, part.name)
    case Reasoning(_) => false
  }

  ghost predicate SayAll<O>(parts: seq<Part<O>>, sent: seq<Item>, items: seq<Item>, toolArguments: string -> O) {
    |parts| == |sent| && forall k :: 0 <= k < |sent| ==> Says(parts[k], sent[k], items, toolArguments)
  }

  lemma {:induction false} PartsSayTheItems<O>(some: seq<Item>, items: seq<Item>, toolArguments: string -> O)
    ensures SayAll(Parts(some, CallNames(items), toolArguments), Sent(some), items, toolArguments)
  {
    if some != [] {
      hide NameFits, CallNames, ResultName;
      PartsSayTheItems(some[..|some| - 1], items, toolArguments);
      if some[|some| - 1].FunctionCallOutput? {
        ResultNameFits(items, some[|some| - 1].callId);
      }
    }
  }

  /** A model content is at most a text and then calls; a user content is a text, or results. */
  predicate RoleFits<O(!new)>(content: Content<O>) {
    && content.parts != []
    && forall k :: 0 <= k < |content.parts| ==>
         match content.parts[k]
         case TextPart(role, _) => k == 0 && role == content.role && (role == User ==> |content.parts| == 1)
         case CallPart(_, _, _) => content.role == Model
         case ResponsePart(_, _) => content.role == User
  }

  lemma TurnRoleFits<O(!new)>(turn: seq<Part<O>>)
    requires WholeTurn(Joined<O>, turn)
    ensures RoleFits(Content(turn[0].Role(), turn))
  {
    forall k | 0 < k < |turn| ensures !turn[k].TextPart? && turn[k].Role() == turn[0].Role() {
      assert Joined(turn[..k], turn[k]);
    }
    if |turn| > 1 {
      assert Joined(turn[..1], turn[1]);
    }
  }

  /**
   Flattening the contents gives back the items' parts in order, less system messages and reasoning,
   each result under the name of its call; and the arrangement into turns is the only one in which
   calls join their model turn and results join the results before them.
   */
  lemma ContentsKeepTheItems<O(!new)>(items: seq<Item>, toolArguments: string -> O, contents: seq<Content<O>>)
    requires Renders(contents, Turns(items, CallNames(items), toolArguments))
    ensures AllParts(contents) == Parts(items, CallNames(items), toolArguments)
    ensures SayAll(AllParts(contents), Sent(items), items, toolArguments)
    ensures forall k :: 0 <= k < |contents| ==> RoleFits(contents[k])
    ensures forall turns ::
              WellGrouped(Joined<O>, turns) && Flatten(turns) == Parts(items, CallNames(items), toolArguments) ==>
              Renders(contents, turns)
    ensures WellGrouped(Joined<O>, Turns(items, CallNames(items), toolArguments))
  {
    var parts := Parts(items, CallNames(items), toolArguments);
    GroupedIsWellGrouped(Joined<O>, parts);
    RenderingKeepsParts(contents, Turns(items, CallNames(items), toolArguments));
    PartsSayTheItems(items, items, toolArguments);
    forall k | 0 <= k < |contents| ensures RoleFits(contents[k]) {
      assert WholeTurn(Joined<O>, Turns(items, CallNames(items), toolArguments)[k]);
      TurnRoleFits(Turns(items, CallNames(items), toolArguments)[k]);
    }
    forall turns | WellGrouped(Joined<O>, turns) && Flatten(turns) == parts ensures Renders(contents, turns) {
      GroupingIsUnique(Joined<O>, turns);
    }
  }

  /** With distinct call ids, a result is sent under the very name its call was sent under. */
  lemma {:induction false} ResultTakesItsCallsName(items: seq<Item>, i: nat)
    requires i < |items| && items[i].FunctionCall? && items[i].name != ""
    requires forall j :: 0 <= j < |items| && j != i && items[j].FunctionCall? ==> items[j].callId != items[i].callId
    ensures ResultName(CallNames(items), items[i].callId) == items[i].name
  {
    if i < |items| - 1 {
      ResultTakesItsCallsName(items[..|items| - 1], i);
    }
  }

  /** The last turn ends with the last part and has its role. */
  lemma LastTurnRole<O(!new)>(turns: seq<seq<Part<O>>>, parts: seq<Part<O>>)
    requires WellGrouped(Joined<O>, turns) && Flatten(turns) == parts
    ensures parts == [] ==> turns == []
    ensures parts != [] ==>
              var turn := (if turns == [] then [] else turns[|turns| - 1]);
              turn != [] && turn[|turn| - 1] == parts[|parts| - 1] && turn[0].Role() == parts[|parts| - 1].Role()
  {
    assert forall i :: 0 <= i < |turns| ==> WholeTurn(Joined<O>, turns[i]);
    if turns != [] {
      var turn := turns[|turns| - 1];
      assert turn[|turn| - 1] == parts[|parts| - 1];
      if |turn| > 1 {
        assert Joined(turn[..|turn| - 1], turn[|turn| - 1]);
      }
    }
  }

  /** The number of contents grows by one exactly with the items that open a turn. */
  lemma OneContentPerTurn<O(!new)>(some: seq<Item>, item: Item, items: seq<Item>, toolArguments: string -> O)
    ensures |Turns(some + [item], CallNames(items), toolArguments)|
         == |Turns(some, CallNames(items), toolArguments)| + if OpensTurn(Sent(some), item) then 1 else 0
  {
    var names := CallNames(items);
    var turns, parts := Turns(some, names, toolArguments), Parts(some, names, toolArguments);
    TurnsStep(some, item, names, toolArguments);
    GroupedIsWellGrouped(Joined<O>, parts);
    PartsSayTheItems(some, items, toolArguments);
    LastTurnRole(turns, parts);
    hide Parts, Grouped, WellGrouped, Flatten, Says, CallNames, ResultName, Joined, OpensTurn, Turns;
    if parts != [] {
      assert Says(parts[|parts| - 1], Sent(some)[|parts| - 1], items, toolArguments);
      if IsSent(item) {
        JoinsUnlessItOpens(turns[|turns| - 1], Sent(some), item, names, items, toolArguments);
      }
    }
    OpensFirst(item);
  }

  lemma OpensFirst(item: Item)
    ensures OpensTurn([], item) == IsSent(item)
    ensures !IsSent(item) ==> forall before :: !OpensTurn(before, item)
  {
  }

  /** A part joins the turn the last item sent is in exactly when its item does not open one. */
  lemma JoinsUnlessItOpens<O(!new)>(turn: seq<Part<O>>, before: seq<Item>, item: Item, names: map<string, string>,
                                    items: seq<Item>, toolArguments: string -> O)
    requires turn != [] && before != [] && IsSent(before[|before| - 1]) && IsSent(item)
    requires Says(turn[|turn| - 1], before[|before| - 1], items, toolArguments)
    requires turn[0].Role() == turn[|turn| - 1].Role()
    ensures |PartsOf(item, names, toolArguments)| == 1
    ensures Joined(turn, PartsOf(item, names, toolArguments)[0]) <==> !OpensTurn(before, item)
  {
    hide NameFits, ResultName;
  }
}
