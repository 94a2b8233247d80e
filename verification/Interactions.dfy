/**
 The Gemini Interactions wire (llmprovider/gemini_interactions.go): items as steps, and an
 interaction's steps back as items.

 JSON is a parameter: `O` is a decoded object, and a codec parses and renders it.
 */
module Interactions {
  import opened Options
  import opened Text
  import opened Items
  import opened GeminiContents

  datatype Codec<!O> = Codec(parse: string -> Option<O>, render: O -> string, wrap: string -> O, empty: O)

  /** Rendering an object gives text that parses back to it (section 4 of RFC 8259). */
  ghost predicate IsCodec<O(!new)>(codec: Codec<O>) {
    && (forall o :: codec.parse(codec.render(o)) == Some(o) && !AllSpace(codec.render(o)))
    && codec.parse("{}") == Some(codec.empty)
  }

  /** toolArguments: blank text is the empty object, and text that is no object is kept under "arguments". */
  function ToolArguments<O>(codec: Codec<O>, arguments: string): O {
    if AllSpace(arguments) then codec.empty
    else match codec.parse(arguments) case Some(o) => o case None => codec.wrap(arguments)
  }

  datatype Fragment = Fragment(kind: string, text: string)

  /** A step as the wire carries it; absent or null arguments are None. */
  datatype Step<O> =
    | UserInput(text: string)
    | ModelOutput(content: seq<Fragment>)
    | Thought(signature: string, summary: seq<string>)
    | CallStep(id: string, name: string, arguments: Option<O>)
    | ResultStep(callId: string, resultName: string, result: string)
    | OtherStep

  // ----- Encoding -----

  function StepsOf<O>(item: Item, names: map<string, string>, codec: Codec<O>): seq<Step<O>> {
    match item
    case Message(role, text) =>
      if role == ROLE_SYSTEM then []
      else if NormalRole(role) == User then [UserInput(text)]
      else [ModelOutput([Fragment("text", text)])]
    case FunctionCall(callId, name, arguments, signature) =>
      [Thought(Signed(signature), []), CallStep(callId, name, Some(ToolArguments(codec, arguments)))]
    case FunctionCallOutput(callId, output) => [ResultStep(callId, ResultName(names, callId), output)]
    case Reasoning(_) => []
  }

  function Steps<O>(items: seq<Item>, names: map<string, string>, codec: Codec<O>): seq<Step<O>> {
    if items == [] then [] else StepsOf(items[0], names, codec) + Steps(items[1..], names, codec)
  }

  lemma {:induction false} StepsAppend<O>(items: seq<Item>, item: Item, names: map<string, string>, codec: Codec<O>)
    ensures Steps(items + [item], names, codec) == Steps(items, names, codec) + StepsOf(item, names, codec)
  {
    if items == [] {
      assert [] + [item] == [item] && [item][1..] == [];
    } else {
      StepsAppend(items[1..], item, names, codec);
      assert (items + [item])[1..] == items[1..] + [item];
    }
  }

  /** interactionsInput. */
  method InteractionsInput<O>(items: seq<Item>, codec: Codec<O>) returns (steps: seq<Step<O>>)
    ensures steps == Steps(items, CallNames(items), codec)
  {
    var names := NamesOf(items);
    steps := [];
    for i := 0 to |items|
      invariant steps == Steps(items[..i], names, codec)
    {
      assert items[..i + 1] == items[..i] + [items[i]];
      StepsAppend(items[..i], items[i], names, codec);
      match items[i] {
        case Message(role, text) =>
          if role == ROLE_SYSTEM {
          } else if NormalRole(role) == User {
            steps := steps + [UserInput(text)];
          } else {
            steps := steps + [ModelOutput([Fragment("text", text)])];
          }
        case FunctionCall(callId, name, arguments, signature) =>
          steps := steps
              + [Thought(Signed(signature), []), CallStep(callId, name, Some(ToolArguments(codec, arguments)))];
        case FunctionCallOutput(callId, output) =>
          steps := steps + [ResultStep(callId, ResultName(names, callId), output)];
        case Reasoning(_) =>
      }
    }
    assert items[..|items|] == items;
  }

  // ----- Decoding -----

  datatype Status = Finished | IncompleteStatus | OtherStatus

  datatype Decoded = Answer(output: seq<Item>) | NoContent | IncompleteAnswer | Unavailable

  function TextOf(content: seq<Fragment>): string {
    if content == [] then ""
    else
      var last := content[|content| - 1];
      TextOf(content[..|content| - 1]) + (if last.kind == "text" then last.text else "")
  }

  function Joined(summary: seq<string>): string {
    if summary == [] then "" else Joined(summary[..|summary| - 1]) + summary[|summary| - 1]
  }

  /** The items one step adds, under the signature in force. */
  function ItemsOf<O>(step: Step<O>, signature: string, codec: Codec<O>): seq<Item> {
    match step
    case Thought(_, summary) => if Joined(summary) == "" then [] else [Reasoning(Joined(summary))]
    case ModelOutput(content) => if TextOf(content) == "" then [] else [Message(ROLE_ASSISTANT, TextOf(content))]
    case CallStep(id, name, arguments) =>
      [FunctionCall(id, name, match arguments case Some(o) => codec.render(o) case None => "{}", signature)]
    case _ => []
  }

  /** The signature in force after a step: a thought's signature holds until the next thought. */
  function SignatureAfter<O>(step: Step<O>, signature: string): string {
    if step.Thought? then step.signature else signature
  }

  function DecodedItems<O>(steps: seq<Step<O>>, signature: string, codec: Codec<O>): seq<Item> {
    if steps == [] then []
    else ItemsOf(steps[0], signature, codec) + DecodedItems(steps[1..], SignatureAfter(steps[0], signature), codec)
  }

  /** The loop's body: the item a step is, if any, and the signature the next call takes. */
  method DecodeStep<O>(step: Step<O>, signature: string, codec: Codec<O>) returns (more: seq<Item>, next: string)
    ensures more == ItemsOf(step, signature, codec) && next == SignatureAfter(step, signature)
  {
    more, next := [], signature;
    match step {
      case Thought(signed, summary) =>
        next := signed;
        if Joined(summary) != "" {
          more := [Reasoning(Joined(summary))];
        }
      case ModelOutput(content) =>
        if TextOf(content) != "" {
          more := [Message(ROLE_ASSISTANT, TextOf(content))];
        }
      case CallStep(id, name, arguments) =>
        var args := "{}";
        if arguments.Some? {
          args := codec.render(arguments.value);
        }
        more := [FunctionCall(id, name, args, signature)];
      case _ =>
    }
  }

  /** decodeInteraction, after the JSON has been decoded. */
  method DecodeInteraction<O>(status: Status, steps: seq<Step<O>>, codec: Codec<O>) returns (r: Decoded)
    ensures status.IncompleteStatus? <==> r == IncompleteAnswer
    ensures status.OtherStatus? <==> r == Unavailable
    ensures status.Finished? ==>
              r == if DecodedItems(steps, "", codec) == [] then NoContent else Answer(DecodedItems(steps, "", codec))
  {
    match status {
      case IncompleteStatus => return IncompleteAnswer;
      case OtherStatus => return Unavailable;
      case Finished =>
    }
    var signature, output := "", [];
    for i := 0 to |steps|
      invariant DecodedItems(steps, "", codec) == output + DecodedItems(steps[i..], signature, codec)
    {
      var step := steps[i];
      assert steps[i..][0] == step && steps[i..][1..] == steps[i + 1..];
      var more;
      more, signature := DecodeStep(step, signature, codec);
      output := output + more;
    }
    assert steps[|steps|..] == [];
    r := if output == [] then NoContent else Answer(output);
  }

  // ----- The round trip -----

  /** Equal up to the spelling of a call's arguments, which are compared as objects. */
  predicate SameItem<O(==)>(a: Item, b: Item, codec: Codec<O>) {
    if a.FunctionCall? && b.FunctionCall? then
      a.callId == b.callId && a.name == b.name && a.signature == b.signature
      && ToolArguments(codec, a.arguments) == ToolArguments(codec, b.arguments)
    else a == b
  }

  predicate SameItems<O(==)>(a: seq<Item>, b: seq<Item>, codec: Codec<O>) {
    |a| == |b| && forall i :: 0 <= i < |a| ==> SameItem(a[i], b[i], codec)
  }

  /** The items an interaction can hand back: the assistant's non-empty texts, and signed calls. */
  predicate Replayable(item: Item) {
    match item
    case Message(role, text) => role == ROLE_ASSISTANT && text != ""
    case FunctionCall(_, _, _, signature) => signature != ""
    case _ => false
  }

  /** What decoding makes of one item's steps: at most one item, whatever signature was in force. */
  function Returned<O>(item: Item, codec: Codec<O>): (r: seq<Item>)
    ensures |r| <= 1
  {
    match item
    case Message(role, text) =>
      if role == ROLE_SYSTEM || NormalRole(role) == User || text == "" then [] else [Message(ROLE_ASSISTANT, text)]
    case FunctionCall(callId, name, arguments, signature) =>
      [FunctionCall(callId, name, codec.render(ToolArguments(codec, arguments)), Signed(signature))]
    case _ => []
  }

  function AllReturned<O>(items: seq<Item>, codec: Codec<O>): (r: seq<Item>)
    ensures |r| <= |items|
  {
    if items == [] then [] else Returned(items[0], codec) + AllReturned(items[1..], codec)
  }

  lemma {:induction false} ItemsConcat<O>(a: seq<Step<O>>, b: seq<Step<O>>, signature: string, codec: Codec<O>)
    requires |a| <= 2
    ensures DecodedItems(a + b, signature, codec)
         == (if a == [] then DecodedItems(b, signature, codec)
             else if |a| == 1 then
                 ItemsOf(a[0], signature, codec) + DecodedItems(b, SignatureAfter(a[0], signature), codec)
             else ItemsOf(a[0], signature, codec) + (ItemsOf(a[1], SignatureAfter(a[0], signature), codec)
                  + DecodedItems(b, SignatureAfter(a[1], SignatureAfter(a[0], signature)), codec)))
  {
    if a == [] {
      assert a + b == b;
    } else if |a| == 1 {
      assert (a + b)[1..] == b;
    } else {
      assert (a + b)[1..][1..] == b;
    }
  }

  /** One item's steps decode to what it returns, and leave its signature in force. */
  lemma OneItemReturns<O>(item: Item, rest: seq<Step<O>>, names: map<string, string>, signature: string,
                          codec: Codec<O>)
    ensures DecodedItems(StepsOf(item, names, codec) + rest, signature, codec)
         == Returned(item, codec)
             + DecodedItems(rest, if item.FunctionCall? then Signed(item.signature) else signature, codec)
  {
    var steps := StepsOf(item, names, codec);
    ItemsConcat(steps, rest, signature, codec);
    if item.Message? && steps != [] && steps[0].ModelOutput? {
      OneFragment(item.text);
    }
  }

  lemma OneFragment(text: string)
    ensures TextOf([Fragment("text", text)]) == text
  {
    var content := [Fragment("text", text)];
    assert content[..0] == [];
    assert TextOf(content) == TextOf(content[..0]) + text;
  }

  lemma {:induction false} DecodingReturns<O>(items: seq<Item>, names: map<string, string>, signature: string,
                                              codec: Codec<O>)
    ensures DecodedItems(Steps(items, names, codec), signature, codec) == AllReturned(items, codec)
  {
    if items != [] {
      OneItemReturns(items[0], Steps(items[1..], names, codec), names, signature, codec);
      DecodingReturns(items[1..], names, if items[0].FunctionCall? then Signed(items[0].signature)
          else signature, codec);
    }
  }

  lemma ReturnedIsSameExactlyWhen<O(!new)>(item: Item, codec: Codec<O>)
    requires IsCodec(codec)
    ensures Replayable(item) <==> |Returned(item, codec)| == 1 && SameItem(Returned(item, codec)[0], item, codec)
  {
    match item {
      case Message(role, text) =>
        assert ROLE_ASSISTANT != ROLE_USER && ROLE_ASSISTANT != ROLE_SYSTEM;
      case FunctionCall(_, _, arguments, signature) =>
        var o := ToolArguments(codec, arguments);
        assert codec.parse(codec.render(o)) == Some(o) && !AllSpace(codec.render(o));
      case _ =>
    }
  }

  /**
   Decoding the steps of a list of items gives the same items back exactly when every one of them is
   an assistant's non-empty text or a signed call; each call then keeps its own id, name and signature.
   */
  lemma {:induction false} RoundTripExactlyWhen<O(!new)>(items: seq<Item>, codec: Codec<O>)
    requires IsCodec(codec)
    ensures SameItems(DecodedItems(Steps(items, CallNames(items), codec), "", codec), items, codec)
       <==> forall i :: 0 <= i < |items| ==> Replayable(items[i])
  {
    DecodingReturns(items, CallNames(items), "", codec);
    AllReturnedIsSameExactlyWhen(items, codec);
  }

  lemma {:induction false} AllReturnedIsSameExactlyWhen<O(!new)>(items: seq<Item>, codec: Codec<O>)
    requires IsCodec(codec)
    ensures SameItems(AllReturned(items, codec), items, codec)
       <==> forall i :: 0 <= i < |items| ==> Replayable(items[i])
  {
    if items != [] {
      var first, rest := Returned(items[0], codec), AllReturned(items[1..], codec);
      ReturnedIsSameExactlyWhen(items[0], codec);
      AllReturnedIsSameExactlyWhen(items[1..], codec);
      var all := AllReturned(items, codec);
      if |first| == 1 {
        assert all[0] == first[0] && all[1..] == rest;
        assert SameItems(all, items, codec)
          <==> SameItem(first[0], items[0], codec) && SameItems(rest, items[1..], codec) by {
          if SameItem(first[0], items[0], codec) && SameItems(rest, items[1..], codec) {
            forall i | 0 <= i < |all| ensures SameItem(all[i], items[i], codec) {
              assert i > 0 ==> all[i] == rest[i - 1] && items[i] == items[1..][i - 1];
            }
          }
          if SameItems(all, items, codec) {
            forall i | 0 <= i < |rest| ensures SameItem(rest[i], items[1..][i], codec) {
              assert rest[i] == all[i + 1];
            }
          }
        }
      }
      assert (forall i :: 0 <= i < |items| ==> Replayable(items[i]))
          <==> Replayable(items[0]) && forall i :: 0 <= i < |items[1..]| ==> Replayable(items[1..][i]) by {
        if Replayable(items[0]) && forall i :: 0 <= i < |items[1..]| ==> Replayable(items[1..][i]) {
          forall i | 0 <= i < |items| ensures Replayable(items[i]) {
            assert i > 0 ==> items[i] == items[1..][i - 1];
          }
        }
      }
    }
  }

  /** A finished interaction built from a non-empty list of such items is answered with the same items. */
  lemma NonEmptyRoundTrip<O(!new)>(items: seq<Item>, codec: Codec<O>)
    requires IsCodec(codec) && items != [] && forall i :: 0 <= i < |items| ==> Replayable(items[i])
    ensures DecodedItems(Steps(items, CallNames(items), codec), "", codec) != []
    ensures SameItems(DecodedItems(Steps(items, CallNames(items), codec), "", codec), items, codec)
  {
    RoundTripExactlyWhen(items, codec);
  }

  // ----- What the steps say, the user's and the results too -----

  /** A reader that takes every step at its word. */
  function Reread<O>(steps: seq<Step<O>>, signature: string, codec: Codec<O>): seq<Item> {
    if steps == [] then []
    else
      match steps[0]
      case UserInput(text) => [Message("user", text)] + Reread(steps[1..], signature, codec)
      case ModelOutput(content) => [Message("assistant", TextOf(content))] + Reread(steps[1..], signature, codec)
      case Thought(signed, _) => Reread(steps[1..], signed, codec)
      case CallStep(id, name, arguments) =>
        [FunctionCall(id, name, match arguments case Some(o) => codec.render(o) case None => "{}", signature)]
        + Reread(steps[1..], signature, codec)
      case ResultStep(callId, _, result) => [FunctionCallOutput(callId, result)] + Reread(steps[1..], signature, codec)
      case OtherStep => Reread(steps[1..], signature, codec)
  }

  /** What is read is exactly the item, its role normalised, an unsigned call with the placeholder Gemini accepts. */
  predicate ReadsAs<O(==)>(read: Item, item: Item, codec: Codec<O>) {
    match item
    case Message(role, text) => read == Message(if IsUserRole(role) then "user" else "assistant", text)
    case FunctionCall(callId, name, arguments, signature) =>
      && read.FunctionCall? && read.callId == callId && read.name == name
      && read.signature == (if signature != "" then signature else "skip_thought_signature_validator")
      && ToolArguments(codec, read.arguments) == ToolArguments(codec, arguments)
    case FunctionCallOutput(callId, output) => read == FunctionCallOutput(callId, output)
    case Reasoning(_) => false
  }

  ghost predicate ReadAll<O>(read: seq<Item>, items: seq<Item>, codec: Codec<O>) {
    |read| == |items| && forall k :: 0 <= k < |items| ==> ReadsAs(read[k], items[k], codec)
  }

  /** Arguments are sent as the object they spell; blank ones as the empty object, others wrapped whole. */
  lemma ArgumentsAreKept<O>(codec: Codec<O>, arguments: string)
    ensures AllSpace(arguments) ==> ToolArguments(codec, arguments) == codec.empty
    ensures !AllSpace(arguments) ==>
              forall o :: codec.parse(arguments) == Some(o) ==> ToolArguments(codec, arguments) == o
    ensures !AllSpace(arguments) && codec.parse(arguments).None? ==>
              ToolArguments(codec, arguments) == codec.wrap(arguments)
  {
  }

  lemma OneItemIsRead<O(!new)>(item: Item, rest: seq<Step<O>>, names: map<string, string>, signature: string,
                               codec: Codec<O>)
    returns (read: seq<Item>, next: string)
    requires IsCodec(codec)
    ensures Reread(StepsOf(item, names, codec) + rest, signature, codec) == read + Reread(rest, next, codec)
    ensures ReadAll(read, if IsSent(item) then [item] else [], codec)
  {
    var steps := StepsOf(item, names, codec);
    next := signature;
    match item {
      case Message(role, text) =>
        if role == ROLE_SYSTEM {
          read := [];
          assert steps + rest == rest;
        } else {
          read := [Message(if IsUserRole(role) then "user" else "assistant", text)];
          assert (steps + rest)[1..] == rest;
          OneFragment(text);
        }
      case FunctionCall(callId, name, arguments, signed) =>
        var o := ToolArguments(codec, arguments);
        next := Signed(signed);
        read := [FunctionCall(callId, name, codec.render(o), next)];
        assert (steps + rest)[1..][1..] == rest;
        assert codec.parse(codec.render(o)) == Some(o) && !AllSpace(codec.render(o));
      case FunctionCallOutput(callId, output) =>
        read := [FunctionCallOutput(callId, output)];
        assert (steps + rest)[1..] == rest;
      case Reasoning(_) =>
        read := [];
        assert steps + rest == rest;
    }
  }

  lemma {:induction false} SentFromTheFront(items: seq<Item>)
    requires items != []
    ensures Sent(items) == (if IsSent(items[0]) then [items[0]] else []) + Sent(items[1..])
  {
    var last := |items| - 1;
    if last == 0 {
      assert items[..0] == [] && items[1..] == [];
    } else {
      SentFromTheFront(items[..last]);
      assert items[..last][1..] == items[1..][..last - 1];
    }
  }

  lemma ReadAllConcat<O>(a: seq<Item>, b: seq<Item>, c: seq<Item>, d: seq<Item>, codec: Codec<O>)
    requires ReadAll(a, b, codec) && ReadAll(c, d, codec)
    ensures ReadAll(a + c, b + d, codec)
  {
    hide ReadsAs;
  }

  /** The steps say every item that is sent, in order: text, call with its signature, or result. */
  lemma {:induction false} StepsSayTheItems<O(!new)>(items: seq<Item>, names: map<string, string>, signature: string,
                                                     codec: Codec<O>)
    requires IsCodec(codec)
    ensures ReadAll(Reread(Steps(items, names, codec), signature, codec), Sent(items), codec)
  {
    if items != [] {
      hide IsCodec, ReadAll, Reread;
      var read, next := OneItemIsRead(items[0], Steps(items[1..], names, codec), names, signature, codec);
      StepsSayTheItems(items[1..], names, next, codec);
      SentFromTheFront(items);
      var first := if IsSent(items[0]) then [items[0]] else [];
      ReadAllConcat(read, first, Reread(Steps(items[1..], names, codec), next, codec), Sent(items[1..]), codec);
    }
  }

  /** A call has its own thought right before it, and nothing else has one; a result has its call's name. */
  ghost predicate StepFits<O>(steps: seq<Step<O>>, k: nat, items: seq<Item>)
    requires k < |steps|
  {
    match steps[k]
    case Thought(_, summary) => summary == [] && k + 1 < |steps| && steps[k + 1].CallStep?
    case CallStep(_, _, arguments) => arguments.Some? && k > 0 && steps[k - 1].Thought?
    case ResultStep(callId, name, _) => NameFits(items, callId, name)
    case ModelOutput(content) => |content| == 1 && content[0].kind == "text"
    case UserInput(_) => true
    case OtherStep => false
  }

  ghost predicate WellFormed<O>(steps: seq<Step<O>>, items: seq<Item>) {
    forall k :: 0 <= k < |steps| ==> StepFits(steps, k, items)
  }

  lemma OneItemFits<O>(item: Item, items: seq<Item>, codec: Codec<O>)
    ensures WellFormed(StepsOf(item, CallNames(items), codec), items)
  {
    hide NameFits, CallNames, ResultName, ToolArguments;
    if item.FunctionCallOutput? {
      ResultNameFits(items, item.callId);
    }
  }

  lemma FitsBeside<O>(a: seq<Step<O>>, b: seq<Step<O>>, items: seq<Item>)
    requires WellFormed(a, items) && WellFormed(b, items)
    ensures WellFormed(a + b, items)
  {
    hide NameFits;
    forall k | 0 <= k < |a + b| ensures StepFits(a + b, k, items) {
      assert if k < |a| then StepFits(a, k, items) else StepFits(b, k - |a|, items);
    }
  }

  lemma {:induction false} StepsAreWellFormed<O>(some: seq<Item>, items: seq<Item>, codec: Codec<O>)
    ensures WellFormed(Steps(some, CallNames(items), codec), items)
  {
    if some != [] {
      hide StepFits, CallNames;
      StepsAreWellFormed(some[1..], items, codec);
      OneItemFits(some[0], items, codec);
      FitsBeside(StepsOf(some[0], CallNames(items), codec), Steps(some[1..], CallNames(items), codec), items);
    }
  }

  // ----- What is decoded, step by step -----

  /** The last thought among the first k steps. */
  ghost predicate LastThoughtAt<O>(steps: seq<Step<O>>, k: nat, i: nat) {
    i < k <= |steps| && steps[i].Thought? && forall j :: i < j < k ==> !steps[j].Thought?
  }

  /** The signature a call at k takes: that of the last thought before it, or none. */
  ghost predicate InForce<O>(steps: seq<Step<O>>, k: nat, signature: string)
    requires k <= |steps|
  {
    && (forall i: nat :: LastThoughtAt(steps, k, i) ==> signature == steps[i].signature)
    && ((forall i: nat :: !LastThoughtAt(steps, k, i)) ==> signature == "")
  }

  /** The signature the decoder holds after k steps. */
  function SignatureAt<O>(steps: seq<Step<O>>, k: nat): string
    requires k <= |steps|
  {
    if k == 0 then "" else SignatureAfter(steps[k - 1], SignatureAt(steps, k - 1))
  }

  lemma {:induction false} TheLastThoughtIsInForce<O>(steps: seq<Step<O>>, k: nat)
    requires k <= |steps|
    ensures InForce(steps, k, SignatureAt(steps, k))
  {
    if k > 0 {
      var before: nat := k - 1;
      TheLastThoughtIsInForce(steps, before);
      if steps[k - 1].Thought? {
        assert LastThoughtAt(steps, k, k - 1);
        forall i: nat | LastThoughtAt(steps, k, i) ensures i == k - 1 {
        }
      } else {
        forall i: nat ensures LastThoughtAt(steps, k, i) <==> LastThoughtAt(steps, before, i) {
          if LastThoughtAt(steps, k, i) {
            assert i != k - 1;
          }
        }
        if forall i: nat :: !LastThoughtAt(steps, k, i) {
          forall i: nat ensures !LastThoughtAt(steps, before, i) {
            assert !LastThoughtAt(steps, k, i);
          }
        }
      }
    }
  }

  lemma {:induction false} DecodedSnoc<O>(steps: seq<Step<O>>, step: Step<O>, signature: string, codec: Codec<O>)
    ensures DecodedItems(steps + [step], signature, codec)
         == DecodedItems(steps, signature, codec) + ItemsOf(step, Last(steps, signature), codec)
  {
    if steps == [] {
      assert [] + [step] == [step] && [step][1..] == [];
    } else {
      DecodedSnoc(steps[1..], step, SignatureAfter(steps[0], signature), codec);
      assert (steps + [step])[1..] == steps[1..] + [step];
    }
  }

  /** The signature after all steps. */
  function Last<O>(steps: seq<Step<O>>, signature: string): string {
    if steps == [] then signature else Last(steps[1..], SignatureAfter(steps[0], signature))
  }

  lemma {:induction false} LastSnoc<O>(steps: seq<Step<O>>, step: Step<O>, signature: string)
    ensures Last(steps + [step], signature) == SignatureAfter(step, Last(steps, signature))
  {
    if steps == [] {
      assert [] + [step] == [step] && [step][1..] == [];
    } else {
      LastSnoc(steps[1..], step, SignatureAfter(steps[0], signature));
      assert (steps + [step])[1..] == steps[1..] + [step];
    }
  }

  lemma {:induction false} LastIsAt<O>(steps: seq<Step<O>>, k: nat)
    requires k <= |steps|
    ensures Last(steps[..k], "") == SignatureAt(steps, k)
  {
    if k > 0 {
      LastIsAt(steps, k - 1);
      LastSnoc(steps[..k - 1], steps[k - 1], "");
      assert steps[..k - 1] + [steps[k - 1]] == steps[..k];
    }
  }

  lemma DecodedPrefix<O>(steps: seq<Step<O>>, k: nat, signature: string, codec: Codec<O>)
    requires 0 < k <= |steps| && signature == ""
    ensures DecodedItems(steps[..k], "", codec)
         == DecodedItems(steps[..k - 1], "", codec) + ItemsOf(steps[k - 1], SignatureAt(steps, k - 1), codec)
  {
    hide *;
    LastIsAt(steps, k - 1);
    DecodedSnoc(steps[..k - 1], steps[k - 1], "", codec);
    assert steps[..k - 1] + [steps[k - 1]] == steps[..k];
  }

  /** One step more makes at most one item more, and exactly this one. */
  lemma EachStepDecodes<O>(steps: seq<Step<O>>, k: nat, signature: string, codec: Codec<O>)
    requires k < |steps| && InForce(steps, k, signature)
    ensures DecodedItems(steps[..k + 1], "", codec)
         == DecodedItems(steps[..k], "", codec)
            + match steps[k]
              case Thought(_, summary) => if Joined(summary) == "" then [] else [Reasoning(Joined(summary))]
              case ModelOutput(content) => if TextOf(content) == "" then [] else [Message("assistant", TextOf(content))]
              case CallStep(id, name, Some(o)) => [FunctionCall(id, name, codec.render(o), signature)]
              case CallStep(id, name, None) => [FunctionCall(id, name, "{}", signature)]
              case UserInput(_) => []
              case ResultStep(_, _, _) => []
              case OtherStep => []
  {
    TheLastThoughtIsInForce(steps, k);
    OneInForce(steps, k, signature, SignatureAt(steps, k));
    DecodedPrefix(steps, k + 1, "", codec);
  }

  lemma OneInForce<O>(steps: seq<Step<O>>, k: nat, a: string, b: string)
    requires k <= |steps| && InForce(steps, k, a) && InForce(steps, k, b)
    ensures a == b
  {
    if i: nat :| LastThoughtAt(steps, k, i) {
    }
  }

  /** Only the text fragments of an output count, and all the fragments of a summary. */
  lemma FragmentsAdd(content: seq<Fragment>, f: Fragment, summary: seq<string>, text: string)
    ensures TextOf([]) == "" && TextOf(content + [f]) == TextOf(content) + (if f.kind == "text" then f.text else "")
    ensures Joined([]) == "" && Joined(summary + [text]) == Joined(summary) + text
  {
    assert (content + [f])[..|content|] == content && (summary + [text])[..|summary|] == summary;
  }
}
