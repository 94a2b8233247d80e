/** The canonical conversation items every provider's wire format is built from (llmprovider/item.go). */
module Items {

  const ROLE_SYSTEM := "system"
  const ROLE_USER := "user"
  const ROLE_ASSISTANT := "assistant"

  /** The placeholder Gemini accepts for a replayed call it did not issue. */
  const SKIP_SIGNATURE := "skip_thought_signature_validator"

  datatype Item =
    | Message(role: string, text: string)
    | FunctionCall(callId: string, name: string, arguments: string, signature: string)
    | FunctionCallOutput(callId: string, output: string)
    | Reasoning(text: string)

  /** System messages go elsewhere, and reasoning is not sent as an item. */
  predicate IsSent(item: Item) {
    match item
    case Message(role, _) => role != "system"
    case FunctionCall(_, _, _, _) => true
    case FunctionCallOutput(_, _) => true
    case Reasoning(_) => false
  }

  /** The items of a conversation that are sent, in order. */
  function Sent(items: seq<Item>): (sent: seq<Item>)
    ensures |sent| <= |items| && forall k :: 0 <= k < |sent| ==> IsSent(sent[k])
  {
    if items == [] then []
    else Sent(items[..|items| - 1]) + (if IsSent(items[|items| - 1]) then [items[|items| - 1]] else [])
  }

  lemma SentStep(items: seq<Item>, item: Item)
    ensures Sent(items + [item]) == Sent(items) + (if IsSent(item) then [item] else [])
  {
    assert (items + [item])[..|items|] == items;
  }

  /** A text of the user's; any role but the assistant's own counts as such only when it is "user" or absent. */
  predicate IsUserRole(role: string) {
    role == "" || role == "user"
  }

  /** The item is the assistant's: its text, or a call. */
  predicate IsAssistants(item: Item) {
    item.FunctionCall? || (item.Message? && IsSent(item) && !IsUserRole(item.role))
  }

  /**
   The item opens a turn of its own: a text always does, a call unless the last item sent is the
   assistant's too, a result unless the last item sent is another result.
   */
  predicate OpensTurn(before: seq<Item>, item: Item) {
    IsSent(item) &&
    match item
    case FunctionCall(_, _, _, _) => !(before != [] && IsAssistants(before[|before| - 1]))
    case FunctionCallOutput(_, _) => !(before != [] && before[|before| - 1].FunctionCallOutput?)
    case _ => true
  }
}
