/**
 The Responses event-stream reader (llmprovider/http_helpers.go): "data:" lines are gathered into
 payloads, each payload is one event, and the answer is what was completed before the stream's
 response.completed event (section 9.2.6 of the WHATWG HTML Standard for the line format).

 A byte is modelled as a char; decoding a payload as JSON is a parameter.
 */
module ResponsesStream {
  import opened Options
  import opened Text
  import opened Items

  const STREAM_LIMIT := 16 * 1024 * 1024
  const DONE := "[DONE]"
  const DATA := "data:"

  // ----- Events -----

  datatype Part = Part(kind: string, text: string)

  datatype OutputEntry =
    | MessageEntry(content: seq<Part>)
    | CallEntry(callId: string, name: string, arguments: string)
    | ReasoningEntry(summary: seq<Part>)
    | OtherEntry

  datatype Event =
    | Created(id: string)
    | ItemDone(entry: OutputEntry)
    | ResponseFailed(code: string, errType: string, message: string)
    | ResponseIncomplete(reason: string)
    | Completed(id: string)
    | OtherEvent

  type Decoder = string -> Option<Event>

  function TextOf(parts: seq<Part>, kinds: set<string>): string {
    if parts == [] then "" else (if parts[0].kind in kinds then parts[0].text else "") + TextOf(parts[1..], kinds)
  }

  /** appendOutput: the item one entry carries, if any. */
  function ItemsOf(entry: OutputEntry): (items: seq<Item>)
    ensures |items| <= 1
  {
    match entry
    case MessageEntry(content) =>
      var text := TextOf(content, {"output_text", "text"});
      if text == "" then [] else [Message(ROLE_ASSISTANT, text)]
    case CallEntry(callId, name, arguments) => [FunctionCall(callId, name, arguments, "")]
    case ReasoningEntry(summary) => [Reasoning(TextOf(summary, {"summary_text", "text"}))]
    case OtherEntry => []
  }

  datatype Outcome =
    | Success(id: string, output: seq<Item>)
    | FailedEvent(event: Event)
    | Undecodable(payload: string)
    | TooLong
    | ReadFailed
    | EndedEarly

  // ----- The reader -----

  function DropCR(line: string): string {
    if line != "" && line[|line| - 1] == '\r' then line[..|line| - 1] else line
  }

  /** bufio.ScanLines: the lines of s without their ends; no empty line after a final newline. */
  function ScanLines(s: string): seq<string> {
    if s == "" then []
    else
      var i := FirstNewline(s);
      if i == |s| then [DropCR(s)] else [DropCR(s[..i])] + ScanLines(s[i + 1..])
  }

  function Extend(data: string, value: string): string {
    if data == "" then value else data + "\n" + value
  }

  /** What a data line adds: the text after "data:" less one leading space. */
  function Value(line: string): string
    requires DATA <= line
  {
    var v := line[|DATA|..];
    if v != "" && v[0] == ' ' then v[1..] else v
  }

  /** The payloads dispatched: one at every empty line, and one at the end of the stream. */
  function Payloads(lines: seq<string>, data: string): (p: seq<string>)
    ensures |p| >= 1
  {
    if lines == [] then [data]
    else if lines[0] == "" then [data] + Payloads(lines[1..], "")
    else if DATA <= lines[0] then Payloads(lines[1..], Extend(data, Value(lines[0])))
    else Payloads(lines[1..], data)
  }

  /** Payloads that carry no event. */
  predicate Silent(payload: string) {
    payload == "" || payload == DONE
  }

  /** The answer, given what earlier payloads left. */
  function Run(decode: Decoder, payloads: seq<string>, id: string, output: seq<Item>): Outcome {
    if payloads == [] then EndedEarly
    else if Silent(payloads[0]) then Run(decode, payloads[1..], id, output)
    else
      match decode(payloads[0])
      case None => Undecodable(payloads[0])
      case Some(event) =>
        match event
        case Created(newId) => Run(decode, payloads[1..], newId, output)
        case ItemDone(entry) => Run(decode, payloads[1..], id, output + ItemsOf(entry))
        case ResponseFailed(_, _, _) => FailedEvent(event)
        case ResponseIncomplete(_) => FailedEvent(event)
        case Completed(newId) => Success(if newId != "" then newId else id, output)
        case OtherEvent => Run(decode, payloads[1..], id, output)
  }

  /** The part of the body the reader sees, and whether its scanner gives up on it. */
  function Limited(body: string): string {
    if |body| > STREAM_LIMIT then body[..STREAM_LIMIT] else body
  }

  predicate OverlongLine(body: string) {
    |body| == STREAM_LIMIT && '\n' !in body
  }

  /**
   The reader's answer to its payloads. A read that fails leaves the last payload, which no empty line has
   ended, undispatched.
   */
  function Finish(decode: Decoder, payloads: seq<string>, id: string, output: seq<Item>, broken: bool): Outcome
    requires payloads != []
  {
    if !broken then Run(decode, payloads, id, output)
    else
      var outcome := Run(decode, payloads[..|payloads| - 1], id, output);
      if outcome.EndedEarly? then ReadFailed else outcome
  }

  /** A failing read is met only before the stream limit. */
  predicate Broken(body: string, readFails: bool) {
    readFails && |body| < STREAM_LIMIT
  }

  /** The answer the stream's bytes stand for; `readFails` says that an error and not the end comes after them. */
  function Answer(decode: Decoder, body: string, readFails: bool): Outcome {
    if OverlongLine(Limited(body)) then TooLong
    else Finish(decode, Payloads(ScanLines(Limited(body)), ""), "", [], Broken(body, readFails))
  }

  /** readResponsesStream. */
  method ReadResponsesStream(decode: Decoder, body: string, readFails: bool) returns (outcome: Outcome)
    ensures outcome == Answer(decode, body, readFails)
  {
    if OverlongLine(Limited(body)) {
      return TooLong;
    }
    var lines := ScanLines(Limited(body));
    var id, output, data := "", [], "";
    var i := 0;
    while i < |lines|
      invariant 0 <= i <= |lines|
      invariant Answer(decode, body, readFails)
                == Finish(decode, Payloads(lines[i..], data), id, output, Broken(body, readFails))
    {
      hide Finish, Answer;
      var line := lines[i];
      assert lines[i..][0] == line && lines[i..][1..] == lines[i + 1..];
      if line == "" {
        var done, newId, newOutput := Dispatch(decode, data, id, output);
        DispatchIsFinish(decode, data, Payloads(lines[i + 1..], ""), id, output, Broken(body, readFails));
        if done.Some? {
          return done.value;
        }
        id, output, data := newId, newOutput, "";
      } else if DATA <= line {
        data := Extend(data, Value(line));
      }
      i := i + 1;
    }
    assert lines[i..] == [];
    if Broken(body, readFails) {
      return ReadFailed;
    }
    var done, _, _ := Dispatch(decode, data, id, output);
    DispatchIsRun(decode, data, [], id, output);
    assert [data] + [] == [data];
    outcome := if done.Some? then done.value else EndedEarly;
  }

  /** The dispatch closure: the stream's outcome if the payload ends it, else the new id and output. */
  method Dispatch(decode: Decoder, payload: string, id: string, output: seq<Item>)
    returns (done: Option<Outcome>, newId: string, newOutput: seq<Item>)
    ensures (done, newId, newOutput) == Dispatched(decode, payload, id, output)
  {
    done, newId, newOutput := None, id, output;
    if payload == "" || payload == DONE {
      return;
    }
    match decode(payload) {
      case None => done := Some(Undecodable(payload));
      case Some(event) =>
        match event {
          case Created(created) => newId := created;
          case ItemDone(entry) => newOutput := output + ItemsOf(entry);
          case ResponseFailed(_, _, _) => done := Some(FailedEvent(event));
          case ResponseIncomplete(_) => done := Some(FailedEvent(event));
          case Completed(completed) =>
            if completed != "" {
              newId := completed;
            }
            done := Some(Success(newId, output));
          case OtherEvent =>
        }
    }
  }

  function Dispatched(decode: Decoder, payload: string, id: string, output: seq<Item>): (Option<Outcome>, string,
                      seq<Item>) {
    if Silent(payload) then (None, id, output)
    else
      match decode(payload)
      case None => (Some(Undecodable(payload)), id, output)
      case Some(Created(created)) => (None, created, output)
      case Some(ItemDone(entry)) => (None, id, output + ItemsOf(entry))
      case Some(Completed(completed)) =>
        var last := if completed != "" then completed else id;
        (Some(Success(last, output)), last, output)
      case Some(OtherEvent) => (None, id, output)
      case Some(event) => (Some(FailedEvent(event)), id, output)
  }

  lemma DispatchIsRun(decode: Decoder, payload: string, rest: seq<string>, id: string, output: seq<Item>)
    ensures var (done, newId, newOutput) := Dispatched(decode, payload, id, output);
            Run(decode, [payload] + rest, id, output)
                == (if done.Some? then done.value else Run(decode, rest, newId, newOutput))
  {
    assert ([payload] + rest)[1..] == rest;
  }

  lemma DispatchIsFinish(decode: Decoder, payload: string, rest: seq<string>, id: string, output: seq<Item>,
                         broken: bool)
    requires rest != []
    ensures var (done, newId, newOutput) := Dispatched(decode, payload, id, output);
            Finish(decode, [payload] + rest, id, output, broken)
            == (if done.Some? then done.value else Finish(decode, rest, newId, newOutput, broken))
  {
    DispatchIsRun(decode, payload, rest, id, output);
    DispatchIsRun(decode, payload, rest[..|rest| - 1], id, output);
    assert ([payload] + rest)[..|rest|] == [payload] + rest[..|rest| - 1];
  }

  // ----- When the read succeeds -----

  ghost predicate CompletesWith(decode: Decoder, payload: string) {
    !Silent(payload) && decode(payload).Some? && decode(payload).value.Completed?
  }

  /** The payload neither fails nor ends the stream. */
  ghost predicate Passes(decode: Decoder, payload: string) {
    Silent(payload)
        || (decode(payload).Some? && var e := decode(payload).value; e.Created? || e.ItemDone? || e.OtherEvent?)
  }

  /** The first payload that does not pass is the k-th, and it is the completion. */
  ghost predicate CompletesAt(decode: Decoder, payloads: seq<string>, k: nat) {
    k < |payloads| && CompletesWith(decode, payloads[k]) && forall j :: 0 <= j < k ==> Passes(decode, payloads[j])
  }

  /** The items one payload completes. */
  function ItemsOfPayload(decode: Decoder, p: string): seq<Item> {
    if !Silent(p) && decode(p).Some? && decode(p).value.ItemDone? then ItemsOf(decode(p).value.entry) else []
  }

  /** The items the first k payloads complete, in order. */
  ghost function ItemsBefore(decode: Decoder, payloads: seq<string>, k: nat): seq<Item>
    requires k <= |payloads|
  {
    if k == 0 then [] else ItemsBefore(decode, payloads, k - 1) + ItemsOfPayload(decode, payloads[k - 1])
  }

  lemma {:induction false} ItemsBeforeShift(decode: Decoder, payloads: seq<string>, k: nat)
    requires 1 <= k <= |payloads|
    ensures ItemsBefore(decode, payloads, k)
              == ItemsBefore(decode, payloads, 1) + ItemsBefore(decode, payloads[1..], k - 1)
  {
    hide ItemsOfPayload;
    if k > 1 {
      hide ItemsBefore;
      ItemsBeforeShift(decode, payloads, k - 1);
      var rest := payloads[1..];
      assert rest[k - 2] == payloads[k - 1];
      ItemsStep(decode, payloads, k);
      ItemsStep(decode, rest, k - 1);
      Associative(ItemsBefore(decode, payloads, 1), ItemsBefore(decode, rest, k - 2),
                  ItemsOfPayload(decode, payloads[k - 1]));
    }
  }

  lemma ItemsStep(decode: Decoder, payloads: seq<string>, k: nat)
    requires 1 <= k <= |payloads|
    ensures ItemsBefore(decode, payloads, k)
              == ItemsBefore(decode, payloads, k - 1) + ItemsOfPayload(decode, payloads[k - 1])
  {
  }

  lemma Associative(a: seq<Item>, b: seq<Item>, c: seq<Item>)
    ensures (a + b) + c == a + (b + c)
  {
  }

  /** One dispatch ends the read exactly when its payload does not pass, with success exactly when it completes. */
  lemma DispatchedMeans(decode: Decoder, payload: string, id: string, output: seq<Item>)
    ensures var (done, newId, newOutput) := Dispatched(decode, payload, id, output); (
              && (done.None? <==> Passes(decode, payload))
              && (done.Some? && done.value.Success? <==> CompletesWith(decode, payload))
              && (done.Some? && done.value.Success? ==> done.value.output == output)
              && (done.None? ==> newOutput == output + ItemsBefore(decode, [payload], 1)))
  {
  }

  lemma FirstItems(decode: Decoder, payloads: seq<string>)
    requires payloads != []
    ensures ItemsBefore(decode, payloads, 1) == ItemsBefore(decode, [payloads[0]], 1)
  {
  }

  lemma StopsAtFirst(decode: Decoder, payloads: seq<string>)
    requires payloads != [] && !Passes(decode, payloads[0])
    ensures forall k :: CompletesAt(decode, payloads, k) <==> k == 0 && CompletesWith(decode, payloads[0])
    ensures ItemsBefore(decode, payloads, 0) == []
  {
    hide Passes, CompletesWith;
    forall k: nat ensures CompletesAt(decode, payloads, k) <==> k == 0 && CompletesWith(decode, payloads[0]) {
      if k > 0 && CompletesAt(decode, payloads, k) {
        NotBefore(decode, payloads, k);
      }
    }
  }

  /** Everything before a completion passes. */
  lemma NotBefore(decode: Decoder, payloads: seq<string>, k: nat)
    requires k > 0 && CompletesAt(decode, payloads, k)
    ensures Passes(decode, payloads[0])
  {
  }

  lemma NotFirst(decode: Decoder, payloads: seq<string>, k: nat)
    requires payloads != [] && Passes(decode, payloads[0]) && CompletesAt(decode, payloads, k)
    ensures k > 0
  {
  }

  lemma CompletesShift(decode: Decoder, payloads: seq<string>, k: nat)
    requires payloads != [] && Passes(decode, payloads[0])
    ensures CompletesAt(decode, payloads[1..], k) <==> CompletesAt(decode, payloads, k + 1)
  {
    hide Passes, CompletesWith;
    var rest := payloads[1..];
    assert forall j :: 0 <= j < |rest| ==> rest[j] == payloads[j + 1];
    if CompletesAt(decode, rest, k) {
      assert forall j :: 0 <= j < k + 1 ==> j == 0 || payloads[j] == rest[j - 1];
    }
  }

  /** The outcome is success exactly when some payload completes the stream, with exactly the items before it. */
  ghost predicate SucceedsWith(outcome: Outcome, decode: Decoder, payloads: seq<string>, output: seq<Item>) {
    && (outcome.Success? <==> exists k :: CompletesAt(decode, payloads, k))
    && (forall k :: CompletesAt(decode, payloads, k) ==>
         outcome.Success? && outcome.output == output + ItemsBefore(decode, payloads, k))
  }

  lemma SucceedsAtFirst(outcome: Outcome, decode: Decoder, payloads: seq<string>, output: seq<Item>)
    requires payloads != [] && !Passes(decode, payloads[0])
    requires outcome.Success? <==> CompletesWith(decode, payloads[0])
    requires outcome.Success? ==> outcome.output == output
    ensures SucceedsWith(outcome, decode, payloads, output)
  {
    hide Passes, CompletesWith;
    StopsAtFirst(decode, payloads);
    assert CompletesWith(decode, payloads[0]) ==> CompletesAt(decode, payloads, 0);
    assert output + [] == output;
  }

  lemma SucceedsAfterFirst(outcome: Outcome, decode: Decoder, payloads: seq<string>, output: seq<Item>,
                           newOutput: seq<Item>)
    requires payloads != [] && Passes(decode, payloads[0]) && newOutput == output + ItemsBefore(decode, payloads, 1)
    requires SucceedsWith(outcome, decode, payloads[1..], newOutput)
    ensures SucceedsWith(outcome, decode, payloads, output)
  {
    hide Passes, CompletesWith, ItemsBefore;
    var rest := payloads[1..];
    forall k: nat ensures CompletesAt(decode, rest, k) <==> CompletesAt(decode, payloads, k + 1) {
      CompletesShift(decode, payloads, k);
    }
    forall k: nat | CompletesAt(decode, payloads, k)
      ensures k > 0 && CompletesAt(decode, rest, k - 1)
      ensures output + ItemsBefore(decode, payloads, k) == newOutput + ItemsBefore(decode, rest, k - 1)
    {
      NotFirst(decode, payloads, k);
      CompletesShift(decode, payloads, k - 1);
      ItemsBeforeShift(decode, payloads, k);
    }
  }

  /**
   The read succeeds exactly when response.completed precedes every failed, incomplete or undecodable
   event, and then returns exactly the items completed before it.
   */
  lemma {:induction false} SucceedsExactlyWhenCompleted(decode: Decoder, payloads: seq<string>, id: string,
                                                        output: seq<Item>)
    ensures Run(decode, payloads, id, output).Success? <==> exists k :: CompletesAt(decode, payloads, k)
    ensures forall k :: CompletesAt(decode, payloads, k) ==>
              Run(decode, payloads, id, output).Success? &&
              Run(decode, payloads, id, output).output == output + ItemsBefore(decode, payloads, k)
  {
    if payloads != [] {
      var (done, newId, newOutput) := Dispatched(decode, payloads[0], id, output);
      var rest := payloads[1..];
      assert payloads == [payloads[0]] + rest;
      DispatchIsRun(decode, payloads[0], rest, id, output);
      DispatchedMeans(decode, payloads[0], id, output);
      FirstItems(decode, payloads);
      hide Run, Dispatched, Passes, CompletesWith, CompletesAt, ItemsBefore;
      if done.Some? {
        SucceedsAtFirst(done.value, decode, payloads, output);
      } else {
        SucceedsExactlyWhenCompleted(decode, rest, newId, newOutput);
        SucceedsAfterFirst(Run(decode, rest, newId, newOutput), decode, payloads, output, newOutput);
      }
    }
  }

  // ----- Rendering and reading back -----

  /** One payload as the wire carries it: a data line for each of its lines. */
  function RenderLines(lines: seq<string>): string {
    if lines == [] then "" else DATA + " " + lines[0] + "\n" + RenderLines(lines[1..])
  }

  function Render(payloads: seq<string>): string {
    if payloads == [] then "" else RenderLines(Lines(payloads[0])) + "\n" + Render(payloads[1..])
  }

  /** The payload read back from rendered lines. */
  function Gathered(lines: seq<string>, data: string): string {
    if lines == [] then data else Gathered(lines[1..], Extend(data, lines[0]))
  }

  predicate Plain(line: string) {
    '\n' !in line && '\r' !in line
  }

  lemma ScanOne(line: string, rest: string)
    requires Plain(line)
    ensures ScanLines(line + "\n" + rest) == [line] + ScanLines(rest)
  {
    var s := line + "\n" + rest;
    assert s[..|line|] == line;
    FirstNewlineAt(s, |line|);
    assert s[|line| + 1..] == rest;
  }

  lemma {:induction false} PlainLines(s: string)
    requires '\r' !in s
    ensures forall l :: l in Lines(s) ==> Plain(l)
  {
    var i := FirstNewline(s);
    if i < |s| {
      PlainLines(s[i + 1..]);
      assert Plain(s[..i]);
    }
  }

  /** A rendered data line adds its text to the buffer. */
  lemma OneDataLine(text: string, data: string, tail: string)
    requires Plain(text)
    ensures Payloads(ScanLines(DATA + " " + text + "\n" + tail), data) == Payloads(ScanLines(tail), Extend(data, text))
  {
    var line := DATA + " " + text;
    assert Plain(line) by {
      assert forall c :: c in line ==> c in DATA || c == ' ' || c in text;
    }
    ScanOne(line, tail);
    LineCarries(text);
    hide ScanLines;
    assert Payloads([line] + ScanLines(tail), data) == Payloads(ScanLines(tail), Extend(data, Value(line))) by {
      assert ([line] + ScanLines(tail))[1..] == ScanLines(tail);
    }
  }

  lemma LineCarries(text: string)
    ensures var line := DATA + " " + text; DATA <= line && Value(line) == text
  {
    var line := DATA + " " + text;
    assert line[|DATA|..] == " " + text;
  }

  /** Scanning rendered lines and an empty line gathers the payload and goes on with an empty buffer. */
  lemma {:induction false} RenderedLinesGather(lines: seq<string>, data: string, rest: string)
    requires forall l :: l in lines ==> Plain(l)
    ensures Payloads(ScanLines(RenderLines(lines) + "\n" + rest), data)
         == [Gathered(lines, data)] + Payloads(ScanLines(rest), "")
  {
    if lines == [] {
      ScanOne("", rest);
      assert RenderLines(lines) + "\n" + rest == "" + "\n" + rest;
    } else {
      var tail := RenderLines(lines[1..]) + "\n" + rest;
      assert RenderLines(lines) + "\n" + rest == DATA + " " + lines[0] + "\n" + tail;
      OneDataLine(lines[0], data, tail);
      RenderedLinesGather(lines[1..], Extend(data, lines[0]), rest);
    }
  }

  lemma {:induction false} GatheredOnto(lines: seq<string>, data: string)
    requires data != "" && lines != []
    ensures Gathered(lines, data) == data + "\n" + Join(lines)
  {
    if |lines| > 1 {
      GatheredOnto(lines[1..], Extend(data, lines[0]));
    }
  }

  lemma {:induction false} GatheredIsShorter(lines: seq<string>)
    requires lines != []
    ensures |Gathered(lines, "")| <= |Join(lines)|
  {
    if lines[0] != "" && |lines| > 1 {
      GatheredOnto(lines[1..], lines[0]);
    } else if |lines| > 1 {
      GatheredIsShorter(lines[1..]);
    }
  }

  /**
   A payload survives the line format exactly when it does not begin with a newline: the reader cannot see
   leading empty lines.
   */
  lemma SurvivesExactlyWhen(payload: string)
    ensures Gathered(Lines(payload), "") == payload <==> payload == "" || payload[0] != '\n'
  {
    var lines := Lines(payload);
    JoinLines(payload);
    if |lines| > 1 {
      if lines[0] == "" {
        GatheredIsShorter(lines[1..]);
        assert lines[0] == payload[..FirstNewline(payload)];
      } else {
        GatheredOnto(lines[1..], lines[0]);
      }
    }
  }

  /** A payload that can be rendered: no carriage return, and a first line that is not empty. */
  predicate Renderable(payload: string) {
    payload != "" && payload[0] != '\n' && '\r' !in payload
  }

  lemma {:induction false} RenderedPayloadsAreRead(payloads: seq<string>)
    requires forall p :: p in payloads ==> Renderable(p)
    ensures Payloads(ScanLines(Render(payloads)), "") == payloads + [""]
  {
    if payloads != [] {
      var p := payloads[0];
      assert Renderable(p);
      PlainLines(p);
      RenderedLinesGather(Lines(p), "", Render(payloads[1..]));
      SurvivesExactlyWhen(p);
      RenderedPayloadsAreRead(payloads[1..]);
    }
  }

  lemma {:induction false} RenderEndsInNewline(payloads: seq<string>)
    requires payloads != []
    ensures Render(payloads) != "" && '\n' in Render(payloads)
  {
    var s := Render(payloads);
    var at := |RenderLines(Lines(payloads[0]))|;
    assert s[at] == '\n';
  }

  /** Within the stream limit, reading back rendered events dispatches exactly those payloads, in order. */
  lemma ReadingBackRenderedEvents(decode: Decoder, payloads: seq<string>)
    requires forall p :: p in payloads ==> Renderable(p)
    requires |Render(payloads)| <= STREAM_LIMIT
    ensures Answer(decode, Render(payloads), false) == Run(decode, payloads, "", [])
    ensures Answer(decode, Render(payloads), false).Success? <==> exists k :: CompletesAt(decode, payloads, k)
  {
    RenderedPayloadsAreRead(payloads);
    if payloads != [] {
      RenderEndsInNewline(payloads);
    }
    FinalDispatchIsSilent(decode, payloads, "", []);
    SucceedsExactlyWhenCompleted(decode, payloads, "", []);
  }

  lemma {:induction false} FinalDispatchIsSilent(decode: Decoder, payloads: seq<string>, id: string, output: seq<Item>)
    ensures Run(decode, payloads + [""], id, output) == Run(decode, payloads, id, output)
  {
    if payloads != [] {
      var (done, newId, newOutput) := Dispatched(decode, payloads[0], id, output);
      DispatchIsRun(decode, payloads[0], payloads[1..] + [""], id, output);
      DispatchIsRun(decode, payloads[0], payloads[1..], id, output);
      assert payloads + [""] == [payloads[0]] + (payloads[1..] + [""]);
      assert payloads == [payloads[0]] + payloads[1..];
      FinalDispatchIsSilent(decode, payloads[1..], newId, newOutput);
    }
  }

  // ----- What an output entry says -----

  lemma {:induction false} TextsConcatenate(a: seq<Part>, b: seq<Part>, kinds: set<string>)
    ensures TextOf(a + b, kinds) == TextOf(a, kinds) + TextOf(b, kinds)
  {
    if a == [] {
      assert a + b == b;
    } else {
      assert (a + b)[0] == a[0] && (a + b)[1..] == a[1..] + b;
      TextsConcatenate(a[1..], b, kinds);
    }
  }

  /** The wire's form of an item of an answer. */
  function EntryOf(item: Item): OutputEntry {
    match item
    case Message(_, text) => MessageEntry([Part("output_text", text)])
    case FunctionCall(callId, name, arguments, _) => CallEntry(callId, name, arguments)
    case FunctionCallOutput(_, _) => OtherEntry
    case Reasoning(text) => ReasoningEntry([Part("summary_text", text)])
  }

  /** An item a model answers with. */
  predicate IsAnswer(item: Item) {
    match item
    case Message(role, text) => role == "assistant" && text != ""
    case FunctionCall(_, _, _, signature) => signature == ""
    case FunctionCallOutput(_, _) => false
    case Reasoning(_) => true
  }

  lemma EntryReadsBack(item: Item)
    requires IsAnswer(item)
    ensures ItemsOf(EntryOf(item)) == [item]
  {
    if !item.FunctionCall? {
      var kind := if item.Message? then "output_text" else "summary_text";
      PartsAreRead([], kind, item.text);
      assert [] + [Part(kind, item.text)] == [Part(kind, item.text)];
      assert "" + item.text == item.text;
    }
  }

  /**
   An entry's text is that of its parts of the kinds "output_text" and "text", or "summary_text" and "text",
   one after the other.
   */
  lemma PartsAreRead(front: seq<Part>, kind: string, text: string)
    ensures var parts := front + [Part(kind, text)];
            && TextOf(parts, {"output_text", "text"})
               == TextOf(front, {"output_text", "text"})
                   + (if kind == "output_text" || kind == "text" then text else "")
            && TextOf(parts, {"summary_text", "text"})
               == TextOf(front, {"summary_text", "text"})
                   + (if kind == "summary_text" || kind == "text" then text else "")
  {
    TextsConcatenate(front, [Part(kind, text)], {"output_text", "text"});
    TextsConcatenate(front, [Part(kind, text)], {"summary_text", "text"});
    assert [Part(kind, text)][1..] == [];
  }

  lemma ItemsAreTheTexts(content: seq<Part>)
    ensures var text := TextOf(content, {"output_text", "text"});
            ItemsOf(MessageEntry(content)) == (if text == "" then [] else [Message("assistant", text)])
    ensures ItemsOf(ReasoningEntry(content)) == [Reasoning(TextOf(content, {"summary_text", "text"}))]
  {
  }

  /** The payloads announce the items one by one and then complete the response. */
  ghost predicate Announce(decode: Decoder, payloads: seq<string>, items: seq<Item>, id: string) {
    && |payloads| == |items| + 1
    && (forall k :: 0 <= k < |items| ==> decode(payloads[k]) == Some(ItemDone(EntryOf(items[k]))))
    && decode(payloads[|items|]) == Some(Completed(id))
    && (forall k :: 0 <= k < |payloads| ==> payloads[k] != "" && payloads[k] != "[DONE]")
  }

  lemma {:induction false} AnnouncedItemsAreRead(decode: Decoder, payloads: seq<string>, items: seq<Item>, id: string,
                                                 created: string, output: seq<Item>)
    requires Announce(decode, payloads, items, id)
    requires forall item :: item in items ==> IsAnswer(item)
    ensures Run(decode, payloads, created, output) == Success(if id == "" then created else id, output + items)
  {
    if items == [] {
      assert output + items == output;
    } else {
      EntryReadsBack(items[0]);
      assert forall k :: 0 <= k < |payloads| - 1 ==> payloads[1..][k] == payloads[k + 1];
      assert forall k :: 0 <= k < |items| - 1 ==> items[1..][k] == items[k + 1];
      assert Announce(decode, payloads[1..], items[1..], id);
      AnnouncedItemsAreRead(decode, payloads[1..], items[1..], id, created, output + [items[0]]);
      assert output + items == (output + [items[0]]) + items[1..];
    }
  }

  /** A stream that announces items and completes is answered with exactly those items. */
  lemma StreamedItemsComeBack(decode: Decoder, payloads: seq<string>, items: seq<Item>, id: string)
    requires Announce(decode, payloads, items, id)
    requires forall item :: item in items ==> IsAnswer(item)
    requires forall p :: p in payloads ==> Renderable(p)
    requires |Render(payloads)| <= 16_777_216
    ensures Answer(decode, Render(payloads), false) == Success(id, items)
  {
    ReadingBackRenderedEvents(decode, payloads);
    AnnouncedItemsAreRead(decode, payloads, items, id, "", []);
  }

  // ----- Every other ending -----

  /** The k-th payload is the first that does not pass. */
  ghost predicate StopsAt(decode: Decoder, payloads: seq<string>, k: nat) {
    k < |payloads| && !Passes(decode, payloads[k]) && forall j :: 0 <= j < k ==> Passes(decode, payloads[j])
  }

  /** The id the last response.created among the first k payloads gave, or the one before them. */
  ghost function IdBefore(decode: Decoder, payloads: seq<string>, k: nat, id: string): string
    requires k <= |payloads|
  {
    if k == 0 then id
    else
      var event := if Silent(payloads[k - 1]) then None else decode(payloads[k - 1]);
      if event.Some? && event.value.Created? then event.value.id else IdBefore(decode, payloads, k - 1, id)
  }

  /** What a payload that does not pass makes of the read. */
  ghost predicate Decides(event: Option<Event>, payload: string, id: string, outcome: Outcome) {
    match event
    case None => outcome == Undecodable(payload)
    case Some(Completed(completed)) => outcome.Success? && outcome.id == if completed == "" then id else completed
    case Some(e) => outcome == FailedEvent(e)
  }

  lemma {:induction false} IdShift(decode: Decoder, payloads: seq<string>, k: nat, id: string)
    requires 1 <= k <= |payloads|
    ensures IdBefore(decode, payloads, k, id)
            == IdBefore(decode, payloads[1..], k - 1, IdBefore(decode, payloads, 1, id))
  {
    if k > 1 {
      IdShift(decode, payloads, k - 1, id);
      assert payloads[1..][k - 2] == payloads[k - 1];
    }
  }

  lemma DispatchedId(decode: Decoder, payloads: seq<string>, id: string, output: seq<Item>)
    requires payloads != []
    ensures var (done, newId, newOutput) := Dispatched(decode, payloads[0], id, output); (
              && (done.None? <==> Passes(decode, payloads[0]))
              && (done.None? ==> newId == IdBefore(decode, payloads, 1, id))
              && (done.Some? ==> Decides(decode(payloads[0]), payloads[0], id, done.value)))
  {
    assert IdBefore(decode, payloads, 0, id) == id;
  }

  lemma StopsShift(decode: Decoder, payloads: seq<string>, k: nat)
    requires payloads != [] && Passes(decode, payloads[0])
    ensures StopsAt(decode, payloads, k) ==> k > 0 && StopsAt(decode, payloads[1..], k - 1)
  {
    hide Passes;
    if StopsAt(decode, payloads, k) {
      assert forall j :: 0 <= j < |payloads| - 1 ==> payloads[1..][j] == payloads[j + 1];
    }
  }

  lemma StopsNowhereElse(decode: Decoder, payloads: seq<string>, k: nat)
    requires payloads != [] && !Passes(decode, payloads[0]) && StopsAt(decode, payloads, k)
    ensures k == 0
  {
    hide Passes;
  }

  /**
   The first payload that does not pass decides the answer: the failed event, the payload that could not be
   decoded, or success under the completion's id, or without one under the last response.created's. A
   stream whose payloads all pass ended early.
   */
  lemma {:induction false} FirstStopDecides(decode: Decoder, payloads: seq<string>, id: string, output: seq<Item>)
    ensures Run(decode, payloads, id, output).EndedEarly? <==> forall k :: 0 <= k < |payloads| ==>
                                                                 Passes(decode, payloads[k])
    ensures forall k: nat :: StopsAt(decode, payloads, k) ==>
              Decides(decode(payloads[k]), payloads[k], IdBefore(decode, payloads, k, id),
                      Run(decode, payloads, id, output))
  {
    if payloads != [] {
      var (done, newId, newOutput) := Dispatched(decode, payloads[0], id, output);
      var rest := payloads[1..];
      assert payloads == [payloads[0]] + rest;
      DispatchIsRun(decode, payloads[0], rest, id, output);
      DispatchedId(decode, payloads, id, output);
      assert IdBefore(decode, payloads, 0, id) == id;
      hide Run, Dispatched, Passes, IdBefore;
      if done.Some? {
        forall k: nat | StopsAt(decode, payloads, k) ensures k == 0 {
          StopsNowhereElse(decode, payloads, k);
        }
      } else {
        FirstStopDecides(decode, rest, newId, newOutput);
        assert forall k :: 0 <= k < |rest| ==> rest[k] == payloads[k + 1];
        forall k: nat | StopsAt(decode, payloads, k)
          ensures k > 0 && StopsAt(decode, rest, k - 1)
          ensures IdBefore(decode, payloads, k, id) == IdBefore(decode, rest, k - 1, newId)
        {
          StopsShift(decode, payloads, k);
          IdShift(decode, payloads, k, id);
        }
      }
    }
  }

  // ----- Reading lines and ending on an error -----

  /** The text of a data line, with or without the one space after the colon. */
  lemma DataLinesCarry(text: string)
    ensures "data:" <= "data: " + text && Value("data: " + text) == text
    ensures "data:" <= "data:" + text && (text == "" || text[0] != ' ' ==> Value("data:" + text) == text)
  {
    LineCarries(text);
    assert DATA + " " == "data: ";
    assert ("data:" + text)[5..] == text;
  }

  /** A data line, with or without that space, adds its text to the payload, on a line of its own. */
  lemma DataLinesAreGathered(text: string, rest: seq<string>, data: string)
    ensures var more := if data == "" then text else data + "\n" + text;
            && Payloads(["data: " + text] + rest, data) == Payloads(rest, more)
            && (text == "" || text[0] != ' ' ==> Payloads(["data:" + text] + rest, data) == Payloads(rest, more))
    ensures Payloads([], data) == [data]
  {
    DataLinesCarry(text);
    assert (["data: " + text] + rest)[1..] == rest && (["data:" + text] + rest)[1..] == rest;
  }

  /** A line ends at a newline and loses one carriage return before it; what follows the last newline is a line too. */
  lemma LinesAreScanned(line: string, rest: string)
    requires '\n' !in line
    ensures line == "" || line[|line| - 1] != '\r' ==> ScanLines(line + "\n" + rest) == [line] + ScanLines(rest)
    ensures ScanLines(line + "\r\n" + rest) == [line] + ScanLines(rest)
    ensures line != "" && line[|line| - 1] != '\r' ==> ScanLines(line) == [line]
    ensures ScanLines(line + "\r") == [line]
  {
    var s := line + "\n" + rest;
    assert s[..|line|] == line && s[|line| + 1..] == rest;
    FirstNewlineAt(s, |line|);
    var dos := line + "\r\n" + rest;
    assert dos[..|line| + 1] == line + "\r" && dos[|line| + 2..] == rest;
    FirstNewlineAt(dos, |line| + 1);
    assert (line + "\r")[..|line|] == line;
    FirstNewlineAt(line, |line|);
    FirstNewlineAt(line + "\r", |line| + 1);
  }

  /** An empty line ends a payload, and the next one starts afresh. */
  lemma {:induction false} EmptyLineDispatches(before: seq<string>, after: seq<string>, data: string)
    ensures Payloads(before + [""] + after, data) == Payloads(before, data) + Payloads(after, "")
  {
    var lines := before + [""] + after;
    if before == [] {
      assert lines == [""] + after;
    } else {
      assert lines[0] == before[0] && lines[1..] == before[1..] + [""] + after;
      EmptyLineDispatches(before[1..], after, "");
      EmptyLineDispatches(before[1..], after, data);
      if DATA <= before[0] {
        EmptyLineDispatches(before[1..], after, Extend(data, Value(before[0])));
      }
    }
  }

  /** A line that is neither empty nor a data line changes nothing. */
  lemma {:induction false} OtherLinesAreIgnored(before: seq<string>, line: string, after: seq<string>, data: string)
    requires line != "" && !("data:" <= line)
    ensures Payloads(before + [line] + after, data) == Payloads(before + after, data)
  {
    var lines := before + [line] + after;
    if before == [] {
      assert lines == [line] + after && before + after == after;
    } else {
      assert lines[0] == before[0] && lines[1..] == before[1..] + [line] + after;
      assert (before + after)[0] == before[0] && (before + after)[1..] == before[1..] + after;
      OtherLinesAreIgnored(before[1..], line, after, "");
      OtherLinesAreIgnored(before[1..], line, after, data);
      if DATA <= before[0] {
        OtherLinesAreIgnored(before[1..], line, after, Extend(data, Value(before[0])));
      }
    }
  }

  /**
   A body of 16 MiB without a newline is too long. A read error is met before 16 MiB and is the answer
   exactly when every payload an empty line has ended passes; the rest of a longer body is not read.
   */
  lemma ErrorsExactlyWhen(decode: Decoder, body: string, readFails: bool)
    ensures Answer(decode, body, readFails).TooLong?
            <==> |body| >= 16_777_216 && '\n' !in body[..16_777_216]
    ensures var payloads := Payloads(ScanLines(body), "");
            Answer(decode, body, readFails).ReadFailed?
            <==> readFails && |body| < 16_777_216
                 && forall k :: 0 <= k < |payloads| - 1 ==> Passes(decode, payloads[k])
    ensures |body| > 16_777_216
            ==> Answer(decode, body, readFails) == Answer(decode, body[..16_777_216], false)
  {
    var payloads := Payloads(ScanLines(body), "");
    var ended := payloads[..|payloads| - 1];
    hide Payloads, ScanLines;
    assert |body| == 16_777_216 ==> body[..16_777_216] == body;
    FirstStopDecides(decode, ended, "", []);
    NeverAnError(decode, Payloads(ScanLines(Limited(body)), ""), "", []);
    NeverAnError(decode, ended, "", []);
    hide Run, Passes;
    assert forall k :: 0 <= k < |ended| ==> ended[k] == payloads[k];
  }

  lemma {:induction false} NeverAnError(decode: Decoder, payloads: seq<string>, id: string, output: seq<Item>)
    ensures !Run(decode, payloads, id, output).TooLong? && !Run(decode, payloads, id, output).ReadFailed?
  {
    if payloads != [] {
      var (done, newId, newOutput) := Dispatched(decode, payloads[0], id, output);
      assert payloads == [payloads[0]] + payloads[1..];
      DispatchIsRun(decode, payloads[0], payloads[1..], id, output);
      NeverAnError(decode, payloads[1..], newId, newOutput);
    }
  }
}
