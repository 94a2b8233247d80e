/**
 The HFSC chunk stream (hfsc/dispatch.go, executeContinuousStream): a reader is sent as numbered
 base64 chunks over a log channel and closed by a FINALIZE with the hash of everything read, or an
 ABORT.

 The outside world is one Step an iteration: whether the context is done, what the read returned and
 what the log call reports. Steps running out stands for the ten-minute timeout of the stream. The log
 is every record handed to the channel; whatever its call reports, a record may or may not arrive.
 */
module HfscStream {
  import opened Options
  import opened Base64

  const READ_SIZE := 3000

  /** What a log notification says. */
  datatype Wire =
    | Chunk(index: nat, payload: string)
    | Finalize(index: nat, hash: string)
    | Abort(index: nat)

  datatype ReadEnd = More | Eof | Fault

  datatype Step = Step(cancelled: bool, data: seq<Byte>, end: ReadEnd, logged: bool)

  ghost predicate IsReader(steps: seq<Step>) {
    forall k :: 0 <= k < |steps| ==> |steps[k].data| <= READ_SIZE
  }

  /** All bytes the first k reads returned. */
  function BytesRead(steps: seq<Step>, k: nat): seq<Byte>
    requires k <= |steps|
  {
    if k == 0 then [] else BytesRead(steps, k - 1) + steps[k - 1].data
  }

  /** The bytes a receiver decodes from a list of chunks. */
  function DecodeAll(log: seq<Wire>): Option<seq<Byte>> {
    if log == [] then Some([])
    else
      var last := log[|log| - 1];
      match DecodeAll(log[..|log| - 1])
      case None => None
      case Some(before) =>
        if !last.Chunk? then None
        else
          match Decode(last.payload)
          case None => None
          case Some(bytes) => Some(before + bytes)
  }

  /** The log is chunks 0..|log|-1 in order, none of them empty. */
  ghost predicate ChunksInOrder(log: seq<Wire>) {
    forall i :: 0 <= i < |log| ==> log[i].Chunk? && log[i].index == i && log[i].payload != ""
  }

  /** The step keeps the loop going: not cancelled, no error from its log call (if any), and more to read. */
  predicate GoesOn(step: Step) {
    !step.cancelled && (step.data != [] ==> step.logged) && step.end.More?
  }

  /** The step is the end of the input, with no error from its log call (if any). */
  predicate Ends(step: Step) {
    !step.cancelled && (step.data != [] ==> step.logged) && step.end.Eof?
  }

  /** The step's chunk had a log call that reported an error. */
  predicate BreaksOff(step: Step) {
    step.data != [] && !step.logged
  }

  /** The stream stops after `read` reads: cancelled before the next, or by what the last one brought. */
  predicate StopsHere(steps: seq<Step>, read: nat)
    requires read <= |steps|
  {
    || (read < |steps| && steps[read].cancelled && (read > 0 ==> GoesOn(steps[read - 1])))
    || (read == |steps| && (read > 0 ==> GoesOn(steps[read - 1])))
    || (read > 0 && !steps[read - 1].cancelled && !GoesOn(steps[read - 1]))
  }

  /** Every read so far was sent, as numbered chunks that decode to it. */
  ghost predicate AllSent(log: seq<Wire>, steps: seq<Step>, read: nat)
    requires read <= |steps|
  {
    ChunksInOrder(log) && DecodeAll(log) == Some(BytesRead(steps, read))
  }

  /** Every chunk has at most 4000 characters. */
  predicate Bounded(log: seq<Wire>) {
    forall i :: 0 <= i < |log| && log[i].Chunk? ==> |log[i].payload| <= 4000
  }

  /** The log after the step's chunk, if it has one. */
  function WithChunk(log: seq<Wire>, data: seq<Byte>): seq<Wire> {
    if data == [] then log else log + [Chunk(|log|, Encode(data))]
  }

  lemma ChunkIsSent(log: seq<Wire>, steps: seq<Step>, read: nat)
    requires read < |steps| && AllSent(log, steps, read)
    ensures AllSent(WithChunk(log, steps[read].data), steps, read + 1)
  {
    var data := steps[read].data;
    if data == [] {
      assert BytesRead(steps, read) + data == BytesRead(steps, read);
    } else {
      DecodeUndoesEncode(data);
      assert (log + [Chunk(|log|, Encode(data))])[..|log|] == log;
    }
  }

  /**
   What is sent: numbered chunks from 0, which decode to exactly the bytes read, then nothing or one
   terminator carrying their count; a FINALIZE comes at the end of the input with their hash.
   */
  ghost predicate Sent(log: seq<Wire>, steps: seq<Step>, read: nat, hash: seq<Byte> -> string)
    requires read <= |steps|
  {
    || AllSent(log, steps, read)
    || (&& log != []
        && (var k := |log| - 1;
            && AllSent(log[..k], steps, read)
            && (log[k] == Abort(k)
                || (log[k] == Finalize(k, hash(BytesRead(steps, read))) && read > 0 && steps[read - 1].end.Eof?))))
  }

  lemma ClosedBy(log: seq<Wire>, last: Wire, steps: seq<Step>, read: nat, hash: seq<Byte> -> string)
    requires read <= |steps| && AllSent(log, steps, read)
    requires last == Abort(|log|)
              || (last == Finalize(|log|, hash(BytesRead(steps, read))) && read > 0 && steps[read - 1].end.Eof?)
    ensures Sent(log + [last], steps, read, hash)
  {
    assert (log + [last])[..|log|] == log;
  }

  /** How the chunk loop ends: at the end of the input, cut short, or on a log call that reports an error. */
  datatype Closing = AtEof | CutShort | LogFailed

  /** One read's chunk, if it has one. */
  method SendChunk(step: Step, log: seq<Wire>, ghost steps: seq<Step>, ghost read: nat)
    returns (more: seq<Wire>, failed: bool)
    requires read < |steps| && step == steps[read] && AllSent(log, steps, read)
    requires IsReader(steps)
    ensures Bounded(log) ==> Bounded(more)
    ensures failed <==> step.data != [] && !step.logged
    ensures AllSent(more, steps, read + 1)
  {
    hide AllSent, Encode;
    ChunkIsSent(log, steps, read);
    EncodedIsPadded(step.data);
    more, failed := log, false;
    if |step.data| > 0 {
      more := log + [Chunk(|log|, Encode(step.data))];
      failed := !step.logged;
    }
  }

  /** The chunk loop. `read` counts the reads that returned. */
  method SendChunks(steps: seq<Step>) returns (log: seq<Wire>, read: nat, hashed: seq<Byte>, closing: Closing)
    requires IsReader(steps)
    ensures read <= |steps| && hashed == BytesRead(steps, read)
    ensures AllSent(log, steps, read) && Bounded(log)
    ensures closing.AtEof? <==> read > 0 && Ends(steps[read - 1])
    ensures closing.LogFailed? <==> read > 0 && BreaksOff(steps[read - 1])
    ensures forall j :: 0 <= j < read - 1 ==> GoesOn(steps[j])
    ensures StopsHere(steps, read)
  {
    log, read, hashed := [], 0, [];
    while read < |steps| && !steps[read].cancelled
      invariant 0 <= read <= |steps|
      invariant AllSent(log, steps, read) && Bounded(log) && hashed == BytesRead(steps, read)
      invariant forall j :: 0 <= j < read ==> GoesOn(steps[j])
    {
      hide AllSent;
      var step := steps[read];
      hashed := hashed + step.data;
      var failed;
      log, failed := SendChunk(step, log, steps, read);
      read := read + 1;
      if failed {
        return log, read, hashed, LogFailed;
      }
      match step.end {
        case More =>
        case Eof => return log, read, hashed, AtEof;
        case Fault => return log, read, hashed, CutShort;
      }
    }
    closing := CutShort;
  }

  /**
   The stream: the log is the numbered chunks and at most one terminator that carries their count. It
   reads on until it is cancelled, a read is the last, or a chunk's log call reports an error. Exactly in
   that last case there is no terminator; at the end of the input there is a FINALIZE; and an ABORT in
   every other case.
   */
  method Stream(steps: seq<Step>, hash: seq<Byte> -> string) returns (log: seq<Wire>, read: nat)
    requires IsReader(steps)
    ensures read <= |steps|
    ensures Sent(log, steps, read, hash) && Bounded(log)
    ensures (log != [] && log[|log| - 1].Finalize?)
       <==> read > 0 && Ends(steps[read - 1])
    ensures (log == [] || log[|log| - 1].Chunk?) <==> read > 0 && BreaksOff(steps[read - 1])
    ensures (log != [] && log[|log| - 1] == Abort(|log| - 1))
       <==> !(read > 0 && (BreaksOff(steps[read - 1]) || Ends(steps[read - 1])))
    ensures StopsHere(steps, read) && forall j :: 0 <= j < read - 1 ==> GoesOn(steps[j])
  {
    var hashed, closing;
    log, read, hashed, closing := SendChunks(steps);
    match closing {
      case LogFailed =>
      case CutShort =>
        ClosedBy(log, Abort(|log|), steps, read, hash);
        log := log + [Abort(|log|)];
      case AtEof =>
        var last := Finalize(|log|, hash(hashed));
        ClosedBy(log, last, steps, read, hash);
        log := log + [last];
    }
  }

  // ----- What a receiver can tell -----

  /** What arrived of a log: the records at some of its positions, in order. */
  ghost predicate Arrived(seen: seq<Wire>, log: seq<Wire>, at: seq<nat>) {
    && |at| == |seen|
    && (forall i :: 0 <= i < |at| ==> at[i] < |log| && seen[i] == log[at[i]])
    && (forall i, j :: 0 <= i < j < |at| ==> at[i] < at[j])
  }

  /** The receiver's check: chunks numbered from 0 and then one terminator that carries their count. */
  predicate Accepts(seen: seq<Wire>) {
    && seen != [] && !seen[|seen| - 1].Chunk? && seen[|seen| - 1].index == |seen| - 1
    && forall i :: 0 <= i < |seen| - 1 ==> seen[i].Chunk? && seen[i].index == i
  }

  lemma {:induction false} PositionsAreBounded(at: seq<nat>, n: nat, i: nat)
    requires i < |at| && (forall k :: 0 <= k < |at| ==> at[k] < n)
              && (forall k, l :: 0 <= k < l < |at| ==> at[k] < at[l])
    ensures i <= at[i] <= n - (|at| - i)
    decreases |at| - i
  {
    if i < |at| - 1 {
      PositionsAreBounded(at, n, i + 1);
    }
    PositionsGrow(at, i);
  }

  lemma {:induction false} PositionsGrow(at: seq<nat>, i: nat)
    requires i < |at| && forall k, l :: 0 <= k < l < |at| ==> at[k] < at[l]
    ensures i <= at[i]
  {
    if i > 0 {
      PositionsGrow(at, i - 1);
    }
  }

  /** Every record carries its position, and all but the last are chunks. */
  ghost predicate Numbered(log: seq<Wire>) {
    forall i :: 0 <= i < |log| ==> log[i].index == i && (i < |log| - 1 ==> log[i].Chunk?)
  }

  lemma SentIsNumbered(log: seq<Wire>, steps: seq<Step>, read: nat, hash: seq<Byte> -> string)
    requires read <= |steps| && Sent(log, steps, read, hash)
    ensures Numbered(log)
  {
    hide BytesRead, DecodeAll;
    if !ChunksInOrder(log) {
      assert forall i :: 0 <= i < |log| - 1 ==> log[..|log| - 1][i] == log[i];
    }
  }

  /**
   Whatever part of a log arrives, the receiver accepts it exactly when it is the whole of a log that was
   closed: it notices any number of lost records, chunks or terminator.
   */
  lemma AcceptsExactlyTheWholeLog(seen: seq<Wire>, log: seq<Wire>, at: seq<nat>, steps: seq<Step>, read: nat,
                                  hash: seq<Byte> -> string)
    requires read <= |steps| && Sent(log, steps, read, hash) && Arrived(seen, log, at)
    ensures Accepts(seen) <==> seen == log && log != [] && !log[|log| - 1].Chunk?
  {
    SentIsNumbered(log, steps, read, hash);
    hide Sent;
    if Accepts(seen) {
      var last := |seen| - 1;
      assert log[at[last]] == seen[last];
      assert at[last] == |log| - 1;
      forall i | 0 <= i < |seen| ensures at[i] == i {
        PositionsAreBounded(at, |log|, i);
      }
    }
  }

  /**
   A receiver that accepted a FINALIZE knows the bytes: whatever streams the records it saw may have come
   from, however many others were lost, each of them read exactly what the chunks decode to, and its hash
   is the one received.
   */
  lemma FinalizeDeterminesTheBytes(seen: seq<Wire>, log: seq<Wire>, at: seq<nat>, steps: seq<Step>, read: nat,
                                   hash: seq<Byte> -> string)
    requires read <= |steps| && Sent(log, steps, read, hash) && Arrived(seen, log, at)
    requires Accepts(seen) && seen[|seen| - 1].Finalize?
    ensures DecodeAll(seen[..|seen| - 1]) == Some(BytesRead(steps, read))
    ensures seen[|seen| - 1] == Finalize(|seen| - 1, hash(BytesRead(steps, read)))
    ensures read > 0 && steps[read - 1].end.Eof?
  {
    AcceptsExactlyTheWholeLog(seen, log, at, steps, read, hash);
    assert !ChunksInOrder(log);
  }

  /** So two streams whose receivers saw the same accepted FINALIZE read the same bytes. */
  lemma SameRecordsSameBytes(seen: seq<Wire>, log: seq<Wire>, at: seq<nat>, steps: seq<Step>, read: nat,
                             otherLog: seq<Wire>, otherAt: seq<nat>, other: seq<Step>, otherRead: nat,
                                 hash: seq<Byte> -> string)
    requires read <= |steps| && Sent(log, steps, read, hash) && Arrived(seen, log, at)
    requires otherRead <= |other| && Sent(otherLog, other, otherRead, hash) && Arrived(seen, otherLog, otherAt)
    requires Accepts(seen) && seen[|seen| - 1].Finalize?
    ensures BytesRead(steps, read) == BytesRead(other, otherRead)
  {
    FinalizeDeterminesTheBytes(seen, log, at, steps, read, hash);
    FinalizeDeterminesTheBytes(seen, otherLog, otherAt, other, otherRead, hash);
  }
}
