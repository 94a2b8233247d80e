/**
 The paste-code prompt that races a browser sign-in (wizard/auth.go, pastePrompt). Three goroutines
 share one prompter: show tells the user what to do, input reads the code, drain ends a read the
 browser overtook. A step is what happens between two points where another goroutine may run.
 */
module PastePrompt {
  import opened Options

  /** show holds the mutex while it uses the prompter. */
  datatype Show = ShowIdle | Showing | ShowEnded

  /** input waits until the instructions are shown, then reads without the mutex. */
  datatype Input = InputIdle | Reading | InputEnded

  /**
   drain marks the prompt as done, then waits for a read that was pending, telling the user once if it is not
   over.
   */
  datatype Drain = DrainIdle | Checking | Notifying | Waiting | Drained

  /** `pending` is the channel of the started read: open until the read returns. */
  datatype Channel = Open | Closed

  datatype State = State(show: Show, input: Input, drain: Drain, shown: bool, done: bool, pending: Option<Channel>)

  const START := State(ShowIdle, InputIdle, DrainIdle, false, false, None)

  datatype Step =
    | EnterShow
    | LeaveShow
    | EnterInput(cancelled: bool)
    | CancelInput
    | ReadReturns
    | EnterDrain
    | CheckPending
    | Notified
    | PendingClosed

  predicate MutexFree(s: State) {
    s.show != Showing
  }

  predicate Enabled(s: State, step: Step) {
    match step
    case EnterShow => s.show == ShowIdle
    case LeaveShow => s.show == Showing
    case EnterInput(_) => s.input == InputIdle && s.shown && MutexFree(s)
    case CancelInput => s.input == InputIdle
    case ReadReturns => s.input == Reading
    case EnterDrain => s.drain == DrainIdle && MutexFree(s)
    case CheckPending => s.drain == Checking
    case Notified => s.drain == Notifying
    case PendingClosed => s.drain == Waiting && s.pending == Some(Closed)
  }

  function Next(s: State, step: Step): State
    requires Enabled(s, step)
  {
    match step
    case EnterShow => s.(show := if s.done then ShowEnded else Showing)
    case LeaveShow => s.(show := ShowEnded, shown := true)
    case EnterInput(cancelled) =>
      if s.done || cancelled then s.(input := InputEnded) else s.(input := Reading, pending := Some(Open))
    case CancelInput => s.(input := InputEnded)
    case ReadReturns => s.(input := InputEnded, pending := Some(Closed))
    case EnterDrain => s.(done := true, drain := if s.pending.None? then Drained else Checking)
    case CheckPending => s.(drain := if s.pending == Some(Closed) then Drained else Notifying)
    case Notified => s.(drain := Waiting)
    case PendingClosed => s.(drain := Drained)
  }

  /** Who is using the prompter. */
  datatype User = ByShow | ByInput | ByDrain

  predicate Uses(s: State, user: User) {
    match user
    case ByShow => s.show == Showing
    case ByInput => s.input == Reading
    case ByDrain => s.drain == Notifying
  }

  // ----- Runs -----

  ghost predicate IsRun(s: State, steps: seq<Step>)
    decreases |steps|
  {
    steps == [] || (Enabled(s, steps[0]) && IsRun(Next(s, steps[0]), steps[1..]))
  }

  ghost function After(s: State, steps: seq<Step>): State
    requires IsRun(s, steps)
    decreases |steps|
  {
    if steps == [] then s else After(Next(s, steps[0]), steps[1..])
  }

  /**
   A channel belongs to the one read; showing comes before reading; a drain past its start has marked the
   prompt done.
   */
  ghost predicate Inv(s: State) {
    && (s.input == Reading <==> s.pending == Some(Open))
    && (s.shown ==> s.show == ShowEnded)
    && (s.pending.Some? ==> s.shown)
    && (s.drain != DrainIdle <==> s.done)
    && (s.done ==> s.show != Showing)
    && (s.drain != DrainIdle && s.drain != Drained ==> s.pending.Some?)
    && (s.drain == Drained ==> s.pending != Some(Open))
  }

  lemma {:induction false} RunKeepsInv(s: State, steps: seq<Step>)
    requires Inv(s) && IsRun(s, steps)
    ensures Inv(After(s, steps))
    decreases |steps|
  {
    if steps != [] {
      RunKeepsInv(Next(s, steps[0]), steps[1..]);
    }
  }

  /** In every run, show and input never use the prompter at the same time, and neither do show and drain. */
  lemma OneAtATime(steps: seq<Step>, other: User)
    requires IsRun(START, steps) && other != ByShow
    ensures !(Uses(After(START, steps), ByShow) && Uses(After(START, steps), other))
  {
    RunKeepsInv(START, steps);
  }

  /** Once drain has returned, nothing uses the prompter, then or ever after. */
  lemma {:induction false} NothingAfterDrain(s: State, steps: seq<Step>, user: User)
    requires Inv(s) && s.drain == Drained && IsRun(s, steps)
    ensures After(s, steps).drain == Drained && !Uses(After(s, steps), user)
    decreases |steps|
  {
    if steps != [] {
      NothingAfterDrain(Next(s, steps[0]), steps[1..], user);
    }
  }

  lemma OpenOrClosed(c: Option<Channel>)
    ensures c == None || c == Some(Open) || c == Some(Closed)
  {
    if c.Some? {
      assert c.value.Open? || c.value.Closed?;
    }
  }

  /**
   Drain and input are not kept apart: drain tells the user to press Enter exactly when it found the
   read still pending, and the read may go on meanwhile.
   */
  lemma DrainNotifiesExactlyWhenPending(steps: seq<Step>)
    requires IsRun(START, steps) && After(START, steps).drain == Checking
    ensures var s := After(START, steps); Next(s, CheckPending).drain == Notifying <==> Uses(s, ByInput)
  {
    RunKeepsInv(START, steps);
    OpenOrClosed(After(START, steps).pending);
  }

  const OVERLAP := [EnterShow, LeaveShow, EnterInput(false), EnterDrain, CheckPending]

  lemma DrainMayOverlapTheRead()
    ensures IsRun(START, OVERLAP)
    ensures Uses(After(START, OVERLAP), ByInput) && Uses(After(START, OVERLAP), ByDrain)
  {
    var s1 := Next(START, EnterShow);
    var s2 := Next(s1, LeaveShow);
    var s3 := Next(s2, EnterInput(false));
    var s4 := Next(s3, EnterDrain);
    var s5 := Next(s4, CheckPending);
    assert OVERLAP[1..][1..][1..][1..] == [CheckPending];
    assert After(s4, [CheckPending]) == s5;
    assert OVERLAP[1..][1..][1..] == [EnterDrain, CheckPending];
    assert IsRun(s3, [EnterDrain, CheckPending]) && After(s3, [EnterDrain, CheckPending]) == s5;
    assert OVERLAP[1..][1..] == [EnterInput(false), EnterDrain, CheckPending];
    assert IsRun(s2, OVERLAP[1..][1..]) && After(s2, OVERLAP[1..][1..]) == s5;
    assert OVERLAP[1..] == [LeaveShow, EnterInput(false), EnterDrain, CheckPending];
    assert IsRun(s1, OVERLAP[1..]) && After(s1, OVERLAP[1..]) == s5;
  }

  /** A drain that has not returned is never stuck: it can go on, or what it waits for can. */
  lemma DrainIsNeverStuck(steps: seq<Step>)
    requires IsRun(START, steps) && After(START, steps).drain != Drained
    ensures var s := After(START, steps);
            || Enabled(s, EnterDrain) || Enabled(s, CheckPending) || Enabled(s, Notified) || Enabled(s, PendingClosed)
            || Enabled(s, LeaveShow) || Enabled(s, ReadReturns)
  {
    RunKeepsInv(START, steps);
    OpenOrClosed(After(START, steps).pending);
  }

  /** How many more steps a drain that was called can take, counting those of the two it may wait for. */
  function Remaining(s: State): nat {
    (match s.drain case DrainIdle => 4 case Checking => 3 case Notifying => 2 case Waiting => 1 case Drained => 0)
    + (match s.show case ShowIdle => 2 case Showing => 1 case ShowEnded => 0)
    + (match s.input case InputIdle => 2 case Reading => 1 case InputEnded => 0)
  }

  /** Every step uses some of them up, so every run ends after at most eight. */
  lemma {:induction false} RunsAreShort(s: State, steps: seq<Step>)
    requires IsRun(s, steps)
    ensures |steps| + Remaining(After(s, steps)) <= Remaining(s)
    decreases |steps|
  {
    if steps != [] {
      RunsAreShort(Next(s, steps[0]), steps[1..]);
    }
  }

  /**
   show uses the prompter exactly when the prompt is not done, and input exactly when neither it nor the call
   is over.
   */
  lemma EntersExactlyWhen(s: State, cancelled: bool)
    ensures Enabled(s, EnterShow) ==> (Uses(Next(s, EnterShow), ByShow) <==> !s.done)
    ensures Enabled(s, EnterInput(cancelled)) ==>
              (Uses(Next(s, EnterInput(cancelled)), ByInput) <==> !s.done && !cancelled)
    ensures Enabled(s, EnterInput(cancelled)) <==> s.input == InputIdle && s.shown && s.show != Showing
    ensures Enabled(s, CancelInput) ==> !Uses(Next(s, CancelInput), ByInput)
  {
  }

  /** In every run a code is read only after the instructions were shown. */
  lemma ReadsOnlyWhatWasShown(steps: seq<Step>)
    requires IsRun(START, steps) && Uses(After(START, steps), ByInput)
    ensures LeaveShow in steps
  {
    RunKeepsInv(START, steps);
    ShownByLeaving(START, steps);
  }

  lemma {:induction false} ShownByLeaving(s: State, steps: seq<Step>)
    requires IsRun(s, steps) && !s.shown && After(s, steps).shown
    ensures LeaveShow in steps
    decreases |steps|
  {
    if steps[0] != LeaveShow {
      ShownByLeaving(Next(s, steps[0]), steps[1..]);
    }
  }

  /** Once drain has begun, no read and no showing starts in any continuation; and an input that is over stays so. */
  lemma {:induction false} NothingStartsAfterDrainBegan(s: State, steps: seq<Step>)
    requires Inv(s) && IsRun(s, steps)
    ensures s.done ==> After(s, steps).done && !Uses(After(s, steps), ByShow)
    ensures s.done && !Uses(s, ByInput) ==> !Uses(After(s, steps), ByInput)
    ensures s.input == InputEnded ==> After(s, steps).input == InputEnded
    decreases |steps|
  {
    if steps != [] {
      NothingStartsAfterDrainBegan(Next(s, steps[0]), steps[1..]);
    }
  }
}
