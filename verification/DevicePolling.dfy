/**
 The Grok device-code polling loop (llmprovider/oauth_device.go) against a moving clock: how far
 apart the polls are, and how many there can be (section 3.5 of RFC 8628).

 Times are integer nanoseconds. Everything the loop meets from outside is one Step an iteration:
 how long the sleep really took, whether it was cancelled, how long the request took, the answer.
 */
module DevicePolling {

  const SECOND := 1_000_000_000
  const DEFAULT_INTERVAL := 5_000_000_000
  const SLOW_DOWN_INCREMENT := 5_000_000_000
  const MAX_DURATION := 0x7fff_ffff_ffff_ffff

  function InSeconds(n: int): int {
    1_000_000_000 * n
  }

  /** The base interval after n slow_down answers. */
  function Slowed(base: int, n: nat): int {
    base + 5_000_000_000 * n
  }

  /** time.Duration: 64-bit signed nanoseconds. */
  type Duration = d: int | -MAX_DURATION - 1 <= d <= MAX_DURATION

  function Wrap(x: int): (d: Duration)
    ensures -MAX_DURATION - 1 <= x <= MAX_DURATION ==> d == x
  {
    var m := x % 0x1_0000_0000_0000_0000;
    if m > MAX_DURATION then m - 0x1_0000_0000_0000_0000 else m
  }

  /** A JSON number of seconds, which Go parses as a float64. */
  datatype Seconds = NotANumber | Infinite | Finite(value: real)

  /** durationFromSeconds. The conversion of a value beyond 64 bits is up to the machine: it gives `overflow`. */
  function DurationFromSeconds(seconds: Seconds, fallback: Duration, floored: bool, overflow: Duration): (d: Duration)
    ensures floored && fallback >= SECOND ==> d >= SECOND
  {
    if !seconds.Finite? || seconds.value <= 0.0 then fallback
    else
      var nanos := (seconds.value * (SECOND as real)).Floor;
      var duration := if 0 <= nanos <= MAX_DURATION then nanos else overflow;
      if floored && duration < SECOND then SECOND else duration
  }

  /**
   A positive number of seconds is taken to the nanosecond, or as one second when it is below that and
   floored; anything else gives the fallback. 0x8000_0000_0000_0000 nanoseconds and more overflow.
   */
  lemma SecondsAreTaken(seconds: Seconds, fallback: Duration, floored: bool, overflow: Duration)
    ensures var d := DurationFromSeconds(seconds, fallback, floored, overflow);
            if !seconds.Finite? || seconds.value <= 0.0 then d == fallback
            else
              var nanos := seconds.value * 1_000_000_000.0;
              if floored && seconds.value < 1.0 then d == 1_000_000_000
              else if nanos < 9_223_372_036_854_775_808.0 then d as real <= nanos < d as real + 1.0
              else d == if floored && overflow < 1_000_000_000 then 1_000_000_000 else overflow
  {
    if seconds.Finite? && seconds.value > 0.0 {
      var nanos := seconds.value * (SECOND as real);
      assert nanos.Floor as real <= nanos < nanos.Floor as real + 1.0;
    }
  }

  datatype Answer = Granted | Pending | SlowDown | Denied | ExpiredToken | OtherError

  datatype Step = Step(cancelled: bool, overslept: nat, requestTook: nat, answer: Answer)

  /** One poll: when it was sent, and the interval in force when it was. */
  datatype Poll = Poll(at: int, interval: Duration)

  datatype Outcome = Session | DeviceExpired | WaitCancelled | Failed(answer: Answer) | StillPolling

  /** How many of the first k answers were slow_down. */
  function SlowDowns(steps: seq<Step>, k: nat): (n: nat)
    requires k <= |steps|
    ensures n <= k
  {
    if k == 0 then 0 else SlowDowns(steps, k - 1) + (if steps[k - 1].answer.SlowDown? then 1 else 0)
  }

  /** The interval the k-th poll waits: the base, increased once per slow_down so far. */
  function IntervalAt(base: Duration, steps: seq<Step>, k: nat): Duration
    requires k <= |steps|
  {
    if k == 0 then base
    else if steps[k - 1].answer.SlowDown? then Wrap(IntervalAt(base, steps, k - 1) + SLOW_DOWN_INCREMENT)
    else IntervalAt(base, steps, k - 1)
  }

  /** When the k-th poll may be sent at the earliest: an interval after the previous one, or after the start. */
  function Earliest(start: int, polls: seq<Poll>, k: nat): int
    requires k < |polls|
  {
    (if k == 0 then start else polls[k - 1].at) + polls[k].interval
  }

  /** When the k-th wait begins: at the start, or when the previous request was answered. */
  function WaitFrom(start: int, steps: seq<Step>, polls: seq<Poll>, k: nat): int
    requires k <= |polls| <= |steps|
  {
    if k == 0 then start else polls[k - 1].at + steps[k - 1].requestTook
  }

  /** The k-th poll waited the interval in force, no longer than the sleep took, and was sent before the deadline. */
  ghost predicate InTime(start: int, expires: Duration, base: Duration, steps: seq<Step>, polls: seq<Poll>, k: nat)
    requires k < |polls| <= |steps|
  {
    && polls[k].interval == IntervalAt(base, steps, k)
    && polls[k].at >= Earliest(start, polls, k)
    && polls[k].at == WaitFrom(start, steps, polls, k) + (if polls[k].interval > 0 then polls[k].interval else 0)
                      + steps[k].overslept
    && polls[k].at < start + expires
  }

  ghost predicate Spaced(start: int, expires: Duration, base: Duration, steps: seq<Step>, polls: seq<Poll>) {
    && |polls| <= |steps|
    && forall k :: 0 <= k < |polls| ==> InTime(start, expires, base, steps, polls, k)
  }

  /** When a sleep ends: after the interval, or at the deadline if that comes first, or somewhat later. */
  function Woke(now: int, interval: Duration, deadline: int, step: Step): int
    requires now < deadline
  {
    var d := if interval > deadline - now then deadline - now else interval;
    now + (if d > 0 then d else 0) + step.overslept
  }

  /**
   sleepBeforeDeadline. A sleep cut short by the deadline ends at or after it, so success means the
   whole interval has passed and the deadline has not.
   */
  method SleepBeforeDeadline(now: int, interval: Duration, deadline: int, step: Step)
    returns (result: SleepResult, after: int)
    ensures after >= now
    ensures result == Slept <==> deadline > now && !step.cancelled && after < deadline
    ensures result == Slept ==> after >= now + interval
    ensures result == SleepCancelled <==> deadline > now && step.cancelled
    ensures deadline > now ==> after == Woke(now, interval, deadline, step)
  {
    var remaining := deadline - now;
    if remaining <= 0 {
      return SleepExpired, now;
    }
    var d: int := interval;
    if d > remaining {
      d := remaining;
    }
    after := now + (if d > 0 then d else 0) + step.overslept;
    if step.cancelled {
      return SleepCancelled, after;
    }
    if !(after < deadline) {
      return SleepExpired, after;
    }
    result := Slept;
  }

  datatype SleepResult = Slept | SleepExpired | SleepCancelled

  lemma OnePollMore(start: int, expires: Duration, base: Duration, steps: seq<Step>, polls: seq<Poll>, poll: Poll)
    requires Spaced(start, expires, base, steps, polls) && |polls| < |steps|
    requires poll.interval == IntervalAt(base, steps, |polls|) && poll.at < start + expires
    requires poll.at >= (if polls == [] then start else polls[|polls| - 1].at) + poll.interval
    requires poll.at == WaitFrom(start, steps, polls, |polls|) + (if poll.interval > 0 then poll.interval else 0)
                        + steps[|polls|].overslept
    ensures Spaced(start, expires, base, steps, polls + [poll])
  {
    var more := polls + [poll];
    forall k | 0 <= k < |more| ensures InTime(start, expires, base, steps, more, k) {
      if k < |polls| {
        assert InTime(start, expires, base, steps, polls, k);
      }
    }
  }

  // ----- The loop -----

  /** The loop between two iterations; it goes on while the outcome is StillPolling. */
  datatype Loop = Loop(now: int, interval: Duration, polls: seq<Poll>, outcome: Outcome)

  /** One iteration. */
  function Iterated(l: Loop, deadline: int, step: Step): Loop {
    if l.outcome != StillPolling then l
    else if deadline <= l.now then l.(outcome := DeviceExpired)
    else
      var woke := Woke(l.now, l.interval, deadline, step);
      if step.cancelled then l.(outcome := WaitCancelled)
      else if woke >= deadline then l.(outcome := DeviceExpired)
      else
        var polled := l.(now := woke + step.requestTook, polls := l.polls + [Poll(woke, l.interval)]);
        match step.answer
        case Granted => polled.(outcome := Session)
        case Pending => polled
        case SlowDown => polled.(interval := Wrap(l.interval + SLOW_DOWN_INCREMENT))
        case _ => polled.(outcome := Failed(step.answer))
  }

  /** The loop after what the first k iterations met. */
  function After(start: int, expires: Duration, base: Duration, steps: seq<Step>, k: nat): (l: Loop)
    requires k <= |steps|
    ensures |l.polls| <= k
  {
    if k == 0 then Loop(start, base, [], StillPolling)
    else Iterated(After(start, expires, base, steps, k - 1), start + expires, steps[k - 1])
  }

  /** The polls of a whole run. */
  function PollsOf(start: int, expires: Duration, base: Duration, steps: seq<Step>): (polls: seq<Poll>)
    ensures |polls| <= |steps|
  {
    After(start, expires, base, steps, |steps|).polls
  }

  lemma PollsAreAfter(start: int, expires: Duration, base: Duration, steps: seq<Step>)
    ensures PollsOf(start, expires, base, steps) == After(start, expires, base, steps, |steps|).polls
    ensures After(start, expires, base, steps, 0) == Loop(start, base, [], StillPolling)
  {
  }

  lemma OneIteration(start: int, expires: Duration, base: Duration, steps: seq<Step>, k: nat)
    requires k < |steps|
    ensures After(start, expires, base, steps, k + 1)
              == Iterated(After(start, expires, base, steps, k), start + expires, steps[k])
    ensures After(start, expires, base, steps, k + 1).outcome != StillPolling ==>
              After(start, expires, base, steps, |steps|) == After(start, expires, base, steps, k + 1)
  {
    hide Iterated;
    if After(start, expires, base, steps, k + 1).outcome != StillPolling {
      EndedStays(start, expires, base, steps, k + 1);
    }
  }

  /** A loop that has ended stays as it is. */
  lemma {:induction false} EndedStays(start: int, expires: Duration, base: Duration, steps: seq<Step>, k: nat)
    requires k <= |steps| && After(start, expires, base, steps, k).outcome != StillPolling
    ensures After(start, expires, base, steps, |steps|) == After(start, expires, base, steps, k)
    decreases |steps| - k
  {
    if k < |steps| {
      EndedStays(start, expires, base, steps, k + 1);
    }
  }

  /** What an iteration does with the end of its sleep. */
  lemma IterationIs(l: Loop, deadline: int, step: Step, result: SleepResult, woke: int)
    requires l.outcome == StillPolling
    requires result == Slept <==> deadline > l.now && !step.cancelled && woke < deadline
    requires result == SleepCancelled <==> deadline > l.now && step.cancelled
    requires deadline > l.now ==> woke == Woke(l.now, l.interval, deadline, step)
    ensures result == SleepExpired ==> Iterated(l, deadline, step) == l.(outcome := DeviceExpired)
    ensures result == SleepCancelled ==> Iterated(l, deadline, step) == l.(outcome := WaitCancelled)
    ensures result == Slept ==>
              Iterated(l, deadline, step)
              == var polled := l.(now := woke + step.requestTook, polls := l.polls + [Poll(woke, l.interval)]);
                 match step.answer
                 case Granted => polled.(outcome := Session)
                 case Pending => polled
                 case SlowDown => polled.(interval := Wrap(l.interval + SLOW_DOWN_INCREMENT))
                 case _ => polled.(outcome := Failed(step.answer))
  {
    hide Wrap, Woke;
  }

  /** One iteration of the loop: sleep, poll, and act on the answer. */
  method PollOnce(now: int, interval: Duration, polls: seq<Poll>, deadline: int, step: Step) returns (next: Loop)
    ensures next == Iterated(Loop(now, interval, polls, StillPolling), deadline, step)
  {
    hide *;
    var result, woke := SleepBeforeDeadline(now, interval, deadline, step);
    IterationIs(Loop(now, interval, polls, StillPolling), deadline, step, result, woke);
    next := Loop(now, interval, polls, StillPolling);
    match result {
      case SleepExpired => return next.(outcome := DeviceExpired);
      case SleepCancelled => return next.(outcome := WaitCancelled);
      case Slept =>
    }
    next := next.(now := woke + step.requestTook, polls := polls + [Poll(woke, interval)]);
    match step.answer {
      case Granted => next := next.(outcome := Session);
      case Pending =>
      case SlowDown => next := next.(interval := Wrap(interval + SLOW_DOWN_INCREMENT));
      case _ => next := next.(outcome := Failed(step.answer));
    }
  }

  /** The polling loop of loginGrokDevice, for any finite stretch of the outside world. */
  method PollGrok(start: int, expires: Duration, base: Duration, steps: seq<Step>)
    returns (outcome: Outcome, polls: seq<Poll>)
    ensures outcome == After(start, expires, base, steps, |steps|).outcome
              && polls == PollsOf(start, expires, base, steps)
  {
    hide *;
    polls := [];
    var now := start;
    var deadline := start + expires;
    var interval := base;
    var i := 0;
    PollsAreAfter(start, expires, base, steps);
    while i < |steps|
      invariant 0 <= i <= |steps|
      invariant After(start, expires, base, steps, i) == Loop(now, interval, polls, StillPolling)
    {
      OneIteration(start, expires, base, steps, i);
      var next := PollOnce(now, interval, polls, deadline, steps[i]);
      now, interval, polls := next.now, next.interval, next.polls;
      if next.outcome != StillPolling {
        return next.outcome, polls;
      }
      i := i + 1;
    }
    outcome := StillPolling;
  }

  /** What holds of the loop after k iterations: while it goes on, each has polled. */
  ghost predicate LoopInv(start: int, expires: Duration, base: Duration, steps: seq<Step>, k: nat, l: Loop)
    requires k <= |steps|
  {
    && |l.polls| <= k
    && Spaced(start, expires, base, steps, l.polls)
    && (forall j :: 0 <= j < |l.polls| - 1 ==> steps[j].answer.Pending? || steps[j].answer.SlowDown?)
    && l.now == WaitFrom(start, steps, l.polls, |l.polls|)
    && match l.outcome
       case StillPolling =>
         && |l.polls| == k && l.interval == IntervalAt(base, steps, k)
         && forall j :: 0 <= j < k ==> steps[j].answer.Pending? || steps[j].answer.SlowDown?
       case Session => |l.polls| > 0 && steps[|l.polls| - 1].answer == Granted
       case Failed(answer) =>
         |l.polls| > 0 && steps[|l.polls| - 1].answer == answer && answer in {Denied, ExpiredToken, OtherError}
       case WaitCancelled => |l.polls| < k && l.now < start + expires && steps[|l.polls|].cancelled
       case DeviceExpired =>
         |l.polls| < k && (l.now >= start + expires || OverstaysAt(start, expires, base, steps, |l.polls|, l.now))
  }

  /** The whole k-th wait, begun at `now`, would end at the deadline or later. */
  ghost predicate OverstaysAt(start: int, expires: Duration, base: Duration, steps: seq<Step>, k: nat, now: int)
    requires k < |steps|
  {
    var interval := IntervalAt(base, steps, k);
    !steps[k].cancelled && now + (if interval > 0 then interval else 0) + steps[k].overslept >= start + expires
  }

  lemma EndedKeepsInv(start: int, expires: Duration, base: Duration, steps: seq<Step>, k: nat, l: Loop)
    requires k < |steps| && LoopInv(start, expires, base, steps, k, l) && l.outcome != StillPolling
    ensures LoopInv(start, expires, base, steps, k + 1, l)
  {
    hide Spaced;
  }

  lemma ExpiredKeepsInv(start: int, expires: Duration, base: Duration, steps: seq<Step>, k: nat, l: Loop,
                        outcome: Outcome)
    requires k < |steps| && LoopInv(start, expires, base, steps, k, l) && l.outcome == StillPolling
    requires outcome == DeviceExpired || (outcome == WaitCancelled && l.now < start + expires && steps[k].cancelled)
    requires outcome == DeviceExpired ==>
               l.now >= start + expires || OverstaysAt(start, expires, base, steps, k, l.now)
    ensures LoopInv(start, expires, base, steps, k + 1, l.(outcome := outcome))
  {
    hide Spaced;
  }

  /** An iteration that polls. */
  lemma PolledKeepsInv(start: int, expires: Duration, base: Duration, steps: seq<Step>, k: nat, l: Loop, next: Loop)
    requires k < |steps| && LoopInv(start, expires, base, steps, k, l) && l.outcome == StillPolling
    requires l.now < start + expires && !steps[k].cancelled && next == Iterated(l, start + expires, steps[k])
    requires Woke(l.now, l.interval, start + expires, steps[k]) < start + expires
    ensures LoopInv(start, expires, base, steps, k + 1, next)
  {
    hide Spaced, Wrap;
    OnePollMore(start, expires, base, steps, l.polls,
                Poll(Woke(l.now, l.interval, start + expires, steps[k]), l.interval));
    assert IntervalAt(base, steps, k + 1)
        == if steps[k].answer.SlowDown? then Wrap(IntervalAt(base, steps, k) + SLOW_DOWN_INCREMENT)
            else IntervalAt(base, steps, k);
    hide IntervalAt;
  }

  lemma WaitedTooLong(start: int, expires: Duration, base: Duration, steps: seq<Step>, k: nat, l: Loop)
    requires k < |steps| && LoopInv(start, expires, base, steps, k, l) && l.outcome == StillPolling
    requires l.now < start + expires && !steps[k].cancelled
    requires Woke(l.now, l.interval, start + expires, steps[k]) >= start + expires
    ensures OverstaysAt(start, expires, base, steps, k, l.now)
  {
    hide Spaced, IntervalAt;
  }

  lemma IterationKeepsInv(start: int, expires: Duration, base: Duration, steps: seq<Step>, k: nat, l: Loop)
    requires k < |steps| && LoopInv(start, expires, base, steps, k, l)
    ensures LoopInv(start, expires, base, steps, k + 1, Iterated(l, start + expires, steps[k]))
  {
    hide LoopInv, Woke, Wrap;
    var deadline := start + expires;
    if l.outcome != StillPolling {
      EndedKeepsInv(start, expires, base, steps, k, l);
    } else if deadline <= l.now || steps[k].cancelled || Woke(l.now, l.interval, deadline, steps[k]) >= deadline {
      if deadline > l.now && !steps[k].cancelled {
        WaitedTooLong(start, expires, base, steps, k, l);
      }
      ExpiredKeepsInv(start, expires, base, steps, k, l, Iterated(l, deadline, steps[k]).outcome);
    } else {
      PolledKeepsInv(start, expires, base, steps, k, l, Iterated(l, deadline, steps[k]));
    }
  }

  lemma LoopBegins(start: int, expires: Duration, base: Duration, steps: seq<Step>)
    ensures LoopInv(start, expires, base, steps, 0, After(start, expires, base, steps, 0))
  {
  }

  lemma {:induction false} LoopKeepsInv(start: int, expires: Duration, base: Duration, steps: seq<Step>, k: nat)
    requires k <= |steps|
    ensures LoopInv(start, expires, base, steps, k, After(start, expires, base, steps, k))
  {
    if k == 0 {
      LoopBegins(start, expires, base, steps);
    } else {
      hide *;
      LoopKeepsInv(start, expires, base, steps, k - 1);
      OneIteration(start, expires, base, steps, k - 1);
      IterationKeepsInv(start, expires, base, steps, k - 1, After(start, expires, base, steps, k - 1));
    }
  }

  /**
   Every run: each poll waited the interval in force and was in time, the loop went on only after
   pending and slow_down, and it ended for the reason it gives.
   */
  lemma RunsAreSpaced(start: int, expires: Duration, base: Duration, steps: seq<Step>)
    ensures Spaced(start, expires, base, steps, PollsOf(start, expires, base, steps))
    ensures LoopInv(start, expires, base, steps, |steps|, After(start, expires, base, steps, |steps|))
  {
    LoopKeepsInv(start, expires, base, steps, |steps|);
  }

  // ----- Properties of every run -----

  /** No interval of a poll can leave the 64-bit range: a slow_down cannot wrap, or there is no poll at all. */
  predicate NeverWraps(base: Duration, expires: Duration) {
    base <= MAX_DURATION - SLOW_DOWN_INCREMENT || expires <= base
  }

  /**
   The k-th poll comes after all the intervals waited so far, each of them exact: from the second poll
   on two intervals lie behind it, so neither can be near the end of the 64-bit range.
   */
  lemma {:induction false} PollsAreLate(start: int, expires: Duration, base: Duration, steps: seq<Step>,
                                        polls: seq<Poll>, k: nat)
    requires Spaced(start, expires, base, steps, polls) && k < |polls|
    requires base >= SECOND && NeverWraps(base, expires)
    ensures polls[k].interval == Slowed(base, SlowDowns(steps, k)) && polls[k].interval >= SECOND
    ensures polls[k].at >= start + InSeconds(k + 1)
    ensures polls[k].at - start >= polls[k].interval
    ensures k > 0 ==> polls[k].at - start >= polls[k].interval + polls[k - 1].interval
  {
    assert InTime(start, expires, base, steps, polls, k);
    if k > 0 {
      PollsAreLate(start, expires, base, steps, polls, k - 1);
      assert InTime(start, expires, base, steps, polls, k - 1);
      var before := polls[k - 1].interval;
      assert before == IntervalAt(base, steps, k - 1);
      assert before + SLOW_DOWN_INCREMENT <= MAX_DURATION by {
        if k > 1 {
          assert InTime(start, expires, base, steps, polls, k - 2);
          assert before <= polls[k - 2].interval + SLOW_DOWN_INCREMENT by {
            PollsAreLate(start, expires, base, steps, polls, k - 2);
          }
        }
      }
    }
  }

  /** The distance between consecutive polls is at least the base plus 5 s for every slow_down so far. */
  ghost predicate KeepsDistance(base: Duration, steps: seq<Step>, polls: seq<Poll>)
    requires |polls| <= |steps|
  {
    forall k :: 0 < k < |polls| ==> polls[k].at - polls[k - 1].at >= Slowed(base, SlowDowns(steps, k))
  }

  /**
   Consecutive polls are at least the interval in force apart, that interval being the base plus 5 s
   for every slow_down, and fewer polls are sent than there are seconds in the code's lifetime: the
   loop ends whatever the server answers.
   */
  lemma PollsAreSpacedAndFew(start: int, expires: Duration, base: Duration, steps: seq<Step>, polls: seq<Poll>)
    requires Spaced(start, expires, base, steps, polls)
    requires base >= SECOND && NeverWraps(base, expires)
    ensures KeepsDistance(base, steps, polls)
    ensures |polls| > 0 ==> InSeconds(|polls|) < expires
  {
    forall k | 0 < k < |polls|
      ensures polls[k].at - polls[k - 1].at >= Slowed(base, SlowDowns(steps, k))
    {
      PollsAreLate(start, expires, base, steps, polls, k);
      assert InTime(start, expires, base, steps, polls, k);
    }
    if |polls| > 0 {
      var last := |polls| - 1;
      PollsAreLate(start, expires, base, steps, polls, last);
      assert InTime(start, expires, base, steps, polls, last);
    }
  }

  /**
   The condition is exact over the loop's own runs: with a base within 5 s of the largest duration and a
   lifetime beyond it, the first slow_down wraps the interval to a negative one, and the next poll does
   not wait.
   */
  lemma DistanceIsKeptExactlyWhen(expires: Duration, base: Duration)
    requires base >= SECOND
    ensures (forall start, steps :: KeepsDistance(base, steps, PollsOf(start, expires, base, steps)))
        <==> NeverWraps(base, expires)
  {
    if NeverWraps(base, expires) {
      forall start, steps ensures KeepsDistance(base, steps, PollsOf(start, expires, base, steps)) {
        RunsAreSpaced(start, expires, base, steps);
        PollsAreSpacedAndFew(start, expires, base, steps, PollsOf(start, expires, base, steps));
      }
    } else {
      WrappedIntervalDoesNotWait(expires, base);
      var steps := [Step(false, 0, 0, SlowDown), Step(false, 0, 0, Pending)];
      assert SlowDowns(steps, 1) == SlowDowns(steps, 0) + 1;
      var polls := PollsOf(0, expires, base, steps);
      assert polls[1].at - polls[0].at == 0;
    }
  }

  /** The run of a loop that is told to slow down and then to wait: its second poll comes at once. */
  lemma WrappedIntervalDoesNotWait(expires: Duration, base: Duration)
    requires base >= SECOND && !NeverWraps(base, expires)
    ensures PollsOf(0, expires, base, [Step(false, 0, 0, SlowDown), Step(false, 0, 0, Pending)])
         == [Poll(base, base), Poll(base, Wrap(base + SLOW_DOWN_INCREMENT))]
  {
    var steps := [Step(false, 0, 0, SlowDown), Step(false, 0, 0, Pending)];
    assert After(0, expires, base, steps, 0) == Loop(0, base, [], StillPolling);
    var next := Wrap(base + SLOW_DOWN_INCREMENT);
    assert next < 0;
    assert After(0, expires, base, steps, 1) == Loop(base, next, [Poll(base, base)], StillPolling);
    assert After(0, expires, base, steps, 2) == Loop(base, next, [Poll(base, base), Poll(base, next)], StillPolling);
  }

  /**
   The Grok base interval is at least a second whatever the server sends, because it is floored, and 5 s by
   default.
   */
  lemma GrokIntervalIsFloored(seconds: Seconds, overflow: Duration)
    ensures DurationFromSeconds(seconds, DEFAULT_INTERVAL, true, overflow) >= 1_000_000_000
    ensures seconds == NotANumber ==>
              DurationFromSeconds(seconds, DEFAULT_INTERVAL, true, overflow) == 5_000_000_000
  {
  }

  /**
   The OpenAI loop does not floor. Its interval is no pause at all exactly when the server sends a
   positive number that is below a nanosecond, or so large that the conversion overflows to nothing
   or less.
   */
  lemma UnflooredIntervalVanishesExactlyWhen(seconds: Seconds, fallback: Duration, overflow: Duration)
    requires fallback > 0
    ensures DurationFromSeconds(seconds, fallback, false, overflow) <= 0
       <==> && seconds.Finite? && seconds.value > 0.0
            && (seconds.value * 1_000_000_000.0 < 1.0
                 || (seconds.value * 1_000_000_000.0 >= (MAX_DURATION + 1) as real && overflow <= 0))
  {
    assert SECOND as real == 1_000_000_000.0;
    if seconds.Finite? && seconds.value > 0.0 {
      var nanos := seconds.value * 1_000_000_000.0;
      assert nanos == seconds.value * (SECOND as real);
      assert nanos.Floor as real <= nanos < nanos.Floor as real + 1.0;
    }
  }

  /** Such a number exists, so the OpenAI loop may poll without a pause. */
  lemma UnflooredIntervalMayVanish(overflow: Duration)
    ensures DurationFromSeconds(Finite(0.0000000001), DEFAULT_INTERVAL, false, overflow) == 0
  {
    assert (0.0000000001 * (SECOND as real)) == 0.1;
  }
}
