/**
 Bounded retries with exponential, jittered backoff over wrapping 64-bit shifts
 (llmprovider/provider.go, retryWithBackoff).
 */
module RetryBackoff {
  import opened Options
  import opened ApiErrors

  const TWO_63 := 0x8000_0000_0000_0000
  const TWO_64 := 0x1_0000_0000_0000_0000

  /** A 64-bit signed duration. */
  type Duration = d: int | -TWO_63 <= d < TWO_63

  function Pow2(k: nat): (p: nat)
    ensures p >= 1
  {
    if k == 0 then 1 else 2 * Pow2(k - 1)
  }

  /** Two's complement wrap-around to 64 bits. */
  function Wrap(x: int): (r: Duration)
    ensures -TWO_63 <= x < TWO_63 ==> r == x
  {
    var m := x % TWO_64;
    if m >= TWO_63 then m - TWO_64 else m
  }

  /** Go's shift: bits leave on the left, and a count of 64 or more gives 0. */
  function Shl(d: Duration, k: nat): Duration {
    if k >= 64 then 0 else Wrap(d * Pow2(k))
  }

  /** The delay before attempt i, before jitter. */
  function Base(delay: Duration, i: nat): (b: Duration)
    requires i >= 1
    ensures 0 < b <= RETRY_BACKOFF_CAP
  {
    var b := Shl(delay, i - 1);
    if b <= 0 || b > RETRY_BACKOFF_CAP then RETRY_BACKOFF_CAP else b
  }

  /** rand.N(n): any value of [0, n). The first argument is the attempt. */
  ghost predicate IsRand(rand: (nat, int) -> int) {
    forall i: nat, n: int :: n > 0 ==> 0 <= rand(i, n) < n
  }

  datatype Outcome = Succeeded | Stopped(last: Failure) | Exhausted(last: Failure) | Cancelled

  /** The wait before attempt i: the base and its jitter, unless the server set it. */
  method WaitFor(err: Failure, delay: Duration, i: nat, rand: (nat, int) -> int) returns (wait: int)
    requires IsRand(rand) && i >= 1
    ensures WaitAfter(err, delay, i, wait) && Jittered(err, Base(delay, i), i, wait, rand)
  {
    var base := Base(delay, i);
    wait := base;
    if base / 4 > 0 {
      wait := wait + rand(i, base / 4);
    }
    var server := ServerRetryAfter(err);
    if server > 0 {
      wait := server;
    }
  }

  /**
   retryWithBackoff. The call's k-th result is `result(k)` (None is success) and the context is
   cancelled during the wait before attempt i exactly when `cancelled(i)`.
   */
  method RetryWithBackoff(retries: int, delay: Duration, result: nat -> Option<Failure>,
                          cancelled: nat -> bool, rand: (nat, int) -> int)
    returns (outcome: Outcome, calls: nat, waits: seq<int>)
    requires IsRand(rand)
    ensures 1 <= calls <= (if retries > 0 then retries else 0) + 1
    ensures forall k :: 0 <= k < calls - 1 ==> result(k).Some? && !RetryStops(result(k).value)
    ensures |waits| == (if outcome.Cancelled? then calls else calls - 1)
    ensures forall k :: 0 <= k < |waits| ==> result(k).Some? && WaitAfter(result(k).value, delay, k + 1, waits[k])
    ensures forall k :: 0 <= k < |waits| ==> Jittered(result(k).value, Base(delay, k + 1), k + 1, waits[k], rand)
    ensures forall k :: 0 < k < calls ==> !cancelled(k)
    ensures match outcome
            case Succeeded => result(calls - 1).None?
            case Stopped(last) => result(calls - 1) == Some(last) && RetryStops(last)
            case Exhausted(last) => result(calls - 1) == Some(last) && !RetryStops(last)
                && calls == (if retries > 0 then retries else 0) + 1
            case Cancelled => result(calls - 1).Some? && !RetryStops(result(calls - 1).value) && cancelled(calls)
  {
    hide WaitAfter, Jittered, RetryStops, IsRand;
    var most: nat := if retries > 0 then retries else 0;
    calls, waits := 0, [];
    var last: Option<Failure> := None;
    var i := 0;
    while i <= most
      invariant 0 <= i <= most + 1
      invariant calls == i
      invariant |waits| == if i == 0 then 0 else i - 1
      invariant i > 0 ==> last.Some? && last == result(i - 1)
      invariant forall k :: 0 <= k < i ==> result(k).Some? && !RetryStops(result(k).value)
      invariant forall k :: 0 <= k < |waits| ==> result(k).Some? && WaitAfter(result(k).value, delay, k + 1, waits[k])
      invariant forall k :: 0 <= k < |waits| ==> Jittered(result(k).value, Base(delay, k + 1), k + 1, waits[k], rand)
      invariant forall k :: 0 < k < i ==> !cancelled(k)
    {
      if i > 0 {
        var wait := WaitFor(last.value, delay, i, rand);
        waits := waits + [wait];
        if cancelled(i) {
          return Cancelled, calls, waits;
        }
      }
      var r := result(i);
      calls := calls + 1;
      match r {
        case None => return Succeeded, calls, waits;
        case Some(err) =>
          if RetryStops(err) {
            return Stopped(err), calls, waits;
          }
      }
      last := r;
      i := i + 1;
    }
    outcome := Exhausted(last.value);
  }

  /**
   A wait of w before attempt i, after the failure `err`: the server's delay if it gave one, else the base and
   less than a quarter more.
   */
  ghost predicate WaitAfter(err: Failure, delay: Duration, i: nat, w: int)
    requires i >= 1
  {
    if ServerRetryAfter(err) > 0 then w == ServerRetryAfter(err)
    else Base(delay, i) <= w && (w == Base(delay, i) || 4 * (w - Base(delay, i)) < Base(delay, i))
  }

  /** A wait the server did not set is the base and what the random numbers give of its quarter. */
  predicate Jittered(err: Failure, base: int, i: nat, w: int, rand: (nat, int) -> int) {
    ServerRetryAfter(err) <= 0 && base >= 4 ==> w == base + rand(i, base / 4)
  }

  /** Whatever the initial delay, a wait is positive, below 37.5 s, and at most 30 s when the server set it. */
  lemma WaitsAreBounded(err: Failure, delay: Duration, i: nat, w: int)
    requires i >= 1 && !RetryStops(err) && WaitAfter(err, delay, i, w)
    ensures 0 < w < 37_500_000_000
    ensures ServerRetryAfter(err) > 0 ==> w <= 30_000_000_000
  {
    if err.RateLimit? {
      assert err.retryAfter <= RETRY_BACKOFF_CAP;
    }
  }

  /** The documented backoff: doubled each time, and never above the cap. */
  function Exponential(delay: Duration, i: nat): int
    requires i >= 1
  {
    var d := delay * Pow2(i - 1);
    if d > RETRY_BACKOFF_CAP then RETRY_BACKOFF_CAP else d
  }

  /**
   For a positive delay the wait follows the documented backoff except where the shift wraps round
   to a positive value below the cap.
   */
  lemma ExponentialExactlyWhen(delay: Duration, i: nat)
    requires delay > 0 && i >= 1
    ensures Base(delay, i) == Exponential(delay, i)
       <==> delay * Pow2(i - 1) < TWO_63 || !(0 < Shl(delay, i - 1) < RETRY_BACKOFF_CAP)
  {
    var exact := delay * Pow2(i - 1);
    ProductGrows(delay, Pow2(i - 1));
    if exact >= TWO_63 {
      assert Exponential(delay, i) == RETRY_BACKOFF_CAP;
    } else {
      if i - 1 >= 64 {
        Pow2Grows(63, i - 1);
        Pow2Of63();
        assert false;
      }
    }
  }

  lemma ProductGrows(a: int, b: int)
    requires a >= 1 && b >= 1
    ensures a * b >= b && a * b >= a
  {
  }

  lemma {:induction false} Pow2Grows(j: nat, k: nat)
    requires j <= k
    ensures Pow2(j) <= Pow2(k)
  {
    if j < k {
      Pow2Grows(j, k - 1);
    }
  }

  lemma {:induction false} Pow2Adds(j: nat, k: nat)
    ensures Pow2(j + k) == Pow2(j) * Pow2(k)
  {
    if j > 0 {
      Pow2Adds(j - 1, k);
    }
  }

  lemma Pow2Of63()
    ensures Pow2(30) == 0x4000_0000 && Pow2(63) == TWO_63
  {
    assert Pow2(10) == 1024;
    Pow2Adds(10, 10);
    Pow2Adds(20, 10);
    Pow2Adds(30, 30);
    assert Pow2(3) == 8;
    Pow2Adds(60, 3);
  }

  /** With an initial delay within the cap, the first 29 retries follow the documented backoff. */
  lemma EarlyRetriesAreExponential(delay: Duration, i: nat)
    requires 0 < delay <= RETRY_BACKOFF_CAP && 1 <= i <= 29
    ensures Base(delay, i) == Exponential(delay, i)
  {
    Pow2Grows(i - 1, 28);
    assert Pow2(28) == 0x1000_0000 by {
      Pow2Of63();
      assert Pow2(30) == 4 * Pow2(28);
    }
    MulMonotone(delay, Pow2(i - 1), 0x1000_0000);
    ExponentialExactlyWhen(delay, i);
  }

  lemma MulMonotone(a: nat, b: nat, c: nat)
    requires b <= c
    ensures a * b <= a * c
  {
  }

  /** A delay of 17.179869185 s wraps at retry 31: the wait falls back to 2^30 ns instead of the cap. */
  lemma LateRetryWraps()
    ensures Base(0x4_0000_0001, 31) == 0x4000_0000
    ensures Exponential(0x4_0000_0001, 31) == 30_000_000_000
  {
    Pow2Of63();
  }

  /** A delay of zero is not "no wait": it waits the cap. */
  lemma ZeroDelayWaitsTheCap(i: nat)
    requires i >= 1
    ensures Base(0, i) == 30_000_000_000
  {
  }
}
