/**
 Many updaters, one target (selfupdate/lock_unix.go, selfupdate/target.go, beginSession in
 selfupdate/session.go). A process resolves the target, waits for the user, then begins a session:
 it takes the target's lock and checks that the target is still the file it resolved.
 */
module TargetLock {
  import opened Options

  // ----- Waiting for the lock -----

  /** One try: the lock file is opened, checked and locked without blocking. */
  datatype Attempt = Taken | Busy | Broken

  datatype Acquired = Held | ConcurrentUpdate | Cancelled | LockError

  /**
   acquireLock. The k-th try is `tries(k)`; `clock(k)` is the time right after it, which a pause of
   10 ms separates from the next; `cancelled(k)` is the context at the top of the loop, and
   `interrupted(k)` whether it is done before the k-th pause is over.
   */
  method AcquireLock(timeout: int, begun: int, tries: nat -> Attempt, clock: nat -> int, cancelled: nat -> bool,
                     interrupted: nat -> bool)
    returns (r: Acquired, attempts: nat)
    requires timeout >= 0
    requires clock(0) >= begun && forall k: nat :: clock(k + 1) >= clock(k) + 10_000_000
    ensures forall k: nat :: k + 1 < attempts ==> tries(k) == Busy && clock(k) <= begun + timeout
    ensures r == Held ==> attempts > 0 && tries(attempts - 1) == Taken
    ensures r == LockError ==> attempts > 0 && tries(attempts - 1) == Broken
    ensures r == ConcurrentUpdate ==>
              attempts > 0 && tries(attempts - 1) == Busy && (timeout == 0 || clock(attempts - 1) > begun + timeout)
    ensures r == Cancelled ==> cancelled(attempts) || (attempts > 0 && interrupted(attempts - 1))
    ensures timeout == 0 ==> attempts <= 1
    ensures attempts <= timeout / 10_000_000 + 2
  {
    attempts := 0;
    while true
      invariant forall k: nat :: k < attempts ==> tries(k) == Busy && clock(k) <= begun + timeout
      invariant attempts > 0 ==> timeout > 0 && clock(attempts - 1) <= begun + timeout
      invariant attempts > 0 ==> clock(attempts - 1) >= begun + 10_000_000 * (attempts - 1)
      invariant attempts <= timeout / 10_000_000 + 1
      decreases timeout / 10_000_000 + 2 - attempts
    {
      if cancelled(attempts) {
        return Cancelled, attempts;
      }
      var attempt := tries(attempts);
      attempts := attempts + 1;
      if attempt == Taken {
        return Held, attempts;
      }
      if attempt != Busy {
        return LockError, attempts;
      }
      if attempts > 1 {
        assert clock((attempts - 2) + 1) >= clock(attempts - 2) + 10_000_000;
      }
      if timeout == 0 || clock(attempts - 1) > begun + timeout {
        return ConcurrentUpdate, attempts;
      }
      if interrupted(attempts - 1) {
        return Cancelled, attempts;
      }
    }
  }

  // ----- All processes -----

  type Proc = nat
  type Version = nat

  /** What the identity check compares: inode, size, modification time. */
  datatype Stamp = Stamp(inode: nat, size: nat, mtime: int)

  /**
   A file that is or was the target is a version; two versions may carry the same stamp. An open
   session knows the target, and the version its last replacement keeps as a backup.
   */
  datatype Phase =
    | Idle
    | Resolved(version: Version)
    | Locked(version: Version)
    | Open(version: Version, current: Version, backup: Option<Version>)

  /** `stamps` are the stamps of all versions so far. A process that has not started is not in `procs`. */
  datatype State = State(target: Version, stamps: map<Version, Stamp>, lock: Option<Proc>, procs: map<Proc, Phase>)

  /**
   FailBegin is a begin that fails under the lock for any other reason than the identity: a stale
   receipt that cannot be removed, a target that cannot be resolved or looked at. PutBack renames a
   hard-linked backup back; a copied backup put back is a Replace like any other.
   */
  datatype Step =
    | Resolve(p: Proc)
    | TakeLock(p: Proc)
    | Refuse(p: Proc)
    | Revalidate(p: Proc)
    | FailBegin(p: Proc)
    | Replace(p: Proc, version: Version, stamp: Stamp)
    | PutBack(p: Proc)
    | Close(p: Proc)
    | Crash(p: Proc)

  function PhaseOf(s: State, p: Proc): Phase {
    if p in s.procs then s.procs[p] else Idle
  }

  function Entered(s: State, p: Proc, phase: Phase): State {
    s.(procs := s.procs[p := phase])
  }

  /** Closing the lock file, on purpose or by dying, gives up the lock. */
  function Unlocked(s: State, p: Proc): State {
    if s.lock == Some(p) then s.(lock := None) else s
  }

  /** sameTargetIdentity: same inode, same size, same modification time. */
  predicate SameIdentity(s: State, version: Version) {
    version in s.stamps && s.target in s.stamps && s.stamps[version] == s.stamps[s.target]
  }

  /** The staging file exists beside the target, so its inode is not the target's. */
  predicate Enabled(s: State, step: Step) {
    match step
    case Resolve(p) => PhaseOf(s, p).Idle?
    case TakeLock(p) => PhaseOf(s, p).Resolved? && s.lock == None
    case Refuse(p) => PhaseOf(s, p).Resolved?
    case Revalidate(p) => PhaseOf(s, p).Locked?
    case FailBegin(p) => PhaseOf(s, p).Locked?
    case Replace(p, version, stamp) =>
      PhaseOf(s, p).Open? && version !in s.stamps && s.target in s.stamps && stamp.inode != s.stamps[s.target].inode
    case PutBack(p) => PhaseOf(s, p).Open? && PhaseOf(s, p).backup.Some?
    case Close(p) => PhaseOf(s, p).Open?
    case Crash(p) => true
  }

  function Next(s: State, step: Step): State
    requires Enabled(s, step)
  {
    var phase := PhaseOf(s, step.p);
    match step
    case Resolve(p) => Entered(s, p, Resolved(s.target))
    case TakeLock(p) => Entered(s, p, Locked(phase.version)).(lock := Some(p))
    case Refuse(p) => Entered(s, p, Idle)
    case Revalidate(p) =>
      if SameIdentity(s, phase.version) then Entered(s, p, Open(phase.version, s.target, None))
      else Unlocked(Entered(s, p, Idle), p)
    case FailBegin(p) => Unlocked(Entered(s, p, Idle), p)
    case Replace(p, version, stamp) =>
      Entered(s, p, Open(phase.version, version, Some(s.target))).(target := version,
                                                                   stamps := s.stamps[version := stamp])
    case PutBack(p) =>
      Entered(s, p, Open(phase.version, phase.backup.value, None)).(target := phase.backup.value)
    case Close(p) => Unlocked(Entered(s, p, Idle), p)
    case Crash(p) => Unlocked(Entered(s, p, Idle), p)
  }

  predicate Holding(phase: Phase) {
    phase.Locked? || phase.Open?
  }

  ghost predicate Known(s: State, phase: Phase) {
    match phase
    case Idle => true
    case Resolved(v) => v in s.stamps
    case Locked(v) => v in s.stamps
    case Open(v, c, b) => v in s.stamps && c == s.target && (b.Some? ==> b.value in s.stamps)
  }

  /** Exactly the lock's holder is past the lock, versions are known, and an open session knows the target. */
  ghost predicate Inv(s: State) {
    && s.target in s.stamps
    && (forall p :: p in s.procs ==> Known(s, s.procs[p]) && (Holding(s.procs[p]) ==> s.lock == Some(p)))
    && (s.lock.Some? ==> Holding(PhaseOf(s, s.lock.value)))
  }

  lemma StepKeepsInv(s: State, step: Step)
    requires Inv(s) && Enabled(s, step)
    ensures Inv(Next(s, step))
  {
  }

  // ----- Runs -----

  ghost predicate IsRun(s: State, steps: seq<Step>)
    decreases |steps|
  {
    steps == [] || (Enabled(s, steps[0]) && IsRun(Next(s, steps[0]), steps[1..]))
  }

  ghost function After(s: State, steps: seq<Step>): State
    requires IsRun(s, steps)
    decreases |steps|
  {
    if steps == [] then s else After(Next(s, steps[0]), steps[1..])
  }

  /** Nobody has started. */
  ghost predicate Initial(s: State) {
    s.procs == map[] && s.lock == None && s.target in s.stamps
  }

  lemma {:induction false} RunKeepsInv(s: State, steps: seq<Step>)
    requires Inv(s) && IsRun(s, steps)
    ensures Inv(After(s, steps))
    decreases |steps|
  {
    if steps != [] {
      StepKeepsInv(s, steps[0]);
      RunKeepsInv(Next(s, steps[0]), steps[1..]);
    }
  }

  /** In every run, at most one process has a session open, and that process holds the lock. */
  lemma AtMostOneSession(s: State, steps: seq<Step>, p: Proc, q: Proc)
    requires Initial(s) && IsRun(s, steps)
    requires PhaseOf(After(s, steps), p).Open? && PhaseOf(After(s, steps), q).Open?
    ensures p == q && After(s, steps).lock == Some(p)
  {
    RunKeepsInv(s, steps);
  }

  /** While a session is open, nothing the others do changes the target, the lock or the session. */
  lemma {:induction false} SessionIsUndisturbed(s: State, steps: seq<Step>, p: Proc)
    requires Inv(s) && IsRun(s, steps) && PhaseOf(s, p).Open?
    requires forall k :: 0 <= k < |steps| ==> steps[k].p != p
    ensures After(s, steps).target == s.target && After(s, steps).lock == s.lock
              && PhaseOf(After(s, steps), p) == PhaseOf(s, p)
    decreases |steps|
  {
    if steps != [] {
      var next, rest := Next(s, steps[0]), steps[1..];
      assert steps[0].p != p;
      StepKeepsInv(s, steps[0]);
      forall k | 0 <= k < |rest| ensures rest[k].p != p {
        assert rest[k] == steps[k + 1];
      }
      SessionIsUndisturbed(next, rest, p);
    }
  }

  // ----- Beginning replaces the file that was resolved -----

  ghost predicate DistinctStamps(s: State) {
    forall v, w :: v in s.stamps && w in s.stamps && s.stamps[v] == s.stamps[w] ==> v == w
  }

  /** No replacement of the run carries the stamp of a version there already was. */
  ghost predicate FreshStamps(s: State, steps: seq<Step>)
    requires IsRun(s, steps)
    decreases |steps|
  {
    steps == [] ||
    ((steps[0].Replace? ==> forall v :: v in s.stamps ==> s.stamps[v] != steps[0].stamp)
        && FreshStamps(Next(s, steps[0]), steps[1..]))
  }

  lemma {:induction false} StampsStayDistinct(s: State, steps: seq<Step>)
    requires IsRun(s, steps) && FreshStamps(s, steps) && DistinctStamps(s)
    ensures DistinctStamps(After(s, steps))
    decreases |steps|
  {
    if steps != [] {
      StampsStayDistinct(Next(s, steps[0]), steps[1..]);
    }
  }

  /**
   After any run whose replacements carry fresh stamps, a begin succeeds exactly when the target still
   is the file its process resolved: an update committed in between makes it fail.
   */
  lemma BeginSucceedsExactlyWhenUnchanged(s: State, steps: seq<Step>, p: Proc)
    requires Initial(s) && DistinctStamps(s) && IsRun(s, steps) && FreshStamps(s, steps)
    requires PhaseOf(After(s, steps), p).Locked?
    ensures var now := After(s, steps);
            PhaseOf(Next(now, Revalidate(p)), p).Open? <==> now.target == PhaseOf(now, p).version
  {
    RunKeepsInv(s, steps);
    StampsStayDistinct(s, steps);
  }

  // ----- Exactly when a begin succeeds -----

  /** A version keeps its stamp in every continuation. */
  lemma {:induction false} StampsAreFixed(s: State, steps: seq<Step>, v: Version)
    requires IsRun(s, steps) && v in s.stamps
    ensures v in After(s, steps).stamps && After(s, steps).stamps[v] == s.stamps[v]
    decreases |steps|
  {
    if steps != [] {
      StampsAreFixed(Next(s, steps[0]), steps[1..], v);
    }
  }

  /** A version a replacement of the run brought has the stamp it was brought with. */
  lemma {:induction false} ReplacementKeepsItsStamp(s: State, steps: seq<Step>, k: nat)
    requires IsRun(s, steps) && k < |steps| && steps[k].Replace?
    ensures steps[k].version in After(s, steps).stamps && After(s, steps).stamps[steps[k].version] == steps[k].stamp
    decreases |steps|
  {
    var next, rest := Next(s, steps[0]), steps[1..];
    if k == 0 {
      StampsAreFixed(next, rest, steps[0].version);
    } else {
      assert rest[k - 1] == steps[k];
      ReplacementKeepsItsStamp(next, rest, k - 1);
    }
  }

  /**
   For every run of any number of processes, and no assumption on stamps: when a process that has
   resolved v comes to its begin, and the target then is the file a replacement brought since, the
   begin succeeds exactly when that file carries the stamp v had when it was resolved.
   */
  lemma BeginSucceedsExactlyWhenStampsAgree(s: State, a: seq<Step>, b: seq<Step>, k: nat, p: Proc)
    requires Initial(s) && IsRun(s, a) && IsRun(After(s, a), b)
    requires PhaseOf(After(s, a), p).Resolved?
    requires var now := After(After(s, a), b);
             && PhaseOf(now, p) == Locked(PhaseOf(After(s, a), p).version)
             && k < |b| && b[k].Replace? && now.target == b[k].version
    ensures var early, now := After(s, a), After(After(s, a), b);
            PhaseOf(early, p).version in early.stamps &&
            (PhaseOf(Next(now, Revalidate(p)), p).Open? <==> b[k].stamp == early.stamps[PhaseOf(early, p).version])
  {
    RunKeepsInv(s, a);
    StampsAreFixed(After(s, a), b, PhaseOf(After(s, a), p).version);
    ReplacementKeepsItsStamp(After(s, a), b, k);
  }

  /**
   And whatever changed the target, or nothing: the begin succeeds exactly when the present target's stamp is
   the resolved file's.
   */
  lemma BeginComparesStampsOnly(s: State, steps: seq<Step>, p: Proc)
    requires Initial(s) && IsRun(s, steps) && PhaseOf(After(s, steps), p).Locked?
    ensures var now := After(s, steps); var v := PhaseOf(now, p).version;
            && v in now.stamps && now.target in now.stamps
            && (PhaseOf(Next(now, Revalidate(p)), p).Open? <==>
                  now.target == v || now.stamps[now.target] == now.stamps[v])
  {
    RunKeepsInv(s, steps);
  }

  ghost predicate ByOthers(steps: seq<Step>, p: Proc) {
    forall k :: 0 <= k < |steps| ==> steps[k].p != p
  }

  /**
   From resolving to replacing: after any run whose replacements carry fresh stamps, a begin that
   succeeds, and whatever the other processes do then, the first replacement of the session replaces,
   and keeps as its backup, the very file its process resolved.
   */
  lemma FirstReplacementReplacesTheResolved(s: State, steps: seq<Step>, others: seq<Step>, p: Proc, version: Version,
                                            stamp: Stamp)
    requires Initial(s) && DistinctStamps(s) && IsRun(s, steps) && FreshStamps(s, steps)
    requires PhaseOf(After(s, steps), p).Locked? && PhaseOf(Next(After(s, steps), Revalidate(p)), p).Open?
    requires IsRun(Next(After(s, steps), Revalidate(p)), others) && ByOthers(others, p)
    requires Enabled(After(Next(After(s, steps), Revalidate(p)), others), Replace(p, version, stamp))
    ensures var resolved := PhaseOf(After(s, steps), p).version;
            var before := After(Next(After(s, steps), Revalidate(p)), others);
            && before.target == resolved
            && PhaseOf(Next(before, Replace(p, version, stamp)), p) == Open(resolved, version, Some(resolved))
  {
    var now := After(s, steps);
    BeginSucceedsExactlyWhenUnchanged(s, steps, p);
    RunKeepsInv(s, steps);
    StepKeepsInv(now, Revalidate(p));
    SessionIsUndisturbed(Next(now, Revalidate(p)), others, p);
  }

  /** A begin that fails leaves the target alone and gives the lock back. */
  lemma RefusedBeginChangesNothing(s: State, p: Proc, step: Step)
    requires Inv(s) && PhaseOf(s, p).Locked?
    requires step == FailBegin(p) || (step == Revalidate(p) && !SameIdentity(s, PhaseOf(s, p).version))
    ensures Next(s, step).target == s.target && Next(s, step).lock == None && PhaseOf(Next(s, step), p).Idle?
  {
  }

  lemma {:induction false} RunsCompose(s: State, a: seq<Step>, b: seq<Step>)
    requires IsRun(s, a) && IsRun(After(s, a), b)
    ensures IsRun(s, a + b) && After(s, a + b) == After(After(s, a), b)
    decreases |a|
  {
    if a == [] {
      assert a + b == b;
    } else {
      RunsCompose(Next(s, a[0]), a[1..], b);
      assert (a + b)[1..] == a[1..] + b;
    }
  }

  lemma RunStep(s: State, step: Step, rest: seq<Step>)
    requires Enabled(s, step) && IsRun(Next(s, step), rest)
    ensures IsRun(s, [step] + rest) && After(s, [step] + rest) == After(Next(s, step), rest)
  {
    assert ([step] + rest)[1..] == rest;
  }

  lemma FourSteps(s: State, a: Step, b: Step, c: Step, d: Step)
    requires Enabled(s, a) && Enabled(Next(s, a), b) && Enabled(Next(Next(s, a), b), c)
              && Enabled(Next(Next(Next(s, a), b), c), d)
    ensures IsRun(s, [a, b, c, d]) && After(s, [a, b, c, d]) == Next(Next(Next(Next(s, a), b), c), d)
  {
    hide Enabled, Next;
    var s1 := Next(s, a);
    var s2 := Next(s1, b);
    var s3 := Next(s2, c);
    RunStep(s3, d, []);
    RunStep(s2, c, [d] + []);
    RunStep(s1, b, [c] + ([d] + []));
    RunStep(s, a, [b] + ([c] + ([d] + [])));
    assert [a] + ([b] + ([c] + ([d] + []))) == [a, b, c, d];
  }

  /** One process resolves, a second one begins a session. */
  const RESOLVE_AND_BEGIN := [Resolve(1), Resolve(2), TakeLock(2), Revalidate(2)]

  /**
   The second one replaces the target twice, the second time by a file with a given stamp; the first takes the
   lock.
   */
  function UpdateTwice(w: Version, x: Version, between: Stamp, last: Stamp): seq<Step> {
    [Replace(2, w, between), Replace(2, x, last), Close(2), TakeLock(1)]
  }

  lemma ResolveAndBegin(s: State)
    requires Initial(s)
    ensures IsRun(s, RESOLVE_AND_BEGIN)
    ensures After(s, RESOLVE_AND_BEGIN)
              == State(s.target, s.stamps, Some(2), map[1 := Resolved(s.target), 2 := Open(s.target, s.target, None)])
  {
    var s2 := Next(Next(s, Resolve(1)), Resolve(2));
    var s3 := Next(s2, TakeLock(2));
    FourSteps(s, Resolve(1), Resolve(2), TakeLock(2), Revalidate(2));
    assert Next(s3, Revalidate(2)).procs == map[1 := Resolved(s.target), 2 := Open(s.target, s.target, None)];
  }

  lemma UpdatesTwice(s: State, v: Version, w: Version, x: Version, between: Stamp, last: Stamp)
    requires v in s.stamps && s.target == v && w !in s.stamps && x !in s.stamps && w != x
    requires between.inode != s.stamps[v].inode && last.inode != between.inode
    requires s.lock == Some(2) && s.procs == map[1 := Resolved(v), 2 := Open(v, v, None)]
    ensures IsRun(s, UpdateTwice(w, x, between, last))
    ensures After(s, UpdateTwice(w, x, between, last))
              == State(x, s.stamps[w := between][x := last], Some(1), map[1 := Locked(v), 2 := Idle])
  {
    var s1 := Next(s, Replace(2, w, between));
    var s2 := Next(s1, Replace(2, x, last));
    var s3 := Next(s2, Close(2));
    FourSteps(s, Replace(2, w, between), Replace(2, x, last), Close(2), TakeLock(1));
    assert Next(s3, TakeLock(1)).procs == map[1 := Locked(v), 2 := Idle];
  }

  /**
   Fresh stamps are needed: the first process then begins on a target it never resolved exactly when
   the last update carries the resolved file's inode number, size and modification time, which a
   reused inode and a clock set back allow.
   */
  lemma ReusedStampIsOverwritten(s: State, w: Version, x: Version, between: Stamp, last: Stamp)
    requires Initial(s) && w !in s.stamps && x !in s.stamps && w != x
    requires between.inode != s.stamps[s.target].inode && last.inode != between.inode
    ensures var steps := RESOLVE_AND_BEGIN + UpdateTwice(w, x, between, last);
            && IsRun(s, steps) && After(s, steps).target == x && x != s.target
            && PhaseOf(After(s, steps), 1) == Locked(s.target)
            && (PhaseOf(Next(After(s, steps), Revalidate(1)), 1).Open? <==> last == s.stamps[s.target])
  {
    ResolveAndBegin(s);
    UpdatesTwice(After(s, RESOLVE_AND_BEGIN), s.target, w, x, between, last);
    RunsCompose(s, RESOLVE_AND_BEGIN, UpdateTwice(w, x, between, last));
  }

  // ----- Giving back -----

  /** A session that replaced the target and puts its backup back leaves the file it found, whatever others did. */
  lemma PutBackRestoresTheTarget(s: State, p: Proc, version: Version, stamp: Stamp, others: seq<Step>)
    requires Inv(s) && Enabled(s, Replace(p, version, stamp))
    requires IsRun(Next(s, Replace(p, version, stamp)), others) && ByOthers(others, p)
    ensures var replaced := After(Next(s, Replace(p, version, stamp)), others);
            && replaced.target == version && version !in s.stamps
            && Enabled(replaced, PutBack(p))
            && Next(replaced, PutBack(p)).target == s.target
  {
    StepKeepsInv(s, Replace(p, version, stamp));
    SessionIsUndisturbed(Next(s, Replace(p, version, stamp)), others, p);
  }

  /** Closing a session or losing its process frees the lock for the next one, and leaves the target as it is. */
  lemma EndingFreesTheLock(s: State, p: Proc, step: Step, q: Proc)
    requires Inv(s) && PhaseOf(s, p).Open? && step in {Close(p), Crash(p)}
    requires q != p && PhaseOf(s, q).Resolved?
    ensures !Enabled(s, TakeLock(q))
    ensures Enabled(s, step) && Enabled(Next(s, step), TakeLock(q)) && Next(s, step).target == s.target
  {
  }
}
