/**
 The order of the steps of a managed installation (selfupdate/managed.go, Install and recover), apart
 from what they do: which sequences of calls can occur, and what holds of every one of them.
 */
module ManagedProtocol {
  import opened Machines

  // ----- The sequences that can occur -----

  /** recover: a restore if the receipt asks for one, a rollback if there is a backup, then the restart. */
  ghost predicate Recovering(t: seq<Call>, restoring: bool, rollingBack: bool, restarting: bool)
    decreases restoring, rollingBack
  {
    if restoring then t != [] && t[0].Restore? && Recovering(t[1..], false, rollingBack, restarting)
    else if rollingBack then t != [] && t[0].Rollback? && Recovering(t[1..], false, false, restarting)
    else if restarting then t == [Start(false)] || (|t| == 2 && t[0] == Start(true) && t[1].WaitHealthy?)
    else t == []
  }

  ghost predicate AfterStart(t: seq<Call>, speaks: bool) {
    && t != [] && t[0].WaitHealthy?
    && if t[0].ok then |t| == 2 && t[1].Commit? else Recovering(t[1..], speaks, true, true)
  }

  ghost predicate AfterReconcile(t: seq<Call>, speaks: bool) {
    && t != [] && t[0].Start?
    && if t[0].ok then AfterStart(t[1..], speaks) else Recovering(t[1..], speaks, true, true)
  }

  ghost predicate AfterApply(t: seq<Call>) {
    && t != [] && t[0].Reconcile?
    && if t[0].ok then AfterReconcile(t[1..], t[0].speaks) else Recovering(t[1..], t[0].speaks, true, true)
  }

  ghost predicate AfterProbes(t: seq<Call>, stopped: bool) {
    && t != [] && t[0].Apply?
    && if t[0].ok then AfterApply(t[1..]) else Recovering(t[1..], false, false, stopped)
  }

  ghost predicate WhileRunning(t: seq<Call>) {
    t != [] && t[0].Stop? && if t[0].ok then AfterProbes(t[1..], true) else |t| == 1
  }

  ghost predicate AfterInstalled(t: seq<Call>) {
    && t != [] && t[0].Running?
    && match t[0].probe
       case Unknown => |t| == 1
       case No => AfterProbes(t[1..], false)
       case Yes => WhileRunning(t[1..])
  }

  ghost predicate Accepted(t: seq<Call>) {
    t != [] && t[0].Installed? && if t[0].probe == Yes then AfterInstalled(t[1..]) else |t| == 1
  }

  // ----- What holds of all of them -----

  /** The run ends with a start, and the health check after it when it succeeded. */
  predicate EndsWithStart(t: seq<Call>) {
    |t| > 0 && (t[|t| - 1] == Start(false) || (|t| > 1 && t[|t| - 2] == Start(true) && t[|t| - 1].WaitHealthy?))
  }

  function LastStart(t: seq<Call>): nat
    requires EndsWithStart(t)
  {
    if t[|t| - 1] == Start(false) then |t| - 1 else |t| - 2
  }

  /** The last start succeeded. */
  predicate Restarted(t: seq<Call>) {
    EndsWithStart(t) && t[LastStart(t)].ok
  }

  /** The last start succeeded and so did the health check after it. */
  predicate Proved(t: seq<Call>) {
    |t| > 1 && t[|t| - 2] == Start(true) && t[|t| - 1] == WaitHealthy(true)
  }

  /** The new binary had been started, or an attempt made, before the last start. */
  ghost predicate StartedBefore(t: seq<Call>)
    requires EndsWithStart(t)
  {
    exists k :: 0 <= k < LastStart(t) && t[k].Start?
  }

  /** The new binary had come up but did not prove healthy. */
  ghost predicate HealthFailed(t: seq<Call>) {
    EndsWithStart(t) && exists k :: 0 <= k < LastStart(t) && t[k] == WaitHealthy(false)
  }

  predicate Commits(t: seq<Call>) {
    |t| > 0 && t[|t| - 1].Commit?
  }

  ghost predicate Has(t: seq<Call>, call: Call) {
    call in t
  }

  ghost predicate Restores(t: seq<Call>) {
    Has(t, Restore(true)) || Has(t, Restore(false))
  }

  ghost predicate RollsBack(t: seq<Call>) {
    Has(t, Rollback(true)) || Has(t, Rollback(false))
  }

  ghost predicate SpeaksAt(t: seq<Call>, k: nat) {
    k < |t| && t[k].Reconcile? && t[k].speaks
  }

  ghost predicate RewritesAt(t: seq<Call>, k: nat) {
    k < |t| && t[k].Reconcile? && t[k].changed
  }

  /** Some reconcile left a receipt that asks for a restore. */
  ghost predicate Spoke(t: seq<Call>) {
    exists k: nat :: SpeaksAt(t, k)
  }

  /** Some reconcile left another definition than it found. */
  ghost predicate Rewrote(t: seq<Call>) {
    exists k: nat :: RewritesAt(t, k)
  }

  lemma PrependReconciles(c: Call, t: seq<Call>)
    ensures Spoke([c] + t) <==> (c.Reconcile? && c.speaks) || Spoke(t)
    ensures Rewrote([c] + t) <==> (c.Reconcile? && c.changed) || Rewrote(t)
  {
    var u := [c] + t;
    forall k: nat ensures SpeaksAt(u, k + 1) <==> SpeaksAt(t, k) ensures RewritesAt(u, k + 1) <==> RewritesAt(t, k) {
    }
    assert SpeaksAt(u, 0) <==> c.Reconcile? && c.speaks;
    assert RewritesAt(u, 0) <==> c.Reconcile? && c.changed;
    if Spoke(u) {
      var k: nat :| SpeaksAt(u, k);
      assert k > 0 ==> SpeaksAt(t, k - 1);
    }
    if Rewrote(u) {
      var k: nat :| RewritesAt(u, k);
      assert k > 0 ==> RewritesAt(t, k - 1);
    }
    if Spoke(t) {
      var k: nat :| SpeaksAt(t, k);
      assert SpeaksAt(u, k + 1);
    }
    if Rewrote(t) {
      var k: nat :| RewritesAt(t, k);
      assert RewritesAt(u, k + 1);
    }
  }

  /**
   A commit is the last call, and directly follows a successful health check of a service just started on the
   applied binary.
   */
  ghost predicate CommitsOnlyConfirmed(t: seq<Call>) {
    forall k :: 0 <= k < |t| && t[k].Commit? ==>
      k == |t| - 1 && k >= 4 && t[k - 1] == WaitHealthy(true) && t[k - 2] == Start(true) && t[k - 3].Reconcile?
          && t[k - 3].ok && t[k - 4] == Apply(true)
  }

  /** The last start comes after every other call but health checks, so after the restore and the rollback. */
  ghost predicate StartsLast(t: seq<Call>) {
    EndsWithStart(t) && forall k :: 0 <= k < |t| && !t[k].Start? && !t[k].WaitHealthy? ==> k < LastStart(t)
  }

  ghost predicate RestoresFirst(t: seq<Call>) {
    forall j, k :: 0 <= j < |t| && 0 <= k < |t| && t[j].Restore? && t[k].Rollback? ==> j < k
  }

  /** What is undone is exactly what was done, and only on a run that does not commit. */
  ghost predicate UndoesExactly(t: seq<Call>, applied: bool, spoke: bool) {
    && (RollsBack(t) <==> applied && !Commits(t))
    && (Restores(t) <==> spoke && !Commits(t))
    && RestoresFirst(t)
  }

  lemma {:induction false} RecoveryFacts(t: seq<Call>, restoring: bool, rollingBack: bool, restarting: bool)
    requires Recovering(t, restoring, rollingBack, restarting)
    ensures !Commits(t) && UndoesExactly(t, rollingBack, restoring)
    ensures forall k :: 0 <= k < |t| ==> t[k].Restore? || t[k].Rollback? || t[k].Start? || t[k].WaitHealthy?
    ensures if restarting then StartsLast(t) else forall k :: 0 <= k < |t| ==> !t[k].Start?
    ensures restarting ==> !StartedBefore(t) && !HealthFailed(t)
    decreases restoring, rollingBack
  {
    if restoring {
      RecoveryFacts(t[1..], false, rollingBack, restarting);
      assert t == [t[0]] + t[1..];
    } else if rollingBack {
      RecoveryFacts(t[1..], false, false, restarting);
      assert t == [t[0]] + t[1..];
    }
  }

  /** Adding an earlier call that neither undoes nor commits keeps what is known of the rest. */
  lemma Prepend(c: Call, t: seq<Call>, applied: bool, spoke: bool)
    requires t != [] && UndoesExactly(t, applied, spoke) && !c.Restore? && !c.Rollback?
    ensures UndoesExactly([c] + t, applied, spoke) && Commits([c] + t) == Commits(t)
    ensures StartsLast(t) ==> StartsLast([c] + t)
    ensures !c.Reconcile? ==> (Spoke([c] + t) <==> Spoke(t))
    ensures forall x :: Has([c] + t, x) <==> x == c || Has(t, x)
  {
    PrependReconciles(c, t);
    PrependHas(c, t);
    hide Spoke, Has;
    var u := [c] + t;
    assert forall k :: 0 < k < |u| ==> u[k] == t[k - 1];
    if StartsLast(t) {
      PrependBeforeStart(c, t);
    }
    hide StartsLast;
  }

  lemma PrependHas(c: Call, t: seq<Call>)
    ensures forall x :: Has([c] + t, x) <==> x == c || Has(t, x)
  {
  }

  lemma PrependBeforeStart(c: Call, t: seq<Call>)
    requires StartsLast(t)
    ensures StartsLast([c] + t)
  {
    var u := [c] + t;
    assert forall k :: 0 < k < |u| ==> u[k] == t[k - 1];
    assert u[|u| - 1] == t[|t| - 1] && (|t| > 1 ==> u[|u| - 2] == t[|t| - 2]);
    assert LastStart(u) == LastStart(t) + 1;
  }

  lemma AfterStartFacts(t: seq<Call>, speaks: bool)
    requires AfterStart(t, speaks)
    ensures UndoesExactly(t, true, speaks) && (!Commits(t) ==> StartsLast(t))
    ensures forall k :: 0 <= k < |t| && t[k].Commit? ==> k == |t| - 1 == 1 && t[0] == WaitHealthy(true)
    ensures forall k :: 0 <= k < |t| ==> !t[k].Apply? && !t[k].Stop? && !t[k].Reconcile?
  {
    assert t == [t[0]] + t[1..];
    if !t[0].ok {
      RecoveryFacts(t[1..], speaks, true, true);
      Prepend(t[0], t[1..], true, speaks);
    }
  }

  lemma AfterReconcileFacts(t: seq<Call>, speaks: bool)
    requires AfterReconcile(t, speaks)
    ensures UndoesExactly(t, true, speaks) && (!Commits(t) ==> StartsLast(t))
    ensures forall k :: 0 <= k < |t| && t[k].Commit? ==>
              k == |t| - 1 == 2 && t[1] == WaitHealthy(true) && t[0] == Start(true)
    ensures forall k :: 0 <= k < |t| ==> !t[k].Apply? && !t[k].Stop? && !t[k].Reconcile?
  {
    assert t == [t[0]] + t[1..];
    if t[0].ok {
      AfterStartFacts(t[1..], speaks);
    } else {
      RecoveryFacts(t[1..], speaks, true, true);
    }
    Prepend(t[0], t[1..], true, speaks);
  }

  /** After the reconcile itself, nothing is applied, stopped or reconciled again. */
  lemma AfterApplyShape(t: seq<Call>)
    requires AfterApply(t)
    ensures forall k :: 0 <= k < |t| ==> !t[k].Apply? && !t[k].Stop? && (t[k].Reconcile? ==> k == 0)
    ensures (Spoke(t) <==> t[0].speaks) && (Rewrote(t) <==> t[0].changed)
  {
    var rest := t[1..];
    assert t == [t[0]] + rest;
    if t[0].ok {
      AfterReconcileFacts(rest, t[0].speaks);
    } else {
      RecoveryFacts(rest, t[0].speaks, true, true);
    }
    assert forall k :: 1 <= k < |t| ==> t[k] == rest[k - 1];
    assert SpeaksAt(t, 0) <==> t[0].speaks;
    assert RewritesAt(t, 0) <==> t[0].changed;
  }

  lemma AfterApplyFacts(t: seq<Call>)
    requires AfterApply(t)
    ensures UndoesExactly(t, true, t[0].speaks) && (!Commits(t) ==> StartsLast(t))
  {
    var rest := t[1..];
    assert t == [t[0]] + rest;
    if t[0].ok {
      AfterReconcileFacts(rest, t[0].speaks);
    } else {
      RecoveryFacts(rest, t[0].speaks, true, true);
    }
    Prepend(t[0], rest, true, t[0].speaks);
  }

  lemma AfterApplyCommits(t: seq<Call>)
    requires AfterApply(t)
    ensures forall k :: 0 <= k < |t| && t[k].Commit? ==>
              k == |t| - 1 == 3 && t[2] == WaitHealthy(true) && t[1] == Start(true) && t[0].Reconcile? && t[0].ok
  {
    assert t == [t[0]] + t[1..];
    if t[0].ok {
      AfterReconcileFacts(t[1..], t[0].speaks);
    } else {
      RecoveryFacts(t[1..], t[0].speaks, true, true);
    }
  }

  lemma AfterProbesCommits(t: seq<Call>, stopped: bool)
    requires AfterProbes(t, stopped)
    ensures CommitsOnlyConfirmed(t)
  {
    assert t == [t[0]] + t[1..];
    if t[0].ok {
      AfterApplyCommits(t[1..]);
    } else {
      RecoveryFacts(t[1..], false, false, stopped);
    }
  }

  lemma AfterProbesFacts(t: seq<Call>, stopped: bool)
    requires AfterProbes(t, stopped)
    ensures UndoesExactly(t, Has(t, Apply(true)), Spoke(t))
    ensures !Commits(t) && (stopped || Has(t, Apply(true))) ==> StartsLast(t)
    ensures forall k :: 0 <= k < |t| ==> !t[k].Stop?
  {
    assert t == [t[0]] + t[1..];
    if t[0].ok {
      AfterApplyFacts(t[1..]);
      AfterApplyShape(t[1..]);
      Prepend(t[0], t[1..], true, t[1].speaks);
    } else {
      RecoveryFacts(t[1..], false, false, stopped);
      if t[1..] != [] {
        Prepend(t[0], t[1..], false, false);
      }
    }
  }

  ghost predicate Facts(t: seq<Call>) {
    && CommitsOnlyConfirmed(t)
    && UndoesExactly(t, Has(t, Apply(true)), Spoke(t))
    && (!Commits(t) && (Has(t, Stop(true)) || Has(t, Apply(true))) ==> StartsLast(t))
  }

  /** A probe in front of a run changes none of its facts. */
  lemma PrependProbe(c: Call, t: seq<Call>)
    requires t != [] && Facts(t) && (c.Installed? || c.Running?)
    ensures Facts([c] + t)
  {
    Prepend(c, t, Has(t, Apply(true)), Spoke(t));
    CommitPositionIsKept(c, t);
  }

  lemma CommitPositionIsKept(c: Call, t: seq<Call>)
    requires CommitsOnlyConfirmed(t) && !c.Commit?
    ensures CommitsOnlyConfirmed([c] + t)
  {
    var u := [c] + t;
    forall k | 0 <= k < |u| && u[k].Commit?
      ensures k == |u| - 1 && k >= 4 && u[k - 1] == WaitHealthy(true) && u[k - 2] == Start(true)
                && u[k - 3].Reconcile? && u[k - 3].ok && u[k - 4] == Apply(true)
    {
      assert t[k - 1].Commit?;
    }
  }

  lemma WhileRunningFacts(t: seq<Call>)
    requires WhileRunning(t)
    ensures Facts(t)
  {
    if t[0].ok {
      AfterProbesFacts(t[1..], true);
      AfterProbesCommits(t[1..], true);
      assert t == [t[0]] + t[1..];
      Prepend(t[0], t[1..], Has(t[1..], Apply(true)), Spoke(t[1..]));
      CommitPositionIsKept(t[0], t[1..]);
    }
  }

  lemma AfterInstalledFacts(t: seq<Call>)
    requires AfterInstalled(t)
    ensures Facts(t)
  {
    if t[0].probe != Unknown {
      if t[0].probe == No {
        AfterProbesFacts(t[1..], false);
        AfterProbesCommits(t[1..], false);
      } else {
        WhileRunningFacts(t[1..]);
      }
      assert t == [t[0]] + t[1..];
      PrependProbe(t[0], t[1..]);
    }
  }

  /**
   Every run of a managed installation:
   commits only directly after the service, started on the applied binary, proved healthy;
   when it does not commit, undoes exactly what was done, definition first;
   and when it does not commit after a stop succeeded, or after the binary was applied, calls start,
   after everything else.
   */
  lemma RunFacts(t: seq<Call>)
    requires Accepted(t)
    ensures CommitsOnlyConfirmed(t)
    ensures UndoesExactly(t, Has(t, Apply(true)), Spoke(t))
    ensures !Commits(t) && (Has(t, Stop(true)) || Has(t, Apply(true))) ==> StartsLast(t)
  {
    if t[0].probe == Yes {
      AfterInstalledFacts(t[1..]);
      assert t == [t[0]] + t[1..];
      PrependProbe(t[0], t[1..]);
    }
  }

  // ----- What each call leads on to -----

  /**
   While all goes well each call leads on to the next one, up to the commit; an unanswered or negative probe
   ends the run.
   */
  predicate LeadsOn(t: seq<Call>, k: nat)
    requires k < |t|
  {
    var next := if k + 1 < |t| then [t[k + 1]] else [];
    match t[k]
    case Installed(probe) => if probe == Yes then next != [] && next[0].Running? else next == []
    case Running(probe) =>
      if probe == Yes then next != [] && next[0].Stop?
      else if probe == No then next != [] && next[0].Apply?
      else next == []
    case Stop(ok) => if ok then next != [] && next[0].Apply? else next == []
    case Apply(ok) => ok ==> next != [] && next[0].Reconcile?
    case Reconcile(ok, _, _) =>
      ok ==> && next != [] && next[0].Start?
             && (t[k + 1].ok ==> k + 2 < |t| && t[k + 2].WaitHealthy?)
             && (t[k + 1].ok && t[k + 2].ok ==> k + 3 < |t| && t[k + 3].Commit?)
    case Start(ok) => ok ==> next != [] && next[0].WaitHealthy?
    case _ => true
  }

  ghost predicate AllLeadOn(t: seq<Call>) {
    forall k :: 0 <= k < |t| ==> LeadsOn(t, k)
  }

  lemma LeadsOnShift(c: Call, t: seq<Call>, k: nat)
    requires k < |t|
    ensures LeadsOn([c] + t, k + 1) <==> LeadsOn(t, k)
  {
  }

  lemma AllLeadOnFrom(t: seq<Call>)
    requires t != [] && LeadsOn(t, 0) && AllLeadOn(t[1..])
    ensures AllLeadOn(t)
  {
    hide LeadsOn;
    assert t == [t[0]] + t[1..];
    forall k | 0 <= k < |t| ensures LeadsOn(t, k) {
      if k > 0 {
        LeadsOnShift(t[0], t[1..], k - 1);
      }
    }
  }

  lemma {:induction false} RecoveryLeadsOn(t: seq<Call>, restoring: bool, rollingBack: bool, restarting: bool)
    requires Recovering(t, restoring, rollingBack, restarting)
    ensures AllLeadOn(t)
    decreases restoring, rollingBack
  {
    if restoring {
      RecoveryLeadsOn(t[1..], false, rollingBack, restarting);
      AllLeadOnFrom(t);
    } else if rollingBack {
      RecoveryLeadsOn(t[1..], false, false, restarting);
      AllLeadOnFrom(t);
    }
  }

  lemma StartLeadsOn(t: seq<Call>, speaks: bool)
    requires AfterReconcile(t, speaks)
    ensures AllLeadOn(t)
  {
    hide Recovering;
    if !t[0].ok {
      RecoveryLeadsOn(t[1..], speaks, true, true);
    } else if !t[1].ok {
      RecoveryLeadsOn(t[1..][1..], speaks, true, true);
      AllLeadOnFrom(t[1..]);
    } else {
      AllLeadOnFrom(t[1..]);
    }
    AllLeadOnFrom(t);
  }

  lemma ApplyLeadsOn(t: seq<Call>, stopped: bool)
    requires AfterProbes(t, stopped)
    ensures AllLeadOn(t)
  {
    hide Recovering;
    if !t[0].ok {
      RecoveryLeadsOn(t[1..], false, false, stopped);
    } else {
      if t[1].ok {
        StartLeadsOn(t[1..][1..], t[1].speaks);
      } else {
        RecoveryLeadsOn(t[1..][1..], t[1].speaks, true, true);
      }
      AllLeadOnFrom(t[1..]);
    }
    AllLeadOnFrom(t);
  }

  /**
   In every run each call leads on: a service found running is stopped before the apply, the applied binary's
   definition is reconciled, then it is started, then its health awaited, and a healthy one is committed.
   */
  lemma EachCallLeadsOn(t: seq<Call>)
    requires Accepted(t)
    ensures t[0].Installed? && AllLeadOn(t)
  {
    if t[0].probe == Yes {
      var u := t[1..];
      if u[0].probe == No {
        ApplyLeadsOn(u[1..], false);
        AllLeadOnFrom(u);
      } else if u[0].probe == Yes {
        if u[1].ok {
          ApplyLeadsOn(u[1..][1..], true);
        }
        AllLeadOnFrom(u[1..]);
        AllLeadOnFrom(u);
      }
      AllLeadOnFrom(t);
    }
  }

  // ----- A stop that fails -----

  /** A run from the apply on has no stop in it, and if the service was stopped it ends with a start or a commit. */
  lemma AfterProbesEnds(t: seq<Call>)
    requires AfterProbes(t, true)
    ensures !Has(t, Stop(false)) && (StartsLast(t) || Commits(t))
  {
    AfterProbesFacts(t, true);
  }

  lemma FirstAndRest(t: seq<Call>)
    requires t != []
    ensures t == [t[0]] + t[1..]
    ensures forall x :: Has(t, x) <==> x == t[0] || Has(t[1..], x)
  {
    assert t == [t[0]] + t[1..];
    PrependHas(t[0], t[1..]);
  }

  lemma FailedStopEndsWhileRunning(t: seq<Call>)
    requires WhileRunning(t) && Has(t, Stop(false))
    ensures t == [Stop(false)]
  {
    FirstAndRest(t);
    if t[0].ok {
      AfterProbesEnds(t[1..]);
    }
  }

  lemma FailedStopEndsAfterInstalled(t: seq<Call>)
    requires AfterInstalled(t) && Has(t, Stop(false))
    ensures t == [Running(Yes), Stop(false)]
  {
    FirstAndRest(t);
    match t[0].probe
    case Unknown =>
    case No => AfterProbesFacts(t[1..], false);
    case Yes => FailedStopEndsWhileRunning(t[1..]);
  }

  /** A failed stop is the end: there is no recovery and no start, although the service may be down by then. */
  lemma FailedStopEndsTheRun(t: seq<Call>)
    requires Accepted(t) && Has(t, Stop(false))
    ensures t == [Installed(Yes), Running(Yes), Stop(false)]
  {
    FirstAndRest(t);
    if t[0].probe == Yes {
      FailedStopEndsAfterInstalled(t[1..]);
    }
  }

  /** A run that found the service running ends with a start or with a commit exactly when no stop failed in it. */
  lemma RunningServiceIsStartedExactlyWhen(t: seq<Call>)
    requires Accepted(t) && Has(t, Running(Yes))
    ensures EndsWithStart(t) || Commits(t) <==> !Has(t, Stop(false))
  {
    if Has(t, Stop(false)) {
      FailedStopEndsTheRun(t);
    } else {
      RunFacts(t);
      var u := t[1..];
      assert t == [t[0]] + u;
      RunningComesSecond(t);
      var v := u[1..];
      assert v[0] == t[2] && v[0].Stop?;
      assert Has(t, v[0]);
      assert Has(t, Stop(true));
    }
  }

  /** The service is probed once, right after the definition. */
  lemma RunningComesSecond(t: seq<Call>)
    requires Accepted(t) && Has(t, Running(Yes))
    ensures |t| > 2 && t[0] == Installed(Yes) && t[1] == Running(Yes) && WhileRunning(t[1..][1..])
  {
    var u := t[1..];
    assert t == [t[0]] + u;
    assert Has(u, Running(Yes));
    var v := u[1..];
    assert u == [u[0]] + v;
    if u[0].probe == No {
      AfterProbesShape(v, false);
    }
  }

  lemma AfterProbesShape(t: seq<Call>, stopped: bool)
    requires AfterProbes(t, stopped)
    ensures forall k :: 0 <= k < |t| ==> !t[k].Running?
  {
    var rest := t[1..];
    assert t == [t[0]] + rest;
    if t[0].ok {
      NotProbedAfterApply(rest);
    } else {
      RecoveryFacts(rest, false, false, stopped);
    }
  }

  lemma NotProbedAfterApply(t: seq<Call>)
    requires AfterApply(t)
    ensures forall k :: 0 <= k < |t| ==> !t[k].Running?
  {
    var rest := t[1..];
    assert t == [t[0]] + rest;
    if t[0].ok {
      var last := rest[1..];
      assert rest == [rest[0]] + last;
      if rest[0].ok && !last[0].ok {
        assert last == [last[0]] + last[1..];
        RecoveryFacts(last[1..], t[0].speaks, true, true);
      } else if !rest[0].ok {
        RecoveryFacts(last, t[0].speaks, true, true);
      }
    } else {
      RecoveryFacts(rest, t[0].speaks, true, true);
    }
  }

  // ----- Why a run does not commit -----

  /** A probe that could not tell, or a call to the service or the reconciler that failed. */
  predicate Refuses(c: Call) {
    match c
    case Installed(probe) => probe == Unknown
    case Running(probe) => probe == Unknown
    case Stop(ok) => !ok
    case Reconcile(ok, _, _) => !ok
    case Start(ok) => !ok
    case WaitHealthy(ok) => !ok
    case _ => false
  }

  ghost predicate ServiceCallFailed(t: seq<Call>) {
    exists k :: 0 <= k < |t| && Refuses(t[k])
  }

  ghost predicate HasCause(t: seq<Call>) {
    ServiceCallFailed(t) || Has(t, Apply(false))
  }

  lemma CauseInRest(t: seq<Call>)
    requires t != [] && (Refuses(t[0]) || t[0] == Apply(false) || HasCause(t[1..]))
    ensures HasCause(t)
  {
    if !Refuses(t[0]) && t[0] != Apply(false) {
      FirstAndRest(t);
      if ServiceCallFailed(t[1..]) {
        var k :| 0 <= k < |t[1..]| && Refuses(t[1..][k]);
        assert Refuses(t[k + 1]);
      }
    }
  }

  lemma RestDoesNotCommit(t: seq<Call>)
    requires |t| > 1 && !Commits(t)
    ensures !Commits(t[1..])
  {
  }

  lemma UnappliedAfterApply(t: seq<Call>)
    requires AfterApply(t) && !Commits(t)
    ensures HasCause(t)
  {
    if t[0].ok {
      var u := t[1..];
      if u[0].ok {
        CauseInRest(u[1..]);
      }
      CauseInRest(u);
    }
    CauseInRest(t);
  }

  lemma UnappliedAfterProbes(t: seq<Call>, stopped: bool)
    requires AfterProbes(t, stopped) && !Commits(t)
    ensures HasCause(t)
  {
    if t[0].ok {
      RestDoesNotCommit(t);
      UnappliedAfterApply(t[1..]);
    }
    CauseInRest(t);
  }

  lemma UnappliedWhileRunning(t: seq<Call>)
    requires WhileRunning(t) && !Commits(t)
    ensures HasCause(t)
  {
    if t[0].ok {
      RestDoesNotCommit(t);
      UnappliedAfterProbes(t[1..], true);
    }
    CauseInRest(t);
  }

  /**
   A run of a service's installation that does not commit has a failed call of the service in it, or a
   failed apply.
   */
  lemma UnappliedHasACause(t: seq<Call>)
    requires Accepted(t) && !Commits(t) && t != [Installed(No)]
    ensures HasCause(t)
  {
    if t[0].probe == Yes {
      RestDoesNotCommit(t);
      var u := t[1..];
      match u[0].probe {
        case Unknown =>
        case No =>
          RestDoesNotCommit(u);
          UnappliedAfterProbes(u[1..], false);
        case Yes =>
          RestDoesNotCommit(u);
          UnappliedWhileRunning(u[1..]);
      }
      CauseInRest(u);
    } else {
      assert t == [t[0]];
    }
    CauseInRest(t);
  }

  // ----- A reconcile that says nothing -----

  /**
   A reconcile that fails, having rewritten the definition, and hands out an empty receipt: nothing restores
   the definition.
   */
  const SILENT_RECONCILE := [Installed(Yes), Running(No), Apply(true), Reconcile(false, false, true), Rollback(true),
                             Start(true), WaitHealthy(true)]

  lemma SilentReconcileIsNotUndone()
    ensures Accepted(SILENT_RECONCILE) && Rewrote(SILENT_RECONCILE) && !Restores(SILENT_RECONCILE)
              && !Commits(SILENT_RECONCILE)
  {
    var t := SILENT_RECONCILE;
    assert RewritesAt(t, 3);
    assert t[1..][1..][1..][1..] == [Rollback(true), Start(true), WaitHealthy(true)];
    assert t[1..][1..][1..][1..][1..] == [Start(true), WaitHealthy(true)];
    assert Recovering(t[1..][1..][1..][1..][1..], false, false, true);
    assert Recovering(t[1..][1..][1..][1..], false, true, true);
    assert AfterApply(t[1..][1..][1..]);
    assert AfterProbes(t[1..][1..], false);
    assert AfterInstalled(t[1..]);
  }
}
