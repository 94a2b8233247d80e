/**
 A managed install session (selfupdate/managed.go): the replacement of a service's binary, with the
 service stopped before and started after it, its definition reconciled, and one recovery path.
 */
module ManagedSessions {
  import opened Options
  import opened Disks
  import opened Machines
  import opened ManagedProtocol
  import opened ReplaceUnix
  import opened InstallSessions

  /** The system call was made right after the new service proved healthy. */
  ghost predicate Confirmed(e: Entry) {
    |e.calls| > 0 && e.calls[|e.calls| - 1] == WaitHealthy(true)
  }

  /** The old bytes are kept until the health check has succeeded; the target is always exactly old or staged. */
  ghost predicate SafeUntilConfirmed(trail: seq<Entry>, k: nat, d0: Disk, t: Name, s: Name) {
    && k <= |trail|
    && forall j :: k <= j < |trail| ==>
         Safe(d0, trail[j].disk, t, s)
         || (Confirmed(trail[j]) && Framed(d0, trail[j].disk, t, s) && TargetStaged(d0, trail[j].disk, t, s))
  }

  /**
   After a recovery the target is restored, its mode as the link decides, or its restoring rename failed and
   the backup holds the old bytes.
   */
  ghost predicate RolledBack(d0: Disk, d: Disk, t: Name, s: Name, b: Name, trail: seq<Entry>, k: nat) {
    || (Restored(d0, d, t, s) && ModeDecided(d0, d, t, trail, k))
    || (Swapped(d0, d, t, s, b) && RanRename(trail, k, b, t, false))
  }

  /** The bytes of a file, or none if there is no such file. */
  function BytesOf(d: Disk, n: Name): Bytes {
    if Look(d, n).Some? then Look(d, n).value.bytes else []
  }

  ghost predicate Runs(service: Service, d: Disk, t: Name) {
    service.Up? && Holds(d, t, service.image)
  }

  /** How the part of an installation from the health check on leaves the directory. */
  ghost predicate Settled(d0: Disk, d: Disk, t: Name, s: Name, b: Name, applied: bool, failed: bool,
                          trail: seq<Entry>, k: nat) {
    if applied then Committed(d0, d, t, s) || (failed && Swapped(d0, d, t, s, b))
    else failed && RolledBack(d0, d, t, s, b, trail, k)
  }

  /**
   What the definition is in the end. Applied: the old one exactly when the reconcile left it. Not
   applied, with no restore that failed: exactly when the receipt asked for a restore or the reconcile
   left it.
   */
  ghost predicate DefinitionSettled(tail: seq<Call>, applied: bool, definition: Definition, original: Definition) {
    if applied then definition == original <==> !Rewrote(tail)
    else Has(tail, Restore(false)) || (definition == original <==> Spoke(tail) || !Rewrote(tail))
  }

  /**
   What a recovery's start leaves. Found down, or where a start restarts a running service, the service
   runs what the target holds; found up, elsewhere, it is what was found. Only one that does not prove
   healthy may have died, or come up again on what the target holds.
   */
  ghost predicate Revived(tail: seq<Call>, service: Service, found: Service, restarts: bool, d: Disk, t: Name) {
    Restarted(tail) ==>
      && (service == Down || service == found || Runs(service, d, t))
      && (Proved(tail) ==> if restarts || found == Down then Runs(service, d, t) else service == found)
  }

  /**
   What a start finds of a service that was `left`: it may have died since, or come up again on what the target
   holds.
   */
  ghost predicate Found(left: Service, found: Service, d: Disk, t: Name) {
    found == left || found == Down || Runs(found, d, t)
  }

  /**
   What the service runs in the end. Applied: the staged bytes. Not applied and started again: what that
   start made of the service it found. It found it down, or brought up again, when the new binary was
   never started; after a failed health check also possibly still up on the staged bytes, since the
   recovery does not stop it.
   */
  ghost predicate ServiceSettled(tail: seq<Call>, applied: bool, service: Service, found: Service, restarts: bool,
                                 d: Disk, t: Name, staged: Bytes) {
    && (applied ==> service == Up(staged))
    && (!applied ==> Revived(tail, service, found, restarts, d, t))
    && (!applied && Restarted(tail) ==>
          && (!StartedBefore(tail) ==> found == Down || Runs(found, d, t))
          && (HealthFailed(tail) ==> found == Down || found == Up(staged) || Runs(found, d, t)))
  }

  /**
   After a recovery that put the old bytes back and started a service that then proved healthy: it runs
   them exactly when a start restarts a running service, or the start found the service down or running
   them already. So it does whenever the new binary was never started. After a failed health check the
   one exception is a new binary still up, where a start leaves a running service alone.
   */
  lemma RecoveredServiceRunsOldExactlyWhen(run: seq<Call>, service: Service, found: Service, restarts: bool, d: Disk,
                                           t: Name,
                                           staged: Bytes, previous: Bytes)
    requires ServiceSettled(run, false, service, found, restarts, d, t, staged) && EndsWithStart(run) && Proved(run)
    requires Holds(d, t, previous)
    ensures service == Up(previous) <==> restarts || found == Down || found == Up(previous)
    ensures !StartedBefore(run) ==> service == Up(previous)
    ensures HealthFailed(run) ==>
              found == Down || found == Up(staged) || found == Up(previous)
    ensures HealthFailed(run) && staged != previous ==> (service == Up(previous) <==> restarts || found != Up(staged))
  {
    hide StartedBefore, HealthFailed;
    assert Runs(service, d, t) ==> service == Up(service.image);
    assert Runs(found, d, t) ==> found == Up(found.image);
  }

  /**
   What the service runs after an apply that failed, when the service was started again and is up: the
   recovery rolls nothing back, so it is the staged binary exactly when the rename that was to restore
   the old one failed. When it proved healthy it is up.
   */
  ghost predicate ServiceAfterFailedApply(tail: seq<Call>, service: Service, d0: Disk, t: Name, s: Name,
                                          trail: seq<Entry>, k: nat) {
    Has(tail, Apply(false)) && Restarted(tail) && BytesOf(d0, s) != BytesOf(d0, t) ==>
      && (Proved(tail) ==> service.Up?)
      && (service.Up? ==> (service == Up(BytesOf(d0, s)) <==> RestoreRenameFailed(trail, k, t, s)))
  }

  lemma FailedApplySettlesService(d0: Disk, d: Disk, t: Name, s: Name, backup: Option<Name>, extra: Name,
                                  service: Service, lost: bool)
    requires Closed(d0) && t != s && Runs(service, d, t) && (lost <==> backup.Some?)
    requires if backup.Some? then Swapped(d0, d, t, s, backup.value) else LeftOld(d0, d, t, s, extra)
    ensures service == Up(if lost then BytesOf(d0, s) else BytesOf(d0, t))
  {
    if backup.None? && Look(d0, t).Some? {
      LeftOldIsOld(d0, d, t, s, extra);
    }
    assert service == Up(service.image);
  }

  /**
   With the restoring rename failed, a service restarted and healthy runs the staged binary although the
   backup still holds the old one: there is no rollback.
   */
  lemma FailedRestoreIsNotRolledBack(tail: seq<Call>, stopped: bool, d0: Disk, d: Disk, t: Name, s: Name, b: Name,
                                     service: Service, found: Service, restarts: bool)
    requires AfterProbes(tail, stopped) && tail[0] == Apply(false) && Proved(tail)
    requires ServiceSettled(tail, false, service, found, restarts, d, t, BytesOf(d0, s)) && Swapped(d0, d, t, s, b)
    ensures service == Up(BytesOf(d0, s)) && !RollsBack(tail) && Holds(d, b, BytesOf(d0, t))
  {
    RecoveryFacts(tail[1..], false, false, stopped);
    assert tail == [Apply(false)] + tail[1..];
    AppliedTail(false, stopped, tail[1..]);
    assert service == Up(service.image);
  }

  lemma PrependStart(c: Call, t: seq<Call>)
    requires EndsWithStart(t)
    ensures EndsWithStart([c] + t) && LastStart([c] + t) == LastStart(t) + 1 && Restarted([c] + t) == Restarted(t)
    ensures Proved([c] + t) == Proved(t)
    ensures StartedBefore([c] + t) <==> c.Start? || StartedBefore(t)
    ensures HealthFailed([c] + t) <==> c == WaitHealthy(false) || HealthFailed(t)
  {
    var u := [c] + t;
    assert forall k :: 0 <= k < |t| ==> u[k + 1] == t[k];
    assert u[|u| - 1] == t[|t| - 1] && (|t| > 1 ==> u[|u| - 2] == t[|t| - 2]);
    assert LastStart(u) == LastStart(t) + 1;
    if StartedBefore(t) {
      var k :| 0 <= k < LastStart(t) && t[k].Start?;
      assert u[k + 1].Start?;
    }
    if StartedBefore(u) && !c.Start? {
      var k :| 0 <= k < LastStart(u) && u[k].Start?;
      assert t[k - 1].Start?;
    }
    assert u[0] == c;
    if HealthFailed(t) {
      var k :| 0 <= k < LastStart(t) && t[k] == WaitHealthy(false);
      assert u[k + 1] == WaitHealthy(false);
    }
    if HealthFailed(u) && c != WaitHealthy(false) {
      var k :| 0 <= k < LastStart(u) && u[k] == WaitHealthy(false);
      assert t[k - 1] == WaitHealthy(false);
    }
  }

  /** The calls of a health check that failed and of the recovery after it. */
  lemma UnhealthyTail(recovery: seq<Call>, speaks: bool)
    requires Recovering(recovery, speaks, true, true)
    ensures var tail := [WaitHealthy(false)] + recovery;
            && AfterStart(tail, speaks) && !Commits(tail)
            && EndsWithStart(tail) && !StartedBefore(tail) && HealthFailed(tail)
            && Restarted(tail) == Restarted(recovery) && Proved(tail) == Proved(recovery)
            && (Has(tail, Restore(false)) <==> Has(recovery, Restore(false)))
  {
    RecoveryFacts(recovery, speaks, true, true);
    var tail := [WaitHealthy(false)] + recovery;
    assert tail[1..] == recovery;
    PrependStart(WaitHealthy(false), recovery);
    assert tail[|tail| - 1] == recovery[|recovery| - 1];
  }

  /** How a failed health check and the recovery after it end, as far as the service goes. */
  ghost predicate Unhealthy(tail: seq<Call>, service: Service, found: Service, restarts: bool, d: Disk, t: Name,
                            staged: Bytes) {
    && EndsWithStart(tail) && !StartedBefore(tail) && HealthFailed(tail)
    && (found == Up(staged) || Found(Down, found, d, t))
    && Revived(tail, service, found, restarts, d, t)
  }

  lemma UnhealthyIsRevived(recovery: seq<Call>, speaks: bool, left: Service, service: Service, found: Service,
                           restarts: bool,
                           d: Disk, t: Name, staged: Bytes)
    requires Recovering(recovery, speaks, true, true) && (left == Down || left == Up(staged))
    requires Found(left, found, d, t) && Revived(recovery, service, found, restarts, d, t)
    ensures Unhealthy([WaitHealthy(false)] + recovery, service, found, restarts, d, t, staged)
  {
    UnhealthyTail(recovery, speaks);
    hide Restarted, Proved, Runs;
  }

  lemma SwappedTargetIsStaged(d0: Disk, d: Disk, t: Name, s: Name, b: Name)
    requires Swapped(d0, d, t, s, b)
    ensures Holds(d, t, BytesOf(d0, s))
  {
  }

  lemma TargetExists(d0: Disk, d: Disk, t: Name, s: Name, b: Name)
    requires Swapped(d0, d, t, s, b)
    ensures t in d0.names && s in d0.names
  {
  }

  lemma StartedTail(rest: seq<Call>, speaks: bool)
    requires AfterStart(rest, speaks)
    ensures var tail := [Start(true)] + rest;
            && AfterReconcile(tail, speaks) && Commits(tail) == Commits(rest)
            && (EndsWithStart(rest) ==>
                  && EndsWithStart(tail) && StartedBefore(tail)
                  && Restarted(tail) == Restarted(rest) && Proved(tail) == Proved(rest)
                       && (HealthFailed(tail) <==> HealthFailed(rest)))
            && (Has(tail, Restore(false)) <==> Has(rest, Restore(false)))
  {
    var tail := [Start(true)] + rest;
    assert tail[1..] == rest;
    if EndsWithStart(rest) {
      PrependStart(Start(true), rest);
    }
    assert tail[|tail| - 1] == rest[|rest| - 1];
  }

  lemma NotStartedTail(recovery: seq<Call>, speaks: bool)
    requires Recovering(recovery, speaks, true, true)
    ensures var tail := [Start(false)] + recovery;
            && AfterReconcile(tail, speaks) && !Commits(tail)
            && EndsWithStart(tail) && StartedBefore(tail) && !HealthFailed(tail)
            && Restarted(tail) == Restarted(recovery) && Proved(tail) == Proved(recovery)
            && (Has(tail, Restore(false)) <==> Has(recovery, Restore(false)))
  {
    RecoveryFacts(recovery, speaks, true, true);
    var tail := [Start(false)] + recovery;
    assert tail[1..] == recovery;
    PrependStart(Start(false), recovery);
    assert tail[|tail| - 1] == recovery[|recovery| - 1];
  }

  /** The calls from the reconcile on. */
  lemma ReconciledTail(ok: bool, speaks: bool, changed: bool, rest: seq<Call>)
    requires if ok then AfterReconcile(rest, speaks) else Recovering(rest, speaks, true, true)
    ensures var tail := [Reconcile(ok, speaks, changed)] + rest;
            && AfterApply(tail) && Commits(tail) == Commits(rest)
            && (EndsWithStart(rest) ==>
                  && EndsWithStart(tail) && Restarted(tail) == Restarted(rest) && Proved(tail) == Proved(rest)
                  && (StartedBefore(tail) <==> StartedBefore(rest)) && (HealthFailed(tail) <==> HealthFailed(rest)))
            && (Has(tail, Restore(false)) <==> Has(rest, Restore(false)))
            && (Spoke(tail) <==> speaks) && (Rewrote(tail) <==> changed)
  {
    var tail := [Reconcile(ok, speaks, changed)] + rest;
    assert tail[1..] == rest;
    if !ok {
      RecoveryFacts(rest, speaks, true, true);
    }
    if EndsWithStart(rest) {
      PrependStart(Reconcile(ok, speaks, changed), rest);
    }
    assert rest != [];
    assert tail[|tail| - 1] == rest[|rest| - 1];
    AfterApplyShape(tail);
    hide Spoke, Rewrote;
  }

  /** The calls from the apply on. */
  lemma AppliedTail(ok: bool, stopped: bool, rest: seq<Call>)
    requires if ok then AfterApply(rest) else Recovering(rest, false, false, stopped)
    ensures var tail := [Apply(ok)] + rest;
            && AfterProbes(tail, stopped) && Commits(tail) == Commits(rest)
            && (EndsWithStart(rest) ==>
                  && EndsWithStart(tail) && Restarted(tail) == Restarted(rest) && Proved(tail) == Proved(rest)
                  && (StartedBefore(tail) <==> StartedBefore(rest)) && (HealthFailed(tail) <==> HealthFailed(rest)))
            && (EndsWithStart(tail) ==> EndsWithStart(rest))
            && (Has(tail, Restore(false)) <==> Has(rest, Restore(false)))
            && (Spoke(tail) <==> Spoke(rest)) && (Rewrote(tail) <==> Rewrote(rest))
  {
    var tail := [Apply(ok)] + rest;
    assert tail[1..] == rest;
    PrependReconciles(Apply(ok), rest);
    hide Spoke, Rewrote;
    if EndsWithStart(rest) {
      PrependStart(Apply(ok), rest);
    }
    if rest == [] {
      assert tail == [Apply(ok)];
    } else {
      assert tail[|tail| - 1] == rest[|rest| - 1];
    }
  }

  lemma DefinitionIsSettled(tail: seq<Call>, applied: bool, definition: Definition, original: Definition,
                            speaks: bool, changed: bool)
    requires (Spoke(tail) <==> speaks) && (Rewrote(tail) <==> changed)
    requires applied ==> (definition == original <==> !changed)
    requires !applied && !Has(tail, Restore(false)) ==> if speaks then definition == original
              else definition == original <==> !changed
    ensures DefinitionSettled(tail, applied, definition, original)
  {
    hide Spoke, Rewrote;
  }

  lemma NothingReconciled(tail: seq<Call>, definition: Definition)
    requires forall k :: 0 <= k < |tail| ==> !tail[k].Reconcile?
    ensures !Spoke(tail) && !Rewrote(tail) && DefinitionSettled(tail, false, definition, definition)
  {
  }

  lemma SettledIsOutcome(d0: Disk, d: Disk, t: Name, s: Name, b: Name, applied: bool, failed: bool, trail: seq<Entry>,
                         k: nat)
    requires Settled(d0, d, t, s, b, applied, failed, trail, k)
    ensures Outcome(d0, d, t, s, applied, failed, trail, k) && Framed(d0, d, t, s) && Closed(d)
  {
    if !applied && Restored(d0, d, t, s) {
      assert LeftOld(d0, d, t, s, b);
    }
  }

  lemma LeftUnchanged(d: Disk, t: Name, s: Name, extra: Name)
    requires Closed(d)
    ensures LeftOld(d, d, t, s, extra)
  {
  }

  lemma PrependApply(ok: bool, stopped: bool, rest: seq<Call>, applied: bool, definition: Definition,
                     original: Definition)
    requires if ok then AfterApply(rest) && DefinitionSettled(rest, applied, definition, original)
             else Recovering(rest, false, false, stopped) && !applied && definition == original
    ensures DefinitionSettled([Apply(ok)] + rest, applied, definition, original)
    ensures Has([Apply(ok)] + rest, Apply(false)) <==> !ok
  {
    AppliedTail(ok, stopped, rest);
    var tail := [Apply(ok)] + rest;
    assert tail[0] == Apply(ok);
    if ok {
      AfterApplyShape(rest);
    } else {
      RecoveryFacts(rest, false, false, stopped);
      NothingReconciled(tail, definition);
    }
  }

  lemma PrependApplyService(ok: bool, stopped: bool, rest: seq<Call>, applied: bool, service: Service, found: Service,
                            restarts: bool,
                            d: Disk, t: Name, staged: Bytes)
    requires if ok then AfterApply(rest) else Recovering(rest, false, false, stopped)
    requires ServiceSettled(rest, applied, service, found, restarts, d, t, staged)
    ensures ServiceSettled([Apply(ok)] + rest, applied, service, found, restarts, d, t, staged)
    ensures Restarted([Apply(ok)] + rest) == Restarted(rest) && Proved([Apply(ok)] + rest) == Proved(rest)
  {
    AppliedTail(ok, stopped, rest);
    hide AfterApply, Recovering, AfterProbes, StartedBefore, HealthFailed, Runs;
  }

  lemma FailedApplyIsSettled(tail: seq<Call>, service: Service, d0: Disk, t: Name, s: Name, trail: seq<Entry>, k: nat)
    requires Restarted(tail) && t != s ==>
               && (Proved(tail) ==> service.Up?)
               && (service.Up? ==>
                    service == Up(if RestoreRenameFailed(trail, k, t, s) then BytesOf(d0, s) else BytesOf(d0, t)))
    ensures t != s ==> ServiceAfterFailedApply(tail, service, d0, t, s, trail, k)
  {
    hide RestoreRenameFailed;
  }

  lemma AppliedIsSettled(tail: seq<Call>, service: Service, d0: Disk, t: Name, s: Name, trail: seq<Entry>, k: nat)
    requires !Has(tail, Apply(false))
    ensures ServiceAfterFailedApply(tail, service, d0, t, s, trail, k)
  {
  }

  lemma SafeIsSafeUntilConfirmed(trail: seq<Entry>, k: nat, d0: Disk, t: Name, s: Name)
    requires SafeSince(trail, k, d0, t, s)
    ensures SafeUntilConfirmed(trail, k, d0, t, s)
  {
    hide Safe;
  }

  lemma CommitFailureStays(trail: seq<Entry>, k: nat, k1: nat)
    requires k <= k1 && k1 <= |trail|
    ensures CommitFailed(trail, k1) ==> CommitFailed(trail, k)
  {
  }

  lemma StartsWithin(trail: seq<Entry>, k: nat, d0: Disk, t: Name, s: Name)
    requires SafeSince(trail, k, d0, t, s)
    ensures k <= |trail|
  {
  }

  lemma SettledDropsStaging(d0: Disk, d: Disk, t: Name, s: Name, b: Name, applied: bool, failed: bool,
                            trail: seq<Entry>, k: nat)
    requires Settled(d0, d, t, s, b, applied, failed, trail, k) && s in d0.names
    ensures s !in d.names
  {
  }

  lemma UnchangedIsOutcome(d: Disk, t: Name, s: Name, trail: seq<Entry>, k: nat)
    requires Closed(d)
    ensures Outcome(d, d, t, s, false, true, trail, k)
  {
    assert LeftOld(d, d, t, s, t);
  }

  lemma UnappliedIsOutcome(d0: Disk, d: Disk, t: Name, s: Name, backup: Option<Name>, extra: Name, trail: seq<Entry>,
                           k: nat)
    requires if backup.Some? then
              Swapped(d0, d, t, s, backup.value) && k < |trail| && RestoreFailed(trail, backup.value, t)
              else LeftOld(d0, d, t, s, extra)
    ensures Outcome(d0, d, t, s, false, true, trail, k)
  {
    if backup.Some? {
      assert RanRename(trail, k, backup.value, t, false);
    }
  }

  lemma StagingIsKept(d0: Disk, d: Disk, t: Name, s: Name)
    requires Closed(d0) && Framed(d0, d, t, s) && s in d0.names && t in d0.names
    ensures forall n :: n != t && n != s && Exclusive(d0, n) ==> Exclusive(d, n)
  {
    forall n | n != t && n != s && Exclusive(d0, n) ensures Exclusive(d, n) {
      ExclusiveIsKept(d0, d, t, s, n);
    }
  }

  lemma SafeThenSafeUntilConfirmed(before: seq<Entry>, trail: seq<Entry>, k: nat, d0: Disk, t: Name, s: Name)
    requires before <= trail && SafeSince(before, k, d0, t, s) && SafeUntilConfirmed(trail, |before|, d0, t, s)
    ensures SafeUntilConfirmed(trail, k, d0, t, s)
  {
    hide Safe, Framed, TargetStaged;
    forall j | k <= j < |trail|
      ensures Safe(d0, trail[j].disk, t, s)
                || (Confirmed(trail[j]) && Framed(d0, trail[j].disk, t, s) && TargetStaged(d0, trail[j].disk, t, s))
    {
      if j < |before| {
        assert trail[j] == before[j];
      }
    }
  }

  /** A target that was swapped and rolled back has its mode decided by the link. */
  lemma SettledMode(d0: Disk, d: Disk, t: Name, s: Name, b: Name, applied: bool, failed: bool, trail: seq<Entry>,
                    k: nat)
    requires Settled(d0, d, t, s, b, applied, failed, trail, k)
    ensures !applied ==> ModeSettled(d0, d, t, s, trail, k)
  {
    if !applied && Swapped(d0, d, t, s, b) {
      SwappedIsNotRestored(d0, d, t, s, b);
    }
  }

  // ----- A whole installation of a service -----

  /** What an installation may change, at one moment; `found` is what the last start found. */
  datatype View = View(disk: Disk, trail: seq<Entry>, service: Service, found: Service, afterStop: Service,
                       definition: Definition, staging: set<Name>)

  /**
   What the installation of a service does, from the calls of `tail` on. It is applied exactly when the
   run commits, and the old bytes are kept until the health check has succeeded. Not applied, it leaves
   the old bytes, or a restoring rename that failed. A staging file whose replacement was attempted is
   still there exactly when its rename did not succeed. After a failed stop nothing has changed but the
   service, which is what that stop left, possibly down. An apply fails only when the file was not
   admitted or a system call failed; an applied installation fails only when its commit did.
   */
  ghost predicate Carried(was: View, now: View, restarts: bool, t: Name, path: Name,
                          tail: seq<Call>, applied: bool, failed: bool, backup: Option<Name>, admitted: bool) {
    var k := |was.trail|;
    && was.trail <= now.trail
    && applied == Commits(tail)
    && Outcome(was.disk, now.disk, t, path, applied, failed, now.trail, k)
    && (applied ==> backup.Some? && Settled(was.disk, now.disk, t, path, backup.value, true, failed, now.trail, k))
    && (!applied ==> ModeSettled(was.disk, now.disk, t, path, now.trail, k))
    && SafeUntilConfirmed(now.trail, k, was.disk, t, path)
    && DefinitionSettled(tail, applied, now.definition, was.definition)
    && ServiceSettled(tail, applied, now.service, now.found, restarts, now.disk, t, BytesOf(was.disk, path))
    && (path != t ==> ServiceAfterFailedApply(tail, now.service, was.disk, t, path, now.trail, k))
    && (path in was.staging && path !in now.staging ==>
          (path in now.disk.names <==> !RanRename(now.trail, k, path, t, true)))
    && (Has(tail, Stop(false)) ==>
          now.disk == was.disk && now.definition == was.definition && now.service == now.afterStop)
    && (Has(tail, Apply(false)) ==> !admitted || SomeCallFailed(now.trail, k))
    && (applied && failed ==> CommitFailed(now.trail, k))
  }

  /** An installation that ends with its first call. */
  lemma EndedEarly(was: View, now: View, restarts: bool, t: Name, path: Name, c: Call, admitted: bool)
    requires Closed(was.disk) && (c.Installed? || c.Running? || (c == Stop(false) && now.service == now.afterStop))
    requires now.disk == was.disk && now.trail == was.trail && now.definition == was.definition
              && now.staging == was.staging
    ensures Carried(was, now, restarts, t, path, [c], false, true, None, admitted)
  {
    UnchangedIsOutcome(was.disk, t, path, now.trail, |was.trail|);
    NothingReconciled([c], was.definition);
    hide Outcome, Closed, DefinitionSettled, Restored;
  }

  /** A probe or a successful stop in front of the calls changes nothing of what is known of them. */
  lemma PrependProbeOrStop(c: Call, t: seq<Call>, was: View, mid: View, now: View, restarts: bool, target: Name,
                           path: Name,
                           applied: bool, failed: bool, backup: Option<Name>, admitted: bool)
    requires t != [] && (c.Installed? || c.Running? || c == Stop(true))
    requires mid.disk == was.disk && mid.trail == was.trail && mid.definition == was.definition
              && mid.staging == was.staging
    requires Carried(mid, now, restarts, target, path, t, applied, failed, backup, admitted)
    ensures Carried(was, now, restarts, target, path, [c] + t, applied, failed, backup, admitted)
  {
    PrependProbeOrStopCalls(c, t);
    PrependReconciles(c, t);
    hide Outcome, Settled, ModeSettled, SafeUntilConfirmed, RanRename, RestoreRenameFailed, Has, Spoke, Rewrote,
      Commits,
      EndsWithStart, Restarted, Proved, StartedBefore, HealthFailed, Runs, BytesOf;
  }

  lemma PrependProbeOrStopCalls(c: Call, t: seq<Call>)
    requires t != [] && (c.Installed? || c.Running? || c == Stop(true))
    ensures Commits([c] + t) == Commits(t) && Restarted([c] + t) == Restarted(t) && Proved([c] + t) == Proved(t)
    ensures Restarted(t) ==> (StartedBefore([c] + t) <==> StartedBefore(t))
    ensures HealthFailed([c] + t) <==> HealthFailed(t)
    ensures forall x :: Has([c] + t, x) <==> x == c || Has(t, x)
  {
    var u := [c] + t;
    assert u[|u| - 1] == t[|t| - 1];
    if EndsWithStart(t) {
      PrependStart(c, t);
    }
    if |t| > 1 {
      assert u[|u| - 2] == t[|t| - 2];
    }
    PrependHas(c, t);
  }

  class ManagedSession {
    const inner: InstallSession

    constructor (inner: InstallSession)
      ensures this.inner == inner
    {
      this.inner := inner;
    }

    ghost function Now(): View
      reads inner, inner.m
    {
      View(inner.m.disk, inner.m.trail, inner.m.service, inner.m.beforeStart, inner.m.afterStop, inner.m.definition,
           inner.staging)
    }

    /** The binary was applied since call k, to the directory d0, and is the target now. */
    ghost predicate InPlace(backup: Name, path: Name, d0: Disk, k: nat)
      reads inner.m`disk, inner.m`trail
    {
      && k <= |inner.m.trail|
      && Closed(d0) && path != inner.target && Exclusive(d0, path)
      && Swapped(d0, inner.m.disk, inner.target, path, backup)
      && LinkDecides(d0, inner.m.disk, inner.target, backup, inner.m.trail, k)
    }

    /** The definition part of recover. */
    method RestoreIfNeeded(receipt: Receipt) returns (ghost tail: seq<Call>)
      modifies inner.m`definition, inner.m`calls
      ensures inner.m.calls == old(inner.m.calls) + tail
      ensures if receipt.Speaks() then |tail| == 1 && tail[0].Restore? else tail == []
      ensures tail == [Restore(true)] ==> inner.m.definition == inner.m.prior
      ensures tail == [] ==> inner.m.definition == old(inner.m.definition)
    {
      tail := [];
      if receipt.Speaks() {
        var ok := inner.m.RestoreDefinition();
        tail := [Restore(ok)];
      }
    }

    /** The binary part of recover. */
    method RollbackIfNeeded(backup: Option<Name>, path: Name, ghost d0: Disk, ghost k: nat)
      returns (ghost tail: seq<Call>)
      requires backup.Some? ==> InPlace(backup.value, path, d0, k)
      modifies inner.m`disk, inner.m`trail, inner.m`calls
      ensures inner.m.calls == old(inner.m.calls) + tail
      ensures if backup.Some? then |tail| == 1 && tail[0].Rollback? else tail == []
      ensures old(inner.m.trail) <= inner.m.trail
      ensures tail == [Rollback(false)] ==> SomeCallFailed(inner.m.trail, |old(inner.m.trail)|)
      ensures backup.None? ==> inner.m.disk == old(inner.m.disk) && inner.m.trail == old(inner.m.trail)
      ensures backup.Some? ==> RolledBack(d0, inner.m.disk, inner.target, path, backup.value, inner.m.trail, k)
      ensures SafeSince(inner.m.trail, |old(inner.m.trail)|, d0, inner.target, path)
    {
      tail := [];
      if backup.Some? {
        ghost var d, before, t := inner.m.disk, inner.m.trail, inner.target;
        SwappedIsSafe(d0, d, t, path, backup.value);
        RenameRestores(d0, d, t, path, backup.value);
        RestoredIsSafe(d0, Renamed(d, backup.value, t), t, path);
        RestoredKeepsTheModeExactlyWhen(d0, d, t, path, backup.value, before, k);
        hide Safe, Swapped, Restored, RanLink, Framed, Exclusive, Closed;
        var ok := inner.Rollback(backup.value);
        LinksStay(before, inner.m.trail, k, t);
        inner.m.Note(Rollback(ok));
        tail := [Rollback(ok)];
      }
    }

    /** The service part of recover. */
    method RestartIfNeeded(restart: bool) returns (ghost tail: seq<Call>)
      modifies inner.m`service, inner.m`beforeStart, inner.m`calls
      ensures inner.m.calls == old(inner.m.calls) + tail
      ensures Recovering(tail, false, false, restart)
      ensures !restart ==> inner.m.service == old(inner.m.service)
      ensures restart ==> Found(old(inner.m.service), inner.m.beforeStart, inner.m.disk, inner.target)
      ensures Revived(tail, inner.m.service, inner.m.beforeStart, inner.m.restarts, inner.m.disk, inner.target)
    {
      tail := [];
      if restart {
        var ok := inner.m.StartService(inner.target);
        tail := [Start(ok)];
        if ok {
          var healthy := inner.m.AwaitHealthy(inner.target);
          tail := [Start(ok), WaitHealthy(healthy)];
        }
      }
    }

    /** The definition and binary parts of recover. */
    method Undo(backup: Option<Name>, receipt: Receipt, path: Name, ghost d0: Disk, ghost k: nat)
      returns (ghost restored: seq<Call>, ghost rolled: seq<Call>)
      requires backup.Some? ==> InPlace(backup.value, path, d0, k)
      modifies inner.m`disk, inner.m`trail, inner.m`calls, inner.m`definition
      ensures inner.m.calls == old(inner.m.calls) + restored + rolled
      ensures if receipt.Speaks() then |restored| == 1 && restored[0].Restore? else restored == []
      ensures if backup.Some? then |rolled| == 1 && rolled[0].Rollback? else rolled == []
      ensures old(inner.m.trail) <= inner.m.trail
                && SafeSince(inner.m.trail, |old(inner.m.trail)|, d0, inner.target, path)
      ensures backup.None? ==> inner.m.disk == old(inner.m.disk) && inner.m.trail == old(inner.m.trail)
      ensures backup.Some? ==> RolledBack(d0, inner.m.disk, inner.target, path, backup.value, inner.m.trail, k)
      ensures if receipt.Speaks() then inner.m.definition == inner.m.prior || Has(restored, Restore(false))
              else inner.m.definition == old(inner.m.definition)
    {
      restored := RestoreIfNeeded(receipt);
      rolled := RollbackIfNeeded(backup, path, d0, k);
    }

    /** recover: definition, then binary, then service; a failing step does not keep the next from being tried. */
    method Recover(backup: Option<Name>, receipt: Receipt, restart: bool, path: Name, ghost d0: Disk, ghost k: nat)
      returns (ghost tail: seq<Call>)
      requires backup.Some? ==> InPlace(backup.value, path, d0, k)
      modifies inner.m`disk, inner.m`trail, inner.m`calls, inner.m`definition, inner.m`service, inner.m`beforeStart
      ensures inner.m.calls == old(inner.m.calls) + tail && Recovering(tail, receipt.Speaks(), backup.Some?, restart)
      ensures old(inner.m.trail) <= inner.m.trail
                && SafeSince(inner.m.trail, |old(inner.m.trail)|, d0, inner.target, path)
      ensures backup.None? ==> inner.m.disk == old(inner.m.disk) && inner.m.trail == old(inner.m.trail)
      ensures backup.Some? ==> RolledBack(d0, inner.m.disk, inner.target, path, backup.value, inner.m.trail, k)
      ensures if receipt.Speaks() then inner.m.definition == inner.m.prior || Has(tail, Restore(false))
              else inner.m.definition == old(inner.m.definition)
      ensures !restart ==> inner.m.service == old(inner.m.service)
      ensures restart ==> Found(old(inner.m.service), inner.m.beforeStart, inner.m.disk, inner.target)
      ensures Revived(tail, inner.m.service, inner.m.beforeStart, inner.m.restarts, inner.m.disk, inner.target)
    {
      hide Safe, Framed, Swapped, Restored, SafeSince, RolledBack, LinkDecides, Exclusive, Runs, Found;
      ghost var restored, rolled := Undo(backup, receipt, path, d0, k);
      ghost var restarted := RestartIfNeeded(restart);
      tail := restored + rolled + restarted;
      RecoveryIsAssembled(restored, rolled, restarted, receipt.Speaks(), backup.Some?, restart);
    }

    lemma RecoveryIsAssembled(restored: seq<Call>, rolled: seq<Call>, restarted: seq<Call>, a: bool, b: bool, c: bool)
      requires if a then |restored| == 1 && restored[0].Restore? else restored == []
      requires if b then |rolled| == 1 && rolled[0].Rollback? else rolled == []
      requires Recovering(restarted, false, false, c)
      ensures var t := restored + rolled + restarted;
              && Recovering(t, a, b, c) && Restarted(t) == Restarted(restarted) && Proved(t) == Proved(restarted)
      ensures forall x :: Has(restored, x) ==> Has(restored + rolled + restarted, x)
    {
      var t := restored + rolled + restarted;
      var r := rolled + restarted;
      assert t == restored + r;
      assert if a then t[0] == restored[0] && t[1..] == r else t == r;
      assert if b then r[0] == rolled[0] && r[1..] == restarted else r == restarted;
    }

    /** The commit of an installation whose service proved healthy. */
    method CommitConfirmed(backup: Name, path: Name, ghost d0: Disk, ghost k: nat) returns (ok: bool)
      requires InPlace(backup, path, d0, k)
      requires |inner.m.calls| > 0 && inner.m.calls[|inner.m.calls| - 1] == WaitHealthy(true)
      modifies inner.m`disk, inner.m`trail, inner.m`calls
      ensures inner.m.calls == old(inner.m.calls) + [Commit(ok)]
      ensures Settled(d0, inner.m.disk, inner.target, path, backup, true, !ok, inner.m.trail, k)
      ensures old(inner.m.trail) <= inner.m.trail
      ensures !ok ==> CommitFailed(inner.m.trail, |old(inner.m.trail)|)
      ensures SafeUntilConfirmed(inner.m.trail, |old(inner.m.trail)|, d0, inner.target, path)
    {
      SwappedIsSafe(d0, inner.m.disk, inner.target, path, backup);
      RemovingTheBackupCommits(d0, inner.m.disk, inner.target, path, backup);
      ok := inner.Commit(backup);
      inner.m.Note(Commit(ok));
    }

    /** The recovery of an installation that had applied the binary. */
    method RecoverApplied(backup: Name, receipt: Receipt, path: Name, ghost d0: Disk, ghost k: nat)
      returns (ghost recovery: seq<Call>)
      requires InPlace(backup, path, d0, k)
      modifies inner.m`disk, inner.m`trail, inner.m`calls, inner.m`definition, inner.m`service, inner.m`beforeStart
      ensures inner.m.calls == old(inner.m.calls) + recovery && Recovering(recovery, receipt.Speaks(), true, true)
      ensures Settled(d0, inner.m.disk, inner.target, path, backup, false, true, inner.m.trail, k)
      ensures old(inner.m.trail) <= inner.m.trail
      ensures SafeUntilConfirmed(inner.m.trail, |old(inner.m.trail)|, d0, inner.target, path)
      ensures Has(recovery, Restore(false))
              || inner.m.definition == (if receipt.Speaks() then inner.m.prior else old(inner.m.definition))
      ensures Found(old(inner.m.service), inner.m.beforeStart, inner.m.disk, inner.target)
      ensures Revived(recovery, inner.m.service, inner.m.beforeStart, inner.m.restarts, inner.m.disk, inner.target)
    {
      hide RolledBack, Revived, Found, Safe;
      recovery := Recover(Some(backup), receipt, true, path, d0, k);
    }

    /** The recovery after a failed health check. `tail` begins with that check. */
    method RecoverUnhealthy(backup: Name, receipt: Receipt, path: Name, ghost d0: Disk, ghost k: nat)
      returns (ghost tail: seq<Call>)
      requires InPlace(backup, path, d0, k) && (inner.m.service == Down || inner.m.service == Up(BytesOf(d0, path)))
      modifies inner.m`disk, inner.m`trail, inner.m`calls, inner.m`definition, inner.m`service, inner.m`beforeStart
      ensures tail != [] && inner.m.calls == old(inner.m.calls) + tail[1..]
      ensures tail[0] == WaitHealthy(false) && AfterStart(tail, receipt.Speaks()) && !Commits(tail)
      ensures Settled(d0, inner.m.disk, inner.target, path, backup, false, true, inner.m.trail, k)
      ensures old(inner.m.trail) <= inner.m.trail
      ensures SafeUntilConfirmed(inner.m.trail, |old(inner.m.trail)|, d0, inner.target, path)
      ensures Has(tail, Restore(false))
              || inner.m.definition == (if receipt.Speaks() then inner.m.prior else old(inner.m.definition))
      ensures Unhealthy(tail, inner.m.service, inner.m.beforeStart, inner.m.restarts,
                        inner.m.disk, inner.target, BytesOf(d0, path))
    {
      hide *;
      ghost var left := inner.m.service;
      ghost var recovery := RecoverApplied(backup, receipt, path, d0, k);
      UnhealthyTail(recovery, receipt.Speaks());
      UnhealthyIsRevived(recovery, receipt.Speaks(), left, inner.m.service, inner.m.beforeStart, inner.m.restarts,
                         inner.m.disk, inner.target, BytesOf(d0, path));
      tail := [WaitHealthy(false)] + recovery;
    }

    /** Install from the health check on; the service runs the staged bytes. */
    method ConfirmOrRecover(backup: Name, receipt: Receipt, path: Name, ghost d0: Disk, ghost k: nat)
      returns (applied: bool, failed: bool, ghost tail: seq<Call>)
      requires InPlace(backup, path, d0, k) && inner.m.service == Up(BytesOf(d0, path))
      modifies inner.m`disk, inner.m`trail, inner.m`calls, inner.m`definition, inner.m`service, inner.m`beforeStart
      ensures inner.m.calls == old(inner.m.calls) + tail && AfterStart(tail, receipt.Speaks())
      ensures applied == Commits(tail)
      ensures applied && failed ==> CommitFailed(inner.m.trail, |old(inner.m.trail)|)
      ensures Settled(d0, inner.m.disk, inner.target, path, backup, applied, failed, inner.m.trail, k)
      ensures old(inner.m.trail) <= inner.m.trail
      ensures SafeUntilConfirmed(inner.m.trail, |old(inner.m.trail)|, d0, inner.target, path)
      ensures applied ==> inner.m.definition == old(inner.m.definition)
      ensures !applied ==> Has(tail, Restore(false))
                           || inner.m.definition
                                == (if receipt.Speaks() then inner.m.prior else old(inner.m.definition))
      ensures applied ==> inner.m.service == old(inner.m.service)
      ensures !applied ==> Unhealthy(tail, inner.m.service, inner.m.beforeStart, inner.m.restarts,
                                     inner.m.disk, inner.target, BytesOf(d0, path))
    {
      SwappedTargetIsStaged(d0, inner.m.disk, inner.target, path, backup);
      hide Settled, Swapped, SafeUntilConfirmed, Recovering, Closed, BytesOf, InPlace, Unhealthy, CommitFailed;
      var healthy := inner.m.AwaitHealthy(inner.target);
      assert inner.m.service == Down || inner.m.service == Up(inner.m.service.image);
      if healthy {
        var ok := CommitConfirmed(backup, path, d0, k);
        return true, !ok, [WaitHealthy(true), Commit(ok)];
      }
      hide Commits, AfterStart, Has, Holds, Look;
      tail := RecoverUnhealthy(backup, receipt, path, d0, k);
      applied, failed := false, true;
    }

    /** Install from the start of the new binary on; the service is down before it. */
    method StartOrRecover(backup: Name, receipt: Receipt, path: Name, ghost d0: Disk, ghost k: nat)
      returns (applied: bool, failed: bool, ghost tail: seq<Call>)
      requires InPlace(backup, path, d0, k) && inner.m.service == Down
      modifies inner.m`disk, inner.m`trail, inner.m`calls, inner.m`definition, inner.m`service, inner.m`beforeStart
      ensures inner.m.calls == old(inner.m.calls) + tail && AfterReconcile(tail, receipt.Speaks())
      ensures applied == Commits(tail)
      ensures applied && failed ==> CommitFailed(inner.m.trail, |old(inner.m.trail)|)
      ensures Settled(d0, inner.m.disk, inner.target, path, backup, applied, failed, inner.m.trail, k)
      ensures old(inner.m.trail) <= inner.m.trail
      ensures SafeUntilConfirmed(inner.m.trail, |old(inner.m.trail)|, d0, inner.target, path)
      ensures applied ==> inner.m.definition == old(inner.m.definition)
      ensures !applied ==> Has(tail, Restore(false))
                           || inner.m.definition
                                == (if receipt.Speaks() then inner.m.prior else old(inner.m.definition))
      ensures !applied ==> EndsWithStart(tail) && StartedBefore(tail)
      ensures ServiceSettled(tail, applied, inner.m.service, inner.m.beforeStart, inner.m.restarts,
                             inner.m.disk, inner.target, BytesOf(d0, path))
    {
      hide Safe, Settled, Framed, Swapped, SafeUntilConfirmed, Recovering, AfterStart, AfterReconcile, LinkDecides,
        Exclusive, Runs, BytesOf, CommitFailed;
      SwappedTargetIsStaged(d0, inner.m.disk, inner.target, path, backup);
      ghost var staged := BytesOf(d0, path);
      var started := inner.m.StartService(inner.target);
      if started {
        assert inner.m.service == Up(staged);
        ghost var rest;
        applied, failed, rest := ConfirmOrRecover(backup, receipt, path, d0, k);
        tail := [Start(true)] + rest;
        StartedTail(rest, receipt.Speaks());
      } else {
        ghost var recovery := RecoverApplied(backup, receipt, path, d0, k);
        NotStartedTail(recovery, receipt.Speaks());
        return false, true, [Start(false)] + recovery;
      }
    }

    /** Install from the reconcile on; the binary is applied and the service down. */
    method ReconcileOrRecover(backup: Name, path: Name, ghost d0: Disk, ghost k: nat)
      returns (applied: bool, failed: bool, ghost tail: seq<Call>)
      requires InPlace(backup, path, d0, k) && inner.m.service == Down
      modifies inner.m
      ensures inner.m.calls == old(inner.m.calls) + tail && AfterApply(tail)
      ensures applied == Commits(tail)
      ensures applied && failed ==> CommitFailed(inner.m.trail, |old(inner.m.trail)|)
      ensures Settled(d0, inner.m.disk, inner.target, path, backup, applied, failed, inner.m.trail, k)
      ensures old(inner.m.trail) <= inner.m.trail
      ensures SafeUntilConfirmed(inner.m.trail, |old(inner.m.trail)|, d0, inner.target, path)
      ensures DefinitionSettled(tail, applied, inner.m.definition, old(inner.m.definition))
      ensures !applied ==> EndsWithStart(tail)
      ensures ServiceSettled(tail, applied, inner.m.service, inner.m.beforeStart, inner.m.restarts,
                             inner.m.disk, inner.target, BytesOf(d0, path))
    {
      hide Safe, Settled, Framed, Swapped, SafeUntilConfirmed, Recovering, AfterStart, AfterReconcile, AfterApply,
        LinkDecides, Exclusive, Runs;
      hide DefinitionSettled, Spoke, Rewrote, CommitFailed;
      ghost var original := inner.m.definition;
      var ok, receipt := inner.m.ReconcileDefinition();
      ghost var changed := inner.m.definition != original;
      ghost var rest;
      if ok {
        applied, failed, rest := StartOrRecover(backup, receipt, path, d0, k);
      } else {
        rest := RecoverApplied(backup, receipt, path, d0, k);
        RecoveryFacts(rest, receipt.Speaks(), true, true);
        applied, failed := false, true;
      }
      ReconciledTail(ok, receipt.Speaks(), changed, rest);
      tail := [Reconcile(ok, receipt.Speaks(), changed)] + rest;
      DefinitionIsSettled(tail, applied, inner.m.definition, original, receipt.Speaks(), changed);
    }

    /** Install after an apply that succeeded. */
    method Activate(backup: Name, path: Name, ghost d0: Disk, ghost k: nat)
      returns (applied: bool, failed: bool, ghost tail: seq<Call>)
      requires InPlace(backup, path, d0, k) && inner.m.service == Down && !inner.closed
      requires forall n :: n in inner.staging ==> n != inner.target && n != path && Exclusive(d0, n)
      requires SafeSince(inner.m.trail, k, d0, inner.target, path)
                && RanRename(inner.m.trail, k, path, inner.target, true)
      modifies inner.m
      ensures inner.Valid()
      ensures path !in inner.m.disk.names && RanRename(inner.m.trail, k, path, inner.target, true)
      ensures inner.m.calls == old(inner.m.calls) + tail && AfterApply(tail)
      ensures applied == Commits(tail)
                && Outcome(d0, inner.m.disk, inner.target, path, applied, failed, inner.m.trail, k)
      ensures Settled(d0, inner.m.disk, inner.target, path, backup, applied, failed, inner.m.trail, k)
      ensures !applied ==> ModeSettled(d0, inner.m.disk, inner.target, path, inner.m.trail, k)
      ensures old(inner.m.trail) <= inner.m.trail && SafeUntilConfirmed(inner.m.trail, k, d0, inner.target, path)
      ensures DefinitionSettled(tail, applied, inner.m.definition, old(inner.m.definition))
      ensures !applied ==> EndsWithStart(tail)
      ensures applied && failed ==> CommitFailed(inner.m.trail, k)
      ensures ServiceSettled(tail, applied, inner.m.service, inner.m.beforeStart, inner.m.restarts,
                             inner.m.disk, inner.target, BytesOf(d0, path))
    {
      hide Safe, Settled, SafeSince, SafeUntilConfirmed, AfterApply, Outcome, Exclusive, ServiceSettled, RolledBack,
        Committed,
        RanRename, DefinitionSettled, ModeSettled, LinkDecides, CommitFailed;
      ghost var before := inner.m.trail;
      ghost var from := |inner.m.trail|;
      TargetExists(d0, inner.m.disk, inner.target, path, backup);
      hide Swapped, Framed;
      applied, failed, tail := ReconcileOrRecover(backup, path, d0, k);
      SettledIsOutcome(d0, inner.m.disk, inner.target, path, backup, applied, failed, inner.m.trail, k);
      SettledMode(d0, inner.m.disk, inner.target, path, backup, applied, failed, inner.m.trail, k);
      SettledDropsStaging(d0, inner.m.disk, inner.target, path, backup, applied, failed, inner.m.trail, k);
      RanRenameGrows(before, inner.m.trail, k, path, inner.target);
      SafeThenSafeUntilConfirmed(before, inner.m.trail, k, d0, inner.target, path);
      CommitFailureStays(inner.m.trail, k, from);
      StagingIsKept(d0, inner.m.disk, inner.target, path);
    }

    /** Install after an apply that failed: nothing is rolled back, not even when apply reported a backup. */
    method GiveUp(path: Name, stopped: bool, ghost backup: Option<Name>, ghost extra: Name, ghost d0: Disk,
                  ghost k: nat)
      returns (ghost tail: seq<Call>)
      requires inner.Valid() && inner.m.service == Down && Closed(d0)
      requires if backup.Some? then Swapped(d0, inner.m.disk, inner.target, path, backup.value)
               else LeftOld(d0, inner.m.disk, inner.target, path, extra)
      requires RestoreRenameFailed(inner.m.trail, k, inner.target, path) <==> backup.Some?
      requires SafeSince(inner.m.trail, k, d0, inner.target, path)
      modifies inner.m`disk, inner.m`trail, inner.m`calls, inner.m`definition, inner.m`service, inner.m`beforeStart
      ensures inner.m.disk == old(inner.m.disk) && inner.m.trail == old(inner.m.trail)
                && inner.m.definition == old(inner.m.definition)
      ensures inner.m.calls == old(inner.m.calls) + tail && Recovering(tail, false, false, stopped) && !Commits(tail)
      ensures SafeUntilConfirmed(inner.m.trail, k, d0, inner.target, path)
      ensures ServiceSettled(tail, false, inner.m.service, inner.m.beforeStart, inner.m.restarts,
                             inner.m.disk, inner.target, BytesOf(d0, path))
      ensures Restarted(tail) && path != inner.target ==>
                && (Proved(tail) ==> inner.m.service.Up?)
                && (inner.m.service.Up? ==>
                      inner.m.service
                          == Up(if RestoreRenameFailed(inner.m.trail, k, inner.target, path) then BytesOf(d0, path)
                                            else BytesOf(d0, inner.target)))
    {
      StartsWithin(inner.m.trail, k, d0, inner.target, path);
      hide Safe, SafeSince, SafeUntilConfirmed, Swapped, LeftOld, RestoreRenameFailed, BytesOf;
      SafeIsSafeUntilConfirmed(inner.m.trail, k, d0, inner.target, path);
      tail := Recover(None, Receipt(false, false), stopped, path, d0, k);
      RecoveryFacts(tail, false, false, stopped);
      if Restarted(tail) && path != inner.target && inner.m.service.Up? {
        assert Runs(inner.m.service, inner.m.disk, inner.target);
        FailedApplySettlesService(d0, inner.m.disk, inner.target, path, backup, extra, inner.m.service,
                                  RestoreRenameFailed(inner.m.trail, k, inner.target, path));
      }
    }

    /** Install from the apply on; the service is down. */
    method ApplyOrRecover(path: Name, cancelled: bool, chunk: nat, stopped: bool)
      returns (applied: bool, failed: bool, backup: Option<Name>, ghost tail: seq<Call>)
      requires inner.Valid() && chunk > 0 && inner.m.service == Down
      modifies inner`staging, inner.m
      ensures inner.Valid()
      ensures inner.staging
                == if old(inner.Admits(path, cancelled)) then old(inner.staging) - {path} else old(inner.staging)
      ensures inner.m.calls == old(inner.m.calls) + tail && AfterProbes(tail, stopped)
      ensures Carried(old(Now()), Now(), inner.m.restarts, inner.target, path, tail, applied, failed, backup,
                      old(inner.Admits(path, cancelled)))
    {
      hide Safe, Settled, Framed, Swapped, SafeSince, SafeUntilConfirmed, Recovering, AfterApply, AfterProbes,
        Outcome, LeftOld,
        Exclusive, DefinitionSettled, RanRename, RestoreRenameFailed, ServiceAfterFailedApply, ServiceSettled, Runs,
            BytesOf,
        Restarted, StartedBefore, HealthFailed, ModeSettled, LinkDecides, Proved, SomeCallFailed, CommitFailed;
      ghost var d0, k, admitted := inner.m.disk, |inner.m.trail|, inner.Admits(path, cancelled);
      var applyFailed;
      ghost var extra;
      applyFailed, backup, extra := inner.Apply(path, cancelled, chunk);
      inner.m.Note(Apply(!applyFailed));
      ghost var rest;
      if applyFailed {
        if admitted {
          UnappliedIsOutcome(d0, inner.m.disk, inner.target, path, backup, extra, inner.m.trail, k);
        } else {
          UnchangedIsOutcome(d0, inner.target, path, inner.m.trail, k);
        }
        FailedApplySettlesMode(d0, inner.m.disk, inner.target, path, backup, inner.m.trail, k);
        LeftUnchanged(d0, inner.target, path, extra);
        rest := GiveUp(path, stopped, backup, extra, d0, k);
        applied, failed := false, true;
      } else {
        BackupIsNew(d0, inner.m.disk, inner.target, path, backup.value);
        StartsWithin(inner.m.trail, k, d0, inner.target, path);
        applied, failed, rest := Activate(backup.value, path, d0, k);
      }
      AppliedTail(!applyFailed, stopped, rest);
      tail := [Apply(!applyFailed)] + rest;
      PrependApply(!applyFailed, stopped, rest, applied, inner.m.definition, old(inner.m.definition));
      PrependApplyService(!applyFailed, stopped, rest, applied, inner.m.service, inner.m.beforeStart, inner.m.restarts,
                          inner.m.disk, inner.target, BytesOf(d0, path));
      if applyFailed {
        FailedApplyIsSettled(tail, inner.m.service, d0, inner.target, path, inner.m.trail, k);
      } else {
        AppliedIsSettled(tail, inner.m.service, d0, inner.target, path, inner.m.trail, k);
      }
      NoStop(tail, stopped);
    }

    lemma FailedApplySettlesMode(d0: Disk, d: Disk, t: Name, s: Name, backup: Option<Name>, trail: seq<Entry>, k: nat)
      requires if backup.Some? then Swapped(d0, d, t, s, backup.value) else ModeSettled(d0, d, t, s, trail, k)
      ensures ModeSettled(d0, d, t, s, trail, k)
    {
      if backup.Some? {
        SwappedIsNotRestored(d0, d, t, s, backup.value);
      }
    }

    lemma NoStop(t: seq<Call>, stopped: bool)
      requires AfterProbes(t, stopped)
      ensures t != [] && !Has(t, Stop(false))
    {
      AfterProbesFacts(t, stopped);
    }

    /**
     Install of an installed service that is running: stop it first. A stop that fails ends the installation
     without a recovery.
     */
    method StopAndApply(path: Name, cancelled: bool, chunk: nat)
      returns (applied: bool, failed: bool, backup: Option<Name>, ghost tail: seq<Call>)
      requires inner.Valid() && chunk > 0
      modifies inner`staging, inner.m
      ensures inner.Valid() && inner.staging <= old(inner.staging)
      ensures inner.m.calls == old(inner.m.calls) + tail && WhileRunning(tail)
      ensures Carried(old(Now()), Now(), inner.m.restarts, inner.target, path, tail, applied, failed, backup,
                      old(inner.Admits(path, cancelled)))
    {
      hide Carried, AfterProbes, Exclusive;
      ghost var was, admitted := Now(), inner.Admits(path, cancelled);
      var stopped := inner.m.StopService();
      if !stopped {
        EndedEarly(was, Now(), inner.m.restarts, inner.target, path, Stop(false), admitted);
        return false, true, None, [Stop(false)];
      }
      ghost var mid, rest := Now(), [];
      applied, failed, backup, rest := ApplyOrRecover(path, cancelled, chunk, true);
      NoStop(rest, true);
      PrependProbeOrStop(Stop(true), rest, was, mid, Now(), inner.m.restarts, inner.target, path, applied, failed,
                         backup, admitted);
      tail := [Stop(true)] + rest;
      assert tail[1..] == rest;
    }

    /** Install of an installed service. */
    method InstallService(path: Name, cancelled: bool, chunk: nat)
      returns (applied: bool, failed: bool, backup: Option<Name>, wasRunning: bool, ghost tail: seq<Call>)
      requires inner.Valid() && chunk > 0
      modifies inner`staging, inner.m
      ensures inner.Valid() && inner.staging <= old(inner.staging)
      ensures inner.m.calls == old(inner.m.calls) + tail && AfterInstalled(tail)
                && (wasRunning <==> tail[0].probe == Yes)
      ensures Carried(old(Now()), Now(), inner.m.restarts, inner.target, path, tail, applied, failed, backup,
                      old(inner.Admits(path, cancelled)))
    {
      hide Carried, AfterProbes, WhileRunning, Exclusive;
      ghost var was, admitted := Now(), inner.Admits(path, cancelled);
      var probe := inner.m.ProbeRunning();
      if probe == Unknown {
        EndedEarly(was, Now(), inner.m.restarts, inner.target, path, Running(probe), admitted);
        return false, true, None, false, [Running(probe)];
      }
      wasRunning := probe == Yes;
      ghost var mid, rest := Now(), [];
      if wasRunning {
        applied, failed, backup, rest := StopAndApply(path, cancelled, chunk);
        StopsFirst(rest);
      } else {
        applied, failed, backup, rest := ApplyOrRecover(path, cancelled, chunk, false);
        NoStop(rest, false);
      }
      PrependProbeOrStop(Running(probe), rest, was, mid, Now(), inner.m.restarts, inner.target, path, applied, failed,
                         backup, admitted);
      tail := [Running(probe)] + rest;
      assert tail[1..] == rest;
    }

    lemma StopsFirst(t: seq<Call>)
      requires WhileRunning(t)
      ensures t != []
    {
    }

    /**
     Install. On a target without a service it is the standalone installation. With one, its calls are
     one of the accepted runs and it does what `Carried` says of them.
     */
    method Install(path: Name, cancelled: bool, chunk: nat)
      returns (failed: bool, result: InstallResult, ghost run: seq<Call>, ghost mid: nat)
      requires inner.Valid() && chunk > 0
      modifies inner`staging, inner.m
      ensures inner.Valid() && inner.staging <= old(inner.staging)
      ensures inner.m.calls == old(inner.m.calls) + run && Accepted(run)
      ensures old(inner.m.trail) <= inner.m.trail
      ensures Outcome(old(inner.m.disk), inner.m.disk, inner.target, path, result.applied, failed, inner.m.trail,
                      |old(inner.m.trail)|)
      ensures !result.applied ==> failed && result == NO_RESULT
      ensures run == [Installed(No)] ==>
                && inner.m.definition == old(inner.m.definition) && inner.m.service == old(inner.m.service)
                && result == InstallResult(result.applied, result.backup, false, false)
                && |old(inner.m.trail)| <= mid <= |inner.m.trail|
                && SafeSince(inner.m.trail[..mid], |old(inner.m.trail)|, old(inner.m.disk), inner.target, path)
                && (forall j :: mid <= j < |inner.m.trail| ==>
                      result.applied && TargetStaged(old(inner.m.disk), inner.m.trail[j].disk, inner.target, path))
      ensures run != [Installed(No)] ==>
                && Carried(old(Now()), Now(), inner.m.restarts, inner.target, path, run, result.applied, failed,
                           result.backup, old(inner.Admits(path, cancelled)))
                && (result.applied ==>
                     result.serviceInstalled && (result.serviceWasRunning <==> run[1] == Running(Yes)))
      ensures path in old(inner.staging) && path !in inner.staging ==>
                (path in inner.m.disk.names
            <==> !RanRename(inner.m.trail, |old(inner.m.trail)|, path, inner.target, true))
      ensures !result.applied ==>
                ModeSettled(old(inner.m.disk), inner.m.disk, inner.target, path, inner.m.trail, |old(inner.m.trail)|)
      ensures !result.applied ==>
                !old(inner.Admits(path, cancelled)) || SomeCallFailed(inner.m.trail, |old(inner.m.trail)|)
                || ServiceCallFailed(run)
      ensures result.applied && failed ==> CommitFailed(inner.m.trail, |old(inner.m.trail)|)
    {
      hide Carried, Safe, Framed, AfterInstalled, Outcome, Exclusive, TargetStaged, ModeSettled, RanRename,
        SomeCallFailed, ServiceCallFailed, CommitFailed;
      ghost var was, admitted := Now(), inner.Admits(path, cancelled);
      mid := |inner.m.trail|;
      var probe := inner.m.ProbeInstalled();
      if probe == No {
        failed, result, mid := inner.Install(path, cancelled, chunk);
        return failed, result, [Installed(probe)], mid;
      }
      var applied, backup, wasRunning := false, None, false;
      if probe == Unknown {
        EndedEarly(was, Now(), inner.m.restarts, inner.target, path, Installed(probe), admitted);
        failed, run := true, [Installed(probe)];
      } else {
        ghost var now, rest := Now(), [];
        applied, failed, backup, wasRunning, rest := InstallService(path, cancelled, chunk);
        ProbesFirst(rest);
        PrependProbeOrStop(Installed(probe), rest, was, now, Now(), inner.m.restarts, inner.target, path, applied,
                           failed, backup, admitted);
        run := [Installed(probe)] + rest;
        assert run[1..] == rest && run[1] == rest[0];
      }
      CarriedFacts(was, Now(), inner.m.restarts, inner.target, path, run, applied, failed, backup, admitted);
      result := if applied then InstallResult(true, backup, true, wasRunning) else NO_RESULT;
    }

    lemma ProbesFirst(t: seq<Call>)
      requires AfterInstalled(t)
      ensures t != [] && t[0].Running?
    {
    }

    lemma CarriedFacts(was: View, now: View, restarts: bool, t: Name, path: Name, run: seq<Call>,
                       applied: bool, failed: bool, backup: Option<Name>, admitted: bool)
      requires Carried(was, now, restarts, t, path, run, applied, failed, backup, admitted)
      requires Accepted(run) && run != [Installed(No)]
      ensures was.trail <= now.trail && Outcome(was.disk, now.disk, t, path, applied, failed, now.trail, |was.trail|)
      ensures !applied ==> failed && ModeSettled(was.disk, now.disk, t, path, now.trail, |was.trail|)
      ensures !applied ==> Carried(was, now, restarts, t, path, run, applied, failed, None, admitted)
      ensures !applied ==> !admitted || SomeCallFailed(now.trail, |was.trail|) || ServiceCallFailed(run)
      ensures applied && failed ==> CommitFailed(now.trail, |was.trail|)
      ensures path in was.staging && path !in now.staging ==>
                (path in now.disk.names <==> !RanRename(now.trail, |was.trail|, path, t, true))
    {
      if !applied {
        UnappliedHasACause(run);
      }
      hide Settled, ModeSettled, SafeUntilConfirmed, RanRename, DefinitionSettled, ServiceSettled,
        ServiceAfterFailedApply,
        LeftOld, Swapped, Committed, Accepted, ServiceCallFailed, SomeCallFailed, CommitFailed;
    }
  }
}
