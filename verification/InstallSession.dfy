/**
 An install session (selfupdate/session.go): the staging files it owns, the replacement of its
 target, and its close. Every method runs under the session's mutex, so each is one atomic step.
 */
module InstallSessions {
  import opened Options
  import opened Disks
  import opened Machines
  import opened ReplaceUnix

  datatype InstallResult = InstallResult(applied: bool, backup: Option<Name>, serviceInstalled: bool,
                                         serviceWasRunning: bool)

  const NO_RESULT := InstallResult(false, None, false, false)

  /**
   The replaced and committed directory: the target is the staged bytes with its old mode, and no other name
   was added.
   */
  ghost predicate Committed(d0: Disk, d: Disk, t: Name, s: Name) {
    && Look(d0, t).Some? && Look(d0, s).Some?
    && Framed(d0, d, t, s)
    && Look(d, t) == Some(Look(d0, s).value.(mode := Look(d0, t).value.mode))
    && d.names.Keys == d0.names.Keys - {s}
  }

  lemma RemovingTheBackupCommits(d0: Disk, d: Disk, t: Name, s: Name, b: Name)
    requires Swapped(d0, d, t, s, b)
    ensures Committed(d0, Removed(d, b), t, s) && TargetStaged(d0, Removed(d, b), t, s)
  {
    assert Removed(d, b).names.Keys == d0.names.Keys - {s};
  }

  /**
   How an installation left the target. An unapplied one left the old bytes, or its restoring rename failed and
   the backup holds them.
   */
  ghost predicate Outcome(d0: Disk, d: Disk, t: Name, s: Name, applied: bool, failed: bool, trail: seq<Entry>, k: nat) {
    if applied then
      Committed(d0, d, t, s) || (failed && exists b :: Swapped(d0, d, t, s, b))
    else
      && failed
      && ((exists extra :: LeftOld(d0, d, t, s, extra))
          || exists b :: Swapped(d0, d, t, s, b) && RanRename(trail, k, b, t, false))
  }

  /** What the outcome means for the bytes of a target that existed. */
  lemma OutcomeInBytes(d0: Disk, d: Disk, t: Name, s: Name, applied: bool, failed: bool, trail: seq<Entry>, k: nat)
    requires Closed(d0) && t != s && Look(d0, t).Some? && Outcome(d0, d, t, s, applied, failed, trail, k)
    ensures applied ==> TargetStaged(d0, d, t, s)
    ensures !applied ==> failed && Kept(d0, d, t)
    ensures !applied && !Holds(d, t, Look(d0, t).value.bytes) ==>
              exists b :: RanRename(trail, k, b, t, false) && Holds(d, b, Look(d0, t).value.bytes)
  {
    if !applied {
      if extra :| LeftOld(d0, d, t, s, extra) {
        LeftOldIsOld(d0, d, t, s, extra);
      } else {
        var b :| Swapped(d0, d, t, s, b) && RanRename(trail, k, b, t, false);
        SwappedIsSafe(d0, d, t, s, b);
        assert Holds(d, b, Look(d0, t).value.bytes);
      }
    }
  }

  lemma BackupIsNew(d0: Disk, d: Disk, t: Name, s: Name, b: Name)
    requires Swapped(d0, d, t, s, b)
    ensures b !in d0.names && s !in d.names && Framed(d0, d, t, s) && Framed(d0, Removed(d, b), t, s)
    ensures Closed(d) && Closed(Removed(d, b))
  {
  }

  /** What happened in a trail also happened in a longer one. */
  lemma RanRenameGrows(before: seq<Entry>, trail: seq<Entry>, k: nat, from: Name, to: Name)
    requires before <= trail
    ensures RanRename(before, k, from, to, true) ==> RanRename(trail, k, from, to, true)
  {
    if RanRename(before, k, from, to, true) {
      var j :| k <= j < |before| && before[j].op == OpRename(from, to) && before[j].ok;
      assert trail[j] == before[j];
    }
  }

  /** What a close leaves: none but owned names are gone, and no file has changed. */
  ghost predicate AfterClose(d: Disk, d2: Disk, owned: set<Name>) {
    && d2.files == d.files
    && (forall n :: n in d2.names ==> n in d.names && d2.names[n] == d.names[n])
    && (forall n :: n in d.names && n !in owned ==> n in d2.names)
  }

  /**
   The staging file of an attempted installation outlives the close of its session exactly when no
   rename of it over the target succeeded: the session has disowned it by then.
   */
  lemma LeakSurvivesClose(d: Disk, d2: Disk, owned: set<Name>, trail: seq<Entry>, k: nat, t: Name, s: Name)
    requires s in d.names <==> !RanRename(trail, k, s, t, true)
    requires s !in owned && AfterClose(d, d2, owned)
    ensures s in d2.names <==> !RanRename(trail, k, s, t, true)
  {
    hide RanRename;
  }

  /** Since the k-th system call, one failed; removing a file that is already gone does not count. */
  ghost predicate CloseFailed(trail: seq<Entry>, k: nat) {
    exists j :: k <= j < |trail| && !trail[j].ok && !trail[j].op.OpRemoveAbsent? && !trail[j].op.OpLink?
  }

  lemma CloseFailureStays(before: seq<Entry>, trail: seq<Entry>, k: nat)
    requires before <= trail && k <= |before|
    ensures CloseFailed(before, k) || CloseFailed(trail, |before|) <==> CloseFailed(trail, k)
  {
    if CloseFailed(before, k) {
      var j :| k <= j < |before| && !before[j].ok && !before[j].op.OpRemoveAbsent? && !before[j].op.OpLink?;
      assert trail[j] == before[j];
    }
  }

  class InstallSession {
    const m: Machine
    const target: Name
    var staging: set<Name>
    var closed: bool
    var rootOpen: bool
    var locked: bool
    var closeFailed: bool

    /** The session's staging files exist, under names that are not the target's and that only the session uses. */
    ghost predicate Valid()
      reads this, m
    {
      && Closed(m.disk)
      && (closed ==> staging == {} && !rootOpen && !locked)
      && forall n :: n in staging ==> n != target && Exclusive(m.disk, n)
    }

    /** What beginSession returns once the lock is held and the target is still the one resolved. */
    constructor (m: Machine, target: Name)
      requires Closed(m.disk)
      ensures Valid() && this.m == m && this.target == target && staging == {} && !closed && locked && rootOpen
      ensures !closeFailed
    {
      this.m, this.target := m, target;
      staging, closed, rootOpen, locked, closeFailed := {}, false, true, true, false;
    }

    method CreateStaging(cancelled: bool) returns (name: Option<Name>, ghost tried: Name)
      requires Valid()
      modifies this`staging, m`disk, m`trail
      ensures Valid()
      ensures old(m.trail) <= m.trail && NoSync(m.trail, |old(m.trail)|) && Grown(old(m.disk), m.disk, tried, tried)
      ensures cancelled || old(closed) ==> name.None? && m.disk == old(m.disk)
      ensures tried == target ==> m.disk == old(m.disk)
      ensures name.None? ==> staging == old(staging)
      ensures name.None? ==> cancelled || old(closed) || SomeCallFailed(m.trail, |old(m.trail)|)
      ensures name.None? && tried != target ==> tried !in m.disk.names || RemoveFailed(m.trail, tried)
      ensures name.Some? ==>
                && name.value !in old(m.disk).names && name.value != target && staging == old(staging) + {name.value}
                && Look(m.disk, name.value) == Some(File([], BACKUP_COPY_MODE))
                && tried == name.value && !SomeCallFailed(m.trail, |old(m.trail)|)
                && |m.trail| > |old(m.trail)| && m.trail[|old(m.trail)|].op == OpCreateTemp(name.value)
    {
      tried := target;
      if cancelled || closed {
        return None, tried;
      }
      var created, inode := m.CreateTemp(target);
      LastCall(m.trail, |old(m.trail)|);
      if created.None? {
        return None, tried;
      }
      tried := created.value;
      var found := m.Lstat(created.value);
      LastCall(m.trail, |old(m.trail)|);
      if found.None? {
        ghost var trail := m.trail;
        var shut := m.Close(created.value);
        var removed, absent := m.Remove(created.value);
        FailureStays(trail, m.trail, |old(m.trail)|, |old(m.trail)|);
        return None, tried;
      }
      staging := staging + {created.value};
      name := created;
    }

    predicate Owns(path: Name)
      reads this`staging
    {
      path in staging
    }

    /** Whether an installation gets as far as the replacement. */
    predicate Admits(path: Name, cancelled: bool)
      reads this`staging, this`closed
    {
      !cancelled && !closed && Owns(path)
    }

    /** apply: the replacement without its commit. The name leaves the staging set whether or not it succeeded. */
    method Apply(path: Name, cancelled: bool, chunk: nat)
      returns (failed: bool, backup: Option<Name>, ghost extra: Name)
      requires Valid() && chunk > 0
      modifies this`staging, m`disk, m`trail
      ensures Valid()
      ensures staging == if old(Admits(path, cancelled)) then old(staging) - {path} else old(staging)
      ensures old(m.trail) <= m.trail && SafeSince(m.trail, |old(m.trail)|, old(m.disk), target, path)
      ensures !old(Admits(path, cancelled)) ==>
                failed && backup.None? && m.disk == old(m.disk) && m.trail == old(m.trail)
      ensures !failed ==> backup.Some? && EndsSynced(m.trail)
      ensures backup.Some? ==> Swapped(old(m.disk), m.disk, target, path, backup.value)
      ensures failed && backup.Some? ==> |old(m.trail)| < |m.trail| && RestoreFailed(m.trail, backup.value, target)
      ensures old(Admits(path, cancelled)) && backup.None? ==> LeftOld(old(m.disk), m.disk, target, path, extra)
      ensures old(Admits(path, cancelled)) ==>
                (path in m.disk.names <==> !RanRename(m.trail, |old(m.trail)|, path, target, true))
      ensures failed && backup.Some? <==> RestoreRenameFailed(m.trail, |old(m.trail)|, target, path)
      ensures backup.Some? ==> LinkDecides(old(m.disk), m.disk, target, backup.value, m.trail, |old(m.trail)|)
      ensures backup.None? ==> ModeSettled(old(m.disk), m.disk, target, path, m.trail, |old(m.trail)|)
      ensures failed ==> !old(Admits(path, cancelled)) || SomeCallFailed(m.trail, |old(m.trail)|)
    {
      extra := target;
      if cancelled || closed || !Owns(path) {
        return true, None, extra;
      }
      failed, backup, extra := ReplaceTarget(m, target, path, chunk);
      staging := staging - {path};
      StagingSurvives(old(m.disk), m.disk, path, backup, extra);
    }

    /** The other staging files are as exclusive after a replacement as before it. */
    lemma StagingSurvives(d0: Disk, d: Disk, path: Name, backup: Option<Name>, extra: Name)
      requires Closed(d0) && path != target && path in d0.names
      requires if backup.Some? then Swapped(d0, d, target, path, backup.value) else LeftOld(d0, d, target, path, extra)
      ensures Closed(d)
      ensures forall n :: n != target && n != path && Exclusive(d0, n) ==> Exclusive(d, n)
    {
      if Look(d0, target).Some? {
        if backup.None? {
          LeftOldIsOld(d0, d, target, path, extra);
        }
        forall n | n != target && n != path && Exclusive(d0, n) ensures Exclusive(d, n) {
          ExclusiveIsKept(d0, d, target, path, n);
        }
      }
    }

    /** commit */
    method Commit(b: Name) returns (ok: bool)
      modifies m`disk, m`trail
      ensures m.disk == old(m.disk) || m.disk == Removed(old(m.disk), b)
      ensures ok ==> m.disk == Removed(old(m.disk), b) && EndsSynced(m.trail)
      ensures old(m.trail) <= m.trail
      ensures forall j :: |old(m.trail)| <= j < |m.trail| ==>
                m.trail[j].disk == old(m.disk) || m.trail[j].disk == Removed(old(m.disk), b)
      ensures forall j :: |old(m.trail)| <= j < |m.trail| ==> m.trail[j].calls == m.calls
      ensures !ok ==> CommitFailed(m.trail, |old(m.trail)|)
    {
      ok := CommitReplacement(m, b);
    }

    /** rollback */
    method Rollback(b: Name) returns (ok: bool)
      requires b in m.disk.names
      modifies m`disk, m`trail
      ensures m.disk == old(m.disk) || m.disk == Renamed(old(m.disk), b, target)
      ensures ok ==> m.disk == Renamed(old(m.disk), b, target) && EndsSynced(m.trail)
      ensures !ok && m.disk != Renamed(old(m.disk), b, target) ==>
                |old(m.trail)| < |m.trail| && RestoreFailed(m.trail, b, target)
      ensures old(m.trail) <= m.trail
      ensures forall j :: |old(m.trail)| <= j < |m.trail| ==>
                m.trail[j].disk == old(m.disk) || m.trail[j].disk == Renamed(old(m.disk), b, target)
      ensures NoLink(m.trail, |old(m.trail)|)
      ensures !ok ==> SomeCallFailed(m.trail, |old(m.trail)|)
    {
      ok := RollbackReplacement(m, target, b);
    }

    /** The commit of an applied installation: the target is the staged bytes at each of its system calls. */
    method CommitApplied(path: Name, b: Name, ghost d0: Disk) returns (ok: bool)
      requires Valid() && path in d0.names && Swapped(d0, m.disk, target, path, b)
      requires forall n :: n in staging ==> n in d0.names
      modifies m`disk, m`trail
      ensures Valid()
      ensures if ok then Committed(d0, m.disk, target, path)
                else Committed(d0, m.disk, target, path) || Swapped(d0, m.disk, target, path, b)
      ensures path !in m.disk.names && b !in d0.names
      ensures old(m.trail) <= m.trail
      ensures forall j :: |old(m.trail)| <= j < |m.trail| ==>
                Framed(d0, m.trail[j].disk, target, path) && TargetStaged(d0, m.trail[j].disk, target, path)
      ensures !ok ==> CommitFailed(m.trail, |old(m.trail)|)
    {
      ghost var d := m.disk;
      SwappedIsSafe(d0, d, target, path, b);
      RemovingTheBackupCommits(d0, d, target, path, b);
      BackupIsNew(d0, d, target, path, b);
      hide Safe, Framed, Swapped, Committed, TargetStaged;
      ok := Commit(b);
      forall n | n in staging ensures Exclusive(m.disk, n) {
        assert Exclusive(d, n);
      }
    }

    /**
     Install, without a service. Up to system call `mid` the old bytes are kept; after it the target
     already is the staged bytes for good.
     */
    method Install(path: Name, cancelled: bool, chunk: nat)
      returns (failed: bool, result: InstallResult, ghost mid: nat)
      requires Valid() && chunk > 0
      modifies this`staging, m`disk, m`trail
      ensures Valid()
      ensures staging == if old(Admits(path, cancelled)) then old(staging) - {path} else old(staging)
      ensures !old(Admits(path, cancelled)) ==>
                failed && !result.applied && m.disk == old(m.disk) && m.trail == old(m.trail)
      ensures !failed ==> result.applied && Committed(old(m.disk), m.disk, target, path)
      ensures Outcome(old(m.disk), m.disk, target, path, result.applied, failed, m.trail, |old(m.trail)|)
      ensures result.applied ==>
                && result.backup.Some? && result.backup.value !in old(m.disk).names
                && (Committed(old(m.disk), m.disk, target, path)
                     || Swapped(old(m.disk), m.disk, target, path, result.backup.value))
      ensures !result.applied ==> failed && result == NO_RESULT
      ensures !result.applied ==> ModeSettled(old(m.disk), m.disk, target, path, m.trail, |old(m.trail)|)
      ensures result == InstallResult(result.applied, result.backup, false, false)
      ensures !result.applied ==> !old(Admits(path, cancelled)) || SomeCallFailed(m.trail, |old(m.trail)|)
      ensures result.applied && failed ==> CommitFailed(m.trail, |old(m.trail)|)
      ensures old(Admits(path, cancelled)) ==>
                (path in m.disk.names <==> !RanRename(m.trail, |old(m.trail)|, path, target, true))
      ensures old(m.trail) <= m.trail && |old(m.trail)| <= mid <= |m.trail|
      ensures SafeSince(m.trail[..mid], |old(m.trail)|, old(m.disk), target, path)
      ensures mid < |m.trail| ==> result.applied
      ensures forall j :: mid <= j < |m.trail| ==>
                Framed(old(m.disk), m.trail[j].disk, target, path)
                && TargetStaged(old(m.disk), m.trail[j].disk, target, path)
    {
      hide Safe, Framed, Swapped, Committed, TargetStaged, RestoreRenameFailed, SomeCallFailed;
      ghost var d0, admitted := m.disk, Admits(path, cancelled);
      var backup;
      ghost var extra;
      failed, backup, extra := Apply(path, cancelled, chunk);
      mid := |m.trail|;
      assert m.trail[..mid] == m.trail;
      if failed {
        if backup.Some? {
          assert RanRename(m.trail, |old(m.trail)|, backup.value, target, false);
          SwappedIsNotRestored(d0, m.disk, target, path, backup.value);
        } else {
          assert LeftOld(d0, m.disk, target, path, extra);
        }
        return true, NO_RESULT, mid;
      }
      ghost var trail := m.trail;
      var ok := CommitApplied(path, backup.value, d0);
      assert m.trail[..mid] == trail;
      RanRenameGrows(trail, m.trail, |old(m.trail)|, path, target);
      return !ok, InstallResult(true, backup, false, false), mid;
    }

    /** One staging file of a close; an absent one is no error. */
    method RemoveStaging(n: Name) returns (ok: bool)
      modifies m`disk, m`trail
      ensures m.disk == old(m.disk) || m.disk == Removed(old(m.disk), n)
      ensures ok ==> n !in m.disk.names
      ensures |m.trail| == |old(m.trail)| + 1 && m.trail[..|old(m.trail)|] == old(m.trail)
                && (m.trail[|old(m.trail)|].op == OpRemove(n) || m.trail[|old(m.trail)|].op == OpRemoveAbsent(n))
      ensures !ok <==> CloseFailed(m.trail, |old(m.trail)|)
    {
      var removed, absent := m.Remove(n);
      ok := removed || absent;
      assert m.trail[|old(m.trail)|].ok == removed;
    }

    /** Gives up the directory and the lock. */
    method LetGo() returns (failed: bool)
      modifies this`rootOpen, this`locked, m`trail
      ensures !rootOpen && !locked
      ensures |m.trail| == |old(m.trail)| + 2 && old(m.trail) <= m.trail && NoRename(m.trail, |old(m.trail)|)
      ensures failed <==> CloseFailed(m.trail, |old(m.trail)|)
    {
      ghost var k := |m.trail|;
      var rootClosed := m.Try(OpCloseDir);
      rootOpen := false;
      var released := m.Try(OpUnlock);
      locked := false;
      failed := !rootClosed || !released;
      assert m.trail[k].ok == rootClosed && m.trail[k].op == OpCloseDir;
      assert m.trail[k + 1].ok == released && m.trail[k + 1].op == OpUnlock;
    }

    /**
     Close: removes the staging files the session still owns, in any order, and gives up the directory
     and the lock. A second close does nothing and reports the first one's result again.
     */
    method Close() returns (failed: bool)
      requires Valid()
      modifies this`staging, this`closed, this`rootOpen, this`locked, this`closeFailed, m`disk, m`trail
      ensures Valid() && closed && !locked && !rootOpen && staging == {}
      ensures failed == closeFailed
      ensures old(closed) ==> m.disk == old(m.disk) && closeFailed == old(closeFailed)
      ensures AfterClose(old(m.disk), m.disk, old(staging))
      ensures old(m.trail) <= m.trail && NoRename(m.trail, |old(m.trail)|)
      ensures !failed && !old(closed) ==> forall n :: n in old(staging) ==> n !in m.disk.names
      ensures !old(closed) ==> (failed <==> CloseFailed(m.trail, |old(m.trail)|))
    {
      if closed {
        return closeFailed;
      }
      assert !CloseFailed(m.trail, |m.trail|);
      hide CloseFailed;
      closed := true;
      ghost var d0, owned := m.disk, staging;
      failed := false;
      var left := staging;
      while left != {}
        invariant closed && left <= owned && m.disk.files == d0.files && Closed(m.disk)
        invariant forall n :: n in m.disk.names ==> n in d0.names && m.disk.names[n] == d0.names[n]
        invariant forall n :: n in d0.names && n !in owned ==> n in m.disk.names
        invariant old(m.trail) <= m.trail && NoRename(m.trail, |old(m.trail)|)
        invariant !failed ==> forall n :: n in owned && n !in left ==> n !in m.disk.names
        invariant failed <==> CloseFailed(m.trail, |old(m.trail)|)
        decreases left
      {
        var n :| n in left;
        ghost var trail := m.trail;
        var ok := RemoveStaging(n);
        CloseFailureStays(trail, m.trail, |old(m.trail)|);
        failed := failed || !ok;
        left := left - {n};
      }
      staging := {};
      ghost var removed := m.trail;
      var kept := LetGo();
      CloseFailureStays(removed, m.trail, |old(m.trail)|);
      failed := failed || kept;
      closeFailed := failed;
    }
  }
}
