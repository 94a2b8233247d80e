/**
 Replacing a file with backup and rollback on Unix (selfupdate/replace_unix.go, selfupdate/replace.go).

 `t` is the target, `s` the staging file, `b` the backup, and d0 the directory when the replacement
 began. Whatever fails, at every system call the target is exactly the old or exactly the staged
 bytes, and the old bytes are under the target's name or under a name that did not exist before.
 */
module ReplaceUnix {
  import opened Options
  import opened Disks
  import opened Machines

  // ----- How directories relate -----

  /** d2 is d and possibly one more name `n`, whose inode is new or the one of `t`. */
  ghost predicate Grown(d: Disk, d2: Disk, n: Name, t: Name) {
    && Closed(d2)
    && (forall m :: m in d.names ==> m in d2.names && d2.names[m] == d.names[m] && Look(d2, m) == Look(d, m))
    && (forall m :: m in d2.names ==> m in d.names || (m == n && NewOrOf(d, d2.names[m], t)))
  }

  ghost predicate NewOrOf(d: Disk, i: Inode, t: Name) {
    i !in d.files || (t in d.names && i == d.names[t])
  }

  /** The system calls since the k-th only add that name, and none of them is a rename. */
  ghost predicate GrownSince(trail: seq<Entry>, k: nat, d: Disk, n: Name, t: Name) {
    k <= |trail| && forall j :: k <= j < |trail| ==> Grown(d, trail[j].disk, n, t) && !trail[j].op.OpRename?
  }

  /** The same, and none of them is a link: what copying does. */
  ghost predicate CopiedSince(trail: seq<Entry>, k: nat, d: Disk, n: Name, t: Name) {
    GrownSince(trail, k, d, n, t) && NoLink(trail, k)
  }

  ghost predicate NoRename(trail: seq<Entry>, k: nat) {
    forall j :: k <= j < |trail| ==> !trail[j].op.OpRename?
  }

  /** Since the k-th system call, a rename of `from` to `to` had this result. */
  ghost predicate RanRename(trail: seq<Entry>, k: nat, from: Name, to: Name, ok: bool) {
    exists j :: k <= j < |trail| && trail[j].op == OpRename(from, to) && trail[j].ok == ok
  }

  /**
   Since the k-th system call, a rename of another file than the staging file over the target failed: the one
   that was to restore it.
   */
  ghost predicate RestoreRenameFailed(trail: seq<Entry>, k: nat, t: Name, s: Name) {
    exists b :: b != s && RanRename(trail, k, b, t, false)
  }

  ghost predicate NoLink(trail: seq<Entry>, k: nat) {
    forall j :: k <= j < |trail| ==> !trail[j].op.OpLink?
  }

  /** Since the k-th system call, a hard link to the file under `t` was made. */
  ghost predicate RanLink(trail: seq<Entry>, k: nat, t: Name) {
    exists j :: k <= j < |trail| && trail[j].op.OpLink? && trail[j].op.from == t && trail[j].ok
  }

  /** Nothing but the target, the staging file and new names differs from d0. */
  ghost predicate Framed(d0: Disk, d: Disk, t: Name, s: Name) {
    && Closed(d)
    && (forall m :: m in d0.names && m != t && m != s ==>
         m in d.names && d.names[m] == d0.names[m] && Look(d, m) == Look(d0, m))
    && (s in d0.names && s in d.names ==> d.names[s] == d0.names[s])
    && (forall m :: m in d.names && (m !in d0.names || m == t) ==>
         NewOrOf(d0, d.names[m], t) || (m == t && s in d0.names && d.names[m] == d0.names[s]))
  }

  /** The old bytes are still there, under the target's name or under one that is new. */
  ghost predicate Kept(d0: Disk, d: Disk, t: Name) {
    Look(d0, t).Some? ==>
      Holds(d, t, Look(d0, t).value.bytes) || exists b :: b !in d0.names && Holds(d, b, Look(d0, t).value.bytes)
  }

  ghost predicate TargetStaged(d0: Disk, d: Disk, t: Name, s: Name) {
    Look(d0, s).Some? && Holds(d, t, Look(d0, s).value.bytes)
  }

  /** The target is exactly the old or exactly the staged bytes; an absent target stays absent. */
  ghost predicate OldOrStaged(d0: Disk, d: Disk, t: Name, s: Name) {
    if Look(d0, t).Some? then Holds(d, t, Look(d0, t).value.bytes) || TargetStaged(d0, d, t, s) else Look(d, t).None?
  }

  ghost predicate Safe(d0: Disk, d: Disk, t: Name, s: Name) {
    Framed(d0, d, t, s) && OldOrStaged(d0, d, t, s) && Kept(d0, d, t)
  }

  ghost predicate SafeSince(trail: seq<Entry>, k: nat, d0: Disk, t: Name, s: Name) {
    k <= |trail| && forall j :: k <= j < |trail| ==> Safe(d0, trail[j].disk, t, s)
  }

  /** Before the rename: at most one more name, and at most the staging file's mode differs. */
  ghost predicate Prepared(d0: Disk, d: Disk, t: Name, s: Name, n: Name) {
    && Closed(d)
    && (forall m :: m in d0.names ==> m in d.names && d.names[m] == d0.names[m])
    && (forall m :: m in d0.names && m != s ==> Look(d, m) == Look(d0, m))
    && (Look(d0, s).Some? ==> Holds(d, s, Look(d0, s).value.bytes))
    && (forall m :: m in d.names ==> m in d0.names || (m == n && NewOrOf(d0, d.names[m], t)))
  }

  /** `b` holds the old bytes: it is the old file itself, or a copy only its owner may use. */
  ghost predicate BackedUp(d0: Disk, d: Disk, t: Name, b: Name)
    requires Look(d0, t).Some?
  {
    && b !in d0.names && b in d.names
    && (d.names[b] == d0.names[t] || d.names[b] !in d0.files)
    && Look(d, b)
         == Some(if d.names[b] == d0.names[t] then Look(d0, t).value
         else File(Look(d0, t).value.bytes, 0x180))
  }

  /** Since the k-th system call, a hard link to the file under `t` was tried and refused. */
  ghost predicate LinkRefused(trail: seq<Entry>, k: nat, t: Name) {
    exists j :: k <= j < |trail| && trail[j].op.OpLink? && trail[j].op.from == t && !trail[j].ok
  }

  /** `b` is the old file itself exactly when a link to it was made; it is a copy only if one was refused. */
  ghost predicate LinkDecides(d0: Disk, d: Disk, t: Name, b: Name, trail: seq<Entry>, k: nat) {
    && t in d0.names && b in d.names && (d.names[b] == d0.names[t] <==> RanLink(trail, k, t))
    && (RanLink(trail, k, t) || LinkRefused(trail, k, t))
  }

  /** The target is its old file again, mode and all, exactly when a link to it was made or its mode was a copy's. */
  ghost predicate ModeDecided(d0: Disk, d: Disk, t: Name, trail: seq<Entry>, k: nat)
    requires Look(d0, t).Some?
  {
    && (Look(d, t) == Look(d0, t) <==> RanLink(trail, k, t) || Look(d0, t).value.mode == 0x180)
    && (RanLink(trail, k, t) || LinkRefused(trail, k, t))
  }

  /** So it is with a target that was replaced and restored. */
  ghost predicate ModeSettled(d0: Disk, d: Disk, t: Name, s: Name, trail: seq<Entry>, k: nat) {
    RanRename(trail, k, s, t, true) && Restored(d0, d, t, s) ==> ModeDecided(d0, d, t, trail, k)
  }

  /** After the rename: the target is the staged bytes with the target's old mode, the staging name is gone. */
  ghost predicate Swapped(d0: Disk, d: Disk, t: Name, s: Name, b: Name) {
    && Look(d0, t).Some? && Look(d0, s).Some?
    && Framed(d0, d, t, s) && BackedUp(d0, d, t, b)
    && Look(d, t) == Some(Look(d0, s).value.(mode := Look(d0, t).value.mode))
    && t in d.names && d.names[t] == d0.names[s]
    && d.names.Keys == d0.names.Keys - {s} + {b}
  }

  /** After the backup was renamed back: the same names as before but for the staging name. */
  ghost predicate Restored(d0: Disk, d: Disk, t: Name, s: Name) {
    && Look(d0, t).Some?
    && Framed(d0, d, t, s)
    && t in d.names && (d.names[t] == d0.names[t] || d.names[t] !in d0.files)
    && Look(d, t)
         == Some(if d.names[t] == d0.names[t] then Look(d0, t).value
         else File(Look(d0, t).value.bytes, 0x180))
    && d.names.Keys == d0.names.Keys - {s}
  }

  // ----- Consequences -----

  lemma PreparedIsSafe(d0: Disk, d: Disk, t: Name, s: Name, n: Name)
    requires Closed(d0) && t != s && Prepared(d0, d, t, s, n) && Look(d0, t).Some?
    ensures Safe(d0, d, t, s)
  {
  }

  lemma UnchangedIsSafe(d: Disk, t: Name, s: Name)
    requires Closed(d)
    ensures Safe(d, d, t, s)
  {
  }

  lemma SwappedIsSafe(d0: Disk, d: Disk, t: Name, s: Name, b: Name)
    requires Swapped(d0, d, t, s, b)
    ensures Safe(d0, d, t, s) && TargetStaged(d0, d, t, s)
  {
    assert Holds(d, b, Look(d0, t).value.bytes);
  }

  lemma RestoredIsSafe(d0: Disk, d: Disk, t: Name, s: Name)
    requires Restored(d0, d, t, s)
    ensures Safe(d0, d, t, s) && Holds(d, t, Look(d0, t).value.bytes)
  {
  }

  /** Growing a prepared directory by the one new name keeps it prepared. */
  lemma GrownStaysPrepared(d0: Disk, d1: Disk, d: Disk, t: Name, s: Name, n: Name)
    requires t != s && Look(d0, t).Some? && Closed(d0)
    requires Prepared(d0, d1, t, s, n) && d1.names == d0.names && d1.files.Keys >= d0.files.Keys && Grown(d1, d, n, t)
    ensures Prepared(d0, d, t, s, n)
  {
  }

  /** Renaming the staging file over the target of a backed-up directory swaps them. */
  lemma RenameSwaps(d0: Disk, d: Disk, t: Name, s: Name, b: Name)
    requires Closed(d0) && t != s && Exclusive(d0, s) && Look(d0, t).Some? && b != s && b != t
    requires Prepared(d0, d, t, s, b) && BackedUp(d0, d, t, b)
    requires Look(d, s).value.mode == Look(d0, t).value.mode
    ensures Swapped(d0, Renamed(d, s, t), t, s, b)
  {
    var d2 := Renamed(d, s, t);
    assert d2.names.Keys == d0.names.Keys - {s} + {b};
  }

  /** Renaming the backup over the target of a swapped directory restores it. */
  lemma RenameRestores(d0: Disk, d: Disk, t: Name, s: Name, b: Name)
    requires Closed(d0) && t != s && Exclusive(d0, s) && Swapped(d0, d, t, s, b)
    ensures Restored(d0, Renamed(d, b, t), t, s)
  {
    var d2 := Renamed(d, b, t);
    assert d.names[b] != d.names[t];
    assert d2.names.Keys == d0.names.Keys - {s};
  }

  /**
   Renaming the backup back always restores the old bytes, and the old mode exactly when this run's
   link of the target succeeded or the mode was a copy's.
   */
  lemma RestoredKeepsTheModeExactlyWhen(d0: Disk, d: Disk, t: Name, s: Name, b: Name, trail: seq<Entry>, k: nat)
    requires Closed(d0) && t != s && Exclusive(d0, s) && Swapped(d0, d, t, s, b) && LinkDecides(d0, d, t, b, trail, k)
    ensures Holds(Renamed(d, b, t), t, Look(d0, t).value.bytes)
    ensures ModeDecided(d0, Renamed(d, b, t), t, trail, k)
  {
    RenameRestores(d0, d, t, s, b);
    hide RanLink;
  }

  /** Later calls that link nothing decide nothing anew. */
  lemma LinksStay(before: seq<Entry>, trail: seq<Entry>, k: nat, t: Name)
    requires before <= trail && NoLink(trail, |before|)
    ensures RanLink(before, k, t) <==> RanLink(trail, k, t)
    ensures LinkRefused(before, k, t) <==> LinkRefused(trail, k, t)
  {
    assert forall j :: 0 <= j < |before| ==> trail[j] == before[j];
  }

  /** The backup of a swapped directory is still there, so it is not a restored one. */
  lemma SwappedIsNotRestored(d0: Disk, d: Disk, t: Name, s: Name, b: Name)
    requires Swapped(d0, d, t, s, b)
    ensures !Restored(d0, d, t, s)
  {
    assert b in d.names.Keys;
  }

  /** A file reached by no other name before is reached by no other name after. */
  lemma ExclusiveIsKept(d0: Disk, d: Disk, t: Name, s: Name, n: Name)
    requires Closed(d0) && Framed(d0, d, t, s) && n != t && n != s && s in d0.names && t in d0.names
    requires Exclusive(d0, n)
    ensures Exclusive(d, n)
  {
  }

  // ----- The operations -----

  /** The last system call was a removal of n, and it failed. */
  ghost predicate RemoveFailed(trail: seq<Entry>, n: Name) {
    trail != [] && trail[|trail| - 1].op == OpRemove(n) && !trail[|trail| - 1].ok
  }

  /** d2 is d and a file being written under the new name dst. */
  ghost predicate Copying(d: Disk, d2: Disk, dst: Name, inode: Inode, bytes: Bytes) {
    && dst !in d.names && inode !in d.files
    && d2.names == d.names[dst := inode]
    && inode in d2.files && d2.files[inode] == File(bytes, BACKUP_COPY_MODE)
    && d2.files.Keys == d.files.Keys + {inode}
    && (forall i :: i in d.files ==> d2.files[i] == d.files[i])
  }

  lemma CopyingGrows(d: Disk, d2: Disk, dst: Name, inode: Inode, bytes: Bytes, t: Name)
    requires Closed(d) && Copying(d, d2, dst, inode, bytes)
    ensures Grown(d, d2, dst, t)
    ensures Grown(d, Removed(d2, dst), dst, t) && Removed(d2, dst).names == d.names
  {
    assert Removed(d2, dst).names == d.names;
  }

  /** Reserves a name by creating and removing a file. */
  method RandomSibling(m: Machine, base: Name) returns (name: Option<Name>, ghost tried: Name)
    requires Closed(m.disk)
    modifies m`disk, m`trail
    ensures old(m.trail) <= m.trail
    ensures CopiedSince(m.trail, |old(m.trail)|, old(m.disk), tried, base) && Grown(old(m.disk), m.disk, tried, base)
    ensures name.None? ==> m.disk.names == old(m.disk).names || RemoveFailed(m.trail, tried)
    ensures name.Some? ==> name.value !in m.disk.names && name.value != base && m.disk.names == old(m.disk).names
    ensures m.disk.files.Keys >= old(m.disk).files.Keys
    ensures name.None? ==> SomeCallFailed(m.trail, |old(m.trail)|)
  {
    hide SomeCallFailed;
    var created, inode := m.CreateTemp(base);
    tried := if created.Some? then created.value else base;
    LastCall(m.trail, |old(m.trail)|);
    if created.None? {
      return None, tried;
    }
    assert Copying(old(m.disk), m.disk, tried, inode, []);
    CopyingGrows(old(m.disk), m.disk, tried, inode, [], base);
    var closed := m.Close(created.value);
    LastCall(m.trail, |old(m.trail)|);
    ghost var trail := m.trail;
    var removed, absent := m.Remove(created.value);
    LastCall(m.trail, |old(m.trail)|);
    FailureStays(trail, m.trail, |old(m.trail)|, |old(m.trail)|);
    name := if closed && removed then created else None;
  }

  /** Gives up on a copy: the unfinished file is removed if it can be. */
  method AbandonCopy(m: Machine, dst: Name, src: Name, ghost d: Disk, ghost inode: Inode, ghost bytes: Bytes)
    requires Closed(d) && Copying(d, m.disk, dst, inode, bytes)
    modifies m`disk, m`trail
    ensures old(m.trail) <= m.trail && CopiedSince(m.trail, |old(m.trail)|, d, dst, src) && Grown(d, m.disk, dst, src)
    ensures dst !in m.disk.names || RemoveFailed(m.trail, dst)
  {
    CopyingGrows(d, m.disk, dst, inode, bytes, src);
    var removed, absent := m.Remove(dst);
  }

  lemma TakeMore(s: Bytes, at: nat, next: nat, k: nat)
    requires at <= next <= |s| && k <= next - at
    ensures s[..at] + s[at..next][..k] == s[..at + k]
  {
    assert s[at..next][..k] == s[at..at + k];
    assert s[..at + k] == s[..at] + s[at..at + k];
  }

  /** One write of a copy. */
  method CopyChunk(m: Machine, dst: Name, src: Name, bytes: Bytes, at: nat, next: nat, ghost d: Disk,
                   ghost inode: Inode)
    returns (ok: bool, ghost reached: nat)
    requires Closed(d) && at <= next <= |bytes| && Copying(d, m.disk, dst, inode, bytes[..at])
    modifies m`disk, m`trail
    ensures reached <= |bytes| && (ok ==> reached == next) && Copying(d, m.disk, dst, inode, bytes[..reached])
    ensures old(m.trail) <= m.trail && CopiedSince(m.trail, |old(m.trail)|, d, dst, src)
    ensures !ok ==> SomeCallFailed(m.trail, |old(m.trail)|)
  {
    var wrote, written := m.Write(dst, bytes[at..next]);
    LastCall(m.trail, |old(m.trail)|);
    ok, reached := wrote, at + written;
    TakeMore(bytes, at, next, written);
    CopyingGrows(d, m.disk, dst, inode, bytes[..reached], src);
  }

  /** The read and write loop of a copy. */
  method CopyBytes(m: Machine, dst: Name, src: Name, bytes: Bytes, chunk: nat, ghost d: Disk, ghost inode: Inode)
    returns (ok: bool, ghost reached: nat)
    requires Closed(d) && chunk > 0 && Copying(d, m.disk, dst, inode, [])
    modifies m`disk, m`trail
    ensures reached <= |bytes| && Copying(d, m.disk, dst, inode, bytes[..reached]) && (ok ==> bytes[..reached] == bytes)
    ensures old(m.trail) <= m.trail && CopiedSince(m.trail, |old(m.trail)|, d, dst, src)
    ensures !ok ==> SomeCallFailed(m.trail, |old(m.trail)|)
  {
    var at := 0;
    reached := 0;
    while at < |bytes|
      invariant 0 <= at <= |bytes| && reached == at
      invariant Copying(d, m.disk, dst, inode, bytes[..at])
      invariant old(m.trail) <= m.trail && CopiedSince(m.trail, |old(m.trail)|, d, dst, src)
    {
      var next := if at + chunk <= |bytes| then at + chunk else |bytes|;
      ghost var k := |m.trail|;
      ok, reached := CopyChunk(m, dst, src, bytes, at, next, d, inode);
      if !ok {
        FailureStays(m.trail, m.trail, |old(m.trail)|, k);
        return;
      }
      at := next;
    }
    ok := true;
  }

  /** Flushes and closes the finished copy; gives it up when either fails. */
  method FinishCopy(m: Machine, dst: Name, src: Name, ghost d: Disk, ghost inode: Inode, ghost bytes: Bytes)
    returns (ok: bool)
    requires Closed(d) && Copying(d, m.disk, dst, inode, bytes)
    modifies m`disk, m`trail
    ensures !ok ==> dst !in m.disk.names || RemoveFailed(m.trail, dst)
    ensures ok ==>
              && m.disk == old(m.disk) && |m.trail| == |old(m.trail)| + 2
              && m.trail[|m.trail| - 2].op == OpSync(dst) && m.trail[|m.trail| - 2].ok
              && m.trail[|m.trail| - 1].op == OpClose(dst) && m.trail[|m.trail| - 1].ok
    ensures old(m.trail) <= m.trail && CopiedSince(m.trail, |old(m.trail)|, d, dst, src) && Grown(d, m.disk, dst, src)
    ensures !ok ==> SomeCallFailed(m.trail, |old(m.trail)|)
  {
    CopyingGrows(d, m.disk, dst, inode, bytes, src);
    hide SomeCallFailed, Copying, Grown, Closed;
    ok := m.Sync(dst);
    LastCall(m.trail, |old(m.trail)|);
    ghost var synced := m.trail;
    var closed := m.Close(dst);
    LastCall(m.trail, |old(m.trail)|);
    FailureStays(synced, m.trail, |old(m.trail)|, |old(m.trail)|);
    ok := ok && closed;
    if !ok {
      ghost var trail := m.trail;
      AbandonCopy(m, dst, src, d, inode, bytes);
      FailureStays(trail, m.trail, |old(m.trail)|, |old(m.trail)|);
    }
  }

  /** Fills the created file; gives it up when a read or a write fails. */
  method FillCopy(m: Machine, dst: Name, src: Name, bytes: Bytes, chunk: nat, ghost d: Disk, ghost inode: Inode)
    returns (ok: bool)
    requires Closed(d) && chunk > 0 && Copying(d, m.disk, dst, inode, [])
    modifies m`disk, m`trail
    ensures ok ==> Copying(d, m.disk, dst, inode, bytes)
    ensures !ok ==> dst !in m.disk.names || RemoveFailed(m.trail, dst)
    ensures old(m.trail) <= m.trail && CopiedSince(m.trail, |old(m.trail)|, d, dst, src) && Grown(d, m.disk, dst, src)
    ensures !ok ==> SomeCallFailed(m.trail, |old(m.trail)|)
  {
    ghost var reached;
    ok, reached := CopyBytes(m, dst, src, bytes, chunk, d, inode);
    CopyingGrows(d, m.disk, dst, inode, bytes[..reached], src);
    if !ok {
      ghost var trail := m.trail;
      var closed := m.Close(dst);
      AbandonCopy(m, dst, src, d, inode, bytes[..reached]);
      FailureStays(trail, m.trail, |old(m.trail)|, |old(m.trail)|);
    }
  }

  /** The copy was flushed to storage, then it and its source were closed, all without an error. */
  ghost predicate CopySynced(trail: seq<Entry>, src: Name, dst: Name) {
    && |trail| >= 3
    && trail[|trail| - 3].op == OpSync(dst) && trail[|trail| - 3].ok
    && trail[|trail| - 2].op == OpClose(dst) && trail[|trail| - 2].ok
    && trail[|trail| - 1].op == OpClose(src) && trail[|trail| - 1].ok
  }

  /** Fills, flushes and closes the created file, then closes src. */
  method WriteCopy(m: Machine, dst: Name, src: Name, bytes: Bytes, chunk: nat, ghost d: Disk, ghost inode: Inode)
    returns (ok: bool)
    requires Closed(d) && chunk > 0 && Copying(d, m.disk, dst, inode, [])
    modifies m`disk, m`trail
    ensures ok ==> Copying(d, m.disk, dst, inode, bytes) && CopySynced(m.trail, src, dst)
    ensures old(m.trail) <= m.trail && CopiedSince(m.trail, |old(m.trail)|, d, dst, src) && Grown(d, m.disk, dst, src)
    ensures !ok ==> SomeCallFailed(m.trail, |old(m.trail)|)
  {
    hide SomeCallFailed, Copying, Grown, Closed;
    ok := FillCopy(m, dst, src, bytes, chunk, d, inode);
    if ok {
      ghost var filled := |m.trail|;
      ok := FinishCopy(m, dst, src, d, inode, bytes);
      FailureStays(m.trail, m.trail, |old(m.trail)|, filled);
    }
    ghost var trail := m.trail;
    var closed := m.Close(src);
    LastCall(m.trail, |old(m.trail)|);
    FailureStays(trail, m.trail, |old(m.trail)|, |old(m.trail)|);
    ok := ok && closed;
  }

  /**
   Copies src to a new file dst. When only closing src fails at the end, the complete copy stays
   behind although the call fails.
   */
  method CopyFile(m: Machine, src: Name, dst: Name, chunk: nat) returns (ok: bool)
    requires Closed(m.disk) && chunk > 0
    modifies m`disk, m`trail
    ensures old(m.trail) <= m.trail
    ensures CopiedSince(m.trail, |old(m.trail)|, old(m.disk), dst, src) && Grown(old(m.disk), m.disk, dst, src)
    ensures ok ==>
              Look(old(m.disk), src).Some? && dst !in old(m.disk).names && dst in m.disk.names
              && m.disk.names[dst] !in old(m.disk).files
    ensures ok ==>
              Look(m.disk, dst) == Some(File(Look(old(m.disk), src).value.bytes, BACKUP_COPY_MODE))
              && CopySynced(m.trail, src, dst)
    ensures !ok ==> SomeCallFailed(m.trail, |old(m.trail)|)
  {
    hide SomeCallFailed, CopySynced;
    ghost var d := m.disk;
    var input := m.Open(src);
    LastCall(m.trail, |old(m.trail)|);
    if input.None? {
      return false;
    }
    var created, inode := m.CreateExclusive(dst);
    LastCall(m.trail, |old(m.trail)|);
    if !created {
      ghost var trail := m.trail;
      var closed := m.Close(src);
      FailureStays(trail, m.trail, |old(m.trail)|, |old(m.trail)|);
      return false;
    }
    ghost var k := |m.trail|;
    CopyingGrows(d, m.disk, dst, inode, [], src);
    ok := WriteCopy(m, dst, src, input.value.bytes, chunk, d, inode);
    FailureStays(m.trail, m.trail, |old(m.trail)|, k);
  }

  /** A hard link when the file system allows one, else a copy. */
  method BackupFile(m: Machine, t: Name, b: Name, chunk: nat) returns (ok: bool)
    requires Closed(m.disk) && chunk > 0
    modifies m`disk, m`trail
    ensures old(m.trail) <= m.trail
    ensures GrownSince(m.trail, |old(m.trail)|, old(m.disk), b, t) && Grown(old(m.disk), m.disk, b, t)
    ensures ok ==> Look(old(m.disk), t).Some? && BackedUp(old(m.disk), m.disk, t, b)
    ensures ok ==> LinkDecides(old(m.disk), m.disk, t, b, m.trail, |old(m.trail)|)
    ensures !ok ==> SomeCallFailed(m.trail, |old(m.trail)|)
  {
    ok := m.Link(t, b);
    ghost var first := |old(m.trail)|;
    assert m.trail[first].op == OpLink(t, b) && m.trail[first].ok == ok;
    if !ok {
      ghost var k := |m.trail|;
      ok := CopyFile(m, t, b, chunk);
      FailureStays(m.trail, m.trail, first, k);
      assert m.trail[first].op == OpLink(t, b) && !m.trail[first].ok;
    }
  }

  /** Reserves a backup name and backs the target up under it. */
  method Backup(m: Machine, t: Name, s: Name, chunk: nat, ghost d0: Disk, ghost k: nat)
    returns (backup: Option<Name>, ghost extra: Name)
    requires Closed(d0) && t != s && s in d0.names && Look(d0, t).Some? && chunk > 0
    requires Prepared(d0, m.disk, t, s, t) && m.disk.names == d0.names && m.disk.files.Keys >= d0.files.Keys
    requires SafeSince(m.trail, k, d0, t, s) && NoRename(m.trail, k) && NoLink(m.trail, k)
    modifies m`disk, m`trail
    ensures old(m.trail) <= m.trail && SafeSince(m.trail, k, d0, t, s) && NoRename(m.trail, k)
    ensures backup.Some? ==> LinkDecides(d0, m.disk, t, extra, m.trail, k)
    ensures Prepared(d0, m.disk, t, s, extra) && Look(m.disk, s) == Look(old(m.disk), s)
    ensures backup.Some? ==> backup.value == extra && extra != t && extra != s && BackedUp(d0, m.disk, t, extra)
    ensures backup.None? ==> SomeCallFailed(m.trail, |old(m.trail)|)
  {
    hide SomeCallFailed, Safe, RanLink, LinkRefused;
    ghost var d1, k1 := m.disk, |m.trail|;
    assert m.trail[..k1] == m.trail;
    var sibling, tried := RandomSibling(m, t);
    extra := tried;
    SafeWhileGrowing(m.trail, k, k1, d0, d1, t, s, tried);
    GrownStaysPrepared(d0, d1, m.disk, t, s, tried);
    FailureStays(m.trail, m.trail, |old(m.trail)|, k1);
    if sibling.None? {
      return None, extra;
    }
    extra := sibling.value;
    ghost var d2, k2 := m.disk, |m.trail|;
    assert m.trail[..k2] == m.trail;
    var saved := BackupFile(m, t, sibling.value, chunk);
    SafeWhileGrowing(m.trail, k, k2, d0, d2, t, s, extra);
    GrownStaysPrepared(d0, d2, m.disk, t, s, extra);
    LinkedSince(m.trail, k, k2, t);
    FailureStays(m.trail, m.trail, |old(m.trail)|, k2);
    backup := if saved then sibling else None;
  }

  lemma LinkedSince(trail: seq<Entry>, k: nat, k1: nat, t: Name)
    requires k <= k1 <= |trail| && NoLink(trail[..k1], k)
    ensures RanLink(trail, k1, t) <==> RanLink(trail, k, t)
    ensures LinkRefused(trail, k1, t) <==> LinkRefused(trail, k, t)
  {
    assert forall j :: k <= j < k1 ==> trail[j] == trail[..k1][j];
  }

  /** The steps of a replacement up to the rename. On success the staging file has the target's mode. */
  method Prepare(m: Machine, t: Name, s: Name, chunk: nat) returns (backup: Option<Name>, ghost extra: Name)
    requires Closed(m.disk) && t != s && Exclusive(m.disk, s) && chunk > 0
    modifies m`disk, m`trail
    ensures old(m.trail) <= m.trail && SafeSince(m.trail, |old(m.trail)|, old(m.disk), t, s)
              && NoRename(m.trail, |old(m.trail)|)
    ensures Look(old(m.disk), t).None? ==> backup.None? && m.disk == old(m.disk)
    ensures Look(old(m.disk), t).Some? ==> Prepared(old(m.disk), m.disk, t, s, extra)
    ensures backup.None? ==> SomeCallFailed(m.trail, |old(m.trail)|)
    ensures backup.Some? ==>
              && Look(old(m.disk), t).Some? && backup.value == extra && backup.value != t && backup.value != s
              && BackedUp(old(m.disk), m.disk, t, extra)
              && LinkDecides(old(m.disk), m.disk, t, extra, m.trail, |old(m.trail)|)
              && Look(m.disk, s).Some? && Look(m.disk, s).value.mode == Look(old(m.disk), t).value.mode
  {
    hide SomeCallFailed, Safe, RanLink, LinkRefused;
    ghost var d0, k := m.disk, |m.trail|;
    UnchangedIsSafe(d0, t, s);
    extra := t;
    var info := m.Lstat(t);
    LastCall(m.trail, k);
    if info.None? {
      return None, extra;
    }
    PreparedIsSafe(d0, d0, t, s, t);
    var chmodded := m.Chmod(s, info.value.mode);
    PreparedIsSafe(d0, m.disk, t, s, t);
    LastCall(m.trail, k);
    if !chmodded {
      return None, extra;
    }
    ghost var k1 := |m.trail|;
    backup, extra := Backup(m, t, s, chunk, d0, k);
    FailureStays(m.trail, m.trail, k, k1);
  }

  lemma SafeWhileGrowing(trail: seq<Entry>, k: nat, k1: nat, d0: Disk, d1: Disk, t: Name, s: Name, n: Name)
    requires Closed(d0) && t != s && Look(d0, t).Some? && k <= k1 <= |trail|
    requires Prepared(d0, d1, t, s, n) && d1.names == d0.names && d1.files.Keys >= d0.files.Keys
    requires SafeSince(trail[..k1], k, d0, t, s) && GrownSince(trail, k1, d1, n, t)
    ensures SafeSince(trail, k, d0, t, s)
  {
    forall j | k <= j < |trail| ensures Safe(d0, trail[j].disk, t, s) {
      if j < k1 {
        assert trail[j] == trail[..k1][j];
      } else {
        GrownStaysPrepared(d0, d1, trail[j].disk, t, s, n);
        PreparedIsSafe(d0, trail[j].disk, t, s, n);
      }
    }
  }

  /** The last system call flushed the directory. */
  ghost predicate EndsSynced(trail: seq<Entry>) {
    trail != [] && trail[|trail| - 1].op == OpSyncDir && trail[|trail| - 1].ok
  }

  /** The recorded system calls of a failed restore end with the rename that failed. */
  ghost predicate RestoreFailed(trail: seq<Entry>, b: Name, t: Name) {
    trail != [] && trail[|trail| - 1].op == OpRename(b, t) && !trail[|trail| - 1].ok
  }

  /** How a replacement that reports no backup left the directory: never started, never renamed, or put back. */
  ghost predicate LeftOld(d0: Disk, d: Disk, t: Name, s: Name, extra: Name) {
    if Look(d0, t).None? then d == d0 else Prepared(d0, d, t, s, extra) || Restored(d0, d, t, s)
  }

  lemma LeftOldIsOld(d0: Disk, d: Disk, t: Name, s: Name, extra: Name)
    requires Closed(d0) && t != s && LeftOld(d0, d, t, s, extra)
    ensures Safe(d0, d, t, s)
    ensures Look(d0, t).Some? ==> Holds(d, t, Look(d0, t).value.bytes)
  {
    if Look(d0, t).Some? {
      if Restored(d0, d, t, s) {
        RestoredIsSafe(d0, d, t, s);
      } else {
        PreparedIsSafe(d0, d, t, s, extra);
      }
    }
  }

  lemma DroppingStaysPrepared(d0: Disk, d: Disk, t: Name, s: Name, b: Name)
    requires Prepared(d0, d, t, s, b) && b !in d0.names
    ensures Prepared(d0, Removed(d, b), t, s, b)
  {
  }

  lemma BackupStays(d: Disk, s: Name, t: Name, b: Name)
    requires s in d.names && b in d.names && b != s && b != t
    ensures b in Renamed(d, s, t).names && Renamed(d, s, t).names[b] == d.names[b]
  {
  }

  /** The rename of the staging file over the backed-up target; when it fails the backup is dropped. */
  method RenameOver(m: Machine, t: Name, s: Name, b: Name, ghost d0: Disk) returns (ok: bool)
    requires Closed(d0) && t != s && Exclusive(d0, s) && Look(d0, t).Some? && b != s && b != t
    requires Prepared(d0, m.disk, t, s, b) && BackedUp(d0, m.disk, t, b)
              && Look(m.disk, s).value.mode == Look(d0, t).value.mode
    modifies m`disk, m`trail
    ensures old(m.trail) <= m.trail && SafeSince(m.trail, |old(m.trail)|, d0, t, s)
    ensures if ok then Swapped(d0, m.disk, t, s, b) else Prepared(d0, m.disk, t, s, b)
    ensures !ok ==> b !in m.disk.names || RemoveFailed(m.trail, b)
    ensures |m.trail| > |old(m.trail)| && m.trail[|old(m.trail)|].op == OpRename(s, t)
              && m.trail[|old(m.trail)|].ok == ok
    ensures NoRename(m.trail, |old(m.trail)| + 1) && NoLink(m.trail, |old(m.trail)|)
    ensures ok ==> s in old(m.disk).names && m.disk == Renamed(old(m.disk), s, t)
  {
    hide Safe, Swapped, Prepared, Renamed, Closed, Framed, Kept;
    ghost var d := m.disk;
    StagingStays(d0, d, t, s, b);
    RenameSwaps(d0, d, t, s, b);
    SwappedIsSafe(d0, Renamed(d, s, t), t, s, b);
    PreparedIsSafe(d0, d, t, s, b);
    DroppingStaysPrepared(d0, d, t, s, b);
    PreparedIsSafe(d0, Removed(d, b), t, s, b);
    ok := m.Rename(s, t);
    if !ok {
      var removed, absent := m.Remove(b);
    }
  }

  /** Makes the rename last, or puts the backup back. */
  method SyncOrRestore(m: Machine, t: Name, s: Name, b: Name, ghost d0: Disk)
    returns (failed: bool, backup: Option<Name>)
    requires Closed(d0) && t != s && Exclusive(d0, s) && Swapped(d0, m.disk, t, s, b)
    modifies m`disk, m`trail
    ensures old(m.trail) <= m.trail && |old(m.trail)| < |m.trail| && SafeSince(m.trail, |old(m.trail)|, d0, t, s)
    ensures !failed ==> backup == Some(b) && EndsSynced(m.trail)
    ensures backup.Some? ==> backup == Some(b) && Swapped(d0, m.disk, t, s, b)
    ensures failed && backup.Some? ==> RestoreFailed(m.trail, b, t)
    ensures backup.None? ==> Restored(d0, m.disk, t, s)
    ensures m.disk == if backup.None? then Renamed(old(m.disk), b, t) else old(m.disk)
    ensures NoLink(m.trail, |old(m.trail)|)
    ensures failed ==> SomeCallFailed(m.trail, |old(m.trail)|)
    ensures forall j :: |old(m.trail)| <= j < |m.trail| && m.trail[j].op.OpRename? ==>
              failed && m.trail[j].op == OpRename(b, t) && m.trail[j].ok == backup.None?
  {
    hide Safe, Restored, Framed, Renamed, Exclusive, Closed, Kept, SomeCallFailed;
    ghost var d := m.disk;
    SwappedIsSafe(d0, d, t, s, b);
    var synced := m.SyncDir();
    LastCall(m.trail, |old(m.trail)|);
    ghost var trail := m.trail;
    if synced {
      return false, Some(b);
    }
    RenameRestores(d0, d, t, s, b);
    RestoredIsSafe(d0, Renamed(d, b, t), t, s);
    var restored := m.Rename(b, t);
    FailureStays(trail, m.trail, |old(m.trail)|, |old(m.trail)|);
    return true, if restored then None else Some(b);
  }

  /**
   replaceTarget. Without an error the target is the staged bytes and the backup holds the old ones.
   With an error the target is the old bytes, unless the rename that was to put the backup back
   failed too: then the backup's name is still reported and holds them.
   */
  method ReplaceTarget(m: Machine, t: Name, s: Name, chunk: nat)
    returns (failed: bool, backup: Option<Name>, ghost extra: Name)
    requires Closed(m.disk) && t != s && Exclusive(m.disk, s) && chunk > 0
    modifies m`disk, m`trail
    ensures old(m.trail) <= m.trail && SafeSince(m.trail, |old(m.trail)|, old(m.disk), t, s)
    ensures !failed ==> backup.Some? && EndsSynced(m.trail)
    ensures backup.Some? ==> Swapped(old(m.disk), m.disk, t, s, backup.value)
    ensures failed && backup.Some? ==> |old(m.trail)| < |m.trail| && RestoreFailed(m.trail, backup.value, t)
    ensures backup.None? ==> LeftOld(old(m.disk), m.disk, t, s, extra)
    ensures s in m.disk.names <==> !RanRename(m.trail, |old(m.trail)|, s, t, true)
    ensures failed && backup.Some? <==> RestoreRenameFailed(m.trail, |old(m.trail)|, t, s)
    ensures backup.Some? ==> LinkDecides(old(m.disk), m.disk, t, backup.value, m.trail, |old(m.trail)|)
    ensures backup.None? ==> ModeSettled(old(m.disk), m.disk, t, s, m.trail, |old(m.trail)|)
    ensures failed ==> SomeCallFailed(m.trail, |old(m.trail)|)
  {
    hide Safe, Framed, Swapped, Restored, BackedUp, RanRename, RestoreRenameFailed, RestoreFailed, EndsSynced, Prepared,
      RanLink, LinkRefused, ModeDecided, SomeCallFailed;
    ghost var d0, k := m.disk, |m.trail|;
    var prepared;
    prepared, extra := Prepare(m, t, s, chunk);
    if prepared.None? {
      NothingRenamed(d0, m.disk, t, s, extra, m.trail, k);
      return true, None, extra;
    }
    ghost var k1, trail1, d1 := |m.trail|, m.trail, m.disk;
    var renamed := RenameOver(m, t, s, prepared.value, d0);
    if !renamed {
      RenameLost(m.trail, k, k1, t, s);
      StagingStays(d0, m.disk, t, s, extra);
      return true, None, extra;
    }
    ghost var k2, trail2, d2 := |m.trail|, m.trail, m.disk;
    LinksStay(trail1, trail2, k, t);
    BackupStays(d1, s, t, prepared.value);
    failed, backup := SyncOrRestore(m, t, s, prepared.value, d0);
    if failed {
      FailureStays(m.trail, m.trail, k, k2);
    }
    StagingGoes(d0, m.disk, t, s, prepared.value);
    RenameHappened(trail2, m.trail, k, k1, t, s, prepared.value, failed && backup.Some?);
    LinksStay(trail2, m.trail, k, t);
    RestoredKeepsTheModeExactlyWhen(d0, d2, t, s, prepared.value, m.trail, k);
  }

  lemma StagingStays(d0: Disk, d: Disk, t: Name, s: Name, extra: Name)
    requires s in d0.names && Prepared(d0, d, t, s, extra)
    ensures s in d.names
  {
  }

  lemma StagingGoes(d0: Disk, d: Disk, t: Name, s: Name, b: Name)
    requires Swapped(d0, d, t, s, b) || Restored(d0, d, t, s)
    requires b != s
    ensures s !in d.names
  {
  }

  lemma NothingRenamed(d0: Disk, d: Disk, t: Name, s: Name, extra: Name, trail: seq<Entry>, k: nat)
    requires s in d0.names && NoRename(trail, k)
    requires if Look(d0, t).None? then d == d0 else Prepared(d0, d, t, s, extra)
    ensures s in d.names && !RanRename(trail, k, s, t, true) && !RestoreRenameFailed(trail, k, t, s)
  {
  }

  lemma RenameLost(trail: seq<Entry>, k: nat, k1: nat, t: Name, s: Name)
    requires k <= k1 < |trail| && NoRename(trail[..k1], k) && NoRename(trail, k1 + 1)
    requires trail[k1].op == OpRename(s, t) && !trail[k1].ok
    ensures !RanRename(trail, k, s, t, true) && !RestoreRenameFailed(trail, k, t, s) && SomeCallFailed(trail, k)
  {
    assert forall j :: k <= j < k1 ==> trail[j] == trail[..k1][j];
  }

  lemma RenameHappened(before: seq<Entry>, trail: seq<Entry>, k: nat, k1: nat, t: Name, s: Name, b: Name, lost: bool)
    requires before <= trail && k <= k1 < |before| && NoRename(before[..k1], k) && NoRename(before, k1 + 1) && b != s
    requires before[k1].op == OpRename(s, t) && before[k1].ok
    requires forall j :: |before| <= j < |trail| && trail[j].op.OpRename? ==>
              trail[j].op == OpRename(b, t) && trail[j].ok == !lost
    requires lost ==> |before| < |trail| && RestoreFailed(trail, b, t)
    ensures RanRename(trail, k, s, t, true) && (RestoreRenameFailed(trail, k, t, s) <==> lost)
  {
    assert trail[k1] == before[k1];
    assert forall j :: k <= j < k1 ==> trail[j] == before[..k1][j];
    assert forall j :: k1 < j < |before| ==> trail[j] == before[j];
    if lost {
      assert RanRename(trail, k, b, t, false);
    }
  }

  /** Since the k-th system call, a removal or a flush of the directory failed. */
  ghost predicate CommitFailed(trail: seq<Entry>, k: nat) {
    exists j :: k <= j < |trail| && !trail[j].ok
                && (trail[j].op.OpRemove? || trail[j].op.OpRemoveAbsent? || trail[j].op.OpSyncDir?)
  }

  /** commitReplacement with a backup: after it the backup is gone, or its removal failed. The target is not touched. */
  method CommitReplacement(m: Machine, b: Name) returns (ok: bool)
    modifies m`disk, m`trail
    ensures m.disk == old(m.disk) || m.disk == Removed(old(m.disk), b)
    ensures ok ==> m.disk == Removed(old(m.disk), b) && EndsSynced(m.trail)
    ensures old(m.trail) <= m.trail
    ensures forall j :: |old(m.trail)| <= j < |m.trail| ==>
              m.trail[j].disk == old(m.disk) || m.trail[j].disk == Removed(old(m.disk), b)
    ensures forall j :: |old(m.trail)| <= j < |m.trail| ==> m.trail[j].calls == m.calls
    ensures !ok ==> CommitFailed(m.trail, |old(m.trail)|)
  {
    var removed, absent := m.Remove(b);
    assert m.trail[|old(m.trail)|].ok == removed;
    if !removed {
      return false;
    }
    ok := m.SyncDir();
    assert m.trail[|old(m.trail)| + 1].ok == ok;
  }

  /** rollbackReplacement with a backup. It fails when the rename fails, and also when only the sync after it does. */
  method RollbackReplacement(m: Machine, t: Name, b: Name) returns (ok: bool)
    requires b in m.disk.names
    modifies m`disk, m`trail
    ensures m.disk == old(m.disk) || m.disk == Renamed(old(m.disk), b, t)
    ensures ok ==> m.disk == Renamed(old(m.disk), b, t) && EndsSynced(m.trail)
    ensures !ok && m.disk != Renamed(old(m.disk), b, t) ==> |old(m.trail)| < |m.trail| && RestoreFailed(m.trail, b, t)
    ensures old(m.trail) <= m.trail
    ensures forall j :: |old(m.trail)| <= j < |m.trail| ==>
              m.trail[j].disk == old(m.disk) || m.trail[j].disk == Renamed(old(m.disk), b, t)
    ensures NoLink(m.trail, |old(m.trail)|)
    ensures !ok ==> SomeCallFailed(m.trail, |old(m.trail)|)
  {
    ok := m.Rename(b, t);
    LastCall(m.trail, |old(m.trail)|);
    if ok {
      ok := m.SyncDir();
      LastCall(m.trail, |old(m.trail)|);
    }
  }
}
