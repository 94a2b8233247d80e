/**
 The machine an update works on: a directory, a service, and the service's definition. Every system
 call and every service call is free to fail. The trail records each system call with the directory
 it left behind and the service calls completed before it; it is what the safety claims speak about.
 */
module Machines {
  import opened Options
  import opened Disks

  datatype Op =
    | OpLstat(n: Name)
    | OpChmod(n: Name)
    | OpCreateTemp(n: Name)
    | OpOpen(n: Name)
    | OpCreateExclusive(n: Name)
    | OpWrite(n: Name)
    | OpSync(n: Name)
    | OpClose(n: Name)
    | OpLink(from: Name, to: Name)
    | OpRename(from: Name, to: Name)
    | OpRemove(n: Name)
    | OpRemoveAbsent(n: Name)
    | OpSyncDir
    | OpCloseDir
    | OpUnlock
    | OpReport
    | OpOpenBody
    | OpCloseBody

  datatype Probe = Yes | No | Unknown

  /**
   A step of a managed installation, with its result; for a reconcile also what its receipt asks for and
   whether it rewrote the definition.
   */
  datatype Call =
    | Installed(probe: Probe)
    | Running(probe: Probe)
    | Stop(ok: bool)
    | Apply(ok: bool)
    | Reconcile(ok: bool, speaks: bool, changed: bool)
    | Start(ok: bool)
    | WaitHealthy(ok: bool)
    | Commit(ok: bool)
    | Restore(ok: bool)
    | Rollback(ok: bool)

  datatype Entry = Entry(op: Op, ok: bool, disk: Disk, calls: seq<Call>)

  /** The service is down, or runs the bytes its executable held when it was started. */
  datatype Service = Down | Up(image: Bytes)

  type Definition = nat

  /** The receipt of a reconcile: it asks for a restore when it reports a change or holds state. */
  datatype Receipt = Receipt(changed: bool, hasState: bool) {
    predicate Speaks() {
      changed || hasState
    }
  }

  const BACKUP_COPY_MODE: Mode := 0x180 // octal 600

  /** Since the k-th system call, nothing was flushed to storage. */
  ghost predicate NoSync(trail: seq<Entry>, k: nat) {
    forall j :: k <= j < |trail| ==> !trail[j].op.OpSync?
  }

  /** Since the k-th, a system call failed; a link does not count, since a copy makes up for it. */
  ghost predicate SomeCallFailed(trail: seq<Entry>, k: nat) {
    exists j :: k <= j < |trail| && !trail[j].ok && !trail[j].op.OpLink?
  }

  lemma FailureStays(before: seq<Entry>, trail: seq<Entry>, k: nat, k1: nat)
    requires before <= trail && k <= k1
    ensures SomeCallFailed(before, k1) ==> SomeCallFailed(trail, k)
  {
    if SomeCallFailed(before, k1) {
      var j :| k1 <= j < |before| && !before[j].ok && !before[j].op.OpLink?;
      assert trail[j] == before[j];
    }
  }

  /** A failure since the k-th call is one of the earlier trail or one after it. */
  lemma FailuresSplit(before: seq<Entry>, trail: seq<Entry>, k: nat)
    requires before <= trail && k <= |before|
    ensures SomeCallFailed(trail, k) <==> SomeCallFailed(before, k) || SomeCallFailed(trail, |before|)
  {
    FailureStays(before, trail, k, k);
    if SomeCallFailed(trail, k) && !SomeCallFailed(trail, |before|) {
      var j :| k <= j < |trail| && !trail[j].ok && !trail[j].op.OpLink?;
      assert before[j] == trail[j];
    }
  }

  /** One call more fails exactly when it says so. */
  lemma OneMoreCall(before: seq<Entry>, trail: seq<Entry>, k: nat)
    requires before <= trail && |trail| == |before| + 1 && k <= |before|
    ensures SomeCallFailed(trail, k)
       <==> SomeCallFailed(before, k) || (!trail[|before|].ok && !trail[|before|].op.OpLink?)
  {
    FailuresSplit(before, trail, k);
  }

  /** The last call of the trail is one of those since the k-th. */
  lemma LastCall(trail: seq<Entry>, k: nat)
    requires k < |trail|
    ensures !trail[|trail| - 1].ok && !trail[|trail| - 1].op.OpLink? ==> SomeCallFailed(trail, k)
  {
  }

  class Machine {
    var disk: Disk
    var service: Service
    var definition: Definition
    /** What a restore puts back. */
    var prior: Definition
    /** Whether starting a service that is up restarts it. */
    const restarts: bool
    /** How the last stop left the service. */
    ghost var afterStop: Service
    /** How the last start found the service. */
    ghost var beforeStart: Service
    ghost var trail: seq<Entry>
    ghost var calls: seq<Call>

    constructor (disk: Disk, service: Service, definition: Definition, restarts: bool)
      ensures this.disk == disk && this.service == service && this.definition == definition && this.restarts == restarts
      ensures trail == [] && calls == []
    {
      this.disk, this.service, this.definition, this.prior, this.restarts := disk, service, definition, definition,
          restarts;
      afterStop, beforeStart, trail, calls := service, service, [], [];
    }

    // ----- System calls -----

    /** An inode that no file and no name has. */
    method UnusedInode() returns (i: Inode)
      ensures Unused(disk, i)
    {
      ghost var bound := SomeOutside(disk.files.Keys + disk.names.Values);
      assert bound !in disk.files.Keys + disk.names.Values;
      i :| i !in disk.files.Keys + disk.names.Values;
      forall m | m in disk.names ensures disk.names[m] != i {
        assert disk.names[m] in disk.names.Values;
      }
    }

    method Lstat(n: Name) returns (found: Option<File>)
      modifies this`trail
      ensures found.Some? ==> found == Look(disk, n)
      ensures trail == old(trail) + [Entry(OpLstat(n), found.Some?, disk, calls)]
    {
      found := None;
      if * {
        found := Look(disk, n);
      }
      trail := trail + [Entry(OpLstat(n), found.Some?, disk, calls)];
    }

    method Chmod(n: Name, mode: Mode) returns (ok: bool)
      modifies this`disk, this`trail
      ensures ok ==> Look(old(disk), n).Some? && disk == Replaced(old(disk), n, Look(old(disk), n).value.(mode := mode))
      ensures !ok ==> disk == old(disk)
      ensures trail == old(trail) + [Entry(OpChmod(n), ok, disk, calls)]
    {
      ok := false;
      if * {
        var file := Look(disk, n);
        if file.Some? {
          disk := Replaced(disk, n, file.value.(mode := mode));
          ok := true;
        }
      }
      trail := trail + [Entry(OpChmod(n), ok, disk, calls)];
    }

    /** A new empty file under an unused name; the name extends `base`, so it is not `base`. */
    method CreateTemp(base: Name) returns (created: Option<Name>, ghost inode: Inode)
      modifies this`disk, this`trail
      ensures created.Some? ==>
                && created.value !in old(disk).names && created.value != base && Unused(old(disk), inode)
                && disk == Created(old(disk), created.value, inode, File([], BACKUP_COPY_MODE))
      ensures created.None? ==> disk == old(disk)
      ensures trail
                == old(trail)
                + [Entry(OpCreateTemp(if created.Some? then created.value else base), created.Some?, disk, calls)]
    {
      created, inode := None, 0;
      if * {
        ghost var nameBound := SomeOutside(disk.names.Keys + {base});
        assert nameBound !in disk.names && nameBound != base;
        var n: Name :| n !in disk.names && n != base;
        var i := UnusedInode();
        disk := Created(disk, n, i, File([], BACKUP_COPY_MODE));
        created, inode := Some(n), i;
      }
      trail := trail + [Entry(OpCreateTemp(if created.Some? then created.value else base), created.Some?, disk, calls)];
    }

    method Open(n: Name) returns (found: Option<File>)
      modifies this`trail
      ensures found.Some? ==> found == Look(disk, n)
      ensures trail == old(trail) + [Entry(OpOpen(n), found.Some?, disk, calls)]
    {
      found := None;
      if * {
        found := Look(disk, n);
      }
      trail := trail + [Entry(OpOpen(n), found.Some?, disk, calls)];
    }

    /** Opens for writing with create and exclusive: fails when the name is taken. */
    method CreateExclusive(n: Name) returns (ok: bool, ghost inode: Inode)
      modifies this`disk, this`trail
      ensures ok ==>
                && n !in old(disk).names && Unused(old(disk), inode)
                && disk == Created(old(disk), n, inode, File([], BACKUP_COPY_MODE))
      ensures !ok ==> disk == old(disk)
      ensures trail == old(trail) + [Entry(OpCreateExclusive(n), ok, disk, calls)]
    {
      ok, inode := false, 0;
      if * {
        if n !in disk.names {
          var i := UnusedInode();
          disk := Created(disk, n, i, File([], BACKUP_COPY_MODE));
          ok, inode := true, i;
        }
      }
      trail := trail + [Entry(OpCreateExclusive(n), ok, disk, calls)];
    }

    /** Appends to an open file; a failed write may have written part of the chunk. */
    method Write(n: Name, chunk: Bytes) returns (ok: bool, ghost written: nat)
      requires Look(disk, n).Some?
      modifies this`disk, this`trail
      ensures written <= |chunk| && (ok ==> written == |chunk|)
      ensures disk
                == Replaced(old(disk), n,
                            Look(old(disk), n).value.(bytes := Look(old(disk), n).value.bytes + chunk[..written]))
      ensures trail == old(trail) + [Entry(OpWrite(n), ok, disk, calls)]
    {
      var k: nat := |chunk|;
      ok := true;
      if * {
        ok := false;
        k :| 0 <= k <= |chunk|;
      }
      written := k;
      var file := Look(disk, n).value;
      disk := Replaced(disk, n, file.(bytes := file.bytes + chunk[..k]));
      trail := trail + [Entry(OpWrite(n), ok, disk, calls)];
    }

    /** The consumer's transformer: it may rewrite one file in place, or put another in its place. */
    method Transform(n: Name) returns (ok: bool)
      modifies this`disk, this`trail
      ensures disk == old(disk) || Rewritten(old(disk), disk, n)
      ensures trail == old(trail) + [Entry(OpWrite(n), ok, disk, calls)]
    {
      ok := *;
      if n in disk.names {
        var file: File := *;
        var i := disk.names[n];
        if * {
          i := UnusedInode();
        }
        RewritesFile(disk, n, i, file);
        disk := Created(disk, n, i, file);
      }
      trail := trail + [Entry(OpWrite(n), ok, disk, calls)];
    }

    method Sync(n: Name) returns (ok: bool)
      modifies this`trail
      ensures trail == old(trail) + [Entry(OpSync(n), ok, disk, calls)]
    {
      ok := *;
      trail := trail + [Entry(OpSync(n), ok, disk, calls)];
    }

    method Close(n: Name) returns (ok: bool)
      modifies this`trail
      ensures trail == old(trail) + [Entry(OpClose(n), ok, disk, calls)]
    {
      ok := *;
      trail := trail + [Entry(OpClose(n), ok, disk, calls)];
    }

    method Link(from: Name, to: Name) returns (ok: bool)
      modifies this`disk, this`trail
      ensures ok ==> Look(old(disk), from).Some? && to !in old(disk).names && disk == Linked(old(disk), from, to)
      ensures !ok ==> disk == old(disk)
      ensures trail == old(trail) + [Entry(OpLink(from, to), ok, disk, calls)]
    {
      ok := false;
      if * {
        if Look(disk, from).Some? && to !in disk.names {
          disk := Linked(disk, from, to);
          ok := true;
        }
      }
      trail := trail + [Entry(OpLink(from, to), ok, disk, calls)];
    }

    method Rename(from: Name, to: Name) returns (ok: bool)
      modifies this`disk, this`trail
      ensures ok ==> Look(old(disk), from).Some? && disk == Renamed(old(disk), from, to)
      ensures !ok ==> disk == old(disk)
      ensures trail == old(trail) + [Entry(OpRename(from, to), ok, disk, calls)]
    {
      ok := false;
      if * {
        if Look(disk, from).Some? {
          disk := Renamed(disk, from, to);
          ok := true;
        }
      }
      trail := trail + [Entry(OpRename(from, to), ok, disk, calls)];
    }

    /** Reports an absent name apart from a failure, as some callers ignore the former. */
    method Remove(n: Name) returns (ok: bool, absent: bool)
      modifies this`disk, this`trail
      ensures ok ==> n in old(disk).names && disk == Removed(old(disk), n)
      ensures !ok ==> disk == old(disk)
      ensures absent ==> !ok && n !in old(disk).names
      ensures trail == old(trail) + [Entry(if absent then OpRemoveAbsent(n) else OpRemove(n), ok, disk, calls)]
    {
      ok, absent := false, false;
      if * {
        if n in disk.names {
          disk := Removed(disk, n);
          ok := true;
        } else {
          absent := true;
        }
      }
      trail := trail + [Entry(if absent then OpRemoveAbsent(n) else OpRemove(n), ok, disk, calls)];
    }

    /** Flushes the directory, so that its names survive a power failure. */
    method SyncDir() returns (ok: bool)
      modifies this`trail
      ensures trail == old(trail) + [Entry(OpSyncDir, ok, disk, calls)]
    {
      ok := *;
      trail := trail + [Entry(OpSyncDir, ok, disk, calls)];
    }

    /** Any other call whose only effect here is that it may fail. */
    method Try(op: Op) returns (ok: bool)
      requires op in {OpCloseDir, OpUnlock, OpReport, OpOpenBody, OpCloseBody}
      modifies this`trail
      ensures trail == old(trail) + [Entry(op, ok, disk, calls)]
    {
      ok := *;
      trail := trail + [Entry(op, ok, disk, calls)];
    }

    // ----- Service calls -----

    method ProbeInstalled() returns (probe: Probe)
      modifies this`calls
      ensures calls == old(calls) + [Installed(probe)]
    {
      probe := *;
      calls := calls + [Installed(probe)];
    }

    method ProbeRunning() returns (probe: Probe)
      modifies this`calls
      ensures probe == Yes ==> service.Up?
      ensures probe == No ==> service == Down
      ensures calls == old(calls) + [Running(probe)]
    {
      probe := Unknown;
      if * {
        probe := if service.Up? then Yes else No;
      }
      calls := calls + [Running(probe)];
    }

    /** A stop that fails may still have brought the service down. */
    method StopService() returns (ok: bool)
      modifies this`service, this`afterStop, this`calls
      ensures ok ==> service == Down
      ensures afterStop == service
      ensures calls == old(calls) + [Stop(ok)]
    {
      ok := *;
      service := *;
      if ok {
        service := Down;
      }
      afterStop := service;
      calls := calls + [Stop(ok)];
    }

    /** A service may die, and its supervisor may bring it up again on what the executable now holds. */
    method Waver(executable: Name)
      modifies this`service
      ensures service == old(service) || service == Down || Holds(disk, executable, service.image)
    {
      if * {
        service := Down;
        var file := Look(disk, executable);
        if file.Some? {
          if * {
            service := Up(file.value.bytes);
          }
        }
      }
    }

    /**
     A service that is down comes up with what the executable now holds; one that is up may be left as
     it is. What the start finds need not be what the last call left.
     */
    method StartService(executable: Name) returns (ok: bool)
      modifies this`service, this`beforeStart, this`calls
      ensures beforeStart == old(service) || beforeStart == Down || Holds(disk, executable, beforeStart.image)
      ensures ok ==> service.Up?
      ensures ok && beforeStart.Up? && !restarts ==> service == beforeStart
      ensures ok && (beforeStart == Down || restarts) ==> Holds(disk, executable, service.image)
      ensures calls == old(calls) + [Start(ok)]
    {
      ok := *;
      Waver(executable);
      var was := service;
      beforeStart := was;
      service := *;
      if ok {
        if was.Up? && !restarts {
          service := was;
        } else {
          var file := Look(disk, executable);
          if file.None? {
            ok := false;
          } else {
            service := Up(file.value.bytes);
          }
        }
      }
      calls := calls + [Start(ok)];
    }

    /** A service that does not prove healthy may have died, or have been brought up again, while it was watched. */
    method AwaitHealthy(executable: Name) returns (ok: bool)
      modifies this`service, this`calls
      ensures ok ==> service == old(service)
      ensures service == old(service) || service == Down || Holds(disk, executable, service.image)
      ensures calls == old(calls) + [WaitHealthy(ok)]
    {
      ok := *;
      if !ok {
        Waver(executable);
      }
      calls := calls + [WaitHealthy(ok)];
    }

    /** May rewrite the definition whether or not it fails, and whatever its receipt says about that. */
    method ReconcileDefinition() returns (ok: bool, receipt: Receipt)
      modifies this`definition, this`prior, this`calls
      ensures prior == old(definition)
      ensures calls == old(calls) + [Reconcile(ok, receipt.Speaks(), definition != old(definition))]
    {
      ok := *;
      receipt := *;
      prior := definition;
      definition := *;
      calls := calls + [Reconcile(ok, receipt.Speaks(), definition != prior)];
    }

    method RestoreDefinition() returns (ok: bool)
      modifies this`definition, this`calls
      ensures ok ==> definition == prior
      ensures calls == old(calls) + [Restore(ok)]
    {
      ok := *;
      definition := *;
      if ok {
        definition := prior;
      }
      calls := calls + [Restore(ok)];
    }

    /** Notes a step the session itself has finished. */
    ghost method Note(call: Call)
      modifies this`calls
      ensures calls == old(calls) + [call]
    {
      calls := calls + [call];
    }
  }
}
