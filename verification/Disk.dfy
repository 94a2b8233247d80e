/**
 One directory of a Unix file system: names, the inodes they point to, and the files behind those. A
 file is its bytes and its permission bits. Orphaned inodes stay in `files`; nothing can reach them.
 */
module Disks {
  import opened Options

  type Name = nat
  type Inode = nat
  type Mode = nat
  type Bytes = seq<bv8>

  datatype File = File(bytes: Bytes, mode: Mode)

  datatype Disk = Disk(names: map<Name, Inode>, files: map<Inode, File>)

  ghost predicate Closed(d: Disk) {
    forall n :: n in d.names ==> d.names[n] in d.files
  }

  /** What opening a name yields. */
  function Look(d: Disk, n: Name): Option<File> {
    if n in d.names && d.names[n] in d.files then Some(d.files[d.names[n]]) else None
  }

  predicate Holds(d: Disk, n: Name, bytes: Bytes) {
    Look(d, n).Some? && Look(d, n).value.bytes == bytes
  }

  /** No other name reaches the same file. */
  ghost predicate Exclusive(d: Disk, n: Name) {
    n in d.names && forall m :: m in d.names && m != n ==> d.names[m] != d.names[n]
  }

  function Created(d: Disk, n: Name, i: Inode, f: File): Disk {
    Disk(d.names[n := i], d.files[i := f])
  }

  function Linked(d: Disk, from: Name, to: Name): Disk
    requires from in d.names
  {
    d.(names := d.names[to := d.names[from]])
  }

  function Removed(d: Disk, n: Name): Disk {
    d.(names := d.names - {n})
  }

  /** rename(2): when both names already are the same file it does nothing, and both names stay. */
  function Renamed(d: Disk, from: Name, to: Name): Disk
    requires from in d.names
  {
    if to in d.names && d.names[to] == d.names[from] then d
    else d.(names := (d.names - {from})[to := d.names[from]])
  }

  function Replaced(d: Disk, n: Name, f: File): Disk
    requires n in d.names
  {
    d.(files := d.files[d.names[n] := f])
  }

  ghost predicate Unused(d: Disk, i: Inode) {
    i !in d.files && forall m :: m in d.names ==> d.names[m] != i
  }

  /** The file under n was changed in place, or another file was renamed over it. */
  ghost predicate Rewritten(d: Disk, d2: Disk, n: Name) {
    n in d.names && exists i, f :: (i == d.names[n] || Unused(d, i)) && d2 == Created(d, n, i, f)
  }

  lemma RewritesFile(d: Disk, n: Name, i: Inode, f: File)
    requires n in d.names && (i == d.names[n] || Unused(d, i))
    ensures Rewritten(d, Created(d, n, i, f), n)
  {
  }

  /** There is always a number outside a finite set, so always a new name and a new inode. */
  lemma {:induction false} SomeOutside(s: set<nat>) returns (bound: nat)
    ensures forall n :: n in s ==> n < bound
  {
    if s == {} {
      bound := 0;
    } else {
      var x :| x in s;
      var rest := SomeOutside(s - {x});
      bound := if x < rest then rest else x + 1;
      forall n | n in s ensures n < bound {
        if n != x {
          assert n in s - {x};
        }
      }
    }
  }
}
