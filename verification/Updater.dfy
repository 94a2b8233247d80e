/**
 From the release to the target (selfupdate/updater.go, apply; selfupdate/download.go): what an
 update that reports success has installed, and the chain of digests behind it.

 The hash and the decoding of the manifest's bytes are parameters. Reports,
     verifiers and the context may stop the update at any stage.
 */
module Updaters {
  import opened Options
  import opened Disks
  import opened Machines
  import opened ReplaceUnix
  import opened InstallSessions
  import opened ManagedProtocol
  import opened ManagedSessions
  import opened Checksums

  /** What reading a response body yields: its bytes, and then its end or a read error. */
  datatype Body = Body(bytes: Bytes, ends: bool)

  /** A release asset: its advertised size and its GitHub digest, empty when there is none. */
  datatype Asset = Asset(size: int, digest: string)

  type Hash = Bytes -> string

  // ----- Downloading -----

  /**
   The writer of a copy: one that has room for so many bytes fails at the next, having taken those; None is
   no limit.
   */
  method WriteTo(content: Bytes, piece: Bytes, room: Option<nat>) returns (more: Bytes, ok: bool)
    requires room.Some? ==> |content| <= room.value
    ensures content <= more <= content + piece
    ensures ok <==> room.None? || |content| + |piece| <= room.value
    ensures more == if ok then content + piece else content + piece[..room.value - |content|]
  {
    ok := room.None? || |content| + |piece| <= room.value;
    more := content + if ok then piece else piece[..room.value - |content|];
  }

  /** The body is as long as advertised, within the limit, and was read to its end. */
  predicate Exact(body: Body, advertised: int, limit: int) {
    0 < advertised <= limit && body.ends && |body.bytes| == advertised
  }

  /** copyLimited: copies at most one byte more than advertised, to tell a longer body. */
  method CopyLimited(body: Body, advertised: int, limit: int, hash: Hash, chunk: nat, room: Option<nat>)
    returns (written: Bytes, digest: Option<string>, writerFailed: bool)
    requires chunk > 0
    ensures written <= body.bytes && (0 < advertised <= limit ==> |written| <= advertised + 1)
    ensures digest.Some? <==> Exact(body, advertised, limit) && !writerFailed
    ensures digest.Some? ==> written == body.bytes && digest.value == hash(body.bytes)
    ensures writerFailed ==> room.Some? && room.value < |body.bytes| && written == body.bytes[..room.value]
  {
    written, writerFailed := [], false;
    if advertised <= 0 || advertised > limit {
      return written, None, false;
    }
    var hashed: Bytes := [];
    var at := 0;
    while at < |body.bytes| && at < advertised + 1
      invariant 0 <= at <= |body.bytes| && at <= advertised + 1
      invariant written == hashed == body.bytes[..at] && !writerFailed
      invariant room.Some? ==> at <= room.value
    {
      var left := if |body.bytes| < advertised + 1 then |body.bytes| else advertised + 1;
      var next := if at + chunk <= left then at + chunk else left;
      var piece := body.bytes[at..next];
      assert body.bytes[..at] + piece == body.bytes[..next];
      var ok;
      written, ok := WriteTo(written, piece, room);
      if !ok {
        assert body.bytes[..at] + piece[..room.value - at] == body.bytes[..room.value];
        return written, None, true;
      }
      hashed := hashed + piece;
      at := next;
    }
    if at < advertised + 1 && !body.ends {
      return written, None, false;
    }
    if at != advertised {
      return written, None, false;
    }
    assert body.bytes[..at] == body.bytes;
    digest := Some(hash(hashed));
  }

  /** The asset arrived whole, with this digest, which is GitHub's when GitHub gave one. */
  predicate Fetched(asset: Asset, body: Body, limit: int, hash: Hash, digest: string) {
    && Exact(body, asset.size, limit) && digest == hash(body.bytes)
    && (asset.digest != "" ==> GitHubDigest(asset.digest) == Some(digest))
  }

  /** downloadAsset; `opens` and `closes` say whether opening the body and closing it succeed. */
  method DownloadAsset(asset: Asset, body: Body, limit: int, hash: Hash, chunk: nat, room: Option<nat>, opens: bool,
                       closes: bool)
    returns (written: Bytes, digest: Option<string>, writerFailed: bool)
    requires chunk > 0
    ensures written <= body.bytes
    ensures digest.Some? <==> opens && closes && !writerFailed && Fetched(asset, body, limit, hash, hash(body.bytes))
    ensures digest.Some? ==> digest.value == hash(body.bytes) && written == body.bytes
    ensures writerFailed ==> room.Some? && room.value < |body.bytes|
  {
    written, digest, writerFailed := [], None, false;
    if !opens {
      return;
    }
    written, digest, writerFailed := CopyLimited(body, asset.size, limit, hash, chunk, room);
    if digest.None? || (asset.digest != "" && GitHubDigest(asset.digest) != digest) || !closes {
      digest := None;
    }
  }

  // ----- Verifying -----

  /** How the bytes of a manifest are read as text. */
  type Decoding = Bytes -> string

  /** The release's digest of the binary is the one entry of the manifest for its name. */
  ghost predicate Listed(text: Decoding, manifest: Bytes, name: string, digest: string) {
    && WellFormed(RawLines(text(manifest))) && HasLine(RawLines(text(manifest)), digest, name)
    && forall other :: HasLine(RawLines(text(manifest)), other, name) ==> other == digest
  }

  /** The binary as released: it arrived whole, and the manifest and GitHub agree on its digest. */
  ghost predicate Genuine(text: Decoding, manifest: Body, name: string, binary: Asset, body: Body, limit: int,
                          hash: Hash, digest: string) {
    Fetched(binary, body, limit, hash, digest) && Listed(text, manifest.bytes, name, digest)
  }

  /** The manifest's digest for a name. */
  method ManifestDigest(text: Decoding, manifest: Bytes, name: string) returns (digest: Option<string>)
    ensures forall d :: digest == Some(d) <==> Listed(text, manifest, name, d)
  {
    hide WellFormed, HasLine, Tabulates, HasEntry, ChecksumFor;
    var entries := ParseSHA256SUMS(text(manifest));
    digest := if entries.None? then None else ChecksumFor(entries.value, name);
    forall d ensures digest == Some(d) <==> Listed(text, manifest, name, d) {
      if entries.None? {
        LineIsEntry(RawLines(text(manifest)), d, name);
      } else {
        ChecksumIsTheOneEntry(text(manifest), entries.value, name, d);
      }
    }
  }

  lemma LineIsEntry(raws: seq<string>, digest: string, name: string)
    ensures HasLine(raws, digest, name) ==> HasEntry(raws)
  {
  }

  /** The digests of a downloaded binary are compared, then the consumer's verifiers run in order. */
  method Verify(text: Decoding, manifest: Bytes, name: string, binary: Asset, digest: string, verifiers: seq<bool>)
    returns (ok: bool)
    ensures ok <==>
              && digest != "" && Listed(text, manifest, name, digest)
              && (binary.digest == "" || GitHubDigest(binary.digest) == Some(digest))
              && forall k :: 0 <= k < |verifiers| ==> verifiers[k]
  {
    hide Listed;
    var listed := ManifestDigest(text, manifest, name);
    if listed.None? {
      return false;
    }
    var github := if binary.digest == "" then Some("") else GitHubDigest(binary.digest);
    if github.None? {
      return false;
    }
    ok := VerifyIntegrity(digest, listed.value, github.value);
    if !ok {
      return;
    }
    for i := 0 to |verifiers|
      invariant ok && forall k :: 0 <= k < i ==> verifiers[k]
    {
      if !verifiers[i] {
        return false;
      }
    }
  }

  // ----- The whole update -----

  /** The target is as it was and no name is gone. */
  ghost predicate TargetSame(d0: Disk, d: Disk, t: Name) {
    Look(d, t) == Look(d0, t) && d0.names.Keys <= d.names.Keys
  }

  /** Opening and closing the body of a download. */
  method TryBody(sess: InstallSession, ghost k: nat) returns (opens: bool, closes: bool)
    requires k <= |sess.m.trail|
    modifies sess.m`trail
    ensures old(sess.m.trail) <= sess.m.trail && NoSync(sess.m.trail, |old(sess.m.trail)|)
    ensures SomeCallFailed(sess.m.trail, k) <==> !opens || !closes || SomeCallFailed(old(sess.m.trail), k)
    ensures |sess.m.trail| > |old(sess.m.trail)|
    ensures opens <==> sess.m.trail[|sess.m.trail| - 1].op == OpCloseBody
  {
    hide SomeCallFailed;
    opens := sess.m.Try(OpOpenBody);
    OneMoreCall(old(sess.m.trail), sess.m.trail, k);
    closes := opens;
    if opens {
      ghost var between := sess.m.trail;
      closes := sess.m.Try(OpCloseBody);
      OneMoreCall(between, sess.m.trail, k);
    }
  }

  /** A report to the consumer, who may stop the update. */
  method Announce(sess: InstallSession, ghost k: nat) returns (ok: bool)
    requires k <= |sess.m.trail|
    modifies sess.m`trail
    ensures old(sess.m.trail) <= sess.m.trail && NoSync(sess.m.trail, |old(sess.m.trail)|)
    ensures NoRename(sess.m.trail, |old(sess.m.trail)|)
    ensures SomeCallFailed(sess.m.trail, k) <==> !ok || SomeCallFailed(old(sess.m.trail), k)
    ensures |sess.m.trail| == |old(sess.m.trail)| + 1 && sess.m.trail[|sess.m.trail| - 1].op == OpReport
    ensures sess.m.trail[|sess.m.trail| - 1].ok == ok
  {
    ok := sess.m.Try(OpReport);
    OneMoreCall(old(sess.m.trail), sess.m.trail, k);
  }

  /** The j-th call is a report, and right after it a staging file is created. */
  ghost predicate StagingIsAnnounced(trail: seq<Entry>, j: nat) {
    j + 1 < |trail| && trail[j].op == OpReport && trail[j + 1].op.OpCreateTemp?
  }

  /** Creates the staging file and downloads the binary into it. The file is closed without being flushed. */
  method StageBinary(sess: InstallSession, binary: Asset, body: Body, limit: int, hash: Hash, chunk: nat,
                     cancelled: bool)
    returns (path: Option<Name>, digest: string)
    requires sess.Valid() && chunk > 0
    modifies sess`staging, sess.m`disk, sess.m`trail
    ensures sess.Valid() && TargetSame(old(sess.m.disk), sess.m.disk, sess.target)
    ensures old(sess.m.trail) <= sess.m.trail && NoSync(sess.m.trail, |old(sess.m.trail)|)
    ensures path.None? ==>
              || cancelled || old(sess.closed) || SomeCallFailed(sess.m.trail, |old(sess.m.trail)|)
              || !Fetched(binary, body, limit, hash, hash(body.bytes))
    ensures path.Some? ==>
              && path.value in sess.staging && Fetched(binary, body, limit, hash, digest)
              && Holds(sess.m.disk, path.value, body.bytes)
              && !SomeCallFailed(sess.m.trail, |old(sess.m.trail)|)
              && sess.m.disk.names.Keys == old(sess.m.disk.names.Keys) + {path.value}
              && |sess.m.trail| > |old(sess.m.trail)|
                   && sess.m.trail[|old(sess.m.trail)|].op == OpCreateTemp(path.value)
  {
    hide Fetched, SomeCallFailed;
    digest := "";
    ghost var d0 := sess.m.disk;
    ghost var tried;
    path, tried := sess.CreateStaging(cancelled);
    if path.None? {
      TargetIsKeptByGrowing(d0, sess.m.disk, tried, sess.target);
      return;
    }
    TargetIsKeptByGrowing(d0, sess.m.disk, tried, sess.target);
    ghost var d1 := sess.m.disk;
    var opens, closes := TryBody(sess, |old(sess.m.trail)|);
    var written, fetched, writerFailed := DownloadAsset(binary, body, limit, hash, chunk, None, opens, closes);
    ghost var trail := sess.m.trail;
    var ok, count := sess.m.Write(path.value, written);
    OneMoreCall(trail, sess.m.trail, |old(sess.m.trail)|);
    trail := sess.m.trail;
    RewritingStaging(d1, path.value, Look(sess.m.disk, path.value).value, sess.target);
    var closed := sess.m.Close(path.value);
    OneMoreCall(trail, sess.m.trail, |old(sess.m.trail)|);
    if fetched.None? || !ok || !closed {
      return None, digest;
    }
    assert [] + written[..count] == written;
    digest := fetched.value;
  }

  lemma TargetIsKeptByGrowing(d0: Disk, d: Disk, n: Name, t: Name)
    requires Grown(d0, d, n, n)
    ensures t in d0.names || n != t ==> TargetSame(d0, d, t)
    ensures d0.names.Keys <= d.names.Keys <= d0.names.Keys + {n}
  {
  }

  /** Rewriting a file only one name reaches changes nothing under any other name. */
  lemma RewritingStaging(d: Disk, n: Name, f: File, t: Name)
    requires Closed(d) && Exclusive(d, n) && n != t
    ensures Closed(Replaced(d, n, f)) && TargetSame(d, Replaced(d, n, f), t)
    ensures forall k :: Exclusive(d, k) ==> Exclusive(Replaced(d, n, f), k)
    ensures Look(Replaced(d, n, f), n) == Some(f)
  {
  }

  /** And so does putting another file in its place. */
  lemma ReplacingStaging(d: Disk, n: Name, d2: Disk, t: Name)
    requires Closed(d) && Exclusive(d, n) && n != t && Rewritten(d, d2, n)
    ensures Closed(d2) && TargetSame(d, d2, t)
    ensures forall k :: Exclusive(d, k) ==> Exclusive(d2, k)
  {
  }

  /** Since the k-th system call, some file other than the target was looked at and found larger than the limit. */
  ghost predicate Oversized(trail: seq<Entry>, k: nat, t: Name, limit: int) {
    exists j :: k <= j < |trail| && TooLarge(trail[j], t, limit)
  }

  ghost predicate TooLarge(e: Entry, t: Name, limit: int) {
    e.op.OpLstat? && e.op.n != t && |BytesOf(e.disk, e.op.n)| > limit
  }

  lemma SizeIsSeen(trail: seq<Entry>, k: nat, t: Name, limit: int)
    requires k < |trail|
    ensures TooLarge(trail[|trail| - 1], t, limit) ==> Oversized(trail, k, t, limit)
  {
  }

  lemma OversizedStays(before: seq<Entry>, trail: seq<Entry>, k: nat, k1: nat, t: Name, limit: int)
    requires before <= trail && k <= k1
    ensures Oversized(before, k1, t, limit) ==> Oversized(trail, k, t, limit)
  {
    if Oversized(before, k1, t, limit) {
      var j :| k1 <= j < |before| && TooLarge(before[j], t, limit);
      assert TooLarge(trail[j], t, limit);
    }
  }

  /** hashAndValidateStaging: the file is read again, so the digest is of what will be installed. */
  method HashStaging(sess: InstallSession, path: Name, limit: int, hash: Hash) returns (digest: Option<string>)
    modifies sess.m`trail
    ensures old(sess.m.trail) <= sess.m.trail && NoSync(sess.m.trail, |old(sess.m.trail)|)
    ensures digest.None? ==>
              || path !in sess.staging
              || (|BytesOf(sess.m.disk, path)| > limit
                  && (path != sess.target ==> Oversized(sess.m.trail, |old(sess.m.trail)|, sess.target, limit)))
              || SomeCallFailed(sess.m.trail, |old(sess.m.trail)|)
    ensures digest.Some? ==>
              Look(sess.m.disk, path).Some? && digest.value == hash(BytesOf(sess.m.disk, path))
              && path in sess.staging && |BytesOf(sess.m.disk, path)| <= limit
              && !SomeCallFailed(sess.m.trail, |old(sess.m.trail)|)
  {
    assert !SomeCallFailed(sess.m.trail, |sess.m.trail|);
    hide SomeCallFailed;
    var info := sess.m.Lstat(path);
    OneMoreCall(old(sess.m.trail), sess.m.trail, |old(sess.m.trail)|);
    SizeIsSeen(sess.m.trail, |old(sess.m.trail)|, sess.target, limit);
    if info.None? || |info.value.bytes| > limit || !sess.Owns(path) {
      return None;
    }
    ghost var trail := sess.m.trail;
    var file := sess.m.Open(path);
    OneMoreCall(trail, sess.m.trail, |old(sess.m.trail)|);
    if file.None? {
      return None;
    }
    var sum := hash(file.value.bytes);
    trail := sess.m.trail;
    var closed := sess.m.Close(path);
    OneMoreCall(trail, sess.m.trail, |old(sess.m.trail)|);
    digest := if closed then Some(sum) else None;
  }

  /** The optional transformation of the verified staging file. */
  method TransformStaging(sess: InstallSession, path: Name, limit: int, hash: Hash) returns (digest: Option<string>)
    requires sess.Valid() && path in sess.staging
    modifies sess.m`disk, sess.m`trail
    ensures sess.Valid() && TargetSame(old(sess.m.disk), sess.m.disk, sess.target)
    ensures old(sess.m.trail) <= sess.m.trail && NoSync(sess.m.trail, |old(sess.m.trail)|)
    ensures digest.None? ==>
              || Oversized(sess.m.trail, |old(sess.m.trail)|, sess.target, limit)
              || SomeCallFailed(sess.m.trail, |old(sess.m.trail)|)
    ensures digest.Some? ==>
              && Look(sess.m.disk, path).Some? && digest.value == hash(BytesOf(sess.m.disk, path))
              && |BytesOf(sess.m.disk, path)| <= limit && !SomeCallFailed(sess.m.trail, |old(sess.m.trail)|)
    ensures sess.m.disk.names.Keys == old(sess.m.disk.names.Keys)
  {
    assert !SomeCallFailed(sess.m.trail, |sess.m.trail|);
    hide SomeCallFailed, Oversized;
    ghost var d := sess.m.disk;
    var ok := sess.m.Transform(path);
    OneMoreCall(old(sess.m.trail), sess.m.trail, |old(sess.m.trail)|);
    ghost var transformed, trail := |sess.m.trail|, sess.m.trail;
    if sess.m.disk != d {
      ReplacingStaging(d, path, sess.m.disk, sess.target);
    }
    if !ok {
      return None;
    }
    digest := HashStaging(sess, path, limit, hash);
    FailuresSplit(trail, sess.m.trail, |old(sess.m.trail)|);
    OversizedStays(sess.m.trail, sess.m.trail, |old(sess.m.trail)|, transformed, sess.target, limit);
  }

  /** What a run reports, as far as this model goes. */
  datatype Report = Report(applied: bool, failed: bool, releaseDigest: string, installedDigest: string)

  /**
   What an applied update has installed: bytes whose hash is the reported installed digest, from a
   genuine release binary; without a transformer, that binary itself.
   */
  ghost predicate InstalledRight(d: Disk, t: Name, hash: Hash, report: Report, transforms: bool,
                                 text: Decoding, manifest: Body, name: string, binary: Asset, body: Body, limit: int) {
    && Look(d, t).Some? && hash(BytesOf(d, t)) == report.installedDigest
    && Genuine(text, manifest, name, binary, body, limit, hash, report.releaseDigest)
    && (!transforms ==>
         BytesOf(d, t) == body.bytes && report.installedDigest == report.releaseDigest
         && |BytesOf(d, t)| == binary.size)
  }

  /**
   An installation that is not applied keeps the old bytes of a target that existed, under a name the caller
   can tell.
   */
  lemma UnappliedKeepsOld(d1: Disk, d: Disk, t: Name, s: Name, failed: bool, trail: seq<Entry>, k: nat)
    requires Closed(d1) && t != s && Outcome(d1, d, t, s, false, failed, trail, k)
    ensures failed && Kept(d1, d, t)
  {
    if Look(d1, t).Some? {
      OutcomeInBytes(d1, d, t, s, false, failed, trail, k);
    }
  }

  lemma AppliedInstalls(d1: Disk, d: Disk, t: Name, s: Name, failed: bool, trail: seq<Entry>, k: nat)
    requires Closed(d1) && t != s && Look(d1, s).Some? && Outcome(d1, d, t, s, true, failed, trail, k)
    ensures Look(d, t).Some? && BytesOf(d, t) == BytesOf(d1, s)
  {
    if Committed(d1, d, t, s) {
    } else {
      var b :| Swapped(d1, d, t, s, b);
    }
  }

  /** An installation without an error leaves neither the staging file nor a backup. */
  lemma AppliedLeavesNoName(d1: Disk, d: Disk, t: Name, s: Name, failed: bool, trail: seq<Entry>, k: nat)
    requires Outcome(d1, d, t, s, true, failed, trail, k)
    ensures !failed ==> d.names.Keys == d1.names.Keys - {s}
  {
  }

  /** Neither a close nor a report renames anything. */
  lemma SameRenames(before: seq<Entry>, trail: seq<Entry>, k: nat, from: Name, to: Name)
    requires before <= trail && NoRename(trail, |before|)
    ensures RanRename(before, k, from, to, true) <==> RanRename(trail, k, from, to, true)
  {
    RanRenameGrows(before, trail, k, from, to);
    assert forall j :: 0 <= j < |before| ==> trail[j] == before[j];
  }

  lemma CommitFailureIsFailure(trail: seq<Entry>, k: nat)
    ensures CommitFailed(trail, k) ==> SomeCallFailed(trail, k)
  {
  }

  lemma CloseFailureIsFailure(trail: seq<Entry>, k: nat, k1: nat)
    requires k <= k1
    ensures CloseFailed(trail, k1) ==> SomeCallFailed(trail, k)
  {
  }

  /** The installation itself and what it reports. */
  method InstallStaged(sess: ManagedSession, path: Name, releaseDigest: string, installedDigest: string,
                       cancelled: bool, chunk: nat)
    returns (report: Report)
    requires sess.inner.Valid() && chunk > 0 && path in sess.inner.staging
    modifies sess.inner`staging, sess.inner.m
    ensures sess.inner.Valid() && sess.inner.staging <= old(sess.inner.staging)
    ensures report.releaseDigest == releaseDigest && report.installedDigest == installedDigest
    ensures !report.applied ==> report.failed
    ensures report.applied ==>
              Look(sess.inner.m.disk, sess.inner.target).Some?
              && BytesOf(sess.inner.m.disk, sess.inner.target) == BytesOf(old(sess.inner.m.disk), path)
    ensures !report.applied ==> Kept(old(sess.inner.m.disk), sess.inner.m.disk, sess.inner.target)
    ensures old(sess.inner.m.trail) <= sess.inner.m.trail
    ensures path !in sess.inner.staging ==>
              (path in sess.inner.m.disk.names
          <==> !RanRename(sess.inner.m.trail, |old(sess.inner.m.trail)|, path, sess.inner.target, true))
    ensures old(sess.inner.m.calls) <= sess.inner.m.calls
    ensures !report.applied ==>
              || cancelled || old(sess.inner.closed)
              || SomeCallFailed(sess.inner.m.trail, |old(sess.inner.m.trail)|)
              || ServiceCallFailed(sess.inner.m.calls[|old(sess.inner.m.calls)|..])
    ensures report.applied && report.failed ==> SomeCallFailed(sess.inner.m.trail, |old(sess.inner.m.trail)|)
    ensures !report.failed ==> sess.inner.m.disk.names.Keys == old(sess.inner.m.disk.names.Keys) - {path}
    ensures sess.inner.m.trail != [] && var last := sess.inner.m.trail[|sess.inner.m.trail| - 1];
            last.op == OpReport && (!last.ok ==> report.failed)
  {
    hide Outcome, SafeSince, Kept, Carried, ModeSettled, RanRename, SomeCallFailed, ServiceCallFailed, CommitFailed;
    ghost var d1 := sess.inner.m.disk;
    var failed, result;
    ghost var run, mid;
    failed, result, run, mid := sess.Install(path, cancelled, chunk);
    assert sess.inner.m.calls[|old(sess.inner.m.calls)|..] == run;
    ghost var installed, k := sess.inner.m.trail, |old(sess.inner.m.trail)|;
    CommitFailureIsFailure(installed, k);
    var announced := Announce(sess.inner, k);
    FailureStays(installed, sess.inner.m.trail, k, k);
    SameRenames(installed, sess.inner.m.trail, k, path, sess.inner.target);
    report := Report(result.applied, failed || !announced, releaseDigest, installedDigest);
    if result.applied {
      AppliedInstalls(d1, sess.inner.m.disk, sess.inner.target, path, failed, installed, k);
      AppliedLeavesNoName(d1, sess.inner.m.disk, sess.inner.target, path, failed, installed, k);
    } else {
      UnappliedKeepsOld(d1, sess.inner.m.disk, sess.inner.target, path, failed, installed, k);
    }
  }

  /** What an update asks of its release: manifest and binary arrive whole and agree, and every verifier passes. */
  ghost predicate Acceptable(text: Decoding, manifestAsset: Asset, manifest: Body, manifestLimit: int, name: string,
                             binary: Asset, body: Body, limit: int, hash: Hash, verifiers: seq<bool>) {
    && Fetched(manifestAsset, manifest, manifestLimit, hash, hash(manifest.bytes))
    && Genuine(text, manifest, name, binary, body, limit, hash, hash(body.bytes))
    && forall k :: 0 <= k < |verifiers| ==> verifiers[k]
  }

  lemma ListedIsNoEmptyDigest(text: Decoding, manifest: Bytes, name: string)
    ensures !Listed(text, manifest, name, "")
  {
    if Listed(text, manifest, name, "") {
      var raws := RawLines(text(manifest));
      var k :| 0 <= k < |raws| && Reading(raws[k]) == Line.Entry("", name);
      EntryHasADigest(TrimCR(raws[k]), "", name);
    }
  }

  lemma EntryHasADigest(line: string, digest: string, name: string)
    requires ParseLine(line) == Line.Entry(digest, name)
    ensures |digest| == HEX_LENGTH
  {
  }

  /**
   Everything up to the installation: the path of a staging file that may be installed, and its digests.
   Nothing has been flushed by then, the staging file no more than any other. It gives up only for a reason:
   a call that failed, a closed session, a release that is not acceptable, or a transformed file too large.
   */
  method PrepareUpdate(sess: InstallSession, text: Decoding, hash: Hash, manifestAsset: Asset, manifest: Body,
                       manifestLimit: int, name: string,
                       binary: Asset, body: Body, limit: int, verifiers: seq<bool>, transforms: bool, cancelled: bool,
                           chunk: nat)
    returns (path: Option<Name>, releaseDigest: string, installedDigest: string)
    requires sess.Valid() && chunk > 0
    modifies sess`staging, sess.m`disk, sess.m`trail
    ensures sess.Valid() && TargetSame(old(sess.m.disk), sess.m.disk, sess.target)
    ensures old(sess.m.trail) <= sess.m.trail && NoSync(sess.m.trail, |old(sess.m.trail)|)
    ensures path.Some? ==>
              && path.value in sess.staging && Look(sess.m.disk, path.value).Some?
              && installedDigest == hash(BytesOf(sess.m.disk, path.value))
              && Genuine(text, manifest, name, binary, body, limit, hash, releaseDigest)
              && (forall k :: 0 <= k < |verifiers| ==> verifiers[k])
              && (!transforms ==> BytesOf(sess.m.disk, path.value) == body.bytes && installedDigest == releaseDigest)
              && (transforms ==> |BytesOf(sess.m.disk, path.value)| <= limit)
              && sess.m.disk.names.Keys == old(sess.m.disk.names.Keys) + {path.value}
    ensures path.Some? ==>
              && !SomeCallFailed(sess.m.trail, |old(sess.m.trail)|)
              && Acceptable(text, manifestAsset, manifest, manifestLimit, name, binary, body, limit, hash, verifiers)
    ensures path.Some? ==>
              && EndsAnnounced(sess.m.trail, |old(sess.m.trail)|)
              && sess.m.trail[|old(sess.m.trail)|].op == OpReport
              && exists j: nat :: j > |old(sess.m.trail)| && StagingIsAnnounced(sess.m.trail, j)
    ensures path.None? ==>
              || cancelled || old(sess.closed) || SomeCallFailed(sess.m.trail, |old(sess.m.trail)|)
              || !Acceptable(text, manifestAsset, manifest, manifestLimit, name, binary, body, limit, hash, verifiers)
              || (transforms && Oversized(sess.m.trail, |old(sess.m.trail)|, sess.target, limit))
  {
    assert !SomeCallFailed(sess.m.trail, |sess.m.trail|);
    hide Listed, SomeCallFailed, Oversized, EndsAnnounced, StagingIsAnnounced, Fetched;
    ghost var k := |sess.m.trail|;
    path, releaseDigest, installedDigest := None, "", "";
    var manifestBytes := FetchManifest(sess, manifestAsset, manifest, manifestLimit, hash, chunk, k);
    if manifestBytes.None? {
      return;
    }
    ghost var k1 := |sess.m.trail|;
    var staged;
    staged, releaseDigest := StageAnnounced(sess, binary, body, limit, hash, chunk, cancelled, k);
    if staged.None? {
      return;
    }
    var ok := Verify(text, manifestBytes.value, name, binary, releaseDigest, verifiers);
    if !ok {
      VerifyRefuses(text, manifest, name, binary, body, limit, hash, verifiers);
      return;
    }
    ghost var announced := sess.m.trail;
    path, installedDigest := Rework(sess, staged.value, releaseDigest, limit, hash, transforms, k);
    AnnouncementStays(announced, sess.m.trail, k1);
    EndsAnnouncedSince(sess.m.trail, k, |announced|);
  }

  /** A binary that arrived whole is refused only for its digests or by a verifier. */
  lemma VerifyRefuses(text: Decoding, manifest: Body, name: string, binary: Asset, body: Body, limit: int,
                      hash: Hash, verifiers: seq<bool>)
    ensures Genuine(text, manifest, name, binary, body, limit, hash, hash(body.bytes)) ==>
              && hash(body.bytes) != "" && Listed(text, manifest.bytes, name, hash(body.bytes))
              && (binary.digest == "" || GitHubDigest(binary.digest) == Some(hash(body.bytes)))
  {
    ListedIsNoEmptyDigest(text, manifest.bytes, name);
    hide Listed;
  }

  lemma AnnouncementStays(before: seq<Entry>, trail: seq<Entry>, j: nat)
    requires before <= trail && StagingIsAnnounced(before, j)
    ensures StagingIsAnnounced(trail, j)
  {
  }

  lemma EndsAnnouncedSince(trail: seq<Entry>, k: nat, k1: nat)
    requires k <= k1
    ensures EndsAnnounced(trail, k1) ==> EndsAnnounced(trail, k)
  {
  }

  /** Announces the manifest and downloads it. */
  method FetchManifest(sess: InstallSession, asset: Asset, manifest: Body, limit: int, hash: Hash, chunk: nat,
                       ghost k: nat)
    returns (bytes: Option<Bytes>)
    requires chunk > 0 && k <= |sess.m.trail|
    modifies sess.m`trail
    ensures old(sess.m.trail) <= sess.m.trail && NoSync(sess.m.trail, |old(sess.m.trail)|)
    ensures bytes.None? ==>
              SomeCallFailed(sess.m.trail, k) || !Fetched(asset, manifest, limit, hash, hash(manifest.bytes))
    ensures bytes.Some? ==>
              && bytes.value == manifest.bytes && Fetched(asset, manifest, limit, hash, hash(manifest.bytes))
              && (SomeCallFailed(sess.m.trail, k) <==> SomeCallFailed(old(sess.m.trail), k))
              && |sess.m.trail| > |old(sess.m.trail)| && sess.m.trail[|old(sess.m.trail)|].op == OpReport
  {
    hide SomeCallFailed, Fetched;
    bytes := None;
    var reported := Announce(sess, k);
    if !reported {
      return;
    }
    var opens, closes := TryBody(sess, k);
    var written, digest, writerFailed := DownloadAsset(asset, manifest, limit, hash, chunk, None, opens, closes);
    bytes := if digest.Some? then Some(written) else None;
  }

  /** Announces the binary, then stages it. */
  method StageAnnounced(sess: InstallSession, binary: Asset, body: Body, limit: int, hash: Hash, chunk: nat,
                        cancelled: bool, ghost k: nat)
    returns (path: Option<Name>, digest: string)
    requires sess.Valid() && chunk > 0 && k <= |sess.m.trail|
    modifies sess`staging, sess.m`disk, sess.m`trail
    ensures sess.Valid() && TargetSame(old(sess.m.disk), sess.m.disk, sess.target)
    ensures old(sess.m.trail) <= sess.m.trail && NoSync(sess.m.trail, |old(sess.m.trail)|)
    ensures path.None? ==>
              || cancelled || old(sess.closed) || SomeCallFailed(sess.m.trail, k)
              || !Fetched(binary, body, limit, hash, hash(body.bytes))
    ensures path.Some? ==>
              && path.value in sess.staging && Fetched(binary, body, limit, hash, digest)
              && Holds(sess.m.disk, path.value, body.bytes) && digest == hash(body.bytes)
              && (SomeCallFailed(sess.m.trail, k) <==> SomeCallFailed(old(sess.m.trail), k))
              && sess.m.disk.names.Keys == old(sess.m.disk.names.Keys) + {path.value}
              && StagingIsAnnounced(sess.m.trail, |old(sess.m.trail)|)
  {
    hide SomeCallFailed;
    path, digest := None, "";
    var reported := Announce(sess, k);
    if !reported {
      return;
    }
    ghost var announced := sess.m.trail;
    path, digest := StageBinary(sess, binary, body, limit, hash, chunk, cancelled);
    FailuresSplit(announced, sess.m.trail, k);
  }

  /** Since the k-th call, at least two were made, the last two of them reports. */
  ghost predicate EndsAnnounced(trail: seq<Entry>, k: nat) {
    k + 2 <= |trail| && trail[|trail| - 2].op == OpReport && trail[|trail| - 1].op == OpReport
  }

  /** The transformation, if there is one, and the last reports before the installation. */
  method Rework(sess: InstallSession, staged: Name, releaseDigest: string, limit: int, hash: Hash, transforms: bool,
                ghost k: nat)
    returns (path: Option<Name>, installedDigest: string)
    requires sess.Valid() && staged in sess.staging && k <= |sess.m.trail|
    requires releaseDigest == hash(BytesOf(sess.m.disk, staged)) && Look(sess.m.disk, staged).Some?
    modifies sess.m`disk, sess.m`trail
    ensures sess.Valid() && TargetSame(old(sess.m.disk), sess.m.disk, sess.target)
    ensures old(sess.m.trail) <= sess.m.trail && NoSync(sess.m.trail, |old(sess.m.trail)|)
    ensures path.Some? ==>
              && path.value == staged && Look(sess.m.disk, staged).Some?
              && installedDigest == hash(BytesOf(sess.m.disk, staged))
              && (!transforms ==> sess.m.disk == old(sess.m.disk))
              && (transforms ==> |BytesOf(sess.m.disk, staged)| <= limit)
              && (SomeCallFailed(sess.m.trail, k) <==> SomeCallFailed(old(sess.m.trail), k))
              && EndsAnnounced(sess.m.trail, |old(sess.m.trail)|)
              && (transforms ==> sess.m.trail[|old(sess.m.trail)|].op == OpReport)
    ensures sess.m.disk.names.Keys == old(sess.m.disk.names.Keys)
    ensures path.None? ==>
              || SomeCallFailed(sess.m.trail, k) || (transforms && Oversized(sess.m.trail, k, sess.target, limit))
  {
    hide SomeCallFailed, Oversized;
    path, installedDigest := None, releaseDigest;
    if transforms {
      var reported := Announce(sess, k);
      if !reported {
        return;
      }
      ghost var k1, trail := |sess.m.trail|, sess.m.trail;
      var rehashed := TransformStaging(sess, staged, limit, hash);
      FailuresSplit(trail, sess.m.trail, k);
      OversizedStays(sess.m.trail, sess.m.trail, k, k1, sess.target, limit);
      if rehashed.None? {
        return;
      }
      installedDigest := rehashed.value;
    }
    var verified := Announce(sess, k);
    if !verified {
      return;
    }
    var installing := Announce(sess, k);
    path := if installing then Some(staged) else None;
  }

  /** Closing the session removes only staging files, none of which the target or a backup is. */
  lemma CloseKeeps(d1: Disk, d: Disk, d2: Disk, t: Name, staging: set<Name>)
    requires AfterClose(d, d2, staging) && t !in staging && staging <= d1.names.Keys
    ensures Look(d2, t) == Look(d, t)
    ensures Kept(d1, d, t) ==> Kept(d1, d2, t)
  {
    if Look(d1, t).Some? && Kept(d1, d, t) && !Holds(d, t, Look(d1, t).value.bytes) {
      var b :| b !in d1.names && Holds(d, b, Look(d1, t).value.bytes);
      assert Holds(d2, b, Look(d1, t).value.bytes);
    }
  }

  lemma KeptByNothing(d: Disk, t: Name)
    ensures Kept(d, d, t)
  {
  }

  lemma GenuineIsExact(text: Decoding, manifest: Body, name: string, binary: Asset, body: Body, limit: int,
                       hash: Hash, digest: string)
    requires Genuine(text, manifest, name, binary, body, limit, hash, digest)
    ensures |body.bytes| == binary.size
  {
  }

  lemma KeptFromTheStart(d0: Disk, d1: Disk, d: Disk, t: Name)
    requires TargetSame(d0, d1, t) && Kept(d1, d, t)
    ensures Kept(d0, d, t)
  {
    if Look(d1, t).Some? && !Holds(d, t, Look(d1, t).value.bytes) {
      var b :| b !in d1.names && Holds(d, b, Look(d1, t).value.bytes);
      assert b !in d0.names;
    }
  }

  /**
   apply, on a session that has begun: it is closed in the end, whatever happened. An update that
   reports success has installed the right bytes and left no other name behind; one that does not reports
   an error and keeps the old.

   A staging file that got as far as the installation (`staged`) is still there after the close exactly
   when its replacement was attempted and no rename over the target succeeded since call `from`.
   */
  method Apply(sess: ManagedSession, text: Decoding, hash: Hash, manifestAsset: Asset, manifest: Body,
               manifestLimit: int, name: string,
               binary: Asset, body: Body, limit: int, verifiers: seq<bool>, transforms: bool, cancelled: bool,
                   chunk: nat)
    returns (report: Report, ghost staged: Option<Name>, ghost attempted: bool, ghost from: nat)
    requires sess.inner.Valid() && chunk > 0
    modifies sess.inner`staging, sess.inner`closed, sess.inner`rootOpen, sess.inner`locked, sess.inner`closeFailed,
        sess.inner.m
    ensures sess.inner.Valid() && sess.inner.closed && !sess.inner.locked
    ensures report.applied ==>
              InstalledRight(sess.inner.m.disk, sess.inner.target, hash, report, transforms, text, manifest, name,
                             binary, body, limit)
              && forall k :: 0 <= k < |verifiers| ==> verifiers[k]
    ensures !report.applied ==> report.failed && Kept(old(sess.inner.m.disk), sess.inner.m.disk, sess.inner.target)
    ensures staged.Some? && attempted ==>
              (staged.value in sess.inner.m.disk.names
          <==> !RanRename(sess.inner.m.trail, from, staged.value, sess.inner.target, true))
    ensures staged.Some? && !attempted ==> sess.inner.closeFailed || staged.value !in sess.inner.m.disk.names
    ensures old(sess.inner.m.trail) <= sess.inner.m.trail && old(sess.inner.m.calls) <= sess.inner.m.calls
    ensures !report.applied ==>
              || cancelled || old(sess.inner.closed)
              || SomeCallFailed(sess.inner.m.trail, |old(sess.inner.m.trail)|)
              || ServiceCallFailed(sess.inner.m.calls[|old(sess.inner.m.calls)|..])
              || !Acceptable(text, manifestAsset, manifest, manifestLimit, name, binary, body, limit, hash, verifiers)
              || (transforms && Oversized(sess.inner.m.trail, |old(sess.inner.m.trail)|, sess.inner.target, limit))
    ensures report.applied && report.failed ==> SomeCallFailed(sess.inner.m.trail, |old(sess.inner.m.trail)|)
    ensures sess.inner.closeFailed ==> report.failed
    ensures !report.failed ==>
              && report.applied && sess.inner.m.disk.names.Keys <= old(sess.inner.m.disk.names.Keys)
              && Acceptable(text, manifestAsset, manifest, manifestLimit, name, binary, body, limit, hash, verifiers)
              && (transforms ==> |BytesOf(sess.inner.m.disk, sess.inner.target)| <= limit)
  {
    hide Kept, Genuine, Outcome, RanRename, SomeCallFailed, ServiceCallFailed, Oversized, Acceptable, CloseFailed;
    ghost var k := |sess.inner.m.trail|;
    ghost var d0, t := sess.inner.m.disk, sess.inner.target;
    var path, releaseDigest, installedDigest :=
      PrepareUpdate(sess.inner, text, hash, manifestAsset, manifest, manifestLimit, name, binary,
                                         body, limit, verifiers, transforms, cancelled, chunk);
    ghost var d1, owned := sess.inner.m.disk, sess.inner.staging;
    assert owned <= d1.names.Keys;
    KeptByNothing(d1, t);
    report := Report(false, true, releaseDigest, installedDigest);
    ghost var prepared := sess.inner.m.trail;
    staged, from := path, |sess.inner.m.trail|;
    if path.Some? {
      report := InstallStaged(sess, path.value, releaseDigest, installedDigest, cancelled, chunk);
    }
    ghost var d, left, trail := sess.inner.m.disk, sess.inner.staging, sess.inner.m.trail;
    attempted := path.Some? && path.value !in left;
    FailureStays(trail, trail, k, from);
    var closeFailed := sess.inner.Close();
    FailureStays(trail, sess.inner.m.trail, k, k);
    CloseFailureIsFailure(sess.inner.m.trail, k, |trail|);
    OversizedStays(prepared, sess.inner.m.trail, k, k, t, limit);
    if attempted {
      SameRenames(trail, sess.inner.m.trail, from, path.value, t);
      LeakSurvivesClose(d, sess.inner.m.disk, left, trail, from, t, path.value);
    }
    CloseKeeps(d1, d, sess.inner.m.disk, t, left);
    if closeFailed {
      report := report.(failed := true);
    }
    if !report.applied {
      KeptFromTheStart(d0, d1, sess.inner.m.disk, t);
    }
    if report.applied {
      GenuineIsExact(text, manifest, name, binary, body, limit, hash, releaseDigest);
    }
  }
}
