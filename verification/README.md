# A verified model of mcplib

This project models the parts of mcplib where a wrong step costs the most, and proves what they
promise over every input, every run or every interleaving. `dafny verify dfyconfig.toml` checks it.

**Self-update.** A directory is names, inodes and bytes (`Disk`); a machine is a directory, a service
and its definition (`Machine`), on which every system call and every service call is free to fail and
every system call is recorded. On it stand the file replacement with backup and rollback
(`ReplaceUnix`), the install session that owns staging files (`InstallSession`), the managed
installation with its one recovery path (`ManagedProtocol` for the order of its calls,
`ManagedSession` for what they do), and the digest chain from the manifest to the installed bytes
(`Checksums`, `Updater`). `TargetLock` is the same target seen by any number of processes.

**OAuth.** `OAuthSession` is the single-flight refresh under a mutex, `OAuthRefresh` the
reload-before-refresh of sessions that share a store, `DevicePolling` the polling loop against a
moving clock.

**Choosing a model.** `ModelRanking` is the capped greedy recommendation, on `Ordering` (sorting under
a total order) and `CappedSelection` (the exchange argument). `ModelMatcher` is the fuzzy search score.

**Wire formats.** `ClaudeMessages`, `GeminiContents` and `ChatMessages` regroup items into turns, all
on `Grouping`; `Interactions` is an encoder and its decoder; `ResponsesStream` reads an event stream;
`HfscStream` sends chunks, with `Base64`.

**Bounded and in-place code.** `LogBuffer` trims inside one array; `RetryBackoff` shifts 64-bit delays
and stops where `ApiErrors` says; `PastePrompt` is three goroutines and one prompter.

Code that works by changing things step by step is modelled as classes, arrays and loops, each proved
against a specification; what is promised is then proved of the specification. The hash, the redaction,
the JSON codec and the transformer are parameters or arbitrary.

## Where the code does less than it promises

- A backup made by copying has mode 0600, so a restored target loses another mode exactly when this
  run's link of it failed (`ReplaceUnix.RestoredKeepsTheModeExactlyWhen`; on the recorded calls of
  `ReplaceUnix.ReplaceTarget` and `ManagedSessions.ManagedSession.Install`).
- A replacement whose rename does not succeed leaves the staging file on disk, and the session's close
  no longer knows it (`InstallSessions.LeakSurvivesClose`, and `Updaters.Apply` for the whole update).
- The recovery of a managed installation starts the service without stopping the new binary first. Where
  a start leaves a running service alone, whatever is still up then stays, so a new binary still up after
  a failed health check keeps the old one from running; otherwise a service then proved healthy runs the
  old one (`ManagedSessions.RecoveredServiceRunsOldExactlyWhen`). It also starts a service that had not been
  running, as docs/0005-PLAN-canonicalize-cli-self-update-in-mcplib.md intends for a present, stopped
  service.
- That plan lets a failed stop enter the recovery. In the code it ends the run: the service, possibly
  down by then, is not started again (`ManagedProtocol.FailedStopEndsTheRun`,
  `ManagedProtocol.RunningServiceIsStartedExactlyWhen`).
- The plan also syncs the staging file before it is closed. The code only closes it: no call of a run is
  a sync until the installation begins (`Updaters.StageBinary`, `Updaters.PrepareUpdate`).
- When syncing the directory and then the restoring rename fail, the managed recovery does not roll
  back although the backup is there, and starts the stopped service on the staged binary
  (`ManagedSessions.FailedRestoreIsNotRolledBack`; exactly then, by
  `ManagedSessions.ManagedSession.ApplyOrRecover` and `ManagedSessions.ManagedSession.Install`).
- That plan restores the definition whenever the reconcile began. The code asks the receipt, so a
  reconcile that rewrites the definition and returns an empty receipt is not undone
  (`ManagedProtocol.SilentReconcileIsNotUndone`; the exact condition is part of
  `ManagedSessions.ManagedSession.Install`).
- The identity check compares inode, size and time only, which two later updates can bring back together
  (`TargetLock.BeginSucceedsExactlyWhenStampsAgree`, with `TargetLock.ReusedStampIsOverwritten` as a run).
- A rotated refresh token whose save failed is lost to the other sessions, and to the session itself, and
  a session that cannot load the store falls back on a token of its own that may be dead
  (`OAuthRefresh.AllLiveExactlyWhen`).
- An id listed under two groups can cost the recommendation an entry
  (`CappedSelection.TwoGroupsOfOneIdMayCostAnEntry`, `CappedSelection.ListsAreOptimalExactlyWhen`);
  neither lister makes such a list (`ModelRanking.ListedHaveOneGroupPerId`).
- The OpenAI polling interval has no floor, so it can be no pause at all
  (`DevicePolling.UnflooredIntervalVanishesExactlyWhen`).
- A log buffer whose trim target is close to its size overwrites bytes it still has to copy, and may
  exceed its size (`LogBuffers.ContentIsFaithful`, `LogBuffers.ContentIsBounded`).
- A retry delay shifted out of 64 bits may wrap to a small positive wait (`RetryBackoff.LateRetryWraps`;
  exactly when, by `RetryBackoff.ExponentialExactlyWhen`).
- Only show and input are promised to use the prompter one at a time, and they do; drain's notice may
  overlap the read it is about (`PastePrompt.DrainMayOverlapTheRead`).

## Model

| member | source | states |
|---|---|---|
| `Machines.Machine.Rename` | selfupdate/replace.go:13-20 | one system call, free to fail: renames, or does nothing when both names are one file, or fails and changes nothing; the call and the directory it leaves are recorded |
| `Machines.Machine.StartService` | selfupdate/types.go:353-359 | a start may find another service than the last call left: one that died, or that its supervisor brought up again; one found down comes up with the target's present bytes, one found up may be left as it is |
| `Machines.Machine.AwaitHealthy` | selfupdate/types.go:353-359 | a service that proves healthy is still the one it was; one that does not may have died, or have come up again on the target's present bytes |
| `Machines.Machine.ReconcileDefinition` | selfupdate/types.go:361-375 | a reconcile may rewrite the definition whether or not it fails and whatever its receipt says; the recorded call tells what the receipt asks for and whether the definition was rewritten |
| `ReplaceUnix.RandomSibling` | selfupdate/replace.go:19-32 | the reserved name is unused and not the target; on every path the directory has at most that one more name |
| `ReplaceUnix.CopyFile` | selfupdate/replace.go:34-56 | a copy that succeeds holds exactly the source's bytes in a new file of mode 0600, synced and then closed without an error; at every call nothing else in the directory has changed |
| `ReplaceUnix.CopyBytes` | selfupdate/replace.go:46-48 | the copying loop: what has been written is always a prefix of the source, also after a partial write |
| `ReplaceUnix.BackupFile` | selfupdate/replace.go:58-63 | the backup is the old file itself or an exact copy of it under a new name, the former exactly when this call's link succeeded |
| `ReplaceUnix.Prepare` | selfupdate/replace_unix.go:23-36 | up to the rename the target is untouched; on success the staging file has the target's mode and the backup holds the old bytes |
| `ReplaceUnix.ReplaceTarget` | selfupdate/replace_unix.go:22-47 | at every system call the target is exactly the old or exactly the staged bytes and the old bytes are under the target's name or a new one; without error target and backup are swapped and the directory synced; with an error the old bytes are back, or the backup is reported, holds them, and exactly then the restoring rename failed; the staging name is left exactly when no rename of it over the target succeeded; a target that was replaced and restored has its old mode exactly when the recorded calls hold a successful link of it or that mode was 0600; it fails only if a recorded call other than a link failed, so a run without one replaces the target |
| `ReplaceUnix.RenameSwaps` | selfupdate/replace_unix.go:37-39 | the rename gives the target the staged bytes with the target's old mode, removes the staging name, and leaves the backup and every other name as they were |
| `ReplaceUnix.RenameRestores` | selfupdate/replace_unix.go:40-45 | renaming the backup back restores the old bytes and leaves no name but the staging one missing and none added |
| `ReplaceUnix.RestoredKeepsTheModeExactlyWhen` | selfupdate/replace_unix.go:62-70 | renaming the backup back always restores the old bytes, and the old mode exactly when the recorded calls of this run hold a successful link of the target or the mode was already 0600 |
| `ReplaceUnix.CommitReplacement` | selfupdate/replace_unix.go:49-60 | a commit only removes the backup, success means it is gone and the directory synced, and no call of it touches the target |
| `ReplaceUnix.RollbackReplacement` | selfupdate/replace_unix.go:62-70 | a rollback renames the backup back and syncs; when the target is not restored the failed rename is the last call |
| `InstallSessions.InstallSession.CreateStaging` | selfupdate/session.go:28-53 | a staging file is new, empty and owned by the session; a cancelled or closed session creates none; failure leaves at most one stray file; an open, uncancelled session fails only if a recorded call failed |
| `InstallSessions.InstallSession.Apply` | selfupdate/session.go:94-109 | only an owned file of an open session is applied, its name is disowned whatever the result though the file is left exactly when no rename of it succeeded, and the other staging files stay the session's alone; it fails only for a file that is not an open session's own, or with a failed call on record |
| `InstallSessions.InstallSession.Install` | selfupdate/session.go:60-92 | up to one point of the recorded calls the old bytes are kept, after it the target is the staged bytes for good and the result says applied; no error means committed; it is refused for a file that is not an open session's own, else fails only if a recorded call failed, and after the target was replaced only if removing the backup or syncing the directory did |
| `InstallSessions.OutcomeInBytes` | selfupdate/session.go:72-91 | applied implies the staged bytes; not applied implies an error and the old bytes, unless the restoring rename failed and the backup holds them |
| `InstallSessions.RemovingTheBackupCommits` | selfupdate/replace_unix.go:49-60 | a committed directory differs from the one before the update only by the replaced target and the missing staging name |
| `InstallSessions.LeakSurvivesClose` | selfupdate/session.go:106-147 | after an attempted replacement and the close of its session the staging file is still there exactly when the recorded calls hold no successful rename of it over the target |
| `InstallSessions.InstallSession.Close` | selfupdate/session.go:123-148 | closing removes every file the session still owns and nothing else, gives up the lock, and repeating it changes nothing and reports the same result; the first close reports a failure exactly when removing a file still there, closing the directory or unlocking failed |
| `ManagedProtocol.RunFacts` | selfupdate/managed.go:64-133 | every run of calls: commit only right after a successful health check of a service just started on the applied binary; rollback and restore happen exactly when there is something to undo and no commit, definition first; a run that does not commit after a stop or an apply ends with a start after everything else |
| `ManagedProtocol.EachCallLeadsOn` | selfupdate/managed.go:64-111 | in every run each call that goes well leads to the next: a service found running is stopped before the apply, then come reconcile, start, health check and commit; a negative or unknown probe ends the run |
| `ManagedProtocol.RecoveryFacts` | selfupdate/managed.go:113-133 | a recovery restores exactly when the receipt asks for it, rolls back exactly when there is a backup, in this order, and starts last |
| `ManagedProtocol.FailedStopEndsTheRun` | selfupdate/managed.go:77-83 | a stop that fails is the last call: no recovery and no start follow it |
| `ManagedProtocol.UnappliedHasACause` | selfupdate/managed.go:64-133 | a run that does not commit has an unknown probe, a failed call of the service or a failed apply in it |
| `ManagedProtocol.RunningServiceIsStartedExactlyWhen` | selfupdate/managed.go:73-133 | a run that found the service running ends with a start or a commit exactly when no stop failed in it |
| `ManagedProtocol.SilentReconcileIsNotUndone` | selfupdate/managed.go:113-119 | a run whose failing reconcile rewrites the definition and returns an empty receipt is rolled back without a restore |
| `ManagedSessions.ManagedSession.Recover` | selfupdate/managed.go:113-133 | definition, binary and service are each put back or their failing call is recorded, whichever of them fails; a service then proved healthy runs what the target holds if it was found down or a start restarts, else it is the one found; a rolled-back target has its mode as the link decides |
| `ManagedSessions.ManagedSession.ConfirmOrRecover` | selfupdate/managed.go:95-110 | the backup is removed only after the health check succeeded; otherwise the recovery runs, and its start finds the service down, brought up again, or still up on the staged bytes |
| `ManagedSessions.ManagedSession.ReconcileOrRecover` | selfupdate/managed.go:88-97 | a failed reconcile, start or health check ends rolled back and started again, with the old definition exactly when the receipt asked for a restore or the reconcile had left it, or with a failed restore on record |
| `ManagedSessions.ManagedSession.ApplyOrRecover` | selfupdate/managed.go:84-87 | after an apply that failed, a service started again and up runs the staged bytes exactly when the rename that was to restore the old ones failed in this run; one that proved healthy is up |
| `ManagedSessions.FailedRestoreIsNotRolledBack` | selfupdate/managed.go:84-87 | in that case nothing is rolled back although the backup holds the old bytes |
| `ManagedSessions.ManagedSession.Install` | selfupdate/managed.go:64-111 | over every run the old bytes are kept until the health check has succeeded and the target is always exactly old or staged; applied exactly when the run commits; not applied leaves the old bytes, the mode as the link decides, or a restoring rename that failed in this run, and with no failed restore the old definition exactly when the receipt spoke or the reconcile left it; an applied service runs the staged bytes, a restarted and healthy one what its start made of the service it found, which after a failed apply is the staged bytes exactly when the restoring rename failed; after a failed stop it is what that stop left; an admitted file is not applied only if a probe was unknown or a recorded system or service call failed, and an applied one is reported as failed only if removing the backup or syncing the directory did |
| `ManagedSessions.RecoveredServiceRunsOldExactlyWhen` | selfupdate/managed.go:113-131 | after a recovery that put the old bytes back, a service that proved healthy runs them exactly when a start restarts a running service or found it down or running them; always when the new binary was never started; after a failed health check exactly unless the new binary was still up where a start leaves a running service alone |
| `TargetLock.AcquireLock` | selfupdate/lock_unix.go:23-48 | all tries but the last found the lock busy before the deadline; a concurrent-update error means busy and out of time; at most timeout/10 ms + 2 tries, one when the timeout is zero |
| `TargetLock.RunKeepsInv` | selfupdate/session.go:150-179 | in every run of any number of processes exactly the lock's holder is past the lock, and an open session knows the current target |
| `TargetLock.AtMostOneSession` | selfupdate/lock_unix.go:50-81 | in every run at most one process has a session open on the target, and it holds the lock |
| `TargetLock.SessionIsUndisturbed` | selfupdate/session.go:150-179 | while a session is open nothing the other processes do changes the target, the lock or the session |
| `TargetLock.BeginSucceedsExactlyWhenUnchanged` | selfupdate/target.go:201-230 | after any run whose replacements carry fresh identities, a begin succeeds exactly when the target still is the file the process resolved |
| `TargetLock.BeginSucceedsExactlyWhenStampsAgree` | selfupdate/target.go:201-230 | for every run and no assumption on identities: with a target a replacement brought after the process resolved, a begin succeeds exactly when that file carries the resolved file's inode, size and time |
| `TargetLock.BeginComparesStampsOnly` | selfupdate/target.go:201-230 | whatever changed the target, a begin succeeds exactly when it is the resolved file or has its identity |
| `TargetLock.FirstReplacementReplacesTheResolved` | selfupdate/session.go:150-179 | after any run with fresh identities, a successful begin and any steps of others, the session's first replacement replaces, and backs up, the file its process resolved |
| `TargetLock.PutBackRestoresTheTarget` | selfupdate/session.go:94-121 | a session that replaced the target and puts its backup back leaves the file it found, whatever other processes did in between |
| `TargetLock.RefusedBeginChangesNothing` | selfupdate/session.go:169-171 | a begin that finds another file gives the lock back and leaves the target alone |
| `TargetLock.EndingFreesTheLock` | selfupdate/session.go:123-148 | a waiting process cannot take the lock while a session is open, and can as soon as that is closed or its process has died; neither changes the target |
| `TargetLock.ReusedStampIsOverwritten` | selfupdate/target.go:201-212 | a run of two processes as the witness: after two updates the check passes exactly when the last one carries the first file's inode, size and time |
| `Checksums.ParseHexDigest` | selfupdate/checksums.go:25-36 | a digest is accepted exactly when it is 64 hexadecimal characters, and is returned in lower case |
| `Checksums.DigestsAre` | selfupdate/checksums.go:25-40 | a digest is 64 of the hexadecimal digits, and its normal form has digit by digit the same values in lower case |
| `Checksums.GitHubDigestsAre` | selfupdate/checksums.go:18-23 | GitHub's digest is read exactly from sha256: followed by such digits |
| `Checksums.EntryExactlyWhenSpelled` | selfupdate/checksums.go:63-116 | a line is an entry exactly when it is white space (Unicode's), a digest, white space, an optional star, a one-element name and white space |
| `Checksums.BlankAndBadExactlyWhen` | selfupdate/checksums.go:63-100 | a line is skipped exactly when it has only white space before its end or a #, and refused exactly when it is neither skipped nor an entry |
| `Checksums.ParseSHA256SUMS` | selfupdate/checksums.go:42-61 | a manifest is accepted exactly when no line is too long or bad, no name occurs twice and some line is an entry; the map is then exactly what the lines say |
| `Checksums.ChecksumIsTheOneEntry` | selfupdate/checksums.go:118-127 | a checksum is found exactly when a line has it for the name, and no other line has that name with another digest |
| `Checksums.VerifyIntegrity` | selfupdate/verify.go:8-19 | passes exactly when the staged digest is present and equal to the manifest's and to GitHub's if there is one |
| `Updaters.CopyLimited` | selfupdate/download.go:60-79 | yields a digest exactly when the body is as long as advertised, within the limit, read to its end and written whole; the digest is of exactly the bytes written; never more than one byte too many is written |
| `Updaters.DownloadAsset` | selfupdate/download.go:81-108 | yields a digest exactly when opening, writing and closing succeed, the body is exact, and its hash is GitHub's digest when there is one |
| `Updaters.StageBinary` | selfupdate/updater.go:171-182 | a staging file of the session that holds the whole binary with its digest, or none; the target has not changed, and no recorded call flushes the file to storage |
| `Updaters.Verify` | selfupdate/updater.go:183-206 | passes exactly when the digest is the manifest's one entry for the name, GitHub's when there is one, and every verifier passes |
| `Updaters.TransformStaging` | selfupdate/updater.go:207-221 | after a transformation, in place or by putting another file in place of the staging file, the digest is of the bytes that are there now, and the target has not changed |
| `Updaters.PrepareUpdate` | selfupdate/updater.go:152-227 | what may be installed is an owned file whose hash is the installed digest, from a genuine release binary, and without a transformer is that binary; the target has not changed; up to then no recorded call flushes any file; it gives up only for a recorded or reported failure, a body, digest or verifier that does not pass, or a session that is not open; and it goes on only if none of them occurred, with one new name and, after a transformation, a file within the limit; manifest, staging and installation were then each reported beforehand |
| `Updaters.Apply` | selfupdate/updater.go:152-256 | applied implies the target's hash is the installed digest, the release digest is the manifest's one entry and GitHub's, and without a transformer the target is the advertised-size release binary; not applied implies an error and the old bytes kept; the session is closed on every path, and a staging file that came to its installation is left exactly when that was attempted and its rename did not succeed; an open session's update is not applied only for one of those causes or a failed call of the installation; one that reports no failure was acceptable in every respect and leaves no name there was not before |
| `OAuthSessions.OAuthSession.EnterToken` | llmprovider/oauth_session.go:96-118 | the first critical section, on the fields themselves: the session's token exactly when it is not empty and has no expiry or more than 300 s to live, else a shared wait, a missing refresh token, or the lead of a new refresh |
| `OAuthSessions.OAuthSession.CompleteRefresh` | llmprovider/oauth_session.go:119-134 | the second critical section completes the future, frees the flight, and adopts the new fields on success only |
| `OAuthSessions.ReturnsAtOnceExactlyWhenUsable` | llmprovider/oauth_session.go:96-118 | a call that begins gets the session's token at once exactly when that is usable, and then neither joins nor leads a refresh nor changes anything |
| `OAuthSessions.InflightExactlyWhileRefreshing` | llmprovider/oauth_session.go:96-134 | in every interleaving a refresh is in flight exactly while one call refreshes, and never two calls do |
| `OAuthSessions.FuturesCompleteOnce` | llmprovider/oauth_session.go:119-134 | a completed future never changes again in any continuation |
| `OAuthSessions.WaitersGetTheResult` | llmprovider/oauth_session.go:96-134 | every waiter returns the shared refresh's result or its own context error, and none is stranded |
| `OAuthSessions.OwnTokensAreUsable` | llmprovider/oauth_session.go:96-149 | in every run, a token handed out without a refresh was the session's when its call began and then had more than 300 s to live or no expiry |
| `OAuthSessions.SharedResultIsTheOutcome` | llmprovider/oauth_session.go:96-134 | the leader and every waiter return the very token the refresh brought, or its error, whatever happens before they wake up |
| `OAuthSessions.FailureChangesNoField` | llmprovider/oauth_session.go:184-196 | only a successful refresh changes a field of the session |
| `OAuthRefresh.RefreshSession` | llmprovider/oauth_session.go:198-275 | at most three requests, all with the same token, each but the last answered by a retryable failure; success exactly on a granting last answer; the session it returns has the granted access token, its expiry, and the rotated refresh token or else the old one; none is sent once the context is done |
| `OAuthRefresh.ReloadOrRefresh` | llmprovider/oauth_session.go:366-382 | with a store: adopts a stored session whose token is current, else refreshes with the stored token, and saves exactly what it returns; without one: refreshes with its own token |
| `OAuthRefresh.AdoptsExactlyWhen` | llmprovider/oauth_session.go:366-382 | a stored session is adopted exactly when it has another refresh token and an access token with no expiry or more than 300 s to live |
| `OAuthRefresh.GrantIsAdopted` | llmprovider/oauth_session.go:366-382 | after a grant that is saved, session and store hold the granted access token and the refresh token that is live from then on, and no other session has changed |
| `OAuthRefresh.AllLiveExactlyWhenNoRotationIsLost` | llmprovider/oauth_session.go:366-382 | over any run whose loads work, no request carries a rotated-away token exactly when no rotation whose save failed is followed by a request |
| `OAuthRefresh.AllLiveExactlyWhen` | llmprovider/oauth_session.go:366-382 | over any run, loads and saves failing as they may: exactly when moreover no session that has neither refreshed nor reloaded since the last rotation has to refresh without the store |
| `OAuthRefresh.NoDeadTokenIsSent` | llmprovider/oauth_session.go:366-382 | so with working loads and saves no request ever carries a rotated-away token |
| `OAuthRefresh.FailedLoadMaySendADeadToken` | llmprovider/oauth_session.go:366-382 | when the store cannot be read the session falls back on its own token, dead or not |
| `DevicePolling.SleepBeforeDeadline` | llmprovider/oauth_device.go:276-291 | success means the whole interval has passed and the deadline has not; a sleep cut short by the deadline ends in expiry |
| `DevicePolling.SecondsAreTaken` | llmprovider/oauth_device.go:265-274 | a positive number of seconds is taken to the nanosecond, or as one second if it is below that and floored; any other number gives the fallback |
| `DevicePolling.PollGrok` | llmprovider/oauth_device.go:184-224 | the loop's outcome and polls are those of the iterations of one recursive specification, for any stretch of the outside world |
| `DevicePolling.RunsAreSpaced` | llmprovider/oauth_device.go:184-224 | in every run each poll waited exactly the interval in force and the sleep's excess after the previous answer and was sent in time, the loop went on only after pending and slow_down, and it ended for the reason it reports: expired only when the next whole wait would have reached the deadline |
| `DevicePolling.PollsAreSpacedAndFew` | llmprovider/oauth_device.go:184-224 | consecutive polls are at least base plus 5 s per slow_down apart, and there are fewer than the lifetime has seconds |
| `DevicePolling.DistanceIsKeptExactlyWhen` | llmprovider/oauth_device.go:211-217 | the distance is kept in every run of the loop exactly when adding 5 s to the base cannot wrap or no poll is in time |
| `DevicePolling.GrokIntervalIsFloored` | llmprovider/oauth_device.go:265-274 | the Grok interval is at least a second whatever number the server sends, and 5 s when that is not a number |
| `DevicePolling.UnflooredIntervalVanishesExactlyWhen` | llmprovider/oauth_device.go:265-274 | without the floor the interval is no pause exactly for positive numbers below a nanosecond, and those beyond 64 bits whose conversion is not positive |
| `DevicePolling.UnflooredIntervalMayVanish` | llmprovider/oauth_device.go:105-107 | such a number, so the OpenAI loop may poll without a pause |
| `Ordering.SortedArrangementIsUnique` | llmprovider/model_ranking.go:203-215 | under a total order two sorted arrangements of the same elements are equal |
| `CappedSelection.GreedyIsEarliest` | llmprovider/model_ranking.go:216-227 | the exchange argument, repeated ids included: where an id has one group, every legal selection of distinct ids is no longer than the greedy one and its k-th position never comes earlier |
| `CappedSelection.PassedOverForACause` | llmprovider/model_ranking.go:216-227 | an entry whose id is not listed stands behind six picks, or behind two of its own group |
| `CappedSelection.ListsAreOptimalExactlyWhen` | llmprovider/model_ranking.go:216-227 | over any catalogue the greedy selection is optimal on every list exactly when no id is in two groups of which one has two more ids |
| `CappedSelection.TwoGroupsOfOneIdMayCostAnEntry` | llmprovider/model_ranking.go:216-227 | the failing list: one id in two groups costs an entry |
| `ModelRanking.NewRankNorm` | llmprovider/model_ranking.go:124-135 | each normaliser bounds the known values from above, is at least the floor, and is the floor or some candidate's own value |
| `ModelRanking.NormForgetsOrder` | llmprovider/model_ranking.go:124-135 | the normalisers depend on the candidates only, not on their order |
| `ModelRanking.AdmittedExactlyWhen` | llmprovider/model_ranking.go:102-122 | a candidate is admitted exactly when nothing known of it rules it out |
| `ModelRanking.OrdersAreTotal` | llmprovider/model_ranking.go:158-191 | both profile orders are total orders in which only equal ids tie |
| `ModelRanking.PrecedesExactlyWhenBefore` | llmprovider/model_ranking.go:78-191 | what each profile prefers, on the candidates' fields: for utility a signal, then small, then the lower burden of four parts cost and one part age; for capable a signal, the higher benchmark, the earlier preference, not small, the newer, the dearer; then the id |
| `ModelRanking.CheaperAndNewerComesFirst` | llmprovider/model_ranking.go:150-165 | for utility, of two candidates alike in signal and size the one that is no dearer and no older, and one of them strictly, comes first |
| `ModelRanking.PickCapped` | llmprovider/model_ranking.go:216-227 | the picking loop with its group counts computes the greedy selection |
| `ModelRanking.GreedyIsOptimal` | llmprovider/model_ranking.go:203-227 | where an id has one group, the ranked part is optimal for its caps: its k-th pick is never worse in profile order than the k-th pick of any legal selection of distinct ids |
| `ModelRanking.BetterOfAGroupIsPickedFirst` | llmprovider/model_ranking.go:203-227 | if a candidate is picked, every admitted one of its group that comes before it is picked too and stands before it |
| `ModelRanking.NoThreeOfAGroup` | llmprovider/model_ranking.go:216-227 | at most six are picked, and no three of one group |
| `ModelRanking.ListedHaveOneGroupPerId` | llmprovider/discovery.go:953-970 | candidates looked up by their ids, as both listers make them, have one candidate per id and in any ranking one group per id, as optimality and order-independence ask |
| `ModelRanking.RankRecommended` | llmprovider/model_ranking.go:203-237 | the result is the recommendation of a ranking of the admitted candidates, that is of the one ranking there is when an id stands for one candidate |
| `ModelRanking.RecommendationForgetsOrder` | llmprovider/model_ranking.go:203-237 | where an id stands for one candidate, however often listed, and for a fixed fill list, the recommendation is the same for every order of the candidates |
| `ModelRanking.RecommendationIsWellFormed` | llmprovider/model_ranking.go:228-237 | at most six distinct ids, the picks first, then allowed fill ids, fewer than six only when the fill is used up |
| `ModelRanking.FillKeepsOrder` | llmprovider/model_ranking.go:228-237 | the picks stay in front, and of two allowed fill ids the earlier stands before the later |
| `Grouping.GroupingIsUnique` | llmprovider/claude.go:129-182 | turns in which exactly what joins is together are determined by the entries they flatten to |
| `Grouping.GroupedIsWellGrouped` | llmprovider/claude.go:129-182 | grouping loses, duplicates and reorders nothing |
| `ClaudeMessages.ItemsToMessages` | llmprovider/claude.go:129-182 | the loop that rewrites its last message renders exactly the grouped items |
| `ClaudeMessages.MessagesKeepTheItems` | llmprovider/claude.go:129-182 | the messages say exactly the items that are sent, in order: role and text of a text, id, name and arguments of a call, id and output of a result; and no other arrangement of them does |
| `ClaudeMessages.OneMessagePerTurn` | llmprovider/claude.go:129-182 | one more item opens a message exactly when it is a text, a call not after the assistant's own, or a result not after another result |
| `ClaudeMessages.CallStaysInItsTurn` | llmprovider/claude.go:140-175 | a call right after an assistant text or call goes into the same message |
| `GeminiContents.ItemsToContents` | llmprovider/gemini.go:144-207 | the loop with its last-is-responses flag renders exactly the grouped items |
| `GeminiContents.ContentsKeepTheItems` | llmprovider/gemini.go:144-207 | the contents say exactly the items that are sent, in order: text, call with name and arguments, or result with its output and the name of the last call of its id; and no other arrangement of them does |
| `GeminiContents.OneContentPerTurn` | llmprovider/gemini.go:144-207 | one more item opens a content exactly when it is a text, a call not after the assistant's own, or a result not after another result |
| `GeminiContents.ResultTakesItsCallsName` | llmprovider/gemini.go:144-207 | with distinct call ids a result is sent under the name its call had |
| `ChatMessages.ItemsToChatMessages` | llmprovider/chatcompletions.go:42-102 | the loop over messages and pending reasoning renders exactly the grouped items with their reasoning |
| `ChatMessages.MessagesKeepTheItems` | llmprovider/chatcompletions.go:42-102 | the messages say exactly the items less reasoning and empty assistant texts, in order: role and text, call id, name and arguments, or call id and output; and no other arrangement of them does |
| `ChatMessages.OneMessagePerTurn` | llmprovider/chatcompletions.go:42-102 | which items open a message, on the items alone |
| `ChatMessages.ReasoningIsConserved` | llmprovider/chatcompletions.go:42-102 | the replayed reasoning and what is pending at the end are all the reasoning in order |
| `ChatMessages.FieldIsTheReasoningSince` | llmprovider/chatcompletions.go:42-102 | the reasoning replayed on an assistant message is exactly what was reasoned since the assistant message before it was opened, and then none is pending |
| `ChatMessages.ReasoningInsideATurnMovesOn` | llmprovider/chatcompletions.go:57-78 | after any conversation that ends in an assistant turn, reasoning before a call that joins it is not put on that turn but stays pending |
| `Interactions.InteractionsInput` | llmprovider/gemini_interactions.go:36-74 | the loop emits exactly the items' steps |
| `Interactions.StepsSayTheItems` | llmprovider/gemini_interactions.go:36-74 | the steps say every item that is sent, in order: role and text, call id, name, arguments and signature, or call id and output |
| `Interactions.StepsAreWellFormed` | llmprovider/gemini_interactions.go:36-74 | each call has its own thought right before it and nothing else has one, and a result carries its call's name |
| `Interactions.DecodeInteraction` | llmprovider/gemini_interactions.go:136-208 | each status has its answer, and a finished one the items of its steps or the no-content error |
| `Interactions.EachStepDecodes` | llmprovider/gemini_interactions.go:136-208 | each further step adds at most one item, and exactly the one it says, a call under the signature of the last thought before it |
| `Interactions.RoundTripExactlyWhen` | llmprovider/gemini_interactions.go:36-208 | decoding the emitted steps gives the same items back exactly when each is a non-empty assistant text or a signed call |
| `Interactions.NonEmptyRoundTrip` | llmprovider/gemini_interactions.go:36-208 | so any non-empty list of those comes back, each call with its own id, name and signature |
| `ResponsesStream.ReadResponsesStream` | llmprovider/http_helpers.go:135-192 | the scanning loop answers what the payloads of the body say, that a line was too long, or, when reading fails, what the payloads ended by then say or that it failed |
| `ResponsesStream.SucceedsExactlyWhenCompleted` | llmprovider/http_helpers.go:135-192 | the read succeeds exactly when the completion precedes every failed, incomplete or undecodable event, with exactly the items completed before it |
| `ResponsesStream.FirstStopDecides` | llmprovider/http_helpers.go:140-192 | the first payload that does not pass decides the answer: the failed event, the undecodable payload, or success under the completion's id or else the last created one; when all pass the stream ended early |
| `ResponsesStream.ErrorsExactlyWhen` | llmprovider/http_helpers.go:135-192 | too long exactly for 16 MiB without a newline; a failed read is the answer exactly when it comes before 16 MiB and every payload ended by then passes; what follows 16 MiB is not read |
| `ResponsesStream.EmptyLineDispatches` | llmprovider/http_helpers.go:171-184 | an empty line ends a payload and the next one starts afresh |
| `ResponsesStream.DataLinesAreGathered` | llmprovider/http_helpers.go:178-183 | a data line, with or without a space after its colon, adds its text to the payload on a line of its own |
| `ResponsesStream.OtherLinesAreIgnored` | llmprovider/http_helpers.go:171-184 | a line that is neither empty nor a data line changes nothing |
| `ResponsesStream.SurvivesExactlyWhen` | llmprovider/http_helpers.go:135-192 | a payload rendered as data lines is gathered back unchanged exactly when it is empty or does not begin with a newline |
| `ResponsesStream.RenderedPayloadsAreRead` | llmprovider/http_helpers.go:135-192 | rendering any list of such payloads and scanning it dispatches exactly them in order |
| `ResponsesStream.ReadingBackRenderedEvents` | llmprovider/http_helpers.go:135-192 | reading rendered events within the stream limit answers as the payloads themselves do |
| `ResponsesStream.StreamedItemsComeBack` | llmprovider/http_helpers.go:78-192 | a stream of rendered events that announces an answer's items one by one and completes is answered with exactly those items under the completion's id |
| `Base64.DecodeUndoesEncode` | hfsc/dispatch.go:174-180 | base64 decoding (section 4 of RFC 4648) gives back the encoded bytes |
| `Base64.EncodedIsPadded` | hfsc/dispatch.go:174-180 | three bytes take four characters, and = stands for exactly what the last group lacks |
| `Base64.GroupKeepsTheBits` | hfsc/dispatch.go:174-180 | four sextets spell the 24 bits of three bytes in order |
| `HfscStream.Stream` | hfsc/dispatch.go:150-225 | every record handed to the log channel: chunks 0..k-1 in order that decode to exactly the bytes read, then at most one terminator carrying k: none exactly when the last chunk's log call reported an error, a FINALIZE with the bytes' hash exactly when the input ended, an ABORT exactly in every other case; it reads on until one of them stops it; no chunk has more than 4000 characters |
| `HfscStream.AcceptsExactlyTheWholeLog` | hfsc/dispatch.go:75-225 | whatever part of the sent records arrives, numbering and count let a receiver accept exactly whole closed logs: any number of lost records is noticed |
| `HfscStream.FinalizeDeterminesTheBytes` | hfsc/dispatch.go:205-225 | whatever part of a log arrived, a receiver that accepts a finalizer has exactly the bytes read and their hash |
| `HfscStream.SameRecordsSameBytes` | hfsc/dispatch.go:205-225 | two streams whose receivers saw the same accepted records read the same bytes |
| `ApiErrors.RetriedExactlyWhenTransient` | llmprovider/api_error.go:87-226 | an HTTP failure is retried exactly when its status is transient, no service row is final, the service did not forbid it and the delay is within the cap |
| `ApiErrors.LegacyChecksStillMatch` | llmprovider/api_error.go:78-98 | a classified failure still matches the sentinel of its status and that of the table |
| `ApiErrors.RowsAre` | llmprovider/api_error.go:179-226 | the error names and statuses of each row, a service's names for that service only |
| `ApiErrors.MatchesExactlyWhen` | llmprovider/api_error.go:78-226 | a failed response matches each of the six sentinels exactly when the first row of its service or its status alone says so |
| `ApiErrors.DelayIsCarried` | llmprovider/api_error.go:100-144 | a failure carries its Retry-After, or without one the time to its quota reset, and is a plain rate limit exactly for a 429 that nothing makes final |
| `ApiErrors.StreamRetriedExactlyWhen` | llmprovider/api_error.go:146-164 | a failed stream event is retried unless it names an invalid prompt or a final row of its service |
| `ApiErrors.StreamMatchesExactlyWhen` | llmprovider/api_error.go:146-164 | a failed stream event matches each sentinel exactly when its names say so |
| `RetryBackoff.RetryWithBackoff` | llmprovider/provider.go:197-240 | between 1 and max(retries,0)+1 calls; it stops at the first success or refused error; each wait is the server's or the jittered base, which is the base and what the random numbers give of its quarter |
| `RetryBackoff.WaitsAreBounded` | llmprovider/provider.go:197-240 | for every initial delay each wait is positive and below 37.5 s, at most 30 s when the server set it |
| `RetryBackoff.ExponentialExactlyWhen` | llmprovider/provider.go:202-211 | the base is the documented doubling up to the cap exactly when the product fits 64 bits or the shift does not wrap to a positive value below the cap |
| `RetryBackoff.EarlyRetriesAreExponential` | llmprovider/provider.go:202-211 | with an initial delay within the cap the first 29 retries follow the documented backoff |
| `RetryBackoff.LateRetryWraps` | llmprovider/provider.go:202-211 | a delay of 17.179869185 s falls back to 2^30 ns at retry 31 |
| `RetryBackoff.ZeroDelayWaitsTheCap` | llmprovider/provider.go:202-211 | an initial delay of zero waits the cap, not zero |
| `LogBuffers.LogBuffer.New` | logbuffer.go:32-63 | sizes are defaulted and the trim target is kept strictly below the size or halved |
| `LogBuffers.LogBuffer.Write` | logbuffer.go:67-98 | the new content is a function of the old content and the redacted bytes, whether or not the array was reallocated |
| `LogBuffers.LogBuffer.Trim` | logbuffer.go:83-95 | the marker and the retained bytes, as they are read while they are being overwritten |
| `LogBuffers.CutFollowsANewline` | logbuffer.go:83-89 | the retained part begins right behind a newline when its last bytes hold one, no later than any line that begins within them, and is those bytes when they hold none |
| `LogBuffers.IdealWriteSays` | logbuffer.go:67-98 | an ideal write keeps everything while it fits, else the line [TRUNCATED] and the retained part |
| `LogBuffers.MoveWithin` | logbuffer.go:89-93 | a copy between overlapping parts of one array moves exactly the bytes that were there |
| `LogBuffers.InPlaceTrimIsExact` | logbuffer.go:67-98 | the self-overlapping trim equals its pure specification on every write exactly in the configurations where the marker ends before the retained bytes begin |
| `LogBuffers.ContentIsFaithful` | logbuffer.go:67-98 | after any writes the content is the whole redacted history or the marker and a suffix of it, exactly in those configurations |
| `LogBuffers.ContentIsBounded` | logbuffer.go:67-98 | the content never exceeds maxSize exactly when the marker fits beside the trim target |
| `LogBuffers.DefaultsQualify` | logbuffer.go:32-63 | the default sizes are among the configurations where both hold |
| `LogBuffers.TailLines` | logbuffer.go:109-131 | the backward scan returns the last n lines, one trailing newline aside: the end of the text from the beginning of a line, with n - 1 newlines, or all of it when it has fewer |
| `LogBuffers.LastLinesAfter` | logbuffer.go:109-131 | the text after a newline is the join of the lines it holds, and there is a line before it |
| `ModelMatcher.SubsequenceBonus` | llmprovider/model_matcher.go:164-196 | a bonus is given exactly when the query is a subsequence, from the leftmost of all embeddings |
| `ModelMatcher.ScanMatches` | llmprovider/model_matcher.go:174-191 | taking the first match keeps every embedding at or behind the scan's positions |
| `ModelMatcher.PointsCount` | llmprovider/model_matcher.go:161-196 | ten points for each match right after the one before, five for each at the start of a token |
| `ModelMatcher.TierIsTheStrongest` | llmprovider/model_matcher.go:110-133 | the tier given is the one of the highest rank whose condition the query meets |
| `ModelMatcher.FuzzyModelScore` | llmprovider/model_matcher.go:112-133 | the score is that of the best tier that matches, and there is none exactly when no tier does; in the lowest tier it is 1000 and the leftmost embedding's points, up to 999 |
| `ModelMatcher.TiersNeverCross` | llmprovider/model_matcher.go:112-133 | a better tier always scores higher, whatever the bonus |
| `ModelMatcher.SubstringIsSubsequence` | llmprovider/model_matcher.go:112-133 | a query that occurs in a name is a subsequence of it |
| `ModelMatcher.TokensSplit` | llmprovider/model_matcher.go:135-143 | a separator ends a token and the next begins behind it |
| `PastePrompt.OneAtATime` | wizard/auth.go:278-305 | in every run show and input never use the prompter at once, nor show and drain |
| `PastePrompt.ReadsOnlyWhatWasShown` | wizard/auth.go:278-305 | in every run a code is read only after the instructions were shown |
| `PastePrompt.NothingAfterDrain` | wizard/auth.go:307-321 | once drain has returned nothing uses the prompter in any continuation |
| `PastePrompt.NothingStartsAfterDrainBegan` | wizard/auth.go:278-321 | once drain has begun no read and no showing starts in any continuation, and an input that is over stays over |
| `PastePrompt.DrainNotifiesExactlyWhenPending` | wizard/auth.go:315-320 | drain tells the user to press Enter exactly when it found the read still pending |
| `PastePrompt.DrainMayOverlapTheRead` | wizard/auth.go:315-320 | that notice may be shown while the read is going on |
| `PastePrompt.DrainIsNeverStuck` | wizard/auth.go:307-321 | a drain that has not returned can go on, or what it waits for can |
| `PastePrompt.RunsAreShort` | wizard/auth.go:278-321 | every run ends after at most eight steps |

## Left out

- Power failures: the recorded directories are what a process that dies leaves, not what survives a lost cache; that the directory is synced is proved, what syncing buys is not.
- Other writers: nobody but the session changes the target's directory while the lock is held; the lock file itself is never removed.
- Symbolic links, path containment, allowed roots and the parts of resolveTarget before the identity.
- Closing the directory handle, and errors joined from closing or removing, beyond whether a call failed.
- Windows: its rename, lock and cleanup receipts; PendingBackup is always empty here, and removing a stale receipt at the start of a session is not modelled.
- Concurrent calls on one install session: its mutex makes each method one step, but a Close between the apply and the rollback of a managed installation is not modelled.
- Updater.Run and execute before apply: the in-process guard, release selection, confirmation and the check-only result.
- Updaters.Apply: reports, the context and the verifiers are arbitrary yes-or-no answers; the binary reaches the staging file in one write rather than chunk by chunk; a transformer that removes the staging file, or touches another, is not modelled.
- Manifests that are not valid UTF-8: how bytes become text is a parameter, and names are compared as text.
- Services: what Start, Stop and WaitHealthy do is only what their contracts in `Machine` say; a service that its supervisor brings up between a successful stop and the start is not modelled, and a restore that succeeds puts back the definition the reconcile found.
- OAuth expiry read from a JWT, the token endpoint's addresses and error bodies, the pauses between the attempts of a refresh, and the authorization-code flow.
- OAuthRefresh.NoDeadTokenIsSent: one answer stands for the up to three attempts of a refresh, since failed attempts do not rotate.
- DevicePolling.UnflooredIntervalMayVanish: the rest of the OpenAI loop, whose shape is the Grok loop's without slow_down.
- ModelRanking.GreedyIsOptimal: costs, ages and scores are exact reals, so floating-point rounding and NaN are not modelled; catalog decoding and date parsing are not either.
- ModelMatcher.FuzzyModelScore: identifiers are lower-case already; SearchModels' glob branch, de-duplication and final sort are not modelled.
- HTTP, headers, JSON decoding and the text of error messages; a response is an arbitrary value.
- HfscStream.Stream: the textual wire format of a chunk and the marshalling of its record, which cannot fail for a string.
- ApiErrors.RetriedExactlyWhenTransient: parsing the error body into its types, and the sanitised message.
- LogBuffers.LogBuffer.Write: the mutex, so writes are whole steps; how much a reallocation over-allocates is arbitrary.
- PastePrompt.OneAtATime: show, input and drain run once each, as the sign-in calls them.
