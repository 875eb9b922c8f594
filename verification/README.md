# Try Omarchy launcher: durable state, verified

The launcher keeps a virtual machine on a Windows disk: a guest tree, a graphics
engine, a writable disk, its own executable, downloads and backups. Nearly all
of that code moves a folder from one set of names to another in small steps, any
of which can fail or be the last thing the process does. This project models
that code as a program over an explicit filesystem and proves what survives. It
also proves the byte-level code beside it: the qcow2 writer, the sparse copiers,
the hole puncher, the bitmap codec, the range header and the key redaction.

## How the model works

`FaultyFs` is a map from path to content, a clock of filesystem calls, and a
flag that says whether the process is alive. An oracle, which every theorem
quantifies over, lets each call work, fail, or kill the process; a dead process
changes nothing more, so the final state of a run is the crash state. Each
protocol appears twice: as a pure function with the branches of the source, and
as imperative code on a `Machine` with mutable fields, proved equal to it call
for call. The theorems are about the functions: a lemma named `...Outcome` lists
the states a protocol can leave behind, a lemma named `...Keeps...` shows that
an invariant survives all of them, and an induction carries it over a whole run.
The `...Outcomes` modules say, for each protocol, exactly what a run without
faults comes to and exactly when it succeeds, and what one failing call can cost,
by the position of that call: mostly, all of the change or none of it.

| file | what it models |
|---|---|
| `FaultyFs.dfy` | the filesystem, the fault oracle, renames with retry |
| `PayloadUpdate.dfy`, `PayloadUpdateOutcomes.dfy`, `PayloadUpdateLimits.dfy` | guest and engine updates: record, publish, boot, commit, recover; and the runs in which they fail |
| `LauncherUpdate.dfy`, `LauncherUpdateOutcomes.dfy` | the launcher replacing its own executable, and rolling back |
| `RenameTransaction.dfy` | a list of renames with reverse undo |
| `PortableDisk.dfy`, `PortableDiskOutcomes.dfy` | the overlay and the digest of the image it overlays |
| `StandardDisk.dfy`, `StandardDiskOutcomes.dfy` | building, growing, quarantining and resetting a raw disk |
| `Download.dfy`, `DownloadOutcomes.dfy`, `ContentRange.dfy` | resumable verified downloads, and the range header they read |
| `BackupArchive.dfy`, `Backup.dfy`, `BackupOutcomes.dfy`, `BackupLimits.dfy` | the backup format; writing and restoring it; a backup that cannot be read |
| `InstallReceipt.dfy`, `InstallReceiptOutcomes.dfy` | the receipt of a verified install, and restamping after a restore |
| `Qcow2.dfy` | the overlay writer, against an independent reader of the format |
| `SparseCopy.dfy`, `Compact.dfy` | copying with holes, and punching them |
| `ClipboardImage.dfy`, `ClipboardForms.dfy`, `ChannelMask.dfy` | bitmaps of every accepted form, and their channel masks |
| `LaunchLadder.dfy` | the fallbacks of a failing start, and their limit |
| `Redaction.dfy` | taking SSH keys out of diagnostics |
| `Bytes.dfy`, `Strings.dfy`, `Wrappers.dfy` | integers in bytes, text, options |

## What the code does not keep

Seven places where a promise fails, each with the exact condition and an input:

- Two records of one launch with different versions: the second drops the first
  component's flag, and an engine that was never confirmed stays
  (`PayloadUpdate.RecordKeepsGoalsIff`; `PayloadUpdateLimits.DroppedFlagIsNotUndone`
  and its witness).
- A commit ignores a failed delete of `.previous`. The next update that is cut
  short then goes back to that old release, although a newer one was confirmed
  (`PayloadUpdate.RecordKeepsGoalsIff`; `PayloadUpdateLimits.OldReleaseComesBack`
  and its witness).
- A commit deletes `.previous` whatever the state of the current tree. After a
  publication that fails half-way, a launch that goes on to a ready guest on
  stock QEMU ends without an engine and without one to put back
  (`PayloadUpdate.CommitIsSafeIff`; `PayloadUpdateLimits.StockBootLosesTheEngine`
  and its witness).
- A rollback trusts `.previous` to be whole (`PayloadUpdate.RollbackRestoresWholeTreeIff`).
  Deleting is one step in the model, so no run of it gets there; with a delete
  that can be cut short, a crash in a commit does
  (`PayloadUpdateLimits.TornCommitIsRecoveredIff` and its witness).
- An unconfirmed launcher is undone if and only if some launch gets to mark its
  record as started and none records a newer release first. Recording one, and a
  failed write of the mark, are the two ways it runs again
  (`LauncherUpdate.UnconfirmedLauncherIsUndoneIff`; `LauncherUpdate.NewerReleaseWitness`
  and `LauncherUpdate.FailedWriteWitness`).
- A backup can be written that cannot be read again: neither names that differ
  only in case nor a manifest over 4 MiB stop the writer
  (`BackupArchive.ReadsBackIff`; `BackupLimits.UnreadableBackupWitness`).
- Normalising a release twice is not the same as once, so a receipt written for
  a release with a space before its final slash never matches it
  (`InstallReceipt.WrittenReceiptMatchesIff`; `InstallReceipt.NormalFormCanMove`).

## Model

| member | source | states |
|---|---|---|
| FaultyFs.Machine.RenameDirWithRetry | app/payload_update.go:74-85 | the retry loop, call for call: at most fifteen renames, stopping at the first that works or at death |
| PayloadUpdateOutcomes.RetrySucceedsIff | app/payload_update.go:74-85 | the retried rename succeeds if and only if one attempt works before the last has failed and before the process dies |
| PayloadUpdate.PublishDirectoryUpdate | app/payload_update.go:25-50 | the in-place steps end in the world, and the verdict, that the specification function gives for the same faults |
| PayloadUpdate.RollbackDirectoryUpdate | app/payload_update.go:52-72 | same, for putting the previous tree back |
| PayloadUpdate.RecordPayloadUpdate | app/payload_update.go:146-155 | same, for the record with its version and flags |
| PayloadUpdate.RollbackPendingPayloadUpdates | app/payload_update.go:157-186 | same, for start-up recovery of both components |
| PayloadUpdate.CommitPayloadUpdate | app/payload_update.go:205-243 | same, for committing one component |
| PayloadUpdate.RollbackPendingRuntimeUpdate | app/payload_update.go:252-265 | same, for giving up a new engine that will not start |
| PayloadUpdate.PublishOutcome | app/payload_update.go:25-50 | every crash state of a publication is one of four: untouched, stale previous tree gone, current tree set aside, published; a healthy run publishes |
| PayloadUpdateOutcomes.HealthyPublish | app/payload_update.go:25-50 | without faults a publication succeeds if and only if there is a staged tree and nothing but a tree in its way, first publication included; then the replaced tree, if any, is the previous one; otherwise only a stale previous tree goes |
| PayloadUpdateOutcomes.FailedPublish | app/payload_update.go:25-50 | under every fault, a publication that fails in a live process leaves the current tree current, unless the fifteen renames that put it back all failed; success means the clean-up and the look worked |
| PayloadUpdate.RollbackOutcome | app/payload_update.go:52-72 | in every crash state of a rollback the previous tree is back in place or still there to be put back |
| PayloadUpdate.RollbackSucceedsWhenHealthy | app/payload_update.go:52-72 | without faults a rollback always succeeds |
| PayloadUpdateOutcomes.HealthyRollback | app/payload_update.go:52-72 | without faults a rollback puts the previous tree back and leaves no other copy, or, without one, changes nothing |
| PayloadUpdateOutcomes.FailedRollback | app/payload_update.go:52-72 | under every fault, a rollback that fails in a live process leaves the current tree current, unless thirty renames in a row failed |
| PayloadUpdate.PublishKeepsSafe | app/payload_update.go:25-50 | from a recorded update with a complete staged tree, every crash state is recoverable, and recovery settles on the same tree as before when no previous tree was left over |
| PayloadUpdate.RollbackKeepsGoals | app/payload_update.go:52-72 | an interrupted rollback changes neither the record nor the tree recovery settles on; a finished one has put that tree in place |
| PayloadUpdate.RecoveryKeepsGoals | app/payload_update.go:157-186 | recovery, cut short anywhere, keeps the tree each component settles on; completed, it leaves no record and reports a rollback exactly if something was pending; a healthy one completes |
| PayloadUpdate.RecoveriesKeepGoals | app/payload_update.go:157-186 | so does any number of interrupted recoveries in a row |
| PayloadUpdate.RecoveryConverges | app/main.go:408-417 | however often recovery was cut short, one that gets through ends with exactly those trees current and no record |
| PayloadUpdateOutcomes.HealthyRecovery | app/payload_update.go:157-186 | without faults recovery fails only at a damaged record; otherwise each pending component is at its previous tree, where it has one, every other tree is as it was, and the record is gone |
| PayloadUpdateOutcomes.UnstartedIsMarkedFirst | app/payload_update.go:165-168 | a record that was never started is only marked started, so that the recovery after undoes it |
| PayloadUpdateOutcomes.DamagedRecordStops | app/payload_update.go:157-161 | a damaged record stops the launch and nothing is touched |
| PayloadUpdateOutcomes.FailedRecoveryKeepsItsRecord | app/payload_update.go:169-185 | a recovery that fails leaves its record, so the next launch tries again |
| PayloadUpdate.RecordKeepsGoalsIff | app/payload_update.go:146-155 | recording is safe if and only if the other component keeps its flag or has its current tree, and keeps what recovery settles on if and only if no differing previous tree is left over and the other flag survives or did not matter |
| PayloadUpdateOutcomes.RecordOutcome | app/payload_update.go:146-155 | a record written names its version, is started, has its component pending, and keeps the other one pending exactly if the same version had it so |
| PayloadUpdate.UpdateKeepsSafe | app/setup.go:282-317 | staging, recording and publishing one component leaves both recoverable at every crash point; success makes the new tree current; without leftovers recovery still settles on the old trees |
| PayloadUpdateOutcomes.HealthyUpdate | app/setup.go:282-317 | without faults an update is recorded, and succeeds exactly if what it replaces is a tree; then the new tree is current and the old one kept |
| PayloadUpdate.StageOutcome | app/fetch.go:38-49 | staging touches only the staging name and on success leaves a complete tree there |
| PayloadUpdateOutcomes.StageSucceedsIff | app/fetch.go:38-49 | staging succeeds exactly if the tree could be built and, for the guest, its name cleared; a failed build leaves a partial tree only if deleting it failed too |
| PayloadUpdate.CommitKeepsSafe | app/payload_update.go:205-243 | in every crash state of a commit, recovery settles on the old tree until the previous tree is gone and on the new one from then on; the other component is unaffected |
| PayloadUpdateOutcomes.HealthyCommit | app/payload_update.go:205-243 | without faults a commit drops the previous tree and the flag of its component, keeps the other flag, and removes the record exactly if nothing else is pending |
| PayloadUpdate.CommitAllKeepsSafe | app/payload_update.go:247-250 | the same for both commits in turn; a healthy run leaves no record and no previous tree |
| PayloadUpdate.RollbackPendingRuntimeKeepsGoals | app/payload_update.go:252-265 | giving up the new engine during a launch keeps both components' trees; success clears the engine's flag and leaves an engine in place |
| PayloadUpdate.RollbackPendingRuntimeSucceedsIff | app/payload_update.go:252-265 | without faults it succeeds if and only if the engine is pending; then the engine recovery would settle on is current, the engine is no longer pending, and the guest is as before |
| PayloadUpdate.FailedEngineStartIsUndone | app/main.go:767-790 | a healthy launch that updates the engine and whose accelerated start fails ends with the old engine current and nothing of it pending, whatever becomes of the guest |
| PayloadUpdate.LifetimesKeepSafe | app/main.go:822-903 | any sequence of guest lifetimes in one process, failing, booting or dying, keeps both components recoverable, and changes what recovery settles on only after a ready guest |
| PayloadUpdate.LaunchKeepsSafe | app/main.go:408-417 | a whole launch - recover, update engine, update guest, boot, commit or roll back - keeps both components recoverable under every fault; only a launch that its own failed publication has left without an engine, and that goes on to stock QEMU, must not see a ready guest or record another version |
| PayloadUpdate.LaunchSettlesOnOldOrOffered | app/payload_update.go:146-250 | confirmed or not, after a launch each component settles on the tree it had or on the complete release it was offered, under every fault |
| PayloadUpdate.RunKeepsSafe | app/payload_update.go:146-265 | and so does every sequence of launches, each judged on the state it starts from |
| PayloadUpdate.UnconfirmedUpdateIsUndone | app/main.go:408-417 | an update never confirmed by a ready guest is undone: after any crash and any number of interrupted recoveries, the first that completes leaves exactly the trees from before the launch |
| PayloadUpdate.ConfirmedUpdateIsPermanent | app/payload_update.go:205-250 | a healthy update of both components that boots leaves the new trees current and nothing for recovery to undo |
| PayloadUpdate.CommitIsSafeIff | app/payload_update.go:205-243 | under every fault, a commit is safe if and only if the component has a current tree, or neither of its two calls gets through |
| PayloadUpdate.RollbackRestoresWholeTreeIff | app/payload_update.go:52-72 | a healthy rollback ends with a whole tree if and only if the tree it goes back to is whole |
| PayloadUpdateLimits.PublicationStrands | app/payload_update.go:41-48 | renames that fail until both deadlines leave a component without a current tree in a process that lives on |
| PayloadUpdateLimits.StockBootLosesTheEngine | app/main.go:523-535 | a launch stranded like that which sees a ready guest on stock QEMU ends unsafe, with no engine and none to put back |
| PayloadUpdateLimits.LostEngineWitness | app/main.go:523-535 | the same at one installation and one fault pattern |
| PayloadUpdateLimits.OldReleaseComesBack | app/payload_update.go:205-218 | after a commit whose delete fails, an update that dies with its record written is recovered to the release from before the confirmed one |
| PayloadUpdateLimits.OldReleaseWitness | app/payload_update.go:205-218 | the same at one installation: release 2 is confirmed, release 1 comes back |
| PayloadUpdateLimits.DroppedFlagIsNotUndone | app/payload_update.go:146-155 | with two versions in one launch, a crash after the second record leaves the new engine in place unconfirmed |
| PayloadUpdateLimits.DroppedFlagWitness | app/payload_update.go:146-155 | the same at one installation |
| PayloadUpdateLimits.TornCommitIsRecoveredIff | app/payload_update.go:205-243 | where a delete can be cut short, recovery after a commit gives a whole tree if and only if the commit did not die in its delete |
| PayloadUpdateLimits.TornCommitWitness | app/payload_update.go:205-243 | the same at one installation: part of the old guest replaces the whole new one |
| RenameTransaction.PublishMoves | app/reset_portable.go:82-97 | the forward loop and the undo loop, rename for rename |
| RenameTransaction.PublishLeavesPrefixOfFree | app/reset_portable.go:82-97 | for every move list with free destinations, sources missing or not, and every fault pattern the files are those after exactly one prefix of the moves, computed from the faults and the first missing source; success if and only if it is the whole list |
| RenameTransaction.PublishLeavesPrefix | app/reset_portable.go:82-97 | where every source is there, the prefix is computed from the faults alone |
| RenameTransaction.UndoLeavesPrefix | app/reset_portable.go:84-93 | undoing stops at the first undo that fails and leaves the prefix up to it |
| RenameTransaction.FailedPublishIsUndone | app/reset_portable.go:82-97 | if one rename fails and every undo works, nothing has changed |
| RenameTransaction.HealthyPublish | app/reset_portable.go:82-97 | without faults all the moves are made |
| RenameTransaction.PublishWithOneFault | app/reset_portable.go:82-97 | with one failing rename, anywhere in a list of any length, all the moves are made or none |
| RenameTransaction.NothingIsLost | app/reset_portable.go:82-97 | after any prefix every content is at the place its moves took it to, and there are as many files as before |
| RenameTransaction.NothingIsOverwritten | app/reset_portable.go:82-97 | no two contents end at one place |
| PortableDisk.PreparePortableDisk | app/qemu.go:286-345 | the in-place steps equal the specification function under every oracle |
| PortableDisk.WritePortableBackingState | app/qcow2.go:45-83 | same, for the identity file |
| PortableDisk.CreateQcow2Overlay | app/qcow2.go:88-152 | same, for the exclusive creation that removes what it cannot finish |
| PortableDisk.ResetPortableDisk | app/reset_portable.go:12-78 | same, for the reset |
| PortableDisk.PrepareKeepsPair | app/qemu.go:286-345 | in every crash state an overlay under the final name has the digest of the image it was made over beside it, and no overlay is lost; success only with an overlay of the asked size over the image installed now; one that matches is never touched |
| PortableDisk.PrepareSucceedsIff | app/qemu.go:286-345 | without faults preparing succeeds if and only if the factory is verified, no foreign identity is there, and the overlay matches or a valid size lets one be built |
| PortableDiskOutcomes.HealthyPrepare | app/qemu.go:286-345 | without faults the exact files after preparing: unchanged, or with the disk in the way set aside and a new pair in place, or set aside only |
| PortableDiskOutcomes.NoIdentityNoRun | app/qemu.go:286-304 | under every fault, a disk of the right size without its identity is refused and not touched |
| PortableDiskOutcomes.CreationOutcome | app/qcow2.go:88-152 | an overlay is created exactly under a free name and in a valid size, and a failure in a live process leaves nothing |
| PortableDiskOutcomes.FillWithOneFault | app/qemu.go:305-345 | building a pair makes five calls; one failing leaves no disk and nothing staged, and at most an identity |
| PortableDisk.ResetMovesKeepPair | app/reset_portable.go:64-71 | the list a reset builds has free destinations, and every prefix of it leaves a matching pair or no disk |
| PortableDisk.ReplacePairOutcome | app/reset_portable.go:29-78 | replacing the pair keeps the invariant in every crash state; success leaves a fresh pair and the old one whole in a before-reset folder |
| PortableDisk.ResetKeepsPair | app/reset_portable.go:12-78 | the same for the whole reset, with or without a disk to set aside |
| PortableDisk.ResetSucceedsIff | app/reset_portable.go:12-78 | without faults a reset succeeds if and only if the factory image is verified and the size valid; then the new pair is in place and what was there is whole in a before-reset folder; if not, disk and identity are as before; nothing stays staged |
| PortableDiskOutcomes.ResetWithoutIdentity | app/reset_portable.go:12-78 | without faults a disk whose identity is missing is still set aside whole by a reset, which succeeds under the same conditions |
| PortableDiskOutcomes.ResetWithOneFault | app/reset_portable.go:12-78 | replacing a pair makes thirteen calls; whichever fails, either all of it has happened or no file has changed |
| PortableDisk.StepKeepsPair | app/qemu.go:286-345 | one launch, guest write, reset or factory change keeps the pair invariant and fresh names |
| PortableDisk.HistoryKeepsPair | app/reset_portable.go:12-78 | any sequence of them does, with failures and crashes anywhere |
| PortableDisk.LastWriteSurvives | app/reset_portable.go:12-78 | after any history, whatever happens from the last run of the guest on keeps every overlay with what the guest wrote into it |
| PortableDiskOutcomes.WrittenIsKept | app/reset_portable.go:12-78 | what the guest wrote in its last run is in some kept overlay, over the image it was made over, after any later launches, resets and factory changes |
| StandardDisk.RequestedCapacity | app/storage.go:105-120 | an accepted capacity is the larger of the two requests, its byte count does not overflow, and asking again changes nothing |
| StandardDisk.CapacityAcceptedIff | app/storage.go:105-120 | exactly these settings are accepted: a positive factory size whose bytes fit 63 bits, and a request of zero, or of 24 to 1024 GiB when not portable |
| StandardDisk.BuildDisk | app/qemu.go:222-281 | the in-place steps equal the specification function under every oracle |
| StandardDisk.PrepareWritableDisk | app/qemu.go:152-281 | same, for reuse, growth, quarantine and build |
| StandardDisk.PrepareStandardDisk | app/qemu.go:152-170 | same, from the settings of a launch to a reset or a preparation |
| StandardDisk.PublishResetDisk | app/reset.go:67-78 | same, for the two renames and the undo |
| StandardDisk.ResetStandardDisk | app/reset.go:11-65 | same, for the reset |
| StandardDisk.BuildOutcome | app/qemu.go:222-281 | a build puts a complete disk in place or none |
| StandardDiskOutcomes.BuildWithOneFault | app/qemu.go:222-281 | a build makes six calls; one failing leaves no new disk and no staging file, unless clearing an old one is what failed |
| StandardDisk.GrowOutcome | app/qemu.go:193-218 | growing keeps every byte of the disk as a prefix |
| StandardDisk.GuestDiskStaysActive | app/qemu.go:193-218 | a disk at least as long as the factory image is never set aside: in every crash state it is still the active disk, or the start of it |
| StandardDisk.QuarantinedIff | app/qemu.go:171-192 | without faults a disk is set aside if and only if it is shorter than both the capacity and the installed factory image, be it an interrupted copy or a complete older disk |
| StandardDisk.PrepareDestroysNothing | app/qemu.go:152-281 | preparing destroys no bytes of a disk in any crash state; on success the disk has at least the capacity |
| StandardDisk.PrepareSucceedsIff | app/qemu.go:171-281 | without faults preparing succeeds if and only if the disk is long enough or the factory image is there and fits; a disk long enough is left as it is, one not shorter than the image grows, any other is built |
| StandardDisk.ResetDestroysNothing | app/reset.go:11-65 | a reset destroys nothing, and a successful one leaves a factory disk and the old disk whole in a before-reset file |
| StandardDisk.ResetSucceedsIff | app/reset.go:11-65 | without faults a reset succeeds if and only if no update is pending and the factory image is there and fits; then the disk is a factory one and the old one is kept whole; refused, an existing installation is unchanged; nothing stays staged |
| StandardDiskOutcomes.ResetWithOneFault | app/reset.go:11-78 | replacing a disk makes thirteen calls; whichever fails, either all of it has happened or no file has changed |
| StandardDisk.PrepareDiskDestroysNothing | app/qemu.go:152-174 | the same for a launch with any settings; on success the disk has at least the requested and the factory size |
| StandardDisk.PrepareDiskSucceedsIff | app/qemu.go:152-170 | without faults a launch gets its disk if and only if its settings are accepted and the disk is long enough or can be built, or, starting fresh, no update is pending and it can be built |
| StandardDisk.LaunchesDestroyNothing | app/qemu.go:152-281 | over any sequence of launches and resets every byte of a disk that was ever there stays a prefix of the active disk, or sits whole in a quarantine or before-reset file |
| Download.DownloadVerified | app/download.go:58-109 | the retry loop on mutable state equals the specification function under every oracle and server |
| Download.DownloadAttempt | app/download.go:111-259 | same, for one request |
| Download.ReceiveBody | app/download.go:191-259 | same, for receiving a body and what follows |
| Download.CopyDownloadBody | app/download.go:330-407 | same, for the copy loop and its count |
| Download.VerifyAndCommitPart | app/download.go:283-296 | same, for checking and publishing |
| Download.RenameDownloadedPart | app/download.go:298-315 | same, for the rename loop |
| Download.ResetPartialFile | app/download.go:275-281 | same, for truncating the part file |
| Download.VerifyOutcome | app/download.go:283-296 | the destination changes only by taking over a part file with the wanted digest; otherwise nothing changes |
| DownloadOutcomes.VerdictOutcome | app/download.go:283-315 | a part file is found different exactly if it was read and its digest is not the wanted one, and is published exactly if it has that digest and a rename works in some round after rounds that only failed |
| DownloadOutcomes.RenameSucceedsIff | app/download.go:298-315 | the exact fault patterns under which the rename loop succeeds |
| Download.CopyBodyOutcome | app/download.go:330-407 | the copy never passes the announced total, its count is what was appended, and what was appended is a prefix of the body, also where a failing write has written part of a chunk |
| Download.DownloadIsVerified | app/download.go:58-109 | for any server and any faults the destination is as it was or has the wanted digest, success means it has, and there are at most max(1, attempts) + 1 requests |
| Download.AttemptsKeepDest | app/download.go:58-109 | the same from any point of the loop, with the clean restart spent or not |
| Download.HonestAttempt | app/download.go:111-259 | against an honest server, which may send only the start of the range asked for, an attempt keeps the part file a prefix of the payload, never shrinks it while ranges are honoured, never reports a mismatch, finishes on a complete response, and without faults ends for good only on a refusal |
| DownloadOutcomes.AttemptOutcome | app/download.go:111-259 | without faults, the result and the files for every status, range and digest: which responses are retried, which end the download, when a complete part is published without fetching, and when the part file is emptied |
| DownloadOutcomes.BodyOutcome | app/download.go:191-259 | without faults, what a body leads to, told from the whole body: refused if longer than announced, kept for another attempt if incomplete, published, restarted cleanly if it had been appended, or dropped |
| DownloadOutcomes.FaultsEndTheAttempt | app/download.go:111-259 | a cancelled attempt, and one that cannot empty or open the part file, fails and changes nothing |
| DownloadOutcomes.UnableKeepsThePart | app/download.go:144-182 | a complete part that cannot be verified or published ends the attempt, and is neither fetched again nor dropped |
| DownloadOutcomes.UnflushedIsNotPublished | app/download.go:217-228 | what was received but not flushed is never published |
| DownloadOutcomes.NothingArrives | app/download.go:94-108 | if no response ever arrives, the download uses all its attempts and succeeds if and only if the part file was complete all along |
| Download.HonestDownload | app/download.go:58-109 | against an honest server the whole download uses no clean restart, ends with the payload in place or a prefix to resume from, and success means the payload |
| Download.HonestDownloadSucceeds | app/download.go:58-109 | without faults it succeeds with the first of its requests that is answered with what is missing, if none before it is refused for good |
| Download.AttemptFromAnything | app/download.go:111-259 | with any part file at all, an answer with what is missing brings the payload or, only if the part was not of it, a clean restart with the part emptied |
| Download.StalePartIsReplaced | app/download.go:58-109 | from any part file at all, without faults, a server that answers with what is missing brings the payload in one request, or in two if the part was not of it |
| ContentRange.ParsesIff | app/download.go:409-434 | a header is accepted with given numbers if and only if it is the unit, two bounds and a total in order, each a 64-bit decimal number |
| ContentRange.RoundTrip | app/download.go:409-434 | every range below 2^63 survives being written and read |
| LauncherUpdate.ApplyLauncherUpdate | app/update_windows.go:79-143 | the in-place steps of installing and of rolling back equal the specification functions under every oracle |
| LauncherUpdate.RecoverLauncherUpdate | app/update_windows.go:145-174 | same, for recovery at start-up |
| LauncherUpdate.CommitLauncherUpdate | app/update_windows.go:176-187 | same, for the commit after a ready guest |
| LauncherUpdate.CopyLauncherFile | app/launcher_files.go:18-64 | same, for copying through a part file |
| LauncherUpdate.ClearLauncherUpdateMarker | app/update_state.go:115-122 | same, for removing the marker |
| LauncherUpdate.ClearLauncherUpdateState | app/update_state.go:105-113 | same, for removing saved launcher and marker in that order |
| LauncherUpdate.CopyOutcome | app/launcher_files.go:18-64 | a copy replaces its target by the whole source or leaves it alone |
| LauncherUpdateOutcomes.CopySucceedsIff | app/launcher_files.go:18-64 | under every fault, a copy onto itself changes nothing, and any other succeeds if and only if its three calls work |
| LauncherUpdateOutcomes.CopyBytesOutcome | app/launcher_files.go:34-58 | the part file is whole after a success and gone after a failure in a live process |
| LauncherUpdateOutcomes.FailedCopy | app/launcher_files.go:18-64 | a copy one of whose calls fails changes nothing and takes its part file away |
| LauncherUpdate.ApplyUpdateOutcome | app/update_windows.go:105-143 | every crash state of an installation is one of a few named ones; a healthy one installs |
| LauncherUpdateOutcomes.HealthyApply | app/update_windows.go:105-142 | without faults an installation succeeds if and only if the staged launcher is the recorded one; the exact files then, first installation included; otherwise nothing changes |
| LauncherUpdateOutcomes.ApplyWithOneFault | app/update_windows.go:105-142 | an installation makes eight calls; whichever fails, the launcher that was there is installed at the end, and the record is as it was, withdrawn, or naming the saved launcher, by how far it had got |
| LauncherUpdate.NotAuthenticChangesNothing | app/update_windows.go:105-114 | under every fault, a staged launcher without a record, or not the recorded one, changes nothing |
| LauncherUpdateOutcomes.FirstInstallationWithOneFault | app/update_windows.go:105-142 | a first installation makes five calls; if recording or installing is what fails, nothing is installed, not even a launcher saved by an older update |
| LauncherUpdate.FirstInstallation | app/update_windows.go:105-142 | a first installation has nothing to save, and the record then says so |
| LauncherUpdate.ApplyKeepsRecoverable | app/update_windows.go:105-143 | an interrupted installation leaves the old launcher, or the new one with the old one saved and named |
| LauncherUpdate.RollbackOutcome | app/update_windows.go:93-104 | an interrupted rollback can be repeated; a finished one has restored the saved launcher and removed the record |
| LauncherUpdateOutcomes.RollbackSucceedsIff | app/update_windows.go:93-142 | under every fault, a rollback succeeds if and only if a launcher was saved and its six calls work |
| LauncherUpdateOutcomes.HealthyRollback | app/update_windows.go:93-104 | without faults the saved launcher, where there is one, is installed and the record gone |
| LauncherUpdate.RecoverOutcome | app/update_windows.go:145-174 | recovery hands over to the saved launcher if and only if a started record names the installed one, unless starting it fails, and otherwise marks the record started |
| LauncherUpdateOutcomes.StartsAreCounted | app/update_windows.go:145-174 | without faults the first start of a recorded launcher is only marked, the second hands over if a launcher was saved, and clears the record if none was |
| LauncherUpdate.UselessRecordIsCleared | app/update_windows.go:145-162 | a damaged record, or one with nothing saved, is cleared and the launch goes on |
| LauncherUpdate.OtherRecordIsIgnored | app/update_windows.go:145-180 | a record of another version, or none, leaves start-up and commit without effect, under every fault |
| LauncherUpdate.CommitKeepsRecoverable | app/update_windows.go:176-187 | an interrupted commit keeps the invariant and the installed launcher; a healthy one clears record and saved launcher |
| LauncherUpdateOutcomes.HealthyCommit | app/update_windows.go:176-187 | without faults a confirmed update leaves neither record, saved launcher nor staged folder |
| LauncherUpdateOutcomes.FailedCommitKeepsStaged | app/update_windows.go:181-185 | a commit that cannot clear the record or the saved launcher keeps the staged folder |
| LauncherUpdate.LaunchKeepsRecoverable | app/update_windows.go:20-187 | after any launch the installed launcher is complete and is the same, the one rolled back to, or the newer one offered |
| LauncherUpdate.RunKeepsRecoverable | app/update_windows.go:79-187 | over any run, the installed launcher is complete and a record that names it has the launcher it replaced saved |
| LauncherUpdate.UnconfirmedLauncherIsUndoneIff | app/update_windows.go:145-174 | over any run of launches with no ready guest, under any faults and offers, the new launcher is undone by the run or the next healthy launch if and only if some launch got to mark its record and none recorded a newer release first |
| LauncherUpdate.UnconfirmedLauncherRunsOnceIff | app/update_windows.go:145-174 | the launch after the first puts the old launcher back if and only if the first wrote the mark and did not get both writes of a newer release through |
| LauncherUpdate.UnconfirmedLaunch | app/update_windows.go:20-174 | one unconfirmed launch loses the way back, puts the old launcher back, or leaves the new one in place and marked exactly if its first call works |
| LauncherUpdate.UnconfirmedLauncherRunsOnce | app/update_windows.go:145-174 | with nothing on offer and a first launch without faults: that is its only launch, however many later ones are interrupted before one gets through |
| LauncherUpdate.NewerReleaseWitness | app/update_windows.go:20-77 | one input where a release on offer, and no fault at all, keeps an unconfirmed launcher |
| LauncherUpdate.FailedWriteWitness | app/main.go:278-282 | one input where a failed write of the mark, which is only logged, gives it a second launch |
| LauncherUpdate.NewerRecordSuppressesRollback | app/update_windows.go:145-174 | once a newer update is recorded, no later run of launches, whatever it is offered, confirms or suffers, installs anything older than the launcher installed then |
| LauncherUpdate.HealthyUpdateIsInstalled | app/update_windows.go:20-143 | without faults an offered release is installed, with the one it replaced saved and named |
| LauncherUpdateOutcomes.HealthyConfirmation | app/update_windows.go:145-187 | a healthy launch of an updated launcher that gets ready ends the update: exactly the record, the saved launcher and the staged folder go |
| LauncherUpdateOutcomes.HealthyHandOver | app/update_windows.go:93-174 | a healthy launch of an updated launcher that was started before and never got ready puts the saved launcher back |
| LauncherUpdateOutcomes.StartOutcome | app/update_windows.go:44-77 | an update starts exactly if staging, recording and starting work; until then there is no new record |
| LaunchLadder.Launcher.Run | app/main.go:684-820 | the attempt loop over mutable settings equals the specification function, and does not end in the general failure with at most one wedged attempt |
| LaunchLadder.LeftBound | app/settings.go:48-57 | for every accepted memory size at most ten fallbacks are left |
| LaunchLadder.Launcher.GiveSomethingUp | app/main.go:733-790 | the reaction to one attempt, on mutable settings, is the specified one, and a launch that ends has changed nothing |
| LaunchLadder.ReactDegrades | app/main.go:733-790 | every fallback only takes away, and uses up one of those left |
| LaunchLadder.EachFallbackHasItsCause | app/main.go:733-790 | each setting changes if and only if the attempt failed for what it is the fallback of; a new engine is given up rather than acceleration exactly if it can be put back and no failure of acceleration was on record before it |
| LaunchLadder.ReactEndsIff | app/main.go:733-790 | an attempt ends the launch with a verdict exactly for the outcomes that verdict stands for: up, cancelled, or a failure no fallback is left for |
| LaunchLadder.VerdictHasItsCause | app/main.go:733-820 | the verdict of a launch is that of its last attempt on the settings left by then, and it gives up only after all its attempts |
| LaunchLadder.AttemptsSuffice | app/main.go:690-820 | from any attempt on, the loop does not give up while fallbacks and wedges left fit the attempts left |
| LaunchLadder.SuperviseNeverJustGivesUp | app/main.go:684-820 | with at most one wedged attempt the launch comes up, is cancelled, or ends with a specific diagnosis, within twelve attempts |
| LaunchLadder.TheLimitIsTight | app/main.go:690 | some host needs all twelve with one wedge, and fails with two |
| Qcow2.CreateOverlay | app/qcow2.go:88-152 | refuses exactly the sizes and names outside the limits and otherwise writes a file that the independent reader finds to be the empty overlay |
| Qcow2.WriteHeader | app/qcow2.go:119-131 | the header buffer, filled in place, holds the fields at their offsets and zeros between |
| Qcow2.WriteRefcounts | app/qcow2.go:143-146 | one big-endian 1 for each cluster in use |
| Qcow2.SizeAcceptedIff | app/qcow2.go:89-101 | with the 64-bit rounding of the source, wrap-around included, the size test accepts exactly 0 < size <= 32765 * 2^42, and then the computed table sizes are the true ones |
| Qcow2.RefcountsAreExact | app/qcow2.go:138-152 | each host cluster's refcount equals the number of structures in it, which is one for the clusters in use and none beyond |
| Qcow2.ReadsAsBacking | app/qcow2.go:88-152 | every guest offset reads from the backing file, as zero past its end |
| Qcow2.OverlayMatchesIff | app/qcow2.go:156-192 | a written overlay matches if and only if the backing name and the size are its own |
| Qcow2.RecognisedIff | app/qcow2.go:156-192 | any file at all is recognised if and only if its first 32 bytes and the name after its header are those of the overlay that would be written now |
| Bytes.PutBigEndian | app/qcow2.go:119-146 | putting one field into a buffer leaves every other byte |
| Bytes.FieldReads | app/qcow2.go:119-146 | a field that no later one overlaps reads back |
| SparseCopy.CopyFile | app/winapi.go:117-146 | the target ends as the source except where a skipped zero block keeps what the target had; an empty target ends equal to the source |
| SparseCopy.CopyStream | app/fetch.go:324-349 | the same for a stream, in whatever pieces it arrives |
| SparseCopy.ExactIff | app/winapi.go:117-146 | such a copy is exact if and only if every skipped block of the old target was zero |
| SparseCopy.BackupSparseWriter.Write | app/backup.go:254-270 | a write appends its bytes, held back as a gap if they are zeros |
| SparseCopy.RestoreFile | app/backup.go:383-412 | any chunking, followed by setting the length, restores the bytes |
| Compact.Scan.Run | app/compact.go:22-58 | the holes are separated, cover only zeros, leave every read unchanged and add up to the reported count; a complete scan covers exactly the zero blocks |
| Compact.Scan.Flush | app/compact.go:26-35 | a run is punched and counted once, or not at all |
| Compact.HolesAreUnique | app/compact.go:22-58 | ordered separated runs that cover the same offsets are the same runs, so the scan's are maximal |
| Compact.ReadsAreUnchanged | app/compact.go:22-58 | punching holes over zeros changes no byte |
| Compact.HolesReadAsZeros | app/compact.go:22-58 | a byte in a hole reads as zero and any other as it was |
| BackupArchive.AllowedIsLiteral | app/backup.go:31-45 | an allowed name has no part that climbs or stays, and is exactly the name Windows opens |
| BackupArchive.NameAllowedIff | app/backup.go:31-45 | a name is allowed if and only if it is one of the backed-up paths and each part of it is allowed and holds no slash, backslash or colon |
| BackupArchive.PartAllowedIff | app/backup.go:31-45 | a part is allowed if and only if it does not climb or stay, does not end in a dot or space, and names no device, in any case and with any extension |
| BackupArchive.DeviceInAnyCase | app/backup.go:31-45 | a device is refused in small letters too, alone or before a dot |
| BackupArchive.Collect | app/backup.go:94-135 | the walk accepts exactly the folders with allowed regular files, within the limits, that hold what a machine needs |
| BackupArchive.ReadBackup | app/backup.go:207-250 | the two loops accept exactly the archives the specification accepts, and return their manifest |
| BackupArchive.NothingElseInside | app/backup.go:218-247 | an accepted archive holds the manifest and its entries and nothing else, although only their number is compared |
| BackupArchive.RequiredAre | app/backup.go:47-54 | an accepted backup has the disk and the four files the guest starts from |
| BackupArchive.ReadsBackIff | app/backup.go:62-250 | a written backup can be read again if and only if its names are distinct ignoring case and its manifest is within 4 MiB |
| BackupLimits.UnreadableBackupWitness | app/backup.go:62-250 | seven empty files that are backed up, and whose backup is refused, with any codec that ignores the case of one letter |
| Backup.WriteVMBackup | app/backup.go:62-205 | the in-place steps equal the specification function under every oracle |
| Backup.CopyIntoArchive | app/backup.go:149-183 | same, for the member loop, which stops at a file that changed its length |
| Backup.BackupOutcome | app/backup.go:62-205 | an existing backup is never replaced, and a new one is complete and made of a folder that held still |
| Backup.HealthyBackup | app/backup.go:62-205 | without faults a backup is written if and only if the folder allows it, and nothing else is left behind |
| BackupOutcomes.BackupWithOneFault | app/backup.go:62-205 | a backup makes two calls for each file and eight more; one failing leaves no backup and nothing else, but for the last call, which only leaves the temporary name |
| Backup.RestoreVMBackup | app/backup.go:278-321 | the in-place steps equal the specification function under every oracle |
| Backup.RestoreBackupFile | app/backup.go:383-412 | same, for one file |
| Backup.RestoreBackupFiles | app/backup.go:303-312 | same, for the entry loop |
| Backup.RestoreOutcome | app/backup.go:278-321 | for any archive and any fault an existing destination is untouched, and a new one holds exactly the manifest's entries with their sizes and hashes |
| Backup.HealthyRestoreLeavesNothing | app/backup.go:278-321 | without faults, success adds the destination and failure adds nothing |
| BackupOutcomes.RestoreSucceedsIff | app/backup.go:278-321 | without faults a restore of any archive succeeds if and only if nothing is in its way, the archive is read as a backup, every file has its recorded size and hash, and no two names clash |
| BackupOutcomes.ClashIff | app/backup.go:388-391 | two names clash if and only if the parts of one begin the parts of the other |
| BackupOutcomes.RestoredIsArchived | app/backup.go:278-412 | under every fault, a restored file is the whole of its member, never a longer one cut to fit |
| BackupOutcomes.RestoreWithOneFault | app/backup.go:278-321 | a restore makes four calls for each file and eight more; one failing, but for the last, restores nothing and leaves nothing |
| Backup.RoundTripIff | app/backup.go:62-321 | without faults, restoring a backup of a folder succeeds if and only if its names are distinct ignoring case, none is a folder of another and the manifest is within 4 MiB, and then it gives the same names and contents back |
| InstallReceipt.EquivalentIff | app/install_state.go:69-82 | two releases are equivalent if and only if they have one location today, so equivalence is an equivalence relation |
| InstallReceipt.InstallReceiptMatches | app/install_state.go:92-129 | the loop accepts exactly the receipts that are trusted and whose named files have their recorded size and time |
| InstallReceipt.CollectReceipt | app/install_state.go:134-164 | succeeds exactly when every named file can be recorded, and records its digest, size and time |
| InstallReceiptOutcomes.ReceiptSays | app/install_state.go:134-164 | a receipt of a folder names regular files in it, by plain names, each with the digest of the manifest, its size and its time |
| InstallReceiptOutcomes.OnlyRegularFiles | app/install_state.go:134-164 | a file can be recorded exactly if it is a regular one with a plain name and the manifest has a valid digest of it |
| InstallReceiptOutcomes.PlainIff | app/install_state.go:145-147 | a name is plain exactly if it is a single part, whichever slash separates parts, and has no drive |
| InstallReceiptOutcomes.DigestIff | app/manifest.go:107-113 | a digest is valid exactly if it is 64 hexadecimal digits |
| InstallReceipt.StoreOutcome | app/install_state.go:165-197 | in every crash state of writing it, the receipt is the old one or the whole new one, and no other file changes but the part file |
| InstallReceiptOutcomes.StoreWithOneFault | app/install_state.go:165-197 | storing makes four calls; one failing changes nothing and leaves nothing, but for a part file that was there |
| InstallReceipt.WriteInstallReceipt | app/install_state.go:134-197 | success leaves a receipt of the folder as it was, failure the old one; without faults it succeeds exactly when everything can be recorded |
| InstallReceipt.WrittenReceiptMatchesIff | app/install_state.go:92-197 | a written receipt matches a later folder if and only if no named file changed size or time, the text is within its limit, and the release keeps its normal form |
| InstallReceipt.NormalFormCanMove | app/install_state.go:62-64 | a release for which it does not |
| InstallReceipt.RestampFiles | app/backup.go:344-381 | in any order, every file with a recorded non-zero time and its recorded size gets that time, and no other file changes |
| InstallReceiptOutcomes.RestampOutcome | app/backup.go:344-381 | restamping changes no content, and exactly the times of regular files of their recorded size with a recorded time that is not zero |
| InstallReceipt.RestoredReceiptMatchesIff | app/backup.go:340-381 | a receipt that matched at backup matches in the restored folder if and only if no required file was recorded with time zero, or such a file has that time |
| InstallReceipt.VerifyFileSHA256 | app/install_state.go:212-265 | a file agrees if and only if all bytes read have the wanted digest and the file did not change its size or time meanwhile |
| ChannelMask.MaskedChannel | app/clipboard_image.go:141-158 | ends for every mask, and gives the scaled field for every contiguous one |
| ChannelMask.ContiguousChannel | app/clipboard_image.go:141-158 | for a contiguous mask the 32-bit arithmetic gives the top eight bits of a wide field and the 0 to 255 scaling of a narrow one, with no wrap-around |
| ChannelMask.ScaledIsByte | app/clipboard_image.go:153-157 | the scale runs from 0 for an empty field to 255 for a full one |
| ChannelMask.ScaledGrows | app/clipboard_image.go:153-157 | a larger field is never darker |
| ClipboardImage.ReadLayout | app/clipboard_image.go:28-93 | for any bytes whatever, an accepted header describes masks, palette and pixel rows that lie within them |
| ClipboardForms.AcceptedIff | app/clipboard_image.go:28-93 | a bitmap is accepted if and only if its header size, depth and compression are known, its sides in range, and masks, palette and rows all there, the height read as a signed 32-bit number |
| ClipboardImage.DibToPng | app/clipboard_image.go:28-139 | the nested loops read nothing outside the bytes and give the image they show, or none |
| ClipboardImage.DecodeRow | app/clipboard_image.go:96-126 | one row of pixels, and whether its alpha channel says anything |
| ClipboardImage.NeverInvisible | app/clipboard_image.go:127-133 | no accepted bitmap shows as a fully transparent image |
| ClipboardImage.MirroredShowsTheSame | app/clipboard_image.go:41-101 | a bitmap with its height negated and its rows stored from the other end, and the same header, masks and palette otherwise, shows the same image |
| ClipboardImage.TopDownShowsTheSame | app/clipboard_image.go:28-192 | in particular the top-down form of an encoded image shows the same as the bottom-up one |
| ClipboardImage.PngToDib | app/clipboard_image.go:162-192 | the buffer, filled in place from the last row up, is the encoding of the image; sides outside 1 to 16384 are refused |
| ClipboardForms.EncodedHeader | app/clipboard_image.go:162-192 | what is written has one plane, the length of its pixels, its resolution and no palette, and ends with its pixels |
| ClipboardImage.RoundTrip | app/clipboard_image.go:28-192 | decoding the encoding of an image gives every pixel's colour with alpha 255 |
| ClipboardForms.Shows24 | app/clipboard_image.go:111-113 | 24-bit rows of blue, green and red, padded with anything, under any known header, show those colours |
| ClipboardForms.ShowsPalette | app/clipboard_image.go:72-110 | indices into a palette of any size show its colours, and an index past its end the first one |
| ClipboardForms.ShowsMasks | app/clipboard_image.go:52-133 | 32-bit words under any contiguous masks, explicit or default, in any known header, show the scaled field of each channel, and alpha unless it is zero everywhere |
| ClipboardForms.ShowsAlpha | app/clipboard_image.go:52-133 | an image stored with its alpha channel shows as it is, unless all of it is transparent |
| Redaction.RedactKeys | app/diagnostics.go:215-232 | the loop ends and gives what the left-to-right specification gives |
| Redaction.RedactedIsMarked | app/diagnostics.go:215-232 | every occurrence of the key prefix in the output is followed by the marker and the end of its token, across all boundaries |
| Redaction.UnchangedIffMarked | app/diagnostics.go:215-232 | a text is left as it is if and only if that holds of it already |
| Redaction.RedactingTwiceIsRedactingOnce | app/diagnostics.go:215-232 | running the loop again changes nothing |
| Redaction.KeysAreForgotten | app/diagnostics.go:215-232 | texts that differ only in a key have the same output |

## Left out

Assumptions the model makes:

- Deleting a tree, replacing a small file and renaming are one step each.
- Reading a state file or looking for a disk does not fail; looking for a payload tree can.
- PayloadUpdate.LaunchKeepsSafe: a launch left without its engine by its own failed publication, and going on to stock QEMU, has one version for both components and no ready guest; the promise fails otherwise (see `StockBootLosesTheEngine`).
- PayloadUpdate.RunKeepsSafe: the same condition on each launch, for the same reason.
- PayloadUpdate.LaunchSettlesOnOldOrOffered: starts without a leftover previous tree and with one version for both updates; the promise fails otherwise (see `OldReleaseComesBack` and `DroppedFlagIsNotUndone`).
- The launcher update takes the installed executable as the one that runs and an offered release as newer; what holds over runs is proved from a first installation on.
- PortableDisk.HistoryKeepsPair: starts from no disk or from a pair made by this code; an overlay someone else put there has no image to be compared with.
- LaunchLadder.SuperviseNeverJustGivesUp: takes the memory size as within the accepted settings; how an automatic size is chosen is not modelled.
- Retries of a portable rename count as one call.
- Names of quarantine, staging, before-reset and temporary places never repeat: each is taken from a clock that only grows. The source takes quarantine names from the time of day, and its rename would replace a file of that name.
- `return reclaimed, flush()` in app/compact.go is read as flushing first, which app/compact_test.go expects.
- Names in a receipt are taken as the files' own names, where the source joins them to the folder as paths.
- A restored file that a fault cut short counts as empty; it is in a staging folder that is never published.
- Case folding, SHA-256, the manifest's and the receipt's JSON, the zip container, deflate and PNG are parameters or lossless; SHA-256 is taken as injective only in `HonestDownload`, `HonestDownloadSucceeds` and `StalePartIsReplaced`.

Not modelled:

- In-place repair of a guest tree and the first runtime install: they start from incomplete trees, outside the update invariant.
- HTTP itself, redirects, timers and the idle watchdog: a response is an outcome.
- The runtime receipt: the same matching and restamping for a single file.
- I/O errors in the sparse writer and in reading a disk beyond their effect of stopping the operation.
- Progress reports, free-space estimates and log lines.
- Redaction of paths by regular expression, and the collection of diagnostics files.
- Windows, tray, hooks, dialogs, registry, shortcuts, the clipboard bridge, forwards, locale tables and resource sizing: interface code and table lookups.
- Flushing order below a rename, partial sector writes, and other processes racing for the same files.
