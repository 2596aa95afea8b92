# BootSeed, modelled and verified

BootSeed writes whole-disk images onto machines. An agent, running from memory on the
target, accepts a deployment, streams the image from the server through a decompressor
onto the disk, and reports back; the server keeps a history for every node and an index
of images. This project models the three parts in which state, interleaving and exact
accounting matter, and proves what they guarantee.

**The agent's deployment protocol.** `DeployState` and `Manager` are the deployment
manager: a value-level specification and the mutable object that refines it.
`DeployProtocol` is the transition system: one program counter for each handler and
`runDeploy` goroutine, one for each stage-sync goroutine, any number of deployment
generations, cancel requests, and shutdown requests. Every section under a mutex is one
step, and every sequence of steps is a schedule; a step that is not enabled does nothing.
`WriterSafety`, `StageSync`, `Broadcasts`, `Verdict`, `Wedge`, `Shutdown`, `ShutdownBytes`,
`LastRecord`, `Records` and `DiskOwner` prove what holds in every schedule, or under which
condition exactly. `Runs` and
`Schedules` hold the induction over runs and the construction of concrete ones.

**The write pipeline.** `Streams` gives the reader chain, the disk and the copy loop as
values, with scripts for everything the environment may answer: how much each read
returns and with which error, how much each write takes and with which error, and at
which moment the context is cancelled. A statement for every script is one for every
schedule. `CopyLoop` proves the loop's guarantees; `Pipeline` has the objects and the
methods, each equal to its function on values, and what `Run` promises; `RunOutcome` says
what it answers and does, format by format and error by error, and `Sampling` what speed
its tracker shows. `Progress` is the
tracker: byte accounting, speed sampling and subscriber channels.

**The server's durable state.** `NodeStore` and `NodeHistory` are the node store and its
runs, `NodeRecords` where each field of a node and its records comes from; `ImageIndex`
and `ImageJobs` the image index, its in-place operations and the interleaving of add jobs,
updates and deletes, with the lock itself a part of the state. `Catalog` is the agent's
validator, and `IndexAgreement` proves when the two programs agree; `Provenance` traces
every entry to the request that made it, and on to the agent that deploys it.
`Verdict.HistoryTellsWhatHappened` joins the agent's runs to the server's history, and
`Deployment` joins both to the write pipeline: what a "completed" record says of the disk.
`Cmdline` is the kernel command line parser by which the agent learns its context.

## What the code does not do

Where the code and its comments or evident intent differ, the model follows the code. A
lemma shows the difference by a concrete schedule or a for-all statement.

- Acquire tests only that the current state is terminal. `SetState(completed)` comes before
  `Finish`, and a cancel makes the state terminal at once, so two deployments can write to
  the disk together (`WriterSafety.TwoWritersReachable`). The exact condition is
  `WriterSafety.SingleLiveExactly`.
- A snapshot the sync goroutine has received but not yet applied when `Finish` runs revives
  the finished task. The manager then refuses every deployment until somebody cancels a
  deployment that no longer exists (`WriterSafety.WedgedReachable`,
  `WriterSafety.WedgedUntilCancelled`). `Wedge.RevivedExactly` gives the exact condition over
  runs, `Wedge.RevivableExactly` the one at the moment of `Finish`.
- A cancelled Run may still make one write after the next deployment has begun, over what
  that one has already written (`DiskOwner.OverwriteReachable`). The exact condition is
  `DiskOwner.OwnBytesExactly`; it is enough that Acquire waits for the earlier Run to return
  (`DiskOwner.SoleDiskUserExactly`).
- The comments on `ensureCancelledForShutdown` and `waitCancelled`
  (agent/internal/api/handlers.go:200-203 and 223-224) say the shutdown waits for the
  pipeline's last fsync. It waits for a terminal state, which its own cancel has just set
  (`Shutdown.ShutdownNeverWaits`, `Shutdown.ShutdownDoesNotWait`).
- The same comment says the second end report is an idempotent update of a running record.
  The server overwrites the last record whatever it is, so a completed deployment can be
  recorded as cancelled (`Shutdown.CompletedRecordedAsCancelled`). Exactly when the record
  shows the verdict is `LastRecord.RecordShowsVerdictExactly`.
- `Delete` keeps a pointer into the slice it compacts. The file it unlinks belongs to the
  next entry unless the deleted one is last (`ImageIndex.UnlinkedFile`,
  `ImageIndex.DeleteAgreesExactly`).
- `StartAdd` checks for the id under the lock and `runAdd` appends later without checking
  again. Two adds of one id can both succeed, and the agent then refuses the whole index
  (`IndexAgreement.DuplicateIdReachable`). The index stays free of repeated ids exactly if no
  append finds its id there (`ImageJobs.IdsDistinctExactly`).
- `zstdRawSize` returns 0 on every path, so an image added from a `.raw.zst` or `.img.zst`
  file gets raw size 0, and one such entry makes the agent refuse the whole index
  (`IndexAgreement.PrecompressedAddRejected`).

Hypotheses are predicates on steps (`WriterSafety.NoOvertaking`, `StageSync.NoOverlap`,
`Verdict.SyncGoneByFinish`, `ImageJobs.NoSameId`, `ImageJobs.FreshAppend`,
`ImageJobs.FreshJob`, `IndexAgreement.GoodRequests`, `NodeHistory.Disciplined`) and appear
in the statements that need them.

## Model

| member | source | states |
|---|---|---|
| DeployState.OperationsKeepOwnership | agent/internal/deploy/state.go:75-141 | every manager operation keeps ownership of the stored cancel function; a cancel that is not refused leaves the task it marks with a cancelled context; a finish does too; an acquired task's context is fresh and uncancelled |
| Manager.Manager.Acquire | agent/internal/deploy/state.go:75-88 | succeeds exactly on a free manager, with a new context that its stored function cancels; refused, it changes neither the manager nor the task offered |
| Manager.Manager.SetState | agent/internal/deploy/state.go:91-100 | changes state, message and update time of whatever task is current, terminal or not, and no context |
| Manager.Manager.Snapshot | agent/internal/deploy/state.go:103-110 | whether there is a task, and a copy of it as it stands; the idle state if there is none |
| Manager.Manager.Cancel | agent/internal/deploy/state.go:113-125 | true exactly if there is a non-terminal task, which becomes cancelled at once together with the context of the stored function, which stays stored |
| Manager.Manager.Finish | agent/internal/deploy/state.go:128-141 | sets the verdict on whatever task is current, cancels the context of the stored function and drops that function |
| Manager.Manager.IsRunning | agent/internal/deploy/state.go:144-148 | true exactly for a task in one of the six running states |
| DeployProtocol.ContextOwnership | agent/internal/deploy/state.go:81-141 | in every schedule, no hypothesis: the stored cancel function is the current task's own, or that task's context is cancelled already; so a cancel that returns true leaves it cancelled, then and for ever |
| DeployProtocol.CancelledStaysCancelled | agent/internal/deploy/state.go:119-140 | no later step un-cancels a context |
| WriterSafety.SingleLiveExactly | agent/internal/deploy/state.go:75-88 | at most one generation is live in every state of a run if and only if no Acquire in it comes before the current task's Run has returned or its context has been cancelled |
| WriterSafety.SingleLiveWriter | agent/internal/api/deploy.go:123-217 | if no Acquire falls between a SetState(completed) and its Finish, then in any schedule at most one generation is up to the end of its Run with an uncancelled context, and it is the manager's current task with its own cancel stored |
| WriterSafety.LiveTaskIsNotTerminal | agent/internal/api/deploy.go:123-217 | if further no Acquire falls between a successful return and its Finish and a superseded Run returns an error, that task is also not terminal |
| WriterSafety.AcquireSafeExactly | agent/internal/deploy/state.go:78-87 | one Acquire on a free manager leaves at most one live generation exactly when there was none |
| WriterSafety.TwoWritersReachable | agent/internal/api/deploy.go:214-217 | a concrete schedule puts two generations inside Run with uncancelled contexts |
| WriterSafety.WedgedReachable | agent/internal/api/deploy.go:168-187 | a concrete schedule, by one late SetState, leaves the manager running after every goroutine has returned |
| WriterSafety.WedgedUntilCancelled | agent/internal/deploy/state.go:78-80 | from there no schedule without a cancel request changes the manager or starts a deployment |
| StageSync.UpdatesInOrder | agent/internal/progress/progress.go:151-183 | in every schedule a generation broadcasts at most five times, so its 16-slot channel drops nothing, and what the sync goroutine has received and still has queued is, in order, every broadcast since it subscribed; once it stops, a prefix of them |
| StageSync.StagesClimb | agent/internal/api/deploy.go:153-187 | without overlap or cancel, from Acquire until stopSync is closed, the visible state is one of validating, preparing, downloading, writing, syncing, without an error, and never moves back between any two moments |
| Broadcasts.BroadcastsExactly | agent/internal/api/deploy.go:186-217 | in every schedule a completed deployment has broadcast exactly downloading, writing, syncing, completed, completed, and one that ended otherwise its stages so far and then failed |
| Verdict.EndToEndVerdict | agent/internal/api/deploy.go:186-220 | in orderly runs: completed exactly if Run returned nil, even after a late cancel; cancelled exactly if it erred and the test saw the context cancelled; failed otherwise; the manager shows the newest verdict and message, and the reports are one start and one end per generation, in order, with that verdict and the bytes Run wrote |
| Verdict.CancelledOnlyOnRequest | agent/internal/api/deploy.go:196-205 | the error test of a generation finds its context cancelled only if some cancel was requested |
| Wedge.RevivedExactly | agent/internal/api/deploy.go:168-217 | over every run without overlap: once the newest generation has finished the manager is never running, if and only if no sync goroutine applies a running stage after its generation's Finish |
| Wedge.RevivableExactly | agent/internal/api/deploy.go:168-217 | at the moment of Finish: some continuation without a new deployment leaves the manager running, if and only if a running stage is still held by the sync goroutine or queued in its channel |
| Wedge.NeverWedged | agent/internal/api/deploy.go:168-217 | without such an update the manager is never left running with nothing running |
| Verdict.DeliveredHistory | server/internal/store/store.go:140-172 | the reports of any list of generations, delivered in order, add exactly the records of the announced ones |
| Verdict.HistoryTellsWhatHappened | agent/internal/report/report.go:82-94 | after an orderly run a registered node's history is the old one followed by exactly one record per announced generation, with its image, disk, verdict, byte count and message |
| Records.RecordsTellTheTruth | agent/internal/api/deploy.go:196-219 | and each ended generation's record says "completed" exactly if Run returned nil, "cancelled" exactly if it erred and the context was then seen cancelled, "failed" exactly if it erred and was not, never "running", with the image, the disk, the bytes written and the message that goes with it; an announced one that has not ended says "running" |
| Records.TaskTellsTheTruth | agent/internal/api/deploy.go:196-217 | after an orderly run the state and message a client is shown of the newest ended deployment are those of how its Run ended |
| Records.GenerationIsRequested | agent/internal/api/deploy.go:122-139 | in every run each deployment has the image and the disk of the accepted request that began it |
| Records.CancelInTimeIsSeen | agent/internal/api/deploy.go:196-198 | in every run a deployment whose context is cancelled at any moment up to its error test, and whose Run errs, is found cancelled by that test |
| Shutdown.ShutdownNeverWaits | agent/internal/api/handlers.go:204-233 | from any state a shutdown that saw something running reaches its report without a step of any deployment goroutine |
| ShutdownBytes.ShutdownReportsBytesWritten | agent/internal/api/handlers.go:210-220 | in every run without overlap a shutdown's report says cancelled and carries exactly what the newest published deployment has written when it is sent, and 0 if none was published |
| ShutdownBytes.RecordHoldsBytesWritten | server/internal/store/store.go:155-172 | delivered last to a node with a record, it leaves there cancelled, its message, its time and that byte count |
| ShutdownBytes.ShutdownWaitsExactly | agent/internal/api/handlers.go:204-233 | a shutdown does something only if it finds a running state, and waits as long as there is one or until its deadline |
| Shutdown.ShutdownDoesNotWait | agent/internal/api/handlers.go:204-233 | a concrete schedule ends the shutdown with Run still in its fsync stage |
| Shutdown.CompletedRecordedAsCancelled | agent/internal/api/handlers.go:210-220 | a concrete schedule after which the agent shows completed and every server that holds a record for the node says cancelled |
| LastRecord.RecordShowsVerdictExactly | agent/internal/api/handlers.go:200-220 | over every run without overlap, shutdowns included: once the newest deployment has ended, the registered node's last record shows its verdict if and only if that is cancelled or the report sent last is the deployment's own end |
| DiskOwner.OwnBytesExactly | agent/internal/deploy/pipeline.go:240-257 | with all generations writing to one disk: throughout a run it holds everything the newest one has written, as that one wrote it, if and only if no earlier one writes over it |
| DiskOwner.SoleDiskUserExactly | agent/internal/deploy/state.go:75-88 | at most one Run, cancelled ones included, is under way in every state of a run if and only if every Acquire waits for the earlier ones to return; and then the disk holds what the newest has written |
| DiskOwner.OverwriteReachable | agent/internal/deploy/state.go:113-125 | a concrete schedule in which a cancelled Run writes over the next deployment's bytes |
| Deployment.CompletedRecordMeansVerifiedImage | agent/internal/api/deploy.go:186-220 | in orderly runs, with what Run returned as the generation's outcome: the server's last record says completed if and only if Run returned nil, and then the device holds a verified image of exactly the size that record gives |
| Progress.SamplingConserves | agent/internal/progress/progress.go:83-99 | after Start and any forward sequence of AddWritten: closed windows plus the remainder make up exactly the bytes added, windows tile the time and last half a second or more, speed is that of the last window, speed and ETA are not negative |
| Progress.PercentBounds | agent/internal/progress/progress.go:117-134 | the percentage lies in 0..100, does not fall as bytes are written, and for a positive total is 100 exactly when all is written |
| Progress.MailInOrder | agent/internal/progress/progress.go:172-183 | in every interleaving of broadcasts and receives a listener gets, in order, exactly the broadcasts that did not find sixteen queued |
| Progress.SnapshotTells | agent/internal/progress/progress.go:117-148 | a snapshot has the tracker's own fields; average times elapsed and ETA times speed give back the bytes written and those left; percent of the total gives the bytes written |
| Progress.Tracker.Start | agent/internal/progress/progress.go:44-57 | resets every counter and the message, and keeps the listeners |
| Progress.Tracker.AddWritten | agent/internal/progress/progress.go:83-99 | one sampling step as the conservation law is stated for, and nothing else changes |
| Progress.Tracker.Broadcast | agent/internal/progress/progress.go:172-183 | offers the snapshot once to every listener and blocks on none |
| Progress.Tracker.Subscribe | agent/internal/progress/progress.go:151-157 | adds one new, empty, open channel at the end |
| Progress.Tracker.Unsubscribe | agent/internal/progress/progress.go:160-170 | closes and drops exactly the given listener, the others keeping their order; an unknown one changes nothing |
| CopyLoop.CopyRefinesPrefix | agent/internal/deploy/pipeline.go:235-265 | on every return the first `written` bytes of the disk are the first the source delivered, and nothing beyond one more buffer is touched; on nil they are all of it, up to the end of the body; the tracker has grown by `written`, its download count by the bytes consumed; of the writes only the last can have begun after a cancel |
| CopyLoop.PlainCopyIsBodyPrefix | agent/internal/deploy/pipeline.go:176-177 | for raw and img images that prefix is one of the HTTP body itself |
| CopyLoop.CopyMirrors | agent/internal/deploy/pipeline.go:246-257 | from any middle of the loop, the disk mirrors what was delivered and is untouched elsewhere, and `written` lags by at most one buffer, by nothing on a nil return |
| CopyLoop.CopyConsumes | agent/internal/deploy/pipeline.go:160-171 | the chain consumes a prefix of the body, on nil all of it; digest, download count and bytes consumed agree |
| CopyLoop.CopyLateWrites | agent/internal/deploy/pipeline.go:241-245 | after a cancel at most one further write, of at most one buffer; if it is cancelled beforehand, none and the context's error |
| CopyLoop.CancelStopsReading | agent/internal/deploy/pipeline.go:160-171 | once the context is done no read consumes anything more of the body, whatever the decompressor asks for |
| CopyLoop.CopyOutputs | agent/internal/deploy/pipeline.go:178-188 | what a decompressed copy delivers is, in order from the first byte, the decompressor's output and nothing else |
| CopyLoop.CopyHasCause | agent/internal/deploy/pipeline.go:240-264 | a copy's error is that of one of its writes, ShortWrite for one that took too little, NoSpace with the disk full, the context's after a cancel, the one that ended the body, or, decompressing, Corrupt; never the normal end |
| CopyLoop.WholeBuffers | agent/internal/deploy/pipeline.go:238-248 | a source that can fill the buffer is written in pieces of exactly four mebibytes |
| CopyLoop.UnhinderedCopySucceeds | agent/internal/deploy/pipeline.go:258-263 | with no cancel, fault or lack of room a plain copy writes the whole body, including bytes that come with the end, and returns nil exactly when the body ends normally |
| CopyLoop.PassesBounded | agent/internal/deploy/pipeline.go:240-264 | for a plain body whose reads are never idle the loop goes round at most once per byte, and once more |
| CopyLoop.DecoderPassesBounded | agent/internal/deploy/pipeline.go:240-264 | for a decompressor that is never silent, at most once per byte it puts out, and once more |
| Pipeline.Device.Write | agent/internal/deploy/pipeline.go:248-254 | a write, whole or short, overwrites exactly the bytes it accepts at the current position and never truncates |
| Pipeline.Reader.CounterRead | agent/internal/deploy/pipeline.go:160-171 | reads nothing once the context is done; otherwise digest, counter and caller see the same bytes |
| Pipeline.Reader.Read | agent/internal/deploy/pipeline.go:87-96 | a read of the whole chain equals the specification the stream laws are proved of |
| Pipeline.CopyWithProgress | agent/internal/deploy/pipeline.go:235-265 | the loop over the objects ends with disk, chain, tracker, count and error as the copy specification says |
| Pipeline.CompareDigests | agent/internal/deploy/pipeline.go:132-150 | both mismatch flags are set independently; the compressed one decides the error first |
| Pipeline.Run | agent/internal/deploy/pipeline.go:47-151 | the method on objects equals RunSpec, which the following rows speak of, and the tracker shows the stage in which it returned |
| Pipeline.VerifiedWrite | agent/internal/deploy/pipeline.go:119-190 | Run returns nil only if every digest given matches the bytes it is of and the device holds exactly the delivered bytes from offset 0, the rest untouched; for raw and img these are the whole body, for raw.gz and img.gz its whole decompression, each read to the end, for raw.xz, img.xz, raw.zst and img.zst output of the decoder from its first byte; no other format gets that far |
| Pipeline.RunAccounts | agent/internal/deploy/pipeline.go:47-151 | however Run returns: the bytes reported are those the tracker shows and a prefix of what was delivered, on the disk; the download count is the bytes consumed; only the last write can have begun after a cancel |
| Pipeline.GoodRunSucceeds | agent/internal/deploy/pipeline.go:119-150 | an unhindered plain run returns nil if and only if the digests given are empty or match the body |
| RunOutcome.CompressedRunSucceedsExactly | agent/internal/deploy/pipeline.go:119-190 | for a compressed image read to its normal end, with no fault, no cancel and enough room, the decompressor's whole output up to its end is written; if it does not break and, for gzip, is the decompression of the body, Run returns nil if and only if the digests given match, and otherwise fails as corrupt |
| RunOutcome.EarlyErrors | agent/internal/deploy/pipeline.go:64-109 | each failure before the copy has its own error, in the order in which they are met, an empty result and an untouched disk |
| RunOutcome.LateErrors | agent/internal/deploy/pipeline.go:132-150 | once everything is written the result holds both digests, each mismatch flag is set exactly for an expected digest that differs, and the compressed one has precedence |
| RunOutcome.UnsupportedExactly | agent/internal/deploy/pipeline.go:173-190 | once the server has answered, Run calls a format unsupported exactly if it is none of the eight names, trimmed and lowered |
| RunOutcome.GaugeTells | agent/internal/deploy/pipeline.go:61 | however Run returns, its tracker counts up to the size the index gives, from the moment Run began |
| Sampling.RunSampled | agent/internal/progress/progress.go:83-99 | with a steady clock, when Run returns nil the speed shown is that of the last of a series of windows of half a second or longer that tile the time from its start to within half a second of its last write, and they and the bytes since make up the bytes written |
| NodeStore.Store.Register | server/internal/store/store.go:73-118 | a new node gets both times; a known one keeps its history and first time, gets the new fields, and a record still running is closed as cancelled; an empty key is refused |
| NodeStore.Store.Heartbeat | server/internal/store/store.go:128-137 | moves only LastSeen of a known node, ignores an unknown one |
| NodeStore.Store.DeployStart | server/internal/store/store.go:140-152 | appends one running record to a known node |
| NodeStore.Store.DeployEnd | server/internal/store/store.go:155-172 | overwrites the last record, running or not, and LastError even without a record |
| NodeStore.Store.List | server/internal/store/store.go:190-204 | every node exactly once, exactly as Get shows it, most recently seen first |
| NodeHistory.OtherNodesUntouched | server/internal/store/store.go:73-172 | no request touches a node other than its own |
| NodeHistory.HistoryAppendOnly | server/internal/store/store.go:73-172 | in every run without a Delete the history grows by one record per DeployStart, all but the last are frozen, image, disk and start time of every record and FirstSeen never change |
| NodeHistory.OneOpenRecord | server/internal/store/store.go:105-115 | over any sequence of boots with crashes and repeated ends a node has at most one running record, the last, and none outside a start and an end of one boot |
| NodeHistory.StartSafeExactly | server/internal/store/store.go:140-152 | a start keeps that exactly when the last record is not running |
| NodeHistory.OnlineExactly | server/internal/model/model.go:73-75 | with non-decreasing times a node is online exactly when one of its requests is less than the timeout old |
| NodeHistory.GapsBelowTimeoutKeepOnline | server/internal/model/model.go:73-75 | between two requests less than the timeout apart the node is online throughout |
| NodeHistory.RunningExactly | server/internal/store/store.go:105-115 | after any disciplined run a stored node's last record is running if and only if its agent is between a start and an end of one boot |
| NodeHistory.ViewTellsExactly | server/internal/store/store.go:206-231 | what Get shows: online exactly if one of the node's requests is less than the timeout old, deploying exactly if also its agent is between a start and an end of one boot, and, offline, completed exactly if its last deployment was |
| NodeHistory.DeleteForgets | server/internal/store/store.go:121-125 | no heartbeat or deployment report brings a deleted node back; registering makes it a new node, first seen then, with the history it sends; no other node is touched |
| NodeRecords.RecordHasWriter | server/internal/store/store.go:105-172 | in every run without a Delete each record of a node is an old one unchanged, or field by field what the start, end or registration that wrote it last makes of it |
| NodeRecords.ResultOnlyReported | server/internal/store/store.go:155-172 | a record says completed or failed only if it did at first or if a DeployEnd said so, with that byte count and message, while it was the last record |
| NodeRecords.InterruptedIsCancelled | server/internal/store/store.go:105-115 | a registration that finds the last record running leaves it cancelled, ended at that time, with its own error or, if it had none, the one that says so, and no other record changed |
| NodeRecords.InfoFromLatest | server/internal/store/store.go:63-103 | in every run without a Delete a node's fields are those of its latest registration, a host name only for bootseed-enter, and its last error is the one last reported |
| NodeRecords.FirstRegistration | server/internal/store/store.go:80-87 | a node's first registration sets both times and keeps the history it carries |
| NodeRecords.ViewTellsAll | server/internal/store/store.go:206-231 | status, lifecycle, last result and whether it was ever deployed follow from when a node was last seen and from its last record |
| ImageIndex.Compact | server/internal/imagesvc/imagesvc.go:120-128 | the loop over the shared array leaves exactly the entries with other ids, in order, the slots behind them as they were, and the last slot that held the id |
| ImageIndex.Service.Delete | server/internal/imagesvc/imagesvc.go:113-140 | entries, errors, and the file actually unlinked: the one named in the slot after compaction; an error changes nothing |
| ImageIndex.Service.Update | server/internal/imagesvc/imagesvc.go:143-178 | the first entry with the id gets the new metadata and keeps path, sizes and digests; the errors in their order; an error changes nothing |
| ImageIndex.UnlinkedFile | server/internal/imagesvc/imagesvc.go:136-138 | with distinct ids, that slot holds the deleted entry if it was last and its successor otherwise |
| ImageIndex.DeleteAgreesExactly | server/internal/imagesvc/imagesvc.go:120-138 | Delete keeps entries and files in one-to-one agreement if and only if the entry is the last one |
| ImageIndex.CheckSpecTells | server/internal/imagesvc/imagesvc.go:204-217 | a request passes exactly with a non-empty id of letters, digits, dots, underscores and hyphens, one of the two architectures and firmware of the two kinds, complained about in that order |
| ImageIndex.BaseTells | server/internal/imagesvc/imagesvc.go:137 | the last element of a path is what follows its last slash |
| IndexAgreement.UnlinkedName | server/internal/imagesvc/imagesvc.go:136-138 | the file Delete unlinks is the deleted id's own .raw.zst if its entry was last and the next entry's otherwise |
| ImageJobs.NoUpdateLost | server/internal/imagesvc/imagesvc.go:113-178 | in every schedule of adds, updates and deletes the index is the result of the rewrites that reached the disk, one after another, and these are exactly, for each request that succeeded, one of its own with its own id and data, and none for one that failed; no two threads are inside the lock |
| ImageJobs.StoreTakesEffect | server/internal/imagesvc/imagesvc.go:113-178 | in every schedule an update or delete fails exactly if its entry is missing or the write fails, and otherwise the index becomes the one read at that moment with that change; an append likewise |
| ImageJobs.JobsEndOnce | server/internal/imagesvc/imagesvc.go:235-342 | a job that ended appended exactly one entry if done, none if failed; the job map says which and never changes again |
| Provenance.AppendedIsMade | server/internal/imagesvc/imagesvc.go:270-323 | in every schedule each entry appended is, field by field, what one accepted request to add and the work on it came to: the compressed file's digest and size, no digest of the raw image, the raw size of the file looked at or 0 |
| Provenance.IndexIsMade | server/internal/imagesvc/imagesvc.go:314-325 | so is the file part of every entry in the index, whatever updates and deletes have been made |
| Provenance.UpdateTells | server/internal/imagesvc/imagesvc.go:165-175 | an update changes the six words of the first entry with the id, each to its own, and nothing of its file or of any other entry |
| Provenance.EntryDigestsMatch | agent/internal/deploy/pipeline.go:134-150 | running such an entry never fails for the raw digest, and for the compressed one only if the bytes consumed have another digest than the file produced |
| Provenance.FormatsAgree | agent/internal/images/images.go:212-221 | the validator and Run know the same formats |
| ImageJobs.IdsStayDistinct | server/internal/imagesvc/imagesvc.go:203-232 | if no check passes while an add of the same id is pending, ids in the index and of pending adds are all distinct |
| ImageJobs.IdsDistinctExactly | server/internal/imagesvc/imagesvc.go:314-325 | the ids in the index are distinct in every state of a run if and only if no append in it is made to an index that already has the id |
| ImageJobs.NoSameIdSuffices | server/internal/imagesvc/imagesvc.go:218-232 | for that it is enough that no check passes while an add of the same id is pending |
| ImageJobs.AppendSafeExactly | server/internal/imagesvc/imagesvc.go:314-325 | an append keeps ids distinct if and only if no entry has the new id |
| Catalog.IsSafeId | agent/internal/images/images.go:266-281 | true exactly for the ids the server's pattern allows |
| Catalog.ValidateImage | agent/internal/images/images.go:166-209 | names the first failed check, and rewrites the architecture of this entry only |
| Catalog.ValidateIndex | agent/internal/images/images.go:151-163 | accepts exactly the indexes whose entries pass and whose ids are distinct, leaving them normalised; otherwise names the first entry at fault and why |
| Catalog.FirstFault | agent/internal/images/images.go:166-209 | an entry passes exactly if it has none of twelve faults, each stated on the entry, and otherwise the complaint is about the first |
| Catalog.RewrittenTells | agent/internal/system/arch.go:36-54 | an accepted entry keeps everything but its architecture, which becomes the one of the two names that it means |
| IndexAgreement.PathDots | server/internal/imagesvc/imagesvc.go:320 | the path built from an id contains two dots in a row exactly if the id does or ends in a dot |
| IndexAgreement.ProducedAcceptedExactly | agent/internal/images/images.go:166-209 | the agent takes an entry the server wrote exactly if it has a name, a positive raw size and no such dots, and leaves it as it is |
| IndexAgreement.AgentAcceptsExactly | server/internal/imagesvc/imagesvc.go:204-227 | in every schedule the agent takes the resulting index exactly if ids are distinct and every entry is so, and normalisation changes nothing |
| IndexAgreement.GoodIndexAccepted | server/internal/imagesvc/imagesvc.go:204-227 | if adds and updates give names, added ids have no two dots in a row and no final dot, added images are not compressed already and their raw files can be read and are not empty, and no append repeats an id, then after any schedule the agent accepts the index and leaves it as it is |
| IndexAgreement.PrecompressedAddRejected | server/internal/imagesvc/imagesvc.go:426-443 | an index with an entry added from an already compressed raw image is never acceptable |
| IndexAgreement.DuplicateIdReachable | server/internal/imagesvc/imagesvc.go:218-232 | a concrete schedule puts two entries of one id into the index, which is then not acceptable |
| Cmdline.ParseCmdline | agent/internal/bootcontext/bootcontext.go:37-52 | the scanner loop sets the words of the line in order |
| Cmdline.WordsOfPrint | scripts/generate-config.sh:66 | printed tokens are read back as the same words, whatever space is between them |
| Cmdline.TextsLastWin | agent/internal/bootcontext/bootcontext.go:43-49 | setting printed tokens in order leaves the last value of each key, the empty one for a bare word |
| Cmdline.RoundTrip | agent/internal/bootcontext/bootcontext.go:37-52 | printing any list of pairs and bare words with any space around them and parsing gives exactly the last value of each key |

## Left out

- Manager.Manager.Snapshot: the task's ID, which is never set, is left out.
- Manager.Manager.Acquire: the parent context is the background one, which nothing cancels, as its only caller passes.
- Progress.Tracker.Broadcast: is atomic with respect to Subscribe and Unsubscribe; the source sends after releasing the mutex and may then send on a closed channel.
- Progress.SamplingConserves: is over the reals; float rounding is not modelled.
- CopyLoop.CopyRefinesPrefix: sources and fault scripts are finite; a source that returns nothing for ever is not modelled.
- Pipeline.VerifiedWrite: makes no whole-stream claim for xz and zst images, whose process is believed about its end: the source joins neither the feeding goroutine nor the process before it takes the digest. A gzip reader ends only when its input has ended and its output is the decompression of it; the inflate and digest functions are arbitrary.
- Pipeline.Run: the results of the two fsync calls, which the source ignores, and the duration are left out; what the network and the system answer is given as `Surroundings`.
- DeployProtocol.ContextOwnership: as in all statements about this transition system, Run is its stages, its writes and its return; the agent goes on after a shutdown's report, and reports are always configured.
- DiskOwner.OverwriteReachable: a cancelled Run's writes are not bounded in the transition system, as they are in the pipeline (`CopyLoop.CopyLateWrites`); the schedule uses one.
- Deployment.CompletedRecordMeansVerifiedImage: that a generation's outcome is what Run returned is a hypothesis, since the transition system leaves the outcome of Run open.
- Provenance.EntryDigestsMatch: a zstd process may end before the whole file is consumed, so that all of it is consumed is not claimed.
- CopyLoop.CopyHasCause: which of several errors a decompressor reports is not fixed; a broken input may show as corrupt.
- Verdict.HistoryTellsWhatHappened: reports are delivered, once each and in order.
- NodeStore.Store.List: sort.Slice is an insertion sort here, nodes are visited in any order, and no entry is corrupt.
- NodeStore.Store.Register: the database refuses only an empty key; its size limit on keys is left out, and so is its encoding.
- ImageJobs.NoUpdateLost: a failed read of the index under the lock counts as a failed write; files, percentages and messages of jobs are not modelled.
- ImageJobs.JobsEndOnce: job names are distinct, as the clock they are taken from makes them.
- ImageIndex.Service.Delete: the index file is its list of entries; a failed unlink is ignored by the source and not modelled.
- Catalog.ValidateImage: letter case is folded for ASCII and the two non-ASCII letters that fold into it.
- Cmdline.ParseCmdline: the scanner's limit of 64 KiB on one word is not modelled.
- Byte counters are unbounded integers; 64-bit overflow is not modelled.
- Messages are given in English.
- Catalog loading, IsCompatible, FilterCompatible and ResolveURL: settled by reading one branch each.
- Target disk selection, disk policy, hardware and driver collection, /proc and /sys parsing.
- HTTP routing, authentication, event streams, the node proxy, both web front ends, boot templates, build scripts and configuration.
