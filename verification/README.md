# Carmine Desktop core: a Dafny model

Carmine Desktop mounts OneDrive and SharePoint drives as a Windows file system. Files
are edited locally and uploaded in the background, metadata is replicated into SQLite
by delta sync, and file content is cached on disk. This project models that core and
proves what it keeps:

- **Uploads.** `UploadSlot.dfy` is the life of one inode in the sync processor:
  debounce, upload, retry with backoff, shutdown. `SyncProcessor.dfy` is the event loop
  over its three maps; every method moves each inode by the matching slot step, so the
  results about runs of a slot hold for runs of the loop. `RetryTiming.dfy` is about how
  long it goes on with a failing upload. `FlushProtocol.dfy` is one upload against a
  server that other clients keep changing, with If-Match requests after section 13.1.1 of
  RFC 9110, and `FlushRequests.dfy` puts slot and upload together: what an answered
  request to flush means. `PersistTasks.dfy` is the disk side of one pending write with
  several persists of it at once, `Writeback.dfy` the store of all pending writes, and
  `CrashRecovery.dfy` what a restart makes of it. `FileNames.dfy` has the name rules.
- **File content.** `StreamingBuffer.dfy` is the chunked buffer of a download in
  progress, `OpenFiles.dfy` the open handles on top of it, `ByteSeqs.dfy` their bytes.
- **Offline pins.** `PinStore.dfy` climbs and descends the tree of cached items,
  `DiskCache.dfy` evicts by last access, `PinnedEviction.dfy` puts the two together.
- **Metadata.** `SqliteStore.dfy` has the tables and their transactions, `InodeTable.dfy`
  the inode maps, `DeltaSync.dfy` the sync as a thread interleaved with local deletes,
  listings and restarts, `DeltaPass.dfy` one pass of it as its code runs.
  `ItemRows.dfy` is the item table they share.
- **Activity feed and paths.** `Activity.dfy` and `Paths.dfy`.

Code that changes state in place is a class whose methods are proved against functions
on values; the run-level results are lemmas about those functions. Awaits and other
threads are steps of a state machine, and clocks, network answers, I/O failures and the
order of unordered collections are parameters or free choices.

Where a stronger statement is false of the code, the project keeps the code and states
the exact condition or a concrete run that fails. The code departs from what is written
about it in these places:

- The repository's own README.md, line 11, promises conflict copies instead of data loss.
  On a detected conflict the copy holds the local bytes, and the file is then overwritten
  without If-Match
  (`FlushProtocol.ConflictDropsTheRemoteVersion`).
- The comments at crates/carminedesktop-cache/src/writeback.rs:42 and 115 promise that what
  is written is safe from a crash. That takes that no other persist of the item is in
  progress (`PersistTasks.StaysWholeExactly`).
- The comment at crates/carminedesktop-vfs/src/winfsp_fs.rs:849-851 says that reserving
  room does not change the end of the file. It does unless a logical size is set
  (`OpenFiles.ReserveRefinesExactly`).
- The comment at crates/carminedesktop-app/src/activity.rs:6-7 lists `*.tmp` among the
  skipped names. Only names that also start with `~` are skipped; the model follows the code.
- The comment at crates/carminedesktop-vfs/src/core_ops.rs:225-231 describes the logical
  size as the one intended by a truncation. A refresh of a stale handle keeps the old one
  (`OpenFiles.RefreshAfterTruncateCutsTheFile`).

`dafny verify dfyconfig.toml` checks the project.

## Model

| member | source | states |
|---|---|---|
| `UploadSlot.StepKeepsSlotInv` | crates/carminedesktop-vfs/src/sync_processor.rs:183-378 | No event of the loop puts an inode both in `pending` and in flight, gives an in-flight inode any number of running uploads but one, or lets a failure count leave 1..9; after shutdown nothing is pending, after the end nothing is in flight |
| `UploadSlot.RunKeepsSlotInv` | crates/carminedesktop-vfs/src/sync_processor.rs:183-378 | The same for every run of events |
| `UploadSlot.StepKeepsBalance` | crates/carminedesktop-vfs/src/sync_processor.rs:214-336 | Every event keeps the balance of a waiter: accepted at most once, and attached or settled as often as accepted |
| `UploadSlot.WaitersSettledExactlyOnce` | crates/carminedesktop-vfs/src/sync_processor.rs:214-336 | Over every run an accepted waiter is still attached or has been settled, by an answer or by being dropped, never both and never twice; once the processor has stopped every accepted waiter is settled and nothing is pending or in flight |
| `UploadSlot.AnswersReportAnUpload` | crates/carminedesktop-vfs/src/sync_processor.rs:214-227 | Every answer is the outcome of an upload of this inode that was handled after the waiter was accepted, the first to end since then, or `false` at the shutdown deadline; that upload was also started after the acceptance if and only if none was in flight then |
| `FlushRequests.SuccessMeansStoredExactly` | crates/carminedesktop-vfs/src/sync_processor.rs:214-227 | Whenever a FlushSync is accepted, for a file the user leaves alone until the answer: if it is answered `true`, the server has stored what writeback held at the acceptance if and only if the upload had stored it already, had yet to read the entry or carried the same bytes, or met a 423 and read the entry anew; under every interleaving with other clients and requests |
| `FlushRequests.SuccessMeansStored` | crates/carminedesktop-vfs/src/sync_processor.rs:214-227 | In particular it has where the upload in flight, or the one the request starts, has yet to read the entry or carries it |
| `FlushRequests.JoinedRequestMayMissTheWrite` | crates/carminedesktop-vfs/src/sync_processor.rs:214-220 | A concrete run: a FlushSync that joins an upload which has already read the entry is answered `true`, while the bytes written before it are neither in writeback nor on the server |
| `UploadSlot.MeasureDecreases` | crates/carminedesktop-vfs/src/sync_processor.rs:247-276 | Without a new request, every event leaves the slot's three map entries as they are or strictly lowers 3 x remaining attempts, adjusted for idle-failed, pending and in flight; the measure is zero exactly when nothing is left to do |
| `UploadSlot.MovesAreBounded` | crates/carminedesktop-vfs/src/sync_processor.rs:247-276 | Without a new request an inode's entries change at most 29 times in any run, whatever the uploads return |
| `UploadSlot.Quiesces` | crates/carminedesktop-vfs/src/sync_processor.rs:247-289 | 29 fair rounds of result and tick without a new request leave nothing pending, in flight or failed, whatever the uploads return |
| `UploadSlot.AtMostTenAttempts` | crates/carminedesktop-vfs/src/sync_processor.rs:355-377 | Without a new request an inode is uploaded at most ten more times, and the starts still possible shrink with every start |
| `UploadSlot.PendingIsNeverForgotten` | crates/carminedesktop-vfs/src/sync_processor.rs:196-262 | A pending inode stays pending until an upload of it is started, in every run in which the request channel stays open |
| `UploadSlot.RequestsAreServed` | crates/carminedesktop-vfs/src/sync_processor.rs:198-262 | A Flush leaves the inode pending or joined to its upload, a FlushSync attaches its waiter, and a tick starts the debounced upload exactly when `debounce` has passed since the latest request |
| `UploadSlot.GivingUpFollowsNineBackoffs` | crates/carminedesktop-vfs/src/sync_processor.rs:118-123 | In every run an inode is given up only after nine scheduled delays of 2, 4, 8, 16 and five times 30 seconds since its last success or giving up, which add up to 180 s |
| `UploadSlot.FailureSetsTheRetry` | crates/carminedesktop-vfs/src/sync_processor.rs:355-377 | A failed result that is not the tenth sets the next retry to its own time plus the delay it reports as scheduled, which is 2, 4, 8, 16 or 30 seconds by the number of failures; the tenth gives up and a success forgets the failures |
| `UploadSlot.TickRetriesExactly` | crates/carminedesktop-vfs/src/sync_processor.rs:265-276 | A tick takes a resting failed inode up if and only if its retry time has come, and the tick after it starts the upload |
| `RetryTiming.GivingUpTakesThreeMinutes` | crates/carminedesktop-vfs/src/sync_processor.rs:265-276 | With a clock that does not run backwards, in every run in which no request finds the inode waiting out a backoff, the failure that gives the inode up is handled at least 180 s after the first one of its streak; requests for a pending or in-flight inode do not matter |
| `RetryTiming.PromptRunGivesUpOnTime` | crates/carminedesktop-vfs/src/sync_processor.rs:265-276 | The exact counterpart: without requests, with a tick after each due time and each upload failing at once, the inode is given up exactly 180 s plus the delays of those ticks after the first failure |
| `RetryTiming.StaysOnScheduleExactly` | crates/carminedesktop-vfs/src/sync_processor.rs:199-276 | A run keeps every retry behind the backoffs so far if and only if no request in it comes for an inode that waits out a backoff |
| `RetryTiming.OnlyRequestsEndTheWait` | crates/carminedesktop-vfs/src/sync_processor.rs:199-276 | Before its next retry a failing idle inode is taken up again by an event if and only if that is a request |
| `RetryTiming.RequestsCutTheWaitShort` | crates/carminedesktop-vfs/src/sync_processor.rs:199-227 | With a request before each attempt that wait does not happen: a run that gives an inode up ten debounce intervals after it started, for every debounce |
| `UploadSlot.NineBackoffs` | crates/carminedesktop-vfs/src/sync_processor.rs:118-123 | The nine scheduled backoffs and their sum |
| `SyncProcessor.RunsKeepTheMapsSound` | crates/carminedesktop-vfs/src/sync_processor.rs:166-168 | After every run of the loop `pending` and `in_flight` have disjoint keys, each in-flight inode has exactly one outstanding upload until the loop has stopped, every failure count is in 1..9, and the maps end empty |
| `SyncProcessor.Processor.constructor` | crates/carminedesktop-vfs/src/sync_processor.rs:153-172 | The loop starts with empty maps and zero counters, every inode in its initial slot |
| `SyncProcessor.Processor.RecoverPending` | crates/carminedesktop-vfs/src/sync_processor.rs:410-469 | Recovery makes an inode pending if and only if a finished writeback entry of this drive, with an id that does not start with `local:`, has that inode; each entry is either enqueued or counted as a duplicate |
| `SyncProcessor.Processor.Flush` | crates/carminedesktop-vfs/src/sync_processor.rs:198-213 | A Flush of an in-flight inode changes nothing but the duplicate count; otherwise it (re)starts the debounce; no other inode is touched; spawned = uploaded + failed + in flight + abandoned stays true |
| `SyncProcessor.Processor.FlushSync` | crates/carminedesktop-vfs/src/sync_processor.rs:214-227 | A FlushSync joins the upload in flight or starts one at once, and its waiter is attached after the spawn, not lost by it |
| `SyncProcessor.Processor.HandleResult` | crates/carminedesktop-vfs/src/sync_processor.rs:340-378 | Every waiter of the inode is answered with the result; its entry in `failed` goes after a success or the tenth failure and is otherwise raised by one, with the next retry 2, 4, 8, 16 or 30 seconds from now; the counters account for the upload |
| `SyncProcessor.Processor.Tick` | crates/carminedesktop-vfs/src/sync_processor.rs:248-287 | One tick moves every inode by the same slot step, whatever order the maps are iterated in: expired debounces are spawned, ripe failures become pending |
| `SyncProcessor.Processor.RetryFailed` | crates/carminedesktop-vfs/src/sync_processor.rs:265-276 | Exactly the failed inodes past their backoff that are neither pending nor in flight are put back into `pending`, ready at once |
| `SyncProcessor.Processor.Shutdown` | crates/carminedesktop-vfs/src/sync_processor.rs:228-239 | Shutdown spawns everything pending, keeps what is in flight, and leaves nothing pending |
| `SyncProcessor.Processor.DrainEnd` | crates/carminedesktop-vfs/src/sync_processor.rs:291-337 | A drain that ends by itself leaves nothing in flight and every upload counted as uploaded, failed or abandoned |
| `SyncProcessor.Processor.DrainTimeout` | crates/carminedesktop-vfs/src/sync_processor.rs:311-323 | At the deadline every remaining waiter is answered `false` exactly once and `in_flight` ends empty |
| `SyncProcessor.Processor.Close` | crates/carminedesktop-vfs/src/sync_processor.rs:240-243 | When every sender is gone the loop returns and each attached waiter is dropped |
| `SyncProcessor.Processor.SpawnUpload` | crates/carminedesktop-vfs/src/sync_processor.rs:381-407 | Spawning puts an empty waiter list in flight, so it must not be called for an inode in flight; one more task runs |
| `SyncProcessor.Processor.SpawnReady` | crates/carminedesktop-vfs/src/sync_processor.rs:251-263 | Spawning a set of pending inodes in any order moves each of them once and no other |
| `SyncProcessor.LoopRunsAreSlotRuns` | crates/carminedesktop-vfs/src/sync_processor.rs:183-326 | Every run of the whole loop is, for each inode, a run of that inode's slot: inodes never influence each other |
| `SyncProcessor.EveryWaiterIsSettledOnce` | crates/carminedesktop-vfs/src/sync_processor.rs:183-337 | Over every run of the loop, for every inode, accepted waiters are settled exactly once, and at the end all of them and both maps are empty |
| `SyncProcessor.AtMostTenUploadsEach` | crates/carminedesktop-vfs/src/sync_processor.rs:247-377 | In every run of the loop an inode without new requests is uploaded at most ten more times, whatever happens to other inodes |
| `FlushProtocol.StepKeepsInv` | crates/carminedesktop-vfs/src/sync_processor.rs:475-705 | Every step of the flush, remote edit, local write or metadata refresh keeps: the carried bytes are the entry unless the user wrote since, and removal is reached only after a confirmed upload of them |
| `FlushProtocol.OnlyRemovalStepsRemove` | crates/carminedesktop-vfs/src/sync_processor.rs:511-700 | Only the transient clean-up, the removal after an upload and the removal after a conflict copy take an entry out of writeback, or put an older file in its place where the file cannot be deleted |
| `FlushProtocol.RemovalIsSafe` | crates/carminedesktop-vfs/src/sync_processor.rs:475-705 | Under every interleaving a flush removes an entry, or lets an older file take its place, only if the server stored exactly those bytes during this flush, as the file or after a 423 as a conflict copy, or the name is transient, or the user wrote after the read |
| `FlushProtocol.RemovalIsSafeExactlyWhenTheEntryIsUnchanged` | crates/carminedesktop-vfs/src/sync_processor.rs:615-633 | After a successful upload the removal is safe if and only if the entry still equals what the flush read, which the code does not compare |
| `FlushProtocol.LockedRemovalIsSafeExactly` | crates/carminedesktop-vfs/src/sync_processor.rs:648-675 | After a 423 the removal is safe if and only if the entry still equals what was read for the conflict copy, or an earlier conflict copy of the same flush holds it |
| `FlushProtocol.WriteDuringFlushIsLost` | crates/carminedesktop-vfs/src/sync_processor.rs:615-633 | A concrete run: a write between the flush's read and its removal is removed and never reaches the server |
| `FlushProtocol.GuardedUploadsReplaceTheCachedVersion` | crates/carminedesktop-vfs/src/sync_processor.rs:540-592 | Every upload made after a matching eTag check replaced exactly the version the cached eTag names; every override of a conflicting version was preceded by a conflict copy of the same bytes |
| `FlushProtocol.UnseenVersionsAreOverwrittenExactlyWhenUnguarded` | crates/carminedesktop-vfs/src/sync_processor.rs:580-613 | A server version the cached metadata does not name is overwritten if and only if the upload carries no If-Match, that is after a detected conflict, a failed check or without a cached eTag; otherwise the server and the entry are left alone |
| `FlushProtocol.FailedChecksStillUpload` | crates/carminedesktop-vfs/src/sync_processor.rs:583-634 | When the eTag check gets no answer or the server lacks the file, the flush goes on without If-Match: it stores the carried bytes under what path or id address, whatever version is there, clears the entry and succeeds, or fails if there is neither a file nor a folder to store into |
| `FlushProtocol.UncheckedFlushUploads` | crates/carminedesktop-vfs/src/sync_processor.rs:536-634 | From its start, an undisturbed flush of a new file, or of one without a cached eTag, stores the entry's bytes without any check |
| `FlushProtocol.OthersAreChecked` | crates/carminedesktop-vfs/src/sync_processor.rs:540-545 | From its start, the flush of any other file reaches the check with the bytes the entry held |
| `FlushProtocol.UnguardedPutStores` | crates/carminedesktop-vfs/src/sync_processor.rs:594-634 | Without If-Match an undisturbed upload stores its bytes over any version, exactly where there is a place for them |
| `FlushProtocol.GuardedPutStoresExactly` | crates/carminedesktop-vfs/src/sync_processor.rs:594-646 | With If-Match it stores them if and only if the addressed file still has the checked version; otherwise the flush fails and changes nothing |
| `FlushProtocol.ConflictsAreCopiedAndOverwritten` | crates/carminedesktop-vfs/src/sync_processor.rs:547-634 | After a detected conflict the bytes become a conflict copy in the same folder, if it is known, and then the file all the same |
| `FlushProtocol.FailedRequestsKeepTheEntry` | crates/carminedesktop-vfs/src/sync_processor.rs:556-572 | A request that fails ends the flush in failure, with entry, binding and metadata as they were |
| `FlushProtocol.FlushesWithoutUpload` | crates/carminedesktop-vfs/src/sync_processor.rs:483-527 | A flush without item or entry succeeds and changes nothing, one without metadata fails and changes nothing, and one of a transient file drops entry and inode without a request |
| `FlushProtocol.CopiesKeepVersionsExactlyWhenNamesAreNew` | crates/carminedesktop-vfs/src/sync_processor.rs:551-566 | A conflict copy leaves every version on the server alone if and only if the server has no file of its name yet; otherwise it replaces that file |
| `FlushProtocol.SecondCopyReplacesTheFirst` | crates/carminedesktop-vfs/src/sync_processor.rs:648-668 | So the copy made after a 423 in the same second as the conflict copy replaces it |
| `FlushProtocol.ConflictDropsTheRemoteVersion` | crates/carminedesktop-vfs/src/sync_processor.rs:547-592 | A concrete run: both sides edited a file; afterwards file and conflict copy both hold this client's bytes and the other client's version is gone |
| `FlushProtocol.QuietFlushUploads` | crates/carminedesktop-vfs/src/sync_processor.rs:483-634 | An undisturbed flush of an existing file whose eTag matches stores the entry's bytes under that file, refreshes the cached eTag and clears the entry; if the path now names another version it fails and keeps the entry |
| `FlushProtocol.QuietFlushCreates` | crates/carminedesktop-vfs/src/sync_processor.rs:594-634 | An undisturbed flush of a new file creates it under its parent with the entry's bytes, binds the inode to the server's id and clears the entry |
| `FlushProtocol.LockedFlushSavesACopy` | crates/carminedesktop-vfs/src/sync_processor.rs:648-675 | After a 423 the entry as it is then becomes a conflict copy beside the file, which is left alone, and the entry is cleared; without an entry the flush fails |
| `FlushProtocol.StepKeepsEtagsOld` | crates/carminedesktop-vfs/src/sync_processor.rs:475-705 | Versions the server hands out stay below the next one in every step, so an eTag never names two versions |
| `FileNames.ConflictNameIsNew` | crates/carminedesktop-vfs/src/core_ops.rs:402-410 | A conflict name differs from the original and keeps its stem and extension |
| `FileNames.ConflictNameExactly` | crates/carminedesktop-vfs/src/core_ops.rs:402-410 | The stamp goes before the last dot of the name, or to the end of a name without one |
| `FileNames.NamesMatchExactly` | crates/carminedesktop-vfs/src/core_ops.rs:26-28 | Names match if and only if they differ in nothing but the case of the letters A to Z |
| `FileNames.TransientExactly` | crates/carminedesktop-vfs/src/core_ops.rs:384-396 | A name is transient if and only if it starts with `~$`, or starts with `~` and ends in `.tmp`, or is thumbs.db, desktop.ini or .ds_store, in any letter case |
| `FileNames.TransientIgnoresCase` | crates/carminedesktop-vfs/src/core_ops.rs:384-396 | Whether a name is transient does not depend on letter case |
| `Writeback.SanitizeRoundTrip` | crates/carminedesktop-cache/src/writeback.rs:32-40 | Unsanitising a sanitised id gives it back if and only if the id contains no `%3A` |
| `Writeback.SanitizeExactly` | crates/carminedesktop-cache/src/writeback.rs:32-35 | Every colon of an id becomes `%3A` and every other character is kept |
| `Writeback.SanitizedHasNoColon` | crates/carminedesktop-cache/src/writeback.rs:32-35 | A file name in writeback has no colon |
| `Writeback.TmpNameExactly` | crates/carminedesktop-cache/src/writeback.rs:128-128 | The temporary name has the extension `tmp` in place of the last one; a leading dot starts no extension |
| `PersistTasks.StaysExactly` | crates/carminedesktop-cache/src/writeback.rs:116-136 | With each persist of an item a task of several steps, and any number of them at once: an item that holds some content on disk goes on holding it through every continuation that does not write or remove it, begins persists one at a time and may crash or fail anywhere, if and only if each persist in progress has copied that content and has the temporary file to itself, or what it has still to write and to rename is that content |
| `PersistTasks.WriteIsAllOrNothing` | crates/carminedesktop-cache/src/writeback.rs:43-54 | A write that starts where no persist of the item is in progress leaves, wherever it stops, the whole previous content, or the whole new one as soon as a rename of it has succeeded, for ever |
| `PersistTasks.StaysWholeExactly` | crates/carminedesktop-cache/src/writeback.rs:43-54 | Unless previous or new content is empty, the file is never anything but one of the two if and only if no other persist of the item is in progress when the write begins its own |
| `PersistTasks.SecondPersistTears` | crates/carminedesktop-cache/src/writeback.rs:116-136 | A persist that begins while another of the item is in progress has an interleaving with it that leaves the file empty |
| `PersistTasks.LateRenameRestoresTheOld` | crates/carminedesktop-vfs/src/sync_processor.rs:590-590 | For any two contents: an upload copies the first, a write of the second runs to its end and returns, the upload goes on, and after a crash the item has the first again |
| `PersistTasks.EarlyRenameTears` | crates/carminedesktop-vfs/src/sync_processor.rs:590-590 | For any two contents: a write returns having renamed what an upload had written of the older content until then |
| `Writeback.WriteBackBuffer.Persist` | crates/carminedesktop-cache/src/writeback.rs:115-136 | A persist that nothing disturbs is the run of its steps on the store, up to the step that fails |
| `Writeback.WriteBackBuffer.Write` | crates/carminedesktop-cache/src/writeback.rs:42-54 | Undisturbed, a write buffers the content and persists it, and returns success exactly when the file is in place |
| `Writeback.WriteBackBuffer.Read` | crates/carminedesktop-cache/src/writeback.rs:105-113 | A read returns the buffer, else the file |
| `Writeback.WriteBackBuffer.Remove` | crates/carminedesktop-cache/src/writeback.rs:138-152 | Removing drops the buffer first; when deleting the file fails, what it holds is the entry again |
| `Writeback.WriteBackBuffer.HasPending` | crates/carminedesktop-cache/src/writeback.rs:154-162 | An entry is pending exactly when a read finds content |
| `Writeback.WriteBackBuffer.ListPending` | crates/carminedesktop-cache/src/writeback.rs:164-198 | Lists one entry for every file that is not temporary, under its unsanitised id, and no other |
| `Writeback.StoreRunsAreItemRuns` | crates/carminedesktop-cache/src/writeback.rs:43-152 | Every run of the whole store is, for each item with files of its own, a run of that item's steps, whatever happens to other items |
| `Writeback.WriteIsCrashAtomic` | crates/carminedesktop-cache/src/writeback.rs:43-54 | A write that starts where no persist of the item is in progress: whatever other items, crashes and later persists do, a restart finds the whole previous content, or the whole new one if and only if a rename of it has succeeded before |
| `Writeback.UntornExactly` | crates/carminedesktop-cache/src/writeback.rs:116-136 | Without restrictions on ids, crash atomicity of a write by itself fails if and only if the temporary file of the item written is that item's file |
| `Writeback.ReturnedWriteSurvives` | crates/carminedesktop-cache/src/writeback.rs:43-198 | Once such a write has returned it is read back and listed for recovery through any number of crashes and failed operations until that item is written or removed again |
| `Writeback.StaysExactly` | crates/carminedesktop-cache/src/writeback.rs:43-198 | On the whole store too, content in place stays if and only if each persist of the item in progress is harmless |
| `Writeback.ListedExactly` | crates/carminedesktop-cache/src/writeback.rs:187-193 | An item's file is listed under its own id if and only if the id has no escape and its file name does not end in `.tmp` |
| `Writeback.ListsExactlyTheFinished` | crates/carminedesktop-cache/src/writeback.rs:164-198 | From an empty store, over every run, `list_pending` yields exactly the items whose content is on disk |
| `CrashRecovery.Restart` | crates/carminedesktop-vfs/src/sync_processor.rs:410-469 | After a restart an inode is pending if and only if a finished entry of this drive, uploaded before, belongs to it |
| `CrashRecovery.ReturnedWriteIsRecovered` | crates/carminedesktop-vfs/src/sync_processor.rs:410-469 | A write that started where no persist of its item was in progress, and returned, makes its inode one of those that every later restart enqueues, with exactly that content |
| `CrashRecovery.RecoveredIsUploaded` | crates/carminedesktop-vfs/src/sync_processor.rs:176-289 | After every run in which the senders stay open, a recovered inode is still pending or an upload of it has been started |
| `StreamingBuffer.ReceivedIsTheConcatenation` | crates/carminedesktop-vfs/src/core_ops.rs:80-109 | However the download is cut into pieces, the buffer holds their concatenation clipped to the file size, and reports its length as progress |
| `StreamingBuffer.PutExtends` | crates/carminedesktop-vfs/src/core_ops.rs:91-105 | One turn of the append loop keeps: chunk k exists exactly for k x 256 KiB below n, and holds bytes k x 256 KiB up to the smaller of the next border and n |
| `StreamingBuffer.Buffer.AppendChunk` | crates/carminedesktop-vfs/src/core_ops.rs:80-109 | Appending across chunk borders extends the flat byte string by the usable part, and does nothing once the download is over |
| `StreamingBuffer.Buffer.ReadRange` | crates/carminedesktop-vfs/src/core_ops.rs:142-172 | A read of any offset and size is exactly that slice of what has arrived, zero-padded to the file size once the download is over; no index is out of range |
| `StreamingBuffer.Buffer.WaitForRange` | crates/carminedesktop-vfs/src/core_ops.rs:119-140 | A waiting reader returns at the first look at which enough has arrived or the download is over, and reports failure exactly when it has failed |
| `StreamingBuffer.Buffer.Read` | crates/carminedesktop-vfs/src/core_ops.rs:1422-1454 | A streaming read serves arrived data, waits near the frontier or asks for the range, by the stated distances |
| `StreamingBuffer.Buffer.Complete` | crates/carminedesktop-vfs/src/core_ops.rs:456-470 | Completing a download waits for the whole file and reads it |
| `StreamingBuffer.Create` | crates/carminedesktop-vfs/src/core_ops.rs:65-78 | Empty files and files over 256 MiB are refused, all others start empty and in progress |
| `StreamingBuffer.ReadsTheFile` | crates/carminedesktop-vfs/src/core_ops.rs:1405-1456 | At every offset and size, whatever arrives meanwhile, a successful read of a streaming handle returns the bytes a fully downloaded handle would return |
| `StreamingBuffer.CompletesToTheFile` | crates/carminedesktop-vfs/src/core_ops.rs:456-470 | A completed download is the file |
| `StreamingBuffer.ReadsFailOnlyWithTheDownload` | crates/carminedesktop-vfs/src/core_ops.rs:119-140 | A read fails only if the download or the range request failed, and blocks only while its bytes are missing |
| `StreamingBuffer.ArrivedReadsReturnAtOnce` | crates/carminedesktop-vfs/src/core_ops.rs:1427-1430 | A range that has arrived is read at once |
| `StreamingBuffer.NearReadsUseTheDownload` | crates/carminedesktop-vfs/src/core_ops.rs:1422-1435 | A read that starts at most 2 MiB past what has been downloaded, other than the empty one at zero, never depends on the range request: it fails if and only if the download fails before the range is there, and waits if and only if the download has not come that far |
| `StreamingBuffer.FarReadsAskForTheRange` | crates/carminedesktop-vfs/src/core_ops.rs:1436-1449 | A read that starts farther out and has not arrived never waits: whatever arrives, it returns what the range request does and fails if and only if that fails |
| `StreamingBuffer.TheEndSettlesReads` | crates/carminedesktop-vfs/src/core_ops.rs:111-140 | The end of the download settles a waiting read and nothing arrives after it: a broken download fails the read, a finished one reads what has arrived, filled up with zeros |
| `StreamingBuffer.ShortDownloadReadsAsZeros` | crates/carminedesktop-vfs/src/core_ops.rs:142-148 | A download that ends cleanly but early reads as the file if and only if every missing byte is zero |
| `OpenFiles.WriteRefines` | crates/carminedesktop-vfs/src/core_ops.rs:1460-1486 | A write through a handle is a write to the plain file, gap filled with zeros, and keeps logical size within the buffer and zeros beyond it |
| `OpenFiles.TruncateRefines` | crates/carminedesktop-vfs/src/core_ops.rs:1071-1082 | Truncating or extending a handle resizes the plain file |
| `OpenFiles.ReserveRefinesExactly` | crates/carminedesktop-vfs/src/core_ops.rs:1057-1067 | `ensure_buffer_capacity` leaves the file unchanged if and only if a logical size is set or no room is needed; otherwise it extends the file with zeros |
| `OpenFiles.RefreshShowsTheNewContentExactly` | crates/carminedesktop-vfs/src/core_ops.rs:1391-1400 | Refreshing a stale handle shows the new content if and only if no logical size is set or the content fits into it, and reports its length if and only if none is set or it is that length |
| `OpenFiles.RefreshAfterTruncateCutsTheFile` | crates/carminedesktop-vfs/src/core_ops.rs:1391-1400 | A concrete handle: truncated, flushed, changed remotely, refreshed and written to at the front, it is saved cut to its old size |
| `OpenFiles.ReportsTheLength` | crates/carminedesktop-vfs/src/core_ops.rs:292-305 | The size reported for the inode is the length of the plain file |
| `OpenFiles.StreamingReportsTheFile` | crates/carminedesktop-vfs/src/core_ops.rs:292-305 | While a download goes on, the size reported is that of the whole file, however much has arrived |
| `OpenFiles.ClosedTruncation` | crates/carminedesktop-vfs/src/core_ops.rs:1071-1115 | Truncating a file without a handle resizes its writeback entry, whatever the disk cache has; without an entry the cached content; without either, zeros |
| `OpenFiles.TruncatingAfterASession` | crates/carminedesktop-vfs/src/core_ops.rs:1071-1115 | Truncating a file after any session on it was closed is truncating the plain file of that session |
| `OpenFiles.ReadsMatchExactly` | crates/carminedesktop-vfs/src/core_ops.rs:1418-1424 | A read equals a read of the plain file if and only if the buffer is no longer than the file, the range ends within the file or starts behind the buffer, or nothing is asked for |
| `OpenFiles.SessionIsAPlainFile` | crates/carminedesktop-vfs/src/core_ops.rs:1352-1562 | Over every run of writes, truncates, reservations and flushes that succeed, fail or time out, the handle stands for the plain file, reports its length, and release leaves exactly those bytes in writeback, or nothing if it was never written to |
| `OpenFiles.FailedFlushKeepsTheFile` | crates/carminedesktop-vfs/src/core_ops.rs:1365-1386 | After a flush that failed, the release saves the truncation before it and the write during it |
| `OpenFiles.StaysPlainExactlyWhenAllowed` | crates/carminedesktop-vfs/src/core_ops.rs:1352-1562 | After every step of a session the handle stands for the plain file and nothing is lost, if and only if no flush succeeds after the file was changed behind its back, which the code does not compare, and room is reserved only behind a logical size or where there is room |
| `OpenFiles.WriteDuringFlushIsLost` | crates/carminedesktop-vfs/src/core_ops.rs:1524-1561 | A concrete session: a write that lands while a flush awaits its upload is lost on release |
| `OpenFiles.OpenFileTable.WriteHandle` | crates/carminedesktop-vfs/src/core_ops.rs:1460-1497 | Finishes the download, writes, marks dirty and reports the new size; a failed download leaves the table alone; unknown handles are NotFound |
| `OpenFiles.OpenFileTable.Truncate` | crates/carminedesktop-vfs/src/core_ops.rs:1071-1115 | Resizes the content of a handle of the inode and sets its logical size; without a handle writeback gets its own entry resized, or without one the cached content resized, or zeros |
| `OpenFiles.OpenFileTable.EnsureBufferCapacity` | crates/carminedesktop-vfs/src/core_ops.rs:1057-1067 | Grows the buffer of a handle of the inode, and nothing else |
| `OpenFiles.OpenFileTable.FlushBegin` | crates/carminedesktop-vfs/src/core_ops.rs:1501-1531 | Writeback receives exactly the logical bytes; clean handles are left alone; the error cases |
| `OpenFiles.OpenFileTable.ReleaseFile` | crates/carminedesktop-vfs/src/core_ops.rs:1352-1386 | A released dirty handle leaves exactly its logical bytes in writeback; a tidy handle never fails for lack of content |
| `OpenFiles.OpenFileTable.ReadHandle` | crates/carminedesktop-vfs/src/core_ops.rs:1405-1456 | Refreshes a stale clean handle first, then reads the buffer or the stream |
| `OpenFiles.OpenFileTable.EnsureComplete` | crates/carminedesktop-vfs/src/core_ops.rs:456-470 | Completes the content of one handle or leaves the table alone |
| `OpenFiles.OpenFileTable.ContentSizeByIno` | crates/carminedesktop-vfs/src/core_ops.rs:292-305 | Reports the size of some handle of the inode, and nothing exactly when there is none |
| `OpenFiles.OpenFileTable.MarkStaleByIno` | crates/carminedesktop-vfs/src/core_ops.rs:311-323 | Marks every handle of the inode and no other |
| `OpenFiles.OpenFileTable.Insert` | crates/carminedesktop-vfs/src/core_ops.rs:253-266 | A new handle number, clean and without logical size |
| `OpenFiles.FinishedIsTheFile` | crates/carminedesktop-vfs/src/core_ops.rs:456-470 | Writing to a handle that was still streaming starts from the whole file |
| `PinStore.Store.IsProtected` | crates/carminedesktop-cache/src/pin_store.rs:288-344 | True if and only if the item, or one of its first fifty ancestors, has a live pin |
| `PinStore.Subtree` | crates/carminedesktop-cache/src/pin_store.rs:237-262 | The recursive query computes exactly the pinned row and its descendants, in every acyclic table |
| `PinStore.Store.HealthOfPin` | crates/carminedesktop-cache/src/pin_store.rs:235-278 | The report counts exactly the files below the pinned item, and those of them that are cached |
| `PinStore.HealthCountsFilesBelow` | crates/carminedesktop-cache/src/pin_store.rs:235-278 | The files counted are those strictly below the pinned item, at least one level, and the cached ones among them are those in the cache under the drive of the pin |
| `PinStore.Store.Report` | crates/carminedesktop-cache/src/pin_store.rs:201-282 | There is a report for every live pin and for no other |
| `PinStore.PinningProtects` | crates/carminedesktop-cache/src/pin_store.rs:50-69 | After pinning, a row is protected at any later time if and only if it was before by another pin, or the pinned row is the row itself or one of its first fifty ancestors and the time to live has not passed |
| `PinStore.RefreshingProtects` | crates/carminedesktop-cache/src/pin_store.rs:73-90 | The same for refreshing a pin, which protects only if the pin exists |
| `PinStore.UnpinningUnprotects` | crates/carminedesktop-cache/src/pin_store.rs:93-103 | After unpinning, a row is protected if and only if another pin protects it |
| `PinStore.Store.ListExpired` | crates/carminedesktop-cache/src/pin_store.rs:122-155 | A pin is listed as expired exactly when it is in the table and not live |
| `PinStore.ClimbingAgreesExactly` | crates/carminedesktop-cache/src/pin_store.rs:237-344 | In any table without cycles, however deep: the climb protects an item exactly when a live pin of its drive is the item or has it in the subtree the report counts, for all pins and times, if and only if the item has no 51st ancestor |
| `PinStore.ClimbingAgreesForShallowItems` | crates/carminedesktop-cache/src/pin_store.rs:237-344 | For an item with at most fifty ancestors the two agree, whatever else the table holds |
| `PinStore.ClimbingAgreesWithDescending` | crates/carminedesktop-cache/src/pin_store.rs:237-344 | So they agree about every item, cached or not, in a forest of depth at most fifty |
| `PinStore.DeeperTreesDisagree` | crates/carminedesktop-cache/src/pin_store.rs:311-311 | Tables with such items exist: in a chain of more than fifty folders the file at the end is counted by the report of the pinned top folder but not protected |
| `PinStore.PinProtectsItsSubtree` | crates/carminedesktop-cache/src/pin_store.rs:284-344 | Everything in the subtree of a live pin that has at most fifty ancestors is protected |
| `PinStore.ProtectionFades` | crates/carminedesktop-cache/src/pin_store.rs:106-118 | Without updates, what is protected later is protected now |
| `DiskCache.DiskCache.TotalSize` | crates/carminedesktop-cache/src/disk.rs:295-306 | The total of all tracked sizes, in whatever order they are added |
| `DiskCache.DiskCache.Put` | crates/carminedesktop-cache/src/disk.rs:193-231 | The new entry and file replace the old, then an eviction takes some set away; every tracked entry keeps a file of its size |
| `DiskCache.DiskCache.Remove` | crates/carminedesktop-cache/src/disk.rs:233-252 | Removes entry and file of that item only |
| `DiskCache.DiskCache.Get` | crates/carminedesktop-cache/src/disk.rs:119-130 | Returns the file and makes the entry the most recently used |
| `DiskCache.DiskCache.EvictIfNeeded` | crates/carminedesktop-cache/src/disk.rs:320-394 | Evicts nothing without a budget or within it; otherwise exactly the shortest prefix of the unprotected entries, least recently used first, that frees enough, or all of them |
| `DiskCache.DiskCache.EvictInOrder` | crates/carminedesktop-cache/src/disk.rs:360-384 | The loop evicts the shortest sufficient prefix of the unprotected candidates, and nothing else |
| `DiskCache.LruOrder` | crates/carminedesktop-cache/src/disk.rs:337-358 | Every entry once, by last access, ties in any order |
| `DiskCache.EvictionMeetsTheBudget` | crates/carminedesktop-cache/src/disk.rs:320-394 | With a positive budget and a fixed filter, the cache is afterwards within budget or holds protected entries only, and nothing protected was evicted |
| `DiskCache.OldestGoFirstAndNoMore` | crates/carminedesktop-cache/src/disk.rs:320-394 | With a fixed filter: whatever is left although it was used before an evicted entry is protected, without the last eviction the cache would be over budget, and nothing goes without a budget |
| `DiskCache.EvictedWasUnprotected` | crates/carminedesktop-cache/src/disk.rs:365-370 | Whatever is evicted was let through by the filter when it was asked about it |
| `PinnedEviction.FilesCanBeLostExactly` | crates/carminedesktop-cache/src/manager.rs:61-65 | In any table without cycles: some eviction takes a cached file from below a pin that is live each time the filter is asked, if and only if the file has a 51st ancestor |
| `PinnedEviction.ShallowFilesStay` | crates/carminedesktop-cache/src/manager.rs:61-65 | No eviction, for any cache contents, budget and clock, and whatever happens to other pins meanwhile, takes a file with at most fifty ancestors from below such a pin |
| `PinnedEviction.LatePinLosesTheFile` | crates/carminedesktop-cache/src/disk.rs:365-370 | A pin made when the filter has been asked about a file already comes too late for it |
| `PinnedEviction.EvictionKeepsPinnedFiles` | crates/carminedesktop-cache/src/manager.rs:61-65 | So in a forest of depth at most fifty an eviction leaves the report of every such pin exactly as it was |
| `PinnedEviction.DeepFilesAreEvicted` | crates/carminedesktop-cache/src/manager.rs:61-65 | Tables with such files exist: the only cached file of a pinned chain of more than fifty folders is evicted |
| `InodeTable.InodeTable.Allocate` | crates/carminedesktop-vfs/src/inode.rs:53-62 | A known id keeps its inode, a new one gets an inode not in the table; the maps stay inverse |
| `InodeTable.InodeTable.RemoveByItemId` | crates/carminedesktop-vfs/src/inode.rs:82-87 | Forgets that id and keeps all others; the maps stay inverse |
| `InodeTable.InodeTable.Reassign` | crates/carminedesktop-vfs/src/inode.rs:89-96 | Keeps the maps inverse if and only if the new id is not bound to another inode |
| `InodeTable.InodeTable.SetRoot` | crates/carminedesktop-vfs/src/inode.rs:98-102 | Keeps the maps inverse if and only if neither the root inode nor the id is bound to something else |
| `InodeTable.InodeTable.Seed` | crates/carminedesktop-vfs/src/inode.rs:45-51 | Inserts the pairs in order |
| `InodeTable.ReassignKeepsInverseExactly` | crates/carminedesktop-vfs/src/inode.rs:89-96 | The exact condition for `reassign` |
| `InodeTable.SetRootKeepsInverseExactly` | crates/carminedesktop-vfs/src/inode.rs:98-102 | The exact condition for `set_root` |
| `InodeTable.ReassignToASeenIdBreaksInverse` | crates/carminedesktop-vfs/src/inode.rs:89-96 | A concrete table: a file whose new id a sync has already seen breaks the maps |
| `InodeTable.ResumedTableIsSound` | crates/carminedesktop-vfs/src/inode.rs:31-51 | A table resumed and seeded from storage is inverse and its counter above everything stored |
| `InodeTable.InodesAreNeverReused` | crates/carminedesktop-vfs/src/inode.rs:53-102 | In every run of allocations, removals, reassignments and settings of the root, the last two with unbound ids, the maps stay inverse, an inode is never handed out afresh twice, and it names another item than its first only where an event of the run gave it to that item |
| `SqliteStore.SqliteStore.UpsertItem` | crates/carminedesktop-cache/src/sqlite.rs:97-167 | Skips tombstoned items, keeps the stored inode of known ones, and fails exactly when a new item meets an inode in use |
| `SqliteStore.UpsertedItemMeans` | crates/carminedesktop-cache/src/sqlite.rs:97-167 | A known item gets the new content and parent at the inode and drive it has, a new one a row at the given inode; tombstoned items and all other rows stay; it fails if and only if a new item meets an inode in use |
| `SqliteStore.SqliteStore.DeleteWithTombstone` | crates/carminedesktop-cache/src/sqlite.rs:287-310 | Tombstones and deletes the item in one step |
| `SqliteStore.SqliteStore.PurgeTombstonesOlderThan` | crates/carminedesktop-cache/src/sqlite.rs:337-349 | Removes exactly the tombstones that are strictly older, and counts them |
| `SqliteStore.SqliteStore.ApplyDelta` | crates/carminedesktop-cache/src/sqlite.rs:416-510 | All of the batch and its token or nothing; succeeds if and only if the batch is clash-free |
| `SqliteStore.SqliteStore.DeleteItem` | crates/carminedesktop-cache/src/sqlite.rs:277-282 | Deletes the row of that item |
| `SqliteStore.SqliteStore.DeleteChildren` | crates/carminedesktop-cache/src/sqlite.rs:267-275 | Deletes the rows with that parent |
| `SqliteStore.SqliteStore.RemoveTombstone` | crates/carminedesktop-cache/src/sqlite.rs:327-334 | Removes that tombstone |
| `SqliteStore.SqliteStore.Clear` | crates/carminedesktop-cache/src/sqlite.rs:407-414 | Empties all tables |
| `SqliteStore.SqliteStore.MaxInode` | crates/carminedesktop-cache/src/sqlite.rs:373-381 | The largest stored inode, or zero |
| `SqliteStore.StepKeepsDisjoint` | crates/carminedesktop-cache/src/sqlite.rs:97-510 | No transaction leaves an item both stored and tombstoned, or two rows with one id |
| `SqliteStore.RunKeepsDisjoint` | crates/carminedesktop-cache/src/sqlite.rs:97-510 | The same for every run of transactions |
| `SqliteStore.TombstonesEndExactly` | crates/carminedesktop-cache/src/sqlite.rs:287-510 | A tombstone ends if and only if a committed batch confirms the deletion, a purge finds it too old, it is removed by name, or the store is cleared |
| `SqliteStore.DeletedItemsStayDeleted` | crates/carminedesktop-cache/src/sqlite.rs:97-510 | While its tombstone has not ended, a deleted item has no row, whatever upserts and batches follow |
| `SqliteStore.YoungTombstonesSurvivePurges` | crates/carminedesktop-cache/src/sqlite.rs:337-349 | A purge spares a deletion that is at most the given number of seconds old |
| `SqliteStore.AppliedBatchMeans` | crates/carminedesktop-cache/src/sqlite.rs:416-510 | A committed batch leaves for every item exactly: nothing if deleted, its old row if tombstoned or not named, else the last upsert under the stored inode and drive, or under the first upsert's inode if new; and the new token |
| `SqliteStore.CommitsExactlyWhenClashFree` | crates/carminedesktop-cache/src/sqlite.rs:458-488 | The upserts of a batch succeed if and only if every new row comes with an inode neither stored nor used by an earlier new row of the batch |
| `SqliteStore.ApplyingTwiceChangesNothing` | crates/carminedesktop-cache/src/sqlite.rs:416-510 | Applying a committed batch again leaves items and token as they are, whether or not it commits again |
| `DeltaSync.DeletedItemsStayDeleted` | crates/carminedesktop-cache/src/sync.rs:154-296 | Under every interleaving, an item deleted locally while a sync is under way, even between the early check and the transaction, has no row until its tombstone ends |
| `DeltaSync.NothingEverClashes` | crates/carminedesktop-cache/src/sync.rs:216-285 | From every restart on, no upsert and no batch ever meets an inode of another item, and the inode maps stay inverse |
| `DeltaSync.ReassignKeepsOwnedExactly` | crates/carminedesktop-vfs/src/inode.rs:89-96 | Reassigning an inode keeps this if and only if the new id is bound nowhere else and no row or collected item has that inode under another id |
| `DeltaSync.ReassigningAStoredFileClashes` | crates/carminedesktop-vfs/src/core_ops.rs:1659-1668 | A concrete case: after the inode of a stored local file is reassigned, the next batch naming its server id fails as a whole |
| `DeltaSync.ReassigningAStoredInodeFailsExactly` | crates/carminedesktop-vfs/src/core_ops.rs:1659-1668 | After reassigning an inode that has a row under another id, the next listing that stores the item fails if and only if the new id is neither stored nor tombstoned; if it is stored, its row disagrees with the table |
| `DeltaSync.RowsAgreeWithTheTable` | crates/carminedesktop-vfs/src/inode.rs:31-102 | From every restart on, through listings, batches, deletes and reassignments that are orderly, each row of an item that is not being deleted has the inode the table gives that item |
| `DeltaSync.AgreesThroughoutExactlyWhenOrderly` | crates/carminedesktop-cache/src/sync.rs:154-296 | Rows and table agree after every step of a run if and only if every step of it is orderly: a listing stores an inode that the table still gives the item, or where it makes no lasting row, and no tombstone is dropped by hand while a sync holds a forgotten inode for its item |
| `DeltaPass.RunDeltaSync` | crates/carminedesktop-cache/src/sync.rs:154-296 | The code of one pass, undisturbed, is a run of the protocol from idle to idle on the real store and table, with a failing request too. A pass that succeeds leaves every row as the response says: none for a deleted item, the last entry of any other with the inodes of the table, and unmentioned or tombstoned items alone; from a sound state it succeeds whenever the response comes. Disk content is removed for every deleted item and every file whose eTag the pass changes, and only for items whose entry deletes them or has an eTag other than the stored one |
| `DeltaPass.ChangedVersionsAreInvalidated` | crates/carminedesktop-cache/src/sync.rs:233-275 | If a file has an eTag before and another one after the batch, its disk content has been removed |
| `DeltaPass.BatchReflects` | crates/carminedesktop-cache/src/sync.rs:216-285 | The row of every item after the batch: none if an entry deletes it, else its last entry under the known inode and drive or the table's inode, with the parent the table has; unmentioned and tombstoned items keep theirs |
| `DeltaSync.StepKeepsOwned` | crates/carminedesktop-cache/src/sync.rs:154-296 | Every step of sync, listing, delete or restart keeps each stored or collected pair of inode and id one that was handed out |
| `DeltaSync.KeepsAgreeExactlyWhenOrderly` | crates/carminedesktop-cache/src/sync.rs:154-296 | Any one step of sync, listing, delete, reassignment or restart keeps rows and table in agreement if and only if it is orderly |
| `DeltaSync.StoreKeepsAgreeExactly` | crates/carminedesktop-vfs/src/core_ops.rs:956-975 | Storing a listed item keeps the agreement if and only if the table still gives it that inode, or it is being deleted, tombstoned or stored already |
| `DeltaSync.StaleListingDisagrees` | crates/carminedesktop-vfs/src/core_ops.rs:956-975 | A concrete run: a listing looks an item up, the item is deleted here and on the server, and the listing then stores a row whose inode the table gives no more |
| `DeltaSync.RestartIsOwned` | crates/carminedesktop-app/src/main.rs:1291-1297 | A restart from the stored pairs establishes it |
| `Activity.PathsSplit` | crates/carminedesktop-app/src/activity.rs:224-239 | A path put together from folder and name is taken apart into the same folder and name; one that ends in a slash is its own name |
| `Activity.TagsTellKindsApart` | crates/carminedesktop-app/src/activity.rs:204-215 | Two kinds have the same tag exactly when they are the same kind, details aside |
| `Activity.EchoIsDropped` | crates/carminedesktop-app/src/activity.rs:9-11 | An event for an item and kind shown within the last five seconds is dropped, whatever its source and path, so a local change is not shown again when delta sync sees it |
| `Activity.DroppedExactly` | crates/carminedesktop-app/src/activity.rs:151-177 | An event leaves the feed as it is if and only if the name of its file is transient, or it repeats a creation, modification or deletion of the same item shown at most five seconds ago with less than 512 such events in between |
| `Activity.SameGroupKeyExactly` | crates/carminedesktop-app/src/activity.rs:179-190 | Entries are grouped by drive, folder, source and kind |
| `Activity.DedupState.Insert` | crates/carminedesktop-app/src/activity.rs:81-89 | The oldest entry goes at 512; queue and index hold the same keys, each once |
| `Activity.DedupState.PurgeExpired` | crates/carminedesktop-app/src/activity.rs:91-100 | Exactly the expired front of the queue goes, from queue and index alike |
| `Activity.DedupState.Contains` | crates/carminedesktop-app/src/activity.rs:77-79 | The index answers what the queue holds |
| `Activity.GroupState.Assign` | crates/carminedesktop-app/src/activity.rs:117-132 | Closes every group not seen for two seconds, and continues or opens the group of the key |
| `Activity.ActivityCollector.Record` | crates/carminedesktop-app/src/activity.rs:151-201 | Emits one entry or none: none exactly when the file is transient or the same item and kind was shown within five seconds among the latest 512 such events |
| `Activity.HeldExactlyWhenRecent` | crates/carminedesktop-app/src/activity.rs:76-101 | The purged queue holds a key if and only if it was shown within five seconds and among the latest 512 |
| `Activity.RepeatsAreRareInRuns` | crates/carminedesktop-app/src/activity.rs:151-177 | Over every run, a repeat within five seconds has at least 512 other dedupable events in between |
| `Activity.ShownExactlyWhenNew` | crates/carminedesktop-app/src/activity.rs:151-201 | After every run, an event is shown if and only if it is neither transient nor a recent repeat |
| `Activity.GroupsAreBurstsInRuns` | crates/carminedesktop-app/src/activity.rs:116-132 | Over every run, two entries share a group if and only if they have the same key and every entry of that key between them follows the previous one within two seconds |
| `Paths.ComponentsOfJoined` | crates/carminedesktop-vfs/src/core_ops.rs:745-745 | A joined path splits into the names it was joined from |
| `Paths.ComponentsOfParts` | crates/carminedesktop-vfs/src/winfsp_fs.rs:188-204 | With slashes for backslashes: the components of any path are those of its parts in turn, and a part without slashes is one component unless it is empty |
| `Paths.DisplayPathUnder` | crates/carminedesktop-vfs/src/core_ops.rs:723-746 | The climb collects the names above, at most 256 of them |
| `Paths.DisplayPathOf` | crates/carminedesktop-vfs/src/core_ops.rs:749-760 | The display path of an inode, or nothing without item or parent reference |
| `Paths.BuildUploadPath` | crates/carminedesktop-vfs/src/sync_processor.rs:711-753 | The climb of the sync processor, through memory only |
| `Paths.UploadPathIsDisplayPath` | crates/carminedesktop-vfs/src/sync_processor.rs:711-753 | With everything in memory the two climbs give the same path at every depth, although they count and test for the root differently |
| `Paths.CoreOps.FindChild` | crates/carminedesktop-vfs/src/core_ops.rs:808-838 | Finds a listed child in memory first, a row otherwise, ignoring case; a row gets its inode and a new memory entry, which drops the listing of that folder |
| `Paths.LookupIsRemembered` | crates/carminedesktop-vfs/src/core_ops.rs:808-838 | In any cache: a lookup returns a cached item listed under a matching name and keeps it in memory, or the first matching row, which is then in memory under its inode and without a listing, or nothing where no row matches |
| `Paths.CoreOps.Resolve` | crates/carminedesktop-vfs/src/core_ops.rs:703-718 | Resolves the components one by one from the root, and fails with the first that is not found |
| `Paths.WalkIsExact` | crates/carminedesktop-vfs/src/core_ops.rs:703-718 | In a consistent cache, resolving components gives an item if and only if they name it and its ancestors in turn, and each of these is stored under its folder or listed like everything above it |
| `Paths.UpAndDownExactly` | crates/carminedesktop-vfs/src/core_ops.rs:703-760 | In a consistent cache, resolving the components of an item's display path gives the item back if and only if it is at most 257 levels deep and the way down to it is cached |
| `Paths.CaseIsIgnored` | crates/carminedesktop-vfs/src/core_ops.rs:26-28 | The same components in any letter case name the same item |
| `Paths.LookupIsUniqueExactly` | crates/carminedesktop-vfs/src/core_ops.rs:811-824 | In any cache, a lookup has one possible result if and only if all listed names that match lead to the same item; where these are cached, if and only if they have the same inode |

## Left out

- HTTP, OAuth, token storage, retries inside one request and upload sessions: each request is one step that succeeds, fails, or is applied without an answer. Large uploads check If-Match when the session is created, which is part of that one step.
- Clocks: one reading per event of the sync processor, where the code reads the clock again for each retry and each backoff; times are unbounded integers.
- The limit on concurrent uploads: a spawned task counts as running from its spawn. A task that panics never reports, which the model does not have.
- Integer widths: sizes, offsets, inodes and counters are unbounded; the casts between unsigned and signed 64-bit values and an overflow of offset plus size are not modelled.
- Names on the server are compared exactly, and server-side renames on upload conflicts do not occur.
- The memory cache: its eviction and time to live, and its child lists except where a path lookup reads or drops them. Tombstone results are about SQLite rows; memory may hold a deleted item for a while.
- SQL text, schema migration, the `sync_state` table, the timestamps of tokens, and failures of SQLite other than an inode clash.
- Temporary inodes of offline downloads, and renames of files that were never uploaded; both break the agreement of rows and inodes that is proved without them.
- Several handles open on one inode, `copy_file_range`, `write_chunk` with `finish_chunked_write` and `get_range`.
- Disk I/O errors of the disk cache, and other tasks between the awaits of one of its methods, except for pins that come and go during an eviction; the coalescing of progress updates is modelled by letting any number of arrivals pass between two looks.
- WinFsp callbacks, registry and shell integration, tray, notifications, IPC, updater, configuration and the TypeScript frontend.
- UploadSlot.Quiesces: fairness is part of the statement, as rounds in which the upload in flight is handled and a tick runs after every deadline; that the scheduler provides such rounds is not modelled.
- DeltaSync.RowsAgreeWithTheTable: for orderly runs, because other runs do break the agreement; `DeltaSync.AgreesThroughoutExactlyWhenOrderly` says that no others keep it throughout, and `DeltaSync.StaleListingDisagrees` gives one that does not.
- DeltaPass.RunDeltaSync: does not model the entries the pass drops from the memory cache, the inodes it marks dirty, the refresh of open handles and its observer, because none of them changes rows, tombstones or inodes; the disk removals are a set, without their order and their failures, which the code ignores.
- PinStore.ClimbingAgreesWithDescending: for forests of depth at most fifty; `PinStore.ClimbingAgreesExactly` is the exact condition in deeper ones.
- Paths.CoreOps.FindChild: does not model the request to the server when the name is cached neither in memory nor in SQLite, nor memory entries that expire; where the code goes on to the server the model finds nothing.
- FlushRequests.SuccessMeansStoredExactly: for files whose name is not transient, which are discarded on purpose, and that the user leaves alone between request and answer; `FlushRequests.JoinedRequestMayMissTheWrite` is a run in which the answer is `true` and the content is not stored.
- PersistTasks.StaysExactly: of the file system it takes that a file may be renamed while another task has it open, and that a crash ends the process and not the machine; a rename may also fail.
- Writeback.ReturnedWriteSurvives: for writes that start where no persist of the item is in progress, and persists that do not overlap; `PersistTasks.StaysWholeExactly`, `PersistTasks.LateRenameRestoresTheOld` and `PersistTasks.EarlyRenameTears` say what overlapping ones do. For ids without `%3A`, dots and path separators, as OneDrive ids are; `Writeback.UntornExactly` and `Writeback.ListedExactly` say what happens to other ids.
- StreamingBuffer.ReadsTheFile: assumes that the download delivers the file and that a range request returns the clipped range; `StreamingBuffer.ShortDownloadReadsAsZeros` says what a short download reads as.
- Activity.ActivityCollector.Record: assumes that clock readings arrive in order and that new group ids are fresh; two threads that read the clock before taking the lock may be out of order.
