# The snapshot engine and the daemon protocol of sandd, verified

A Dafny model of three parts of the repository:

- **The snapshot engine** (`sandd/src/snapshot/`): a content-addressed object store, directories
  turned into tree objects and back, snapshot records and tag refs as files that change step by
  step. The methods are imperative, on an `ObjectStore` and a `SnapshotManager`, and are proved
  against functions of the directory (`Trees.ImageOf`), of the destination (`Restore.Overlay`) and
  of the files (`FileSteps.Run`). What the engine promises is then proved about these functions:
  round trip, exactness, idempotence, the two-way tag index, crash points, listing.
- **Registration, heartbeats and requests** (`server/src/`, `sandd/src/main.rs`): the registry and
  its per-socket task as classes, and a step system in which any number of sockets, daemons,
  heartbeats, closes, cleanups and reaps interleave. Routing, accounting and recovery are proved
  over all runs.
- **The timed loops**: the heartbeat monitor, the daemon's session loop with its ack deadline, and
  its reconnect loop, over all timings.

| file | content |
|---|---|
| `Paths`, `FileSteps` | file names and extensions; single filesystem steps and crashes |
| `Objects`, `Trees`, `Counting`, `Build` | the object store; directories, images and what a root hash stands for; what is counted; `build_tree` |
| `Restore`, `RestoreLaws`, `RestorePaths` | `restore_tree`; what a restore achieves; the same told path by path |
| `Interrupted`, `HardLinks` | restores cut short and run again; destinations with shared inodes |
| `TagIndex`, `TagLaws`, `CrashLaws` | records and refs; the index; runs of creates and deletes with crashes |
| `Histories`, `Snapshots`, `EndToEnd` | operations completed or cut short; the manager; a snapshot restored after any history |
| `Sorting`, `Listing` | sort and dedup; listing and finding |
| `Registry`, `Protocol`, `Heartbeats` | the registry classes; all interleavings; who stays registered |
| `Recovery`, `RecoveryTime` | recovery after an eviction, and how long it takes |
| `Requests` | matching responses to waiting requests |
| `Reaper`, `ServeLoop` | the timed loops |

## Findings

- **Tags are not always immutable.** `add_tag` writes through `with_extension("tmp")`, which replaces
  an extension. From an empty directory, a snapshot tagged `v1.tmp` and then one tagged `v1.0` leave
  the first without its ref (`TagLaws.LaterTagDestroys`), although `manager.rs:381` calls tags
  immutable. A create keeps the index if and only if no tag is written through the name of another
  (`TagLaws.CreateKeepsIndexIff`).
- **An in-place restore can keep a wrong file**, when size and whole-second time agree
  (`RestoreLaws.StaleFileSurvives`). Over a destination whose files share no inode, a restore leaves
  exactly the snapshot if and only if no path is blocked, by a file or directory of the other kind, a
  symbolic link or a special file, and nothing stale is kept (`RestoreLaws.RestoredExactIff`). Run
  again after a cut it is exact under the same condition (`Interrupted.RerunExactIff`). A directory
  that reports the size and time of the file is also taken for it.
- **An in-place restore writes through hard links.** Two names of one file that the snapshot has as
  different files both end up with the second's content, nothing stale being kept, and every further
  restore copies both again to the same end (`HardLinks.SharedInodeFails`). With shared inodes the
  restored files are exact if and only if those that meet on one inode are the same file and nothing
  stale is kept (`HardLinks.ExactIff`). A further restore copies nothing, and then changes nothing, if
  and only if it finds every file kept: under the right hash, or with the right size at the time the
  file before it on that inode leaves (`HardLinks.IdempotentIff`). A name outside the destination that
  shares an inode changes with it.
- **A client that registers two ids on one socket leaves a dangling entry**
  (`Protocol.TwoIdsDangle`). A step keeps routing sound if and only if it is not the reading of a
  Register under a new id on a socket that the id it is bound to is routed to
  (`Protocol.StepRoutesIff`); so a run is sound throughout if and only if no such Register is read
  (`Protocol.EveryRunRoutesIff`). The daemon never sends one.
- **A request whose connection object was replaced is never answered**: register, request, register
  again, and the daemon's answer is dropped (`Requests.ReconnectOrphans`). A waiting request can still
  be answered if and only if its caller has not timed out and its object is current for some daemon
  (`Requests.AnswerableIff`).
- `main.rs:431` speaks of a reaper at about 90 seconds. The code reaps after more than 30; the model
  follows the code.

## Model

| member | source | states |
|---|---|---|
| `Paths.HashToPathInjective` | sandd/src/snapshot/object_store.rs:111-126 | two hashes with the same object path are the same hash |
| `Paths.HashToPathIs` | sandd/src/snapshot/object_store.rs:111-126 | a path exists exactly for three or more hexadecimal digits, and is the hash cut after its second digit |
| `Paths.PlainNames` | sandd/src/snapshot/manager.rs:465 | a name without a dot, or with a leading one only, gets `.tmp` appended |
| `Paths.ValidTagIff` | sandd/src/snapshot/manager.rs:425-457 | a tag is valid exactly when it is not empty and not `.`, contains no `..`, no separator and no control character |
| `Paths.TempNotAddressable` | sandd/src/snapshot/object_store.rs:30-32 | the temporary file of an object is never what any hash names |
| `Paths.WithTmpFixpoints` | sandd/src/snapshot/manager.rs:465 | a temporary name has extension `tmp`, taking it twice changes nothing, and it is the name itself exactly for names with that extension |
| `Objects.PutLookup` | sandd/src/snapshot/object_store.rs:19-34 | after a put every hash finds what it found before, but the new one, which finds the new content if it found nothing |
| `Objects.PutKeeps` | sandd/src/snapshot/object_store.rs:16-35 | storing keeps every object and the store invariant, and changes nothing for content stored before |
| `Objects.FaithfulIffCollisionFree` | sandd/src/snapshot/object_store.rs:78-84 | everything ever put is found again under its hash if and only if the hash has not collided on it |
| `Objects.Deduplicated` | sandd/src/snapshot/object_store.rs:20-24 | equal contents occupy exactly one object |
| `Objects.PutCrashSafe` | sandd/src/snapshot/object_store.rs:29-32 | stopping a put before any step or inside its write leaves every addressable object complete and every old one in place |
| `Objects.EveryRunComplete` | sandd/src/snapshot/object_store.rs:16-76 | so does any run of puts with crashes anywhere, left-over temporary files included |
| `Objects.ObjectStore.constructor` | sandd/src/snapshot/object_store.rs:11-13 | a session opens on whatever complete objects earlier sessions and their crashes have left |
| `Objects.OnePut` | sandd/src/snapshot/object_store.rs:16-35 | a completed put is one of the runs of puts and crashes |
| `Objects.ObjectStore.PutBlob` | sandd/src/snapshot/object_store.rs:16-35 | returns the content's hash; the files are those of the two-step put; nothing changes for content put before |
| `Objects.ObjectStore.PutFile` | sandd/src/snapshot/object_store.rs:39-76 | for every way of cutting the file into reads, the same hash and files as putting its bytes at once |
| `Objects.ObjectStore.GetBlob` | sandd/src/snapshot/object_store.rs:79-84 | finds exactly the object of a well-formed hash that is there |
| `Objects.ObjectStore.CopyFile` | sandd/src/snapshot/object_store.rs:87-99 | delivers the object's bytes; counted, so that "copies nothing" can be said |
| `Trees.ReprGrows` | sandd/src/snapshot/manager.rs:188-201 | a root hash keeps standing for its directory in every store that has grown |
| `Trees.ReprUnique` | sandd/src/snapshot/manager.rs:179-184 | one root hash stands for at most one directory image (Merkle determinism) |
| `Trees.ShowsImage` | sandd/src/snapshot/tree.rs:34-50 | a directory that shows an image is snapshotted to that image: flooring times again changes nothing |
| `Trees.SumAny` | sandd/src/snapshot/manager.rs:111-158 | counts do not depend on the order `read_dir` gives |
| `Build.StoreEntry` | sandd/src/snapshot/manager.rs:116-176 | one directory entry: special files skipped, only a subdirectory can fail, count and size of the subtree, and an entry whose object stands for the child |
| `Build.BuildTree` | sandd/src/snapshot/manager.rs:105-186 | succeeds exactly on directories with no recorded time before the epoch; the file count is the number of paths that hold a file or a link, the total size the sum of the file lengths, both modulo 2^64; without collisions the root stands for the directory; the store only grows |
| `Counting.LeafPathsAre` | sandd/src/snapshot/manager.rs:122-158 | the enumerated paths are exactly those that hold a file or a link, each once |
| `Counting.TallyCounts` | sandd/src/snapshot/manager.rs:111-158 | adding up counts and sizes directory by directory gives the number of these paths and the sum of the lengths |
| `RestorePaths.EncodableIff` | sandd/src/snapshot/tree.rs:34-42 | a directory can be stored exactly when no path below it is from before the epoch |
| `Restore.RestoreFile` | sandd/src/snapshot/manager.rs:227-257 | the skip, the hash comparison and the copy: what is left at the path in every case, and which contents are hashed and copied |
| `Restore.RestoreEntry` | sandd/src/snapshot/manager.rs:223-288 | the same for files, subdirectories and links |
| `Restore.RestoreTree` | sandd/src/snapshot/manager.rs:205-323 | completes exactly when no path is blocked, and then leaves exactly the overlay of image and destination; otherwise stops at a blocked path, with everything outside the snapshot spared and every other entry untouched or fully restored; the store only gets the compared files |
| `Restore.RestoreEntries` | sandd/src/snapshot/manager.rs:221-288 | the restore phase stops at the first entry in listing order that cannot be restored: all before it are fully restored, nothing after it and no extra is touched |
| `Restore.RestoreNext` | sandd/src/snapshot/manager.rs:223-287 | one turn of the phase restores one more name and touches no other, or stops there |
| `Restore.DeleteExtras` | sandd/src/snapshot/manager.rs:290-319 | the cleanup phase keeps exactly the expected names, unchanged |
| `Restore.StoppedSpares` | sandd/src/snapshot/manager.rs:221-222 | a stop below one entry is a stop of the directory that leaves all its other names settled |
| `RestorePaths.RestoredIffFits` | sandd/src/snapshot/manager.rs:205-323 | completes exactly when at every path of the snapshot a link meets no directory, a subtree nothing or a directory, and a file nothing, a regular file, or a directory of its size and time; otherwise stops at a path that violates this and leaves it unchanged |
| `RestorePaths.CompletedLeaves` | sandd/src/snapshot/manager.rs:223-319 | what a completed restore leaves at every path: names, bytes, mode, time, target, and the directory's own old metadata |
| `RestorePaths.CopiesIff` | sandd/src/snapshot/manager.rs:229-252 | something is copied exactly when some file is missing, or differs in size or time and in hash |
| `RestorePaths.ProbesIff` | sandd/src/snapshot/manager.rs:231-241 | the files hashed for comparison are exactly those that differ in size or time |
| `RestoreLaws.FreshRestore` | sandd/src/snapshot/manager.rs:203-323 | over a missing or empty directory a restore cannot fail and shows exactly the image |
| `RestoreLaws.RoundTrip` | sandd/src/snapshot/manager.rs:105-323 | snapshot, then restore where nothing was: the restore completes with the same names, nesting, bytes, modes and link targets, times floored to seconds, special files gone; the copy is snapshotted to the same image |
| `RestorePaths.MirrorsAt` | sandd/src/snapshot/manager.rs:105-323 | at every path: the same bytes and mode with the time floored to the second, a link to the same target, a directory, or nothing for nothing and for a special file |
| `RestoreLaws.ShowsMirrors` | sandd/src/snapshot/tree.rs:34-50 | showing the image of a directory is mirroring it: names, bytes, modes, targets, floored times |
| `RestoreLaws.LossyLinks` | sandd/src/snapshot/manager.rs:125-127 | targets stored lossily are always valid UTF-8 when read back |
| `RestoreLaws.ExactIffNotStale` | sandd/src/snapshot/manager.rs:229-243 | a completed restore is exact at every depth, extras gone, if and only if it kept nothing stale |
| `RestoreLaws.RestoredExactIff` | sandd/src/snapshot/manager.rs:205-323 | whatever its outcome, a restore leaves exactly the image if and only if no path was blocked and nothing stale was kept |
| `RestoreLaws.HonestRestoresExactly` | sandd/src/snapshot/manager.rs:223-319 | kinds agree at shared paths and equal size and time mean equal bytes: the restore completes and is exact |
| `RestoreLaws.StaleFileSurvives` | sandd/src/snapshot/manager.rs:232-236 | a concrete file of equal size and time survives a restore |
| `RestoreLaws.Idempotent` | sandd/src/snapshot/manager.rs:229-256 | restoring again completes, copies nothing, hashes only what the first run hashed, and leaves the destination as it was |
| `RestoreLaws.RestoreTwice` | sandd/src/snapshot/manager.rs:229-256 | the second of two restores leaves the object store unchanged and copies no file out of it |
| `RestoreLaws.RestoreOfShown` | sandd/src/snapshot/manager.rs:229-256 | restoring over a directory that shows the image hashes and copies no file |
| `RestoreLaws.FailureSparesExtras` | sandd/src/snapshot/manager.rs:221-319 | a restore that stops at a path left it as it was, and in every directory above it every entry outside the snapshot; each other entry of the snapshot there is untouched or fully restored |
| `Interrupted.RestoredIsCutState` | sandd/src/snapshot/manager.rs:205-323 | what completed and stopped restores leave is among the states a cut can leave |
| `Interrupted.CutKeepsChance` | sandd/src/snapshot/manager.rs:227-287 | a cut blocks no path and makes nothing stale, provided half a copy does not show the recorded size and time or hash |
| `Interrupted.RerunExactIff` | sandd/src/snapshot/manager.rs:203-323 | run again from every state a cut can leave, a restore completes and is exact if and only if no path was blocked and nothing was stale at first |
| `HardLinks.ExactIff` | sandd/src/snapshot/manager.rs:227-257 | over shared inodes the restored files are exact if and only if files meeting on one inode are the same and nothing stale is kept |
| `HardLinks.AgreeingOverlay` | sandd/src/snapshot/object_store.rs:87-99 | if the files on its inode agree, in particular if it has the inode alone, a path ends up with what restoring it alone gives |
| `HardLinks.AgreeingIdempotent` | sandd/src/snapshot/manager.rs:229-256 | if files meeting on one inode are the same, restoring again copies nothing and changes nothing |
| `HardLinks.CopiesNothingIff` | sandd/src/snapshot/manager.rs:229-252 | a restore over shared inodes copies nothing if and only if each file finds its inode with the right hash, or with the right size and the time of the file before it |
| `HardLinks.IdempotentIff` | sandd/src/snapshot/manager.rs:229-256 | restoring again copies nothing exactly when the first restore has left every file kept, and then changes nothing |
| `HardLinks.Stamped` | sandd/src/snapshot/manager.rs:254-256 | an inode ends with the mode and time of the last file on it, and keeps its bytes if nothing is copied |
| `HardLinks.OthersKept` | sandd/src/snapshot/object_store.rs:95 | an inode no restored path leads to keeps its content |
| `HardLinks.SharedInodeFails` | sandd/src/snapshot/object_store.rs:95 | a concrete pair of hard links restored wrongly; a further restore copies both again and leaves the same |
| `TagIndex.RunCreate` | sandd/src/snapshot/manager.rs:87-99 | all steps of a create, run to the end |
| `TagIndex.RunDelete` | sandd/src/snapshot/manager.rs:405-422 | all steps of a delete remove exactly its tags and its record |
| `TagIndex.RecordIdIs` | sandd/src/snapshot/manager.rs:88 | a record is filed under its own id |
| `TagIndex.TempIsNoRecord` | sandd/src/snapshot/manager.rs:92 | the temporary name of a record is never a record |
| `TagLaws.AddTagsExact` | sandd/src/snapshot/manager.rs:461-470 | adding tags that do not clobber sets exactly those refs and keeps all others |
| `TagLaws.AddTagsLoses` | sandd/src/snapshot/manager.rs:465-467 | a clobbered ref is gone at the end |
| `TagLaws.CreatedRecords` | sandd/src/snapshot/manager.rs:76-99 | a create adds its own record and changes no other |
| `TagLaws.CreateKeepsIndexIff` | sandd/src/snapshot/manager.rs:63-99 | a create of new tags keeps the two-way index if and only if none is written through the name of another tag |
| `TagLaws.DeleteKeepsIndex` | sandd/src/snapshot/manager.rs:405-422 | a delete keeps the index, every other record, and frees all its tags |
| `TagLaws.TagOwner` | sandd/src/snapshot/manager.rs:380-392 | a tag belongs to at most one snapshot |
| `TagLaws.LaterTagDestroys` | sandd/src/snapshot/manager.rs:465-467 | from an empty directory, creating `v1.tmp` and then `v1.0` breaks the index |
| `CrashLaws.CreateCrashSafe` | sandd/src/snapshot/manager.rs:91-99 | stopping a create before any step or inside any write leaves every record whole and every ref (extension `tmp` excepted) naming a record that lists it |
| `CrashLaws.DeleteCrashSafe` | sandd/src/snapshot/manager.rs:409-420 | the same for stopping a delete anywhere |
| `CrashLaws.CreateCrashRecords` | sandd/src/snapshot/manager.rs:91-99 | a create that stops anywhere changes no other record, and its own is whole or absent |
| `CrashLaws.DeleteCrashRecords` | sandd/src/snapshot/manager.rs:409-420 | a delete that stops anywhere takes at most its own record, and that last |
| `CrashLaws.DeleteCrashed` | sandd/src/snapshot/manager.rs:409-420 | what a delete leaves when it stops: the first tags gone, the record only at the very end |
| `CrashLaws.EveryRunCrashOk` | sandd/src/snapshot/manager.rs:40-480 | the same after every run of creates and deletes with any number of crashes |
| `CrashLaws.EveryRunKeepsIndex` | sandd/src/snapshot/manager.rs:405-480 | after every crash-free run with new ids and no tag with extension `tmp`, ref t holds id s exactly when record s lists t |
| `Histories.SnapshotSurvives` | sandd/src/snapshot/manager.rs:40-422 | after any creates, restores and deletes, each completed or cut inside a put or a metadata step, every recorded snapshot can be restored to its image and every ref is backed; a snapshot that stays recorded keeps its record, its image and its objects |
| `Histories.MoveKeepsHealthy` | sandd/src/snapshot/manager.rs:40-422 | the same for one operation, completed or cut short |
| `Histories.CreateAdvances` | sandd/src/snapshot/manager.rs:73-101 | a create changes no other snapshot and keeps every one restorable |
| `Histories.DeleteAdvances` | sandd/src/snapshot/manager.rs:405-422 | a delete changes no other snapshot and keeps every one restorable |
| `Histories.CreateCrashRestorable` | sandd/src/snapshot/manager.rs:73-99 | stopping a create anywhere leaves every recorded snapshot restorable: objects come before the record |
| `Histories.DeleteCrashRestorable` | sandd/src/snapshot/manager.rs:405-422 | stopping a delete anywhere leaves every recorded snapshot restorable |
| `Snapshots.SnapshotManager.constructor` | sandd/src/snapshot/manager.rs:17-37 | a session opens on what earlier sessions and their crashes have left |
| `Snapshots.SnapshotManager.CreateSnapshot` | sandd/src/snapshot/manager.rs:40-102 | succeeds exactly for valid untaken tags, a clock after the epoch and a storable directory, and else says why in the code's order; the record has the given tags once each in order, and counts the directory's paths; the files are those of the create's steps; the index is kept unless a tag is written through the name of another; every recorded snapshot stays restorable |
| `Snapshots.SnapshotManager.StoreSnapshot` | sandd/src/snapshot/manager.rs:71-101 | builds the tree and records it, or changes nothing |
| `Snapshots.SnapshotManager.RecordSnapshot` | sandd/src/snapshot/manager.rs:87-99 | the record, then the refs: the files are those of the create's steps and every snapshot stays restorable |
| `Snapshots.SnapshotManager.PrepareTags` | sandd/src/snapshot/manager.rs:46-69 | sorted, without duplicates, exactly the given tags; which error comes first |
| `Snapshots.SnapshotManager.SaveRecord` | sandd/src/snapshot/manager.rs:87-94 | exactly one new record file |
| `Snapshots.SnapshotManager.AddTag` | sandd/src/snapshot/manager.rs:461-470 | the ref is set, and its temporary name is gone |
| `Snapshots.SnapshotManager.AddAllTags` | sandd/src/snapshot/manager.rs:96-99 | the loop over the tags |
| `Snapshots.SnapshotManager.RemoveAllTags` | sandd/src/snapshot/manager.rs:409-414 | exactly these refs are gone |
| `Snapshots.SnapshotManager.RemoveTag` | sandd/src/snapshot/manager.rs:473-480 | the ref is gone, if it was there |
| `Snapshots.SnapshotManager.GetSnapshot` | sandd/src/snapshot/manager.rs:395-402 | the record of an id, if there is one |
| `Snapshots.SnapshotManager.GetSnapshotByTag` | sandd/src/snapshot/manager.rs:484-493 | the id the ref holds, nothing without a ref, an error for an unreadable one |
| `Snapshots.SnapshotManager.RestoreSnapshot` | sandd/src/snapshot/manager.rs:189-201 | restores the image the snapshot was taken of, or fails on an unknown id and changes nothing; no snapshot is affected |
| `Snapshots.SnapshotManager.DeleteSnapshot` | sandd/src/snapshot/manager.rs:405-422 | succeeds exactly on a known id; its record and exactly the refs of its tags are gone, all other refs and records unchanged; all other snapshots stay restorable |
| `Sorting.SortSorts` | sandd/src/snapshot/manager.rs:49 | the sort is a sorted permutation |
| `Sorting.DedupSorted` | sandd/src/snapshot/manager.rs:375 | removing adjacent duplicates from a sorted sequence removes all duplicates and no element |
| `Sorting.LexLeIff` | sandd/src/snapshot/manager.rs:371 | the order of strings is that of the first differing character, a prefix coming first |
| `Sorting.SortedSetIs` | sandd/src/snapshot/manager.rs:48-50 | a tag list is sorted, has no duplicates and has exactly the given tags |
| `Listing.SortedOnce` | sandd/src/snapshot/manager.rs:366-375 | after the sort and the deduplication every snapshot is listed once, later creation times first, equal ones by id |
| `Listing.AllIds` | sandd/src/snapshot/manager.rs:345-355 | exactly the ids that have a record |
| `Listing.TaggedIds` | sandd/src/snapshot/manager.rs:327-342 | fails exactly when some tag is invalid or has no readable ref; otherwise the id each ref holds |
| `Listing.ListSnapshots` | sandd/src/snapshot/manager.rs:326-378 | whatever the refs: fails exactly when some tag names no record, otherwise exactly the records named by any of the tags, creation times descending, ids ascending within one second, ids unique |
| `Listing.LookupIsScan` | sandd/src/snapshot/manager.rs:333-342 | with the index, the tags that name a record are those some record lists, and the records named by a tag are those that list it |
| `Listing.LookupAfterCrash` | sandd/src/snapshot/manager.rs:333-342 | after any crash a valid tag (extension `tmp` excepted) that has a ref names a record that lists it |
| `Listing.FindSnapshotByTag` | sandd/src/snapshot/manager.rs:382-392 | the record the tag names; none exactly for a valid tag without a ref; otherwise an error |
| `EndToEnd.SnapshotThenRestore` | sandd/src/snapshot/manager.rs:40-323 | a snapshot succeeds exactly as `CreateSnapshot` says, and after any further creates, restores and deletes of others restoring it mirrors the directory it was taken of |
| `EndToEnd.SurvivorMirrors` | sandd/src/snapshot/manager.rs:40-422 | after any operations, completed or cut short, a snapshot still recorded restores where nothing was to a mirror of its directory, with no assumption on the hash beyond the objects stored |
| `Registry.DaemonRegistry.Register` | server/src/registry.rs:173-184 | replaces the entry of that id |
| `Registry.DaemonRegistry.Get` | server/src/registry.rs:186-188 | the connection filed under the id |
| `Registry.DaemonRegistry.Remove` | server/src/registry.rs:190-194 | removes by id whatever connection is filed there |
| `Registry.DaemonRegistry.CleanupStale` | server/src/registry.rs:228-244 | keeps exactly the entries whose last heartbeat is at most the timeout ago, and counts the others |
| `Registry.DaemonRegistry.Retain` | server/src/registry.rs:230-242 | visiting the entries in any order keeps exactly those not too old |
| `Registry.DaemonConnection.UpdateHeartbeat` | server/src/registry.rs:83-89 | the last heartbeat is now |
| `Registry.DaemonRegistry.HandleHeartbeat` | server/src/server.rs:185-203 | refreshes the entry of the id, and says whether there is one |
| `Registry.SocketTask.HandleMessage` | server/src/server.rs:205-284 | a heartbeat on a bound socket sets its entry's time to now and is acked, or is rejected if there is no entry, and changes no other entry; a Register binds the socket and files a new connection under the id, and is refused for an empty one |
| `Registry.SocketTask.CleanUp` | server/src/server.rs:157-160 | removes the entry of the bound id, and no other |
| `Protocol.SocketMoves` | server/src/server.rs:97-161 | a socket stays bound to its id through every step and finishes only by its own cleanup |
| `Protocol.EntryMoves` | server/src/registry.rs:173-194 | every entry is an old one not just cleaned up, or of an open socket bound to its id |
| `Protocol.StepKeepsSocks` | sandd/src/main.rs:533-569 | on each socket Registers sent equal one plus the rejecting acks read, all for one id |
| `Protocol.StepRoutesIff` | server/src/server.rs:215-245 | a step of any client keeps routing sound if and only if it does not read a Register under a second id while the first is routed to that socket |
| `Protocol.EveryRunRoutesIff` | server/src/server.rs:97-161 | a run of any clients routes soundly throughout if and only if no such Register is read |
| `Protocol.StepKeepsRoutes` | server/src/server.rs:97-161 | hence every step keeps routing sound while each socket carries one id |
| `Protocol.StepKeepsEvictions` | server/src/server.rs:157-160 | every step keeps the eviction account |
| `Protocol.EveryRunSound` | server/src/server.rs:97-161 | in every interleaving each entry routes to a socket bound to its id that has not finished cleanup, evictions of an id number at most its finished sockets plus its reaps, and each daemon's Registers are one plus its rejecting acks |
| `Heartbeats.StepOnEntry` | server/src/server.rs:157-203 | an entry goes only by the cleanup of a socket bound to it or by a reap more than 30 seconds after it was last heard of; hearing of it sets its time, and nothing else does |
| `Heartbeats.StepOnAbsent` | server/src/server.rs:215-245 | an absent entry comes back only by the reading of a Register |
| `Heartbeats.StaysFiledIff` | server/src/server.rs:408-431 | in any run a daemon stays registered throughout exactly when no socket bound to it cleans up and at every reap its last heartbeat read is at most 30 seconds old |
| `Heartbeats.EvictionCounted` | server/src/registry.rs:228-244 | the eviction counts count exactly the entries that go, the reaper's those it takes |
| `Protocol.CleanUpCompleteIff` | server/src/server.rs:157-160 | cleanup leaves no entry of the socket if and only if all its entries are under the id it is bound to |
| `Protocol.TwoIdsDangle` | server/src/server.rs:236-245 | a client with two ids on one socket leaves an entry of a dead socket |
| `Recovery.OnlyRemainingSocket` | server/src/server.rs:157-203 | once every other socket bound to an id has finished, the id routes to the remaining one or nowhere |
| `Recovery.CalmKeepsAlone` | server/src/server.rs:543-556 | this stays so through any step that does not close, reap or reconnect |
| `Recovery.RegisterArrives` | server/src/server.rs:215-245 | a Register on its way stays on its way until it routes |
| `Recovery.NackArrives` | sandd/src/main.rs:533-569 | a rejecting ack on its way becomes a Register on its way |
| `Recovery.BeatArrives` | server/src/server.rs:258-284 | a heartbeat on its way becomes a rejecting ack on its way, or the id is routed |
| `Recovery.RoundTripRecovers` | server/src/server.rs:543-556 | one round trip of heartbeat, ack and Register restores routing, however it interleaves with everything else |
| `Recovery.FourStepsRecover` | server/src/server.rs:557-600 | with idle channels four steps on the live socket are enough |
| `Recovery.RaceAndRepair` | server/src/server.rs:556-600 | the documented race, from the initial state: a dying socket evicts the live one, and the next heartbeat brings it back |
| `RecoveryTime.RecoversInTime` | server/src/server.rs:543-556 | with heartbeats every period and messages read within a delay, the live daemon is routed again within one period and three delays, and stays so |
| `Requests.PendingRequests.RegisterRequest` | server/src/registry.rs:107-109 | the waiter is filed; the object changes as in the step system below |
| `Requests.PendingRequests.CompleteRequest` | server/src/registry.rs:111-115 | exactly the waiter of that id gets the response, unless it has gone, and is forgotten; every other waiter, and one that has gone, is unchanged; the object changes as in the step system below |
| `Requests.PendingRequests.IsBusy` | server/src/registry.rs:117-119 | busy exactly while some request is pending |
| `Requests.StepKeepsBalance` | server/src/registry.rs:107-115 | on every connection object registered stays completed plus pending |
| `Requests.StepKeepsWaiting` | server/src/server.rs:287-313 | a pending request stays pending on the one object it was registered with, with nothing received |
| `Requests.EveryRunMatches` | server/src/registry.rs:107-115 | in every interleaving a waiter receives at most one message, with its own id, and registered equals completed plus pending on every object |
| `Requests.DeliveredIff` | server/src/server.rs:287-313 | a response is delivered exactly when its waiter has not gone and the registry's current object for its sender still holds it |
| `Requests.OrphanNeverAnswered` | server/src/python.rs:164-184 | a request on a replaced or evicted object is never answered, in any run |
| `Requests.TimedOutNeverAnswered` | server/src/registry.rs:111-115 | nor is a request answered once its caller has timed out |
| `Requests.AnswerableIff` | server/src/server.rs:295-311 | a waiting request can still be answered by some run if and only if its caller has not timed out and its object is current for some daemon |
| `Requests.OrphanedBy` | server/src/registry.rs:173-194 | a current object's waiting request becomes an orphan exactly by the next Register of its daemon or its eviction |
| `Requests.ReconnectOrphans` | server/src/registry.rs:173-184 | register, request, register again: the daemon's answer is dropped |
| `Reaper.HeartbeatMonitor` | server/src/server.rs:408-431 | the monitor's loop applies one reap per tick |
| `Reaper.EntryFollows` | server/src/registry.rs:228-244 | each entry follows its own course, whatever the others do |
| `Reaper.LivelyNeverReaped` | server/src/server.rs:416-424 | heartbeats never more than 30 seconds apart keep an entry forever |
| `Reaper.ThirtySecondsIsTight` | server/src/registry.rs:91-98 | one millisecond more is not enough for that promise |
| `Reaper.SilentIsReaped` | server/src/server.rs:408-431 | an entry last heard of in second L is there until a tick in seconds L+31 to L+35, and gone then |
| `ServeLoop.Serve` | sandd/src/main.rs:445-592 | the deadline exit comes only after 30 seconds and six heartbeat intervals (capped at 64 bits) without an ack or handled message, and less than a second later; shutdown comes first, then the dead heartbeat; the other exits are the peer's and a Register that cannot be sent; one Register per session and per rejecting ack answered |
| `ServeLoop.SelectLoop` | sandd/src/main.rs:453-594 | the same of the loop for any timeout |
| `ServeLoop.LastActiveIs` | sandd/src/main.rs:525-592 | the loop counts as active when it is done with the last ack or inline message, never before that was readable and handled |
| `ServeLoop.DoneWithIs` | sandd/src/main.rs:574-592 | when it is done: the longest of the busy stretches that begin at the start or when a message becomes readable |
| `ServeLoop.RejectionsAre` | sandd/src/main.rs:539-569 | the Registers answer exactly the rejecting acks that can be answered |
| `ServeLoop.Take` | sandd/src/main.rs:504-592 | taking a message keeps the loop on course: when it was last acked, when it is done, how many Registers it has sent; and which messages end the session |
| `ServeLoop.Sleep` | sandd/src/main.rs:457-504 | the loop wakes at the first of check, message, shutdown and dead heartbeat |
| `ServeLoop.ActiveInTime` | sandd/src/main.rs:537-592 | every ack and handled message counts no earlier than it became readable |
| `ServeLoop.DeadlineMeansSilence` | sandd/src/main.rs:491-502 | at a deadline exit no ack or message to handle became readable in the last timeout, however long the loop was busy |
| `ServeLoop.AcksKeepAlive` | sandd/src/main.rs:533-537 | acks at gaps below the timeout: no deadline exit until a full timeout after the last of them |
| `ServeLoop.LastDialNext` | sandd/src/main.rs:146-149 | what one more pass does to "the last dial could not reach the controller" |
| `ServeLoop.Reconnect` | sandd/src/main.rs:149-219 | setup is forced exactly when the latest dial attempted could not reach the controller; the loop ends exactly at the first pass that dials, connects and ends by a shutdown |

## Left out

- BLAKE3: the hash is any function to hexadecimal digests. Where a result needs it, no collision is assumed among the contents actually put or compared, and only there.
- JSON text and UTF-8: an abstract codec that decodes what it encodes and makes bytes valid UTF-8. Entry names are Unicode.
- Disk errors, permissions, and anyone else writing to the store, the workspace or the destination meanwhile. The store lies outside both; the workspace root is a directory and not a link to one.
- Hard links: in `Restore`, `RestoreLaws`, `Interrupted`, `Snapshots` and `EndToEnd` no two files of the destination share an inode, and none shares one with a file outside it or with an object of the store. `HardLinks` covers destination files that do share inodes; an inode shared with the store is left out.
- RestoreLaws.ExactIffNotStale: for destinations whose files share no inode; `HardLinks.ExactIff` is the condition for the others.
- RestoreLaws.RestoredExactIff: for destinations whose files share no inode.
- Interrupted.RerunExactIff: for destinations whose files share no inode; a power loss that reorders or drops finished writes is left out.
- RestoreLaws.HonestRestoresExactly: for destinations whose files share no inode.
- RestoreLaws.Idempotent: for destinations whose files share no inode; `HardLinks.AgreeingIdempotent` and `HardLinks.IdempotentIff` cover the others.
- RestoreLaws.RestoreTwice: for destinations whose files share no inode.
- Restore.RestoreFile: what the code does when it acts through a symbolic link or on a special file at the path is not modelled, because it depends on files outside the destination; the run ends as `Diverted` there.
- Restore.RestoreEntry: as for `Restore.RestoreFile`. Destination directories are values, and only `Destination.node` is updated in place. New directories and links get metadata `made` from the system; the system's own changes to a directory's time and length are not modelled.
- Restore.RestoreTree: as for `Restore.RestoreFile`. It is stated for roots that stand for a directory, as all recorded roots do, so the errors for missing or malformed objects are not met.
- Snapshots.SnapshotManager.RestoreSnapshot: requires that the hash has not collided on what was put, because only then does the record stand for the snapshot's directory.
- Snapshots.SnapshotManager.CreateSnapshot: ids are new, as random UUIDs are. The workspace path in the record is left out.
- Snapshots.SnapshotManager.GetSnapshotByTag: trimming the text of a ref is left out, since ids have no surrounding spaces; a ref that holds anything but an id counts as unreadable.
- Listing.ListSnapshots: for directories whose record files are whole, as every run of creates and deletes leaves them, with any crashes.
- EndToEnd.SnapshotThenRestore: for a hash without collisions, because a method must decide at the start what it may call later; `EndToEnd.SurvivorMirrors` states the result without that, and with crashes.
- Build.BuildTree: the counters wrap, as in release builds; a debug build would stop instead. Whether a link's target is a directory is an arbitrary choice, since it only matters on Windows.
- Protocol.EveryRunSound: failed sends of acks appear as messages never read, and a failed Register as a break of the socket. Steps are atomic. In the code a heartbeat looks its entry up and then writes the time outside the map, so a reap in between can be followed by a success ack; no theorem here says that a success ack means a present entry.
- RecoveryTime.RecoversInTime: the period and the delay are assumed of the run; that they hold is up to the network.
- ServeLoop.Serve: the heartbeat task appears as the time its send fails; arrivals and passes of the loops are finite sequences of any length.
- Reaper.HeartbeatMonitor: ticks come at most five seconds apart; a monitor delayed longer reaps that much later.
- Sessions, terminals, command execution, file transfer, statistics, labels, the Python interface beyond request matching, tunnel setup and WebSocket framing.
