# cowfs: a verified model of its undo history

cowfs is a stackable Linux file system. Before each write, unlink, rename or setattr it records a version of the
file: the old name, the owner and mode, or a shadow copy of the content. Any retained version can be rolled back
through an ioctl. This project models the part that makes this work and proves what it promises:

| module | what it models |
|---|---|
| `CowTypes` | the version record, constants and error numbers |
| `ShadowNames` | the printed shadow paths `root/ino_ts` and the removal by base name |
| `ShadowCopy` | the chunked copy and restore loops, with partial reads and short or failing writes |
| `VersionLists` | what the version store means: a map from inode number to a newest-added-first list of at most 64 |
| `Vaults` | the undo history: store, shadow directory and clock, with capture and collection as steps |
| `LowerFs` | the lower file system: directories, inodes, and the VFS calls that change them |
| `CowFsModel` | cowfs as a state machine: handles, the capturing operations, rollback, collection |
| `Histories` | whole runs: where a version comes from, how long it stays, what a rollback to it restores |
| `Effects` | what every operation does to names, files, handles and versions, on every path, told entry by entry |
| `Rollbacks` | what one rollback undoes, per kind of version, after failures, after an unlink |
| `Unwinding` | rolling back the versions of a file recorded since some moment, newest first |
| `Leftovers` | which shadow files nobody will ever remove |
| `Departures` | short runs at the end of which the code does not do what its documentation promises |
| `Threads` | interleaved threads: allocate, copy in chunks, publish under the lock, detach, free outside it |
| `Atomic` | captures and collections of the state machine are runs of those thread steps |
| `ShadowStore`, `VersionStore`, `CowFs` | the code as it runs: the shadow directory, the hash table of per-inode records, and the mount, as classes whose methods are proved to be steps of the state machine |

`VersionStore` is a table of 256 chains of heap records, each with a list and its separate counter, for an arbitrary
hash function into the buckets. `CowFs.Mount` combines it with the shadow directory, the lower file system and the
open files. Its methods for opening, releasing, writing, unlinking, renaming, changing attributes, collecting, mounting
again, unmounting and rolling back are each proved equal to a step of `CowFsModel.Step`, so every theorem about runs
is a theorem about sequences of these calls. LIST and the unloading of the module are methods with contracts of their
own. `Create` and `Evict` are steps without a method: the lower file system takes them.

## Assumptions

- What the surroundings decide is a parameter: allocation results, the chunks that reads return, short and failing
  writes, results of lower VFS calls, which shadow files cannot be removed, whether the shadow directory was found at
  the mount, the clock, the numbers of new inodes. Nothing is assumed to succeed unless a
  lemma says so; in particular the invariants hold when captures fail and the operation goes on without one.
- The clock is a nonzero 64-bit number that strictly increases from allocation to allocation. `Threads` only needs
  distinct (inode, timestamp) pairs.
- The state machine takes an operation as one step. `Threads` interleaves the steps inside operations, and
  `Atomic.RunIsARun` makes every run of the machine one of those interleavings.
- The shadow root is at most 213 characters long, so that every path fits the 256-byte buffers.
  `ShadowNames.UniquePathIff` says exactly when a path stays unique without this.
- A lower write changes content only, and a truncation or restore leaves owner and mode alone.
- Names are those the VFS lets through: not empty, at most 255 characters, no slash; they fit `orig_name`. User
  operations do not touch `.cowfs_shadow`.
- A read of a regular file returns 0 only at its end, and no write stores more than it was given.
- Histories are kept by inode number: what is said of a file is said of the inode with that number.

## Where the code and its documentation part

The model follows the code. (`README.md` with a line number is the repository's own.)

- `README.md:606` lists mtime among the saved attributes; a rollback sets owner, group and mode only
  (`kernel/cowfs_ctl.c:279-284`). `README.md:331-334` says that no content is saved for a setattr; a truncate saves it
  (`kernel/cowfs_inode.c:220-232`).
- `README.md:306-308` says that unlink remembers name and directory, and `README.md:360` that rename remembers old and
  new path; both save the old base name only. `Rollbacks.RollbackOfMissing` recreates the file in whatever directory
  is asked for, `Rollbacks.FindsTheDeletedIff` says exactly when the file that was deleted last is the one found, and
  `Departures.WrongFileRecreated` is a run after which it is not. `Rollbacks.RenameRollbackSparesOthersIff` says
  exactly when undoing a rename takes another file's name away, and `Departures.RollbackReplacesFile` is a run that
  does. `Rollbacks.RenameUndoneIff` says exactly which renames a rollback undoes, and
  `Departures.RollbackStaysInDirectory` is a run that it does not.
- The comment at `kernel/cowfs_versions.c:181-182` promises that the search for a deleted file finds the version added
  last; the code takes the largest timestamp over all lists. Without interleaving these agree.
  `Threads.OvertakenDeletion` is an interleaving of two unlinks in which every list is in time order and the search
  does not find the last one added; `Threads.LastAddedIsFoundIff` says exactly when it does.
- `cowfs_version_find` with timestamp 0 takes the head of one list. `Threads.OvertakenPublication` is an interleaving
  after which that is not the newest version; `Threads.PublishingKeepsOrderIff` says when a list stays in time order.
- A short write is reported as success and truncates the copy (`kernel/cowfs_shadow.c:143-149`):
  `ShadowCopy.CopyExactIff`, `ShadowCopy.ShortWriteIsReportedAsSuccess`.
- The cutoff of a collection wraps around when the clock is younger than the window (`kernel/cowfs_versions.c:216`):
  `VersionLists.WindowExactIff`, `VersionLists.EarlyClockDiscardsEverything`.
- A rollback drops three errors: the restore into a recreated file (`kernel/cowfs_ctl.c:88-92`, `216-219`), the lookup
  in the UNLINK branch (`kernel/cowfs_ctl.c:210-221`), and `notify_change` at the end (`kernel/cowfs_ctl.c:286`).
  `Rollbacks.MissingRollbackIff`, `Rollbacks.UnlinkRollbackIff` and `Rollbacks.SetattrRollbackIff` say exactly when a
  rollback that returns 0 did its work, read errors and short writes of the restore included;
  `Departures.RecreatedEmpty`, `Departures.LookupErrorDropped` and `Departures.ModeNotRestored` are runs after which it
  did not.
- `README.md:391-392` promises that collection leaves no garbage in the shadow directory. A copy that fails, a version
  that cannot be recorded, and a removal that fails (`kernel/cowfs_shadow.c:238-261`) each leave a shadow file for
  good: `Leftovers.TidyIff` says exactly which steps do, `Departures.FailedCopyStaysBehind` and
  `Departures.FailedRemovalStaysBehind` are runs with such a step.
- A handle that has taken its snapshot records nothing more (`kernel/cowfs_file.c:60-62`). `Unwinding.RestorableIff`
  says which moments can still be restored afterwards: those at which no open handle is both marked and writable.
- Shadow files are removed only while a mount is live (`kernel/cowfs_shadow.c:232-233`), but the module is unloaded
  after the unmount, so the final teardown removes none: `CowFs.Mount.Unload`.

## Model

| member | source | states |
|---|---|---|
| ShadowNames.DecInjective | kernel/cowfs_shadow.c:105-106 | Printed decimal numbers determine the number. |
| ShadowNames.FileNameInjective | kernel/cowfs_shadow.c:105-106 | Distinct (inode, timestamp) pairs print to distinct names `ino_ts`. |
| ShadowNames.BaseNameOfFullPath | kernel/cowfs_shadow.c:235-236 | The base name found by the last-slash search is exactly the printed `ino_ts`, whatever slashes the root contains. |
| ShadowNames.PathsDistinct | kernel/cowfs_shadow.c:100-107 | Two shadow paths that fit the buffer are equal only for the same pair. |
| ShadowNames.RemovalHitsTheCopy | kernel/cowfs_shadow.c:235-249 | Removal by base name deletes exactly the file that the copy created, for every path that fits. |
| ShadowNames.ShortRootFits | kernel/cowfs_shadow.c:100-107 | With a root of at most 213 characters the path of every pair of 64-bit numbers fits and is not empty. |
| ShadowNames.TruncatedCollides | kernel/cowfs_shadow.c:105-106 | Every path that does not fit is shared with another timestamp of the same inode. |
| ShadowNames.ExtendedCollides | kernel/cowfs_shadow.c:105-106 | A path of exactly 255 characters equals the truncated path of ten times its timestamp. |
| ShadowNames.UniquePathIff | kernel/cowfs_shadow.c:100-107 | A shadow path is unique among all pairs of 64-bit numbers if and only if it is shorter than 255 characters, or exactly as long and its timestamp has no longer 64-bit extension. |
| ShadowCopy.LoopTerminates | kernel/cowfs_shadow.c:143-151 | Both loops stop after at most one round per remaining byte and one more. |
| ShadowCopy.LoopAppendsPrefix | kernel/cowfs_shadow.c:143-151 | With all-or-error writes, however reads are split, the target grows by a prefix of the source, by all of it if no error is returned. |
| ShadowCopy.CopyExactIff | kernel/cowfs_shadow.c:143-149 | A copy that returns 0 equals its source if and only if no write was short. |
| ShadowCopy.ShortWriteIsReportedAsSuccess | kernel/cowfs_shadow.c:143-149 | A concrete short write whose truncated copy is reported as success. |
| ShadowCopy.LoopStopsShort | kernel/cowfs_shadow.c:202-210 | If reads do not fail and writes are all or nothing, an error means that bytes are missing. |
| ShadowCopy.LoopMoved | kernel/cowfs_shadow.c:143-151 | The target grows by exactly the bytes that writes stored, and by the rest of the source if and only if they are as many. |
| ShadowCopy.RestoreExactIff | kernel/cowfs_shadow.c:164-221 | Whatever a restore returns, with any read errors and short writes: the target holds the saved bytes if and only if the loop was reached and stored as many as were saved, or the truncated target is right because none were, or the untouched target held them already. |
| ShadowCopy.Transfer | kernel/cowfs_shadow.c:143-151 | The loop with its two positions computes the specified result: the source exactly on success with full writes, a prefix of it on error. |
| ShadowCopy.CopyRestoreRoundTrip | kernel/cowfs_shadow.c:109-221 | Copy followed by restore over a target with any content gives back exactly the source bytes. |
| ShadowCopy.FailedRestoreLeavesPrefix | kernel/cowfs_shadow.c:180-221 | A restore that fails leaves the target as it was or holding a prefix of the saved bytes. |
| ShadowCopy.LoopSucceedsIff | kernel/cowfs_shadow.c:143-151 | The loop returns 0 if and only if no read and no write of it failed. |
| ShadowCopy.CopyResult | kernel/cowfs_shadow.c:109-162 | A copy returns 0 if and only if nothing in it failed, and leaves a file if and only if both files could be opened, with as many bytes as the writes stored. |
| ShadowCopy.RestoreResult | kernel/cowfs_shadow.c:164-221 | A restore returns 0 if and only if there is a shadow file and nothing failed; the target is untouched before the truncation and has as many bytes as the writes stored after it. |
| VersionLists.FindDeleted | kernel/cowfs_versions.c:184-208 | The table-wide search has a result: an UNLINK version of that name with the largest timestamp among all lists, none only if there is no match. |
| VersionLists.FindByTime | kernel/cowfs_versions.c:163-168 | In a time-ordered list a search by timestamp finds exactly the version that carries it, and a search for 0 the newest. |
| VersionLists.EvictedIsOldest | kernel/cowfs_versions.c:108-112 | The version that a full time-ordered list gives up is its oldest. |
| VersionLists.KeepAll | kernel/cowfs_versions.c:225-232 | A collection leaves a list without expired versions as it is. |
| VersionLists.KeepIsPrefix | kernel/cowfs_versions.c:225-232 | On a time-ordered list a collection cuts off exactly a tail. |
| VersionLists.WindowExactIff | kernel/cowfs_versions.c:215-216 | The unsigned cutoff makes a collection discard exactly the versions older than the window if and only if the clock has run for a whole window, or shows 0, or the product wraps around to the clock or one below it. |
| VersionLists.EarlyClockDiscardsEverything | kernel/cowfs_versions.c:215-216 | Ten seconds after the epoch the default window discards a version made this instant. |
| VersionLists.CollectTwice | kernel/cowfs_versions.c:210-247 | With a fixed window and a clock that does not go back, two collections leave the same lists as the later one alone. |
| Vaults.VaultStepInv | kernel/cowfs_versions.c:52-125 | Every capture and every collection, failed captures and failed removals included, keeps: at most 64 versions per list in strictly descending time, timestamps distinct in the whole table, WRITE and UNLINK with data and RENAME without, path present exactly when data is, and the shadow file of every version with data present under its own name. |
| Vaults.PublishInv | kernel/cowfs_versions.c:93-125 | Adding a version newer than all others, with eviction and removal of the evicted shadow file, keeps that invariant. |
| Vaults.GcInv | kernel/cowfs_versions.c:210-247 | So does a collection with any window, wrapped cutoff included. |
| Vaults.TargetIsOwn | kernel/cowfs_shadow.c:235-249 | A removal can only hit the shadow file of the version it was asked to remove. |
| Vaults.SameTime | kernel/cowfs_versions.c:57-60 | A timestamp names one version in the whole store. |
| Vaults.ShadowStays | kernel/cowfs_versions.c:66-71 | A version that a step leaves in the store keeps its shadow file byte for byte. |
| Vaults.StepList | kernel/cowfs_versions.c:93-125 | The list of each inode after a step: longer by the version published for it, filtered by a collection, otherwise the same. |
| Vaults.ListStays | kernel/cowfs_versions.c:225-232 | A step that adds nothing to a list and expires none of its versions keeps it, failed captures of its inode included. |
| Vaults.AppearsByCapture | kernel/cowfs_file.c:64-81 | A version appears only by a capture of its inode whose copy succeeded, and its shadow file is that copy. |
| Vaults.LeavesOnlyBy | kernel/cowfs_versions.c:108-112 | A version leaves the store only as the last of a full list or by expiry. |
| Vaults.Position | kernel/cowfs_versions.c:108-115 | A step moves a version at most one place back, and only one that adds to its list does; a capture that fails does not. |
| Vaults.FindsEach | kernel/cowfs_versions.c:152-174 | In every reachable state each listed version is found by its timestamp, and the newest by 0. |
| Vaults.TimeOrder | kernel/cowfs_versions.c:108-115 | In every reachable state search for 0 returns the maximal timestamp, eviction removes the minimal one, and a collection removes exactly a suffix of each list. |
| LowerFs.JoinSplits | kernel/cowfs_ctl.c:46-56 | Cutting a joined path at its last slash gives back directory and name, also in the root directory. |
| CowFsModel.MountedInv | kernel/cowfs_super.c:97-135 | A fresh mount satisfies the invariant of the whole file system. |
| CowFsModel.StepInv | kernel/cowfs_ctl.c:169-292 | Every operation, whatever fails in it, keeps the invariant of version store, shadow directory, lower file system and handles together. |
| CowFsModel.RunInv | kernel/cowfs_inode.c:113-271 | So it holds in every state of every run. |
| Histories.HasOrigin | kernel/cowfs_file.c:64-81 | Every version a run left in the store was published by one of its steps for that inode, and its shadow file still holds what the inode held then, if and only if no write of that copy was short. |
| Histories.SelectsByTime | kernel/cowfs_ctl.c:181-189 | A rollback of a path by timestamp selects the version of its inode that carries it, by 0 the newest. |
| Histories.SuccessfulRestore | kernel/cowfs_ctl.c:224-227 | A rollback of saved data that returns 0 sets exactly this content and changes no directory and no other file. |
| Histories.PointInTime | kernel/cowfs_ctl.c:187-227 | After any run, a successful rollback to a retained WRITE or SETATTR version with data gives the inode exactly its content at that capture, if and only if no write of the capture was short, and changes nothing else. |
| Histories.Retention | kernel/cowfs_versions.c:108-115 | A version at place k of its list survives every run with fewer than 64 - k later additions to the list that does not expire it, however many captures failed. |
| Histories.StaysFindable | kernel/cowfs_versions.c:152-174 | The newest version stays findable by its timestamp through at least 63 later additions to its list, with any collections that do not expire it. |
| Histories.WhyGone | kernel/cowfs_versions.c:108-112 | For every version that a run lost there is a step that pushed it out of a full list or expired it. |
| Histories.OneSnapshotPerHandle | kernel/cowfs_file.c:60-64 | While a handle is open it takes at most one snapshot, none if it is already marked, and the mark never goes away. |
| Histories.WriteVersionsAreSnapshots | kernel/cowfs_file.c:60-77 | Every WRITE version comes from such a first write through a handle on its inode. |
| Histories.CaptureSaves | kernel/cowfs_inode.c:123-143 | A capture that succeeds puts its version first on the list and the content of that moment into its shadow file. |
| Histories.TruncatingOpenTakesNone | kernel/cowfs_inode.c:260-268 | After a truncate through a handle that handle never takes a snapshot, and the newest version already holds the content before the truncate if its capture succeeded. |
| Rollbacks.UndoDispatch | kernel/cowfs_ctl.c:224-288 | What undoing a version of each kind does to the file it is applied to. |
| Rollbacks.Dispatch | kernel/cowfs_ctl.c:187-290 | In every reachable state, a rollback whose lower calls succeed restores content exactly for versions with data, owner and mode exactly for SETATTR, the name exactly for RENAME, and changes nothing else. |
| Rollbacks.RollbackTwice | kernel/cowfs_ctl.c:187-290 | A rollback does not use its version up: repeated at once under the name that the file then has, it selects the same version, succeeds again and changes nothing. |
| Rollbacks.FailedRestore | kernel/cowfs_ctl.c:224-227 | A rollback of data that fails changes one content only: to itself or to a prefix of the saved bytes. |
| Rollbacks.FailedRestoreIsRecoverable | kernel/cowfs_shadow.c:180-221 | After it, a later successful rollback to the same version gives all of the saved content, as if the first had not been tried. |
| Rollbacks.RenameRollbackSparesOthersIff | kernel/cowfs_ctl.c:231-247 | After undoing a rename all other names of the directory still lead to their files if and only if the old name was free or one more name of the same file. |
| Rollbacks.RenameUndoneIff | kernel/cowfs_inode.c:167-191 | The immediate rollback of a captured rename returns 0 and gives back the old lower file system if and only if the rename stayed in its directory and took a free name, or did nothing and the new directory has the old name for the same file. |
| Rollbacks.UnlinkRollbackIff | kernel/cowfs_ctl.c:204-222 | When the rollback of an UNLINK version through a path that resolves returns 0, the deleted name leads to the new file if and only if the lookup, whose error is dropped, succeeded; otherwise nothing changed; and the new file holds the saved bytes if and only if the restore delivered them all, whatever it returned. |
| Rollbacks.RecreatedContentIff | kernel/cowfs_ctl.c:84-92 | A recreated file holds the saved bytes if and only if the restore, whose result is dropped, delivered them all. |
| Rollbacks.MissingRollbackIff | kernel/cowfs_ctl.c:34-98 | When the rollback of a missing path returns 0 the path leads to a new file, which holds the saved bytes if and only if the restore delivered them all. |
| Rollbacks.SetattrRollbackIff | kernel/cowfs_ctl.c:277-288 | A SETATTR rollback that returns 0 has restored owner and mode if and only if the last call, whose result is dropped, succeeded or they were right already. |
| Rollbacks.FailedOperationRecords | kernel/cowfs_inode.c:139-151 | An unlink, rename or setattr that fails below still records its version first on the list and changes nothing in the lower file system. |
| Rollbacks.UndoFailedUnlink | kernel/cowfs_ctl.c:204-222 | The immediate rollback of a failed unlink ends with an existing-name error and changes nothing. |
| Rollbacks.UndoFailedOperation | kernel/cowfs_ctl.c:224-288 | The immediate rollback of a failed rename or setattr succeeds and leaves every name, content, owner and mode as it was. |
| Rollbacks.FoundByItsTime | kernel/cowfs_versions.c:194-203 | A listed UNLINK version is found by its own timestamp. |
| Rollbacks.FoundByZeroIff | kernel/cowfs_versions.c:194-203 | It is found by timestamp 0 if and only if no newer UNLINK version of that base name is listed anywhere. |
| Rollbacks.FindsTheDeletedIff | kernel/cowfs_versions.c:184-208 | Over any run: the unlinked file is found by 0 if and only if no later unlink of that base name, in any directory, left a version that is still listed. |
| Rollbacks.RollbackOfMissing | kernel/cowfs_ctl.c:34-98 | After a captured unlink and any run with fewer than 64 additions to its list that does not expire it, rolling back the missing name in any directory, by timestamp or by 0 while no later listed version has the name, makes a new file there with the unlinked content, filtered mode and the caller's owner, and changes nothing else. |
| Rollbacks.UnlinkRoundTrip | kernel/cowfs_ctl.c:34-98 | Unlink, any such run, rollback with timestamp 0: the name is back in its directory with its content and filtered mode. |
| Rollbacks.UnlinkUndoneAtOnce | kernel/cowfs_inode.c:123-147 | Rolled back at once, an unlink leaves every name of every directory reading as before. |
| Rollbacks.KeepsSavedData | kernel/cowfs_versions.c:66-71 | The saved bytes of a version are the same at both ends of any run that leaves it in the store. |
| Rollbacks.GoneForGood | kernel/cowfs_versions.c:52-64 | A version that left the store does not come back. |
| Effects.FailsOpen | kernel/cowfs_inode.c:123-151 | Write, unlink, rename and setattr do the same to files and handles whatever their capture came to. |
| Effects.NoMemoryNoVersion | kernel/cowfs_versions.c:54-56 | Without memory for a version the history does not change. |
| Effects.UnlinkEffect | kernel/cowfs_inode.c:146-151 | A successful unlink takes exactly its name away, also when nothing could be saved. |
| Effects.RenameEffect | kernel/cowfs_inode.c:177-191 | A successful rename makes the new name, free or taken, lead to the file and takes the old one away, unless both led to it already; no other entry and no file changes. |
| Effects.SetattrEffect | kernel/cowfs_inode.c:244-249 | A successful setattr sets exactly the attributes given; a new size cuts the content off or fills it up with zeros. |
| Effects.WriteEffect | kernel/cowfs_file.c:85-90 | A write changes the content of its file only, and only through a writable handle. |
| Effects.NothingElseChangesFiles | kernel/cowfs_inode.c:146-151 | An operation that fails below, an opening, a release, a collection, a mount and an unmount change no file. |
| Effects.OutsideEffect | kernel/cowfs_inode.c:92-111 | A file created through the lower file system is one new entry and one new file. |
| Effects.HandleEffect | kernel/cowfs_file.c:59-64 | A handle comes unmarked with an opening, goes with its release, and is marked exactly by a write through it while writable, whatever the capture came to, and by a successful truncate through it. |
| Effects.AddedVersion | kernel/cowfs_inode.c:206-235 | A version that appears is of the kind of the operation, with its time, the owner and mode of the moment and the old name, and has data exactly for a write, an unlink or a change of size whose copy succeeded. |
| Effects.RecordsWhenItCan | kernel/cowfs_file.c:60-77 | Whenever memory and copy allow it the operation is recorded first on the list of its file, with the content of the moment in the shadow file if and only if no write was short. |
| Effects.CollectionKeeps | kernel/cowfs_versions.c:222-235 | A collection keeps of every list exactly what is not older than its cutoff, a prefix. |
| Effects.HistoryChangesOnlyBy | kernel/cowfs_ctl.c:169-292 | Nothing but captures and collections changes the version store or the shadow directory, a rollback in particular does not. |
| Effects.ClockEffect | kernel/cowfs_versions.c:60 | The clock is the time that was read last. |
| Effects.NoDataNoContent | kernel/cowfs_ctl.c:224-229 | A rollback to a version without data leaves every content alone, whatever fails in it. |
| Effects.ChmodKeepsLaterContent | kernel/cowfs_inode.c:206-235 | After a change of owner or mode and any run that keeps its version, a rollback to it leaves the content that the file has by then. |
| Effects.TruncateWithoutCopy | kernel/cowfs_inode.c:226-234 | A truncate whose copy fails is recorded without data; the rollback to it restores owner and mode and leaves the truncated content. |
| Effects.UnmountedFilesStay | kernel/cowfs_shadow.c:91-98 | After an unmount every shadow file stays through any run without a successful mount, those of versions made so far byte for byte. |
| Effects.MountedWithoutShadows | kernel/cowfs_super.c:130-132 | After a first mount that does not find its shadow directory no shadow file is removed until a later mount finds it. |
| Effects.CollectionRemoves | kernel/cowfs_versions.c:243-246 | With a live mount a collection removes the file of every expired version that a removal gets at. |
| Effects.FailedRemount | kernel/cowfs_shadow.c:55-89 | A later mount that does not find the shadow directory changes nothing. |
| Effects.RemountRemoves | kernel/cowfs_shadow.c:82-84 | One that does changes no version and no file, and makes collections remove again. |
| Effects.ForeignPath | kernel/cowfs_ctl.c:17-20 | A rollback of a path outside the mount returns EINVAL and changes nothing. |
| Effects.NoSuchVersion | kernel/cowfs_ctl.c:187-189 | A rollback of a file without a version of that timestamp, or without any, returns ENOENT and changes nothing. |
| Effects.NoSuchDeletion | kernel/cowfs_ctl.c:46-62 | A rollback of a missing path without a listed deletion of that base name and timestamp returns ENOENT, or EINVAL if the path has no slash or ends in one, and changes nothing. |
| Effects.DeletionErrors | kernel/cowfs_ctl.c:64-97 | A rollback of a missing path whose directory is outside or missing, or whose lookup or creation fails, returns that error and changes nothing. |
| Effects.RecreationResult | kernel/cowfs_ctl.c:204-222 | The rollback of an UNLINK version through a path that resolves returns EEXIST if the deleted name is taken and the error of the creation otherwise; a recreated file has the filtered mode, and no other entry and no other file changes. |
| Effects.RenamingErrors | kernel/cowfs_ctl.c:229-273 | The rollback of a RENAME version whose lookup or rename fails returns that error and changes nothing. |
| Effects.RestoringErrors | kernel/cowfs_ctl.c:224-227 | The rollback of a version with data returns what the restore returned. |
| Effects.FailedRollbackEffect | kernel/cowfs_ctl.c:169-292 | A rollback that reports an error has changed no name, no owner, no mode, and one content at the most. |
| Unwinding.Forward | kernel/cowfs_file.c:60-90 | From any state through any run of writes, truncates, attribute changes and renames to free names on a file, mixed with anything on other files, undoing the versions added in thought gives its first name, owner and mode, and its content if no handle could write without a snapshot. |
| Unwinding.Backward | kernel/cowfs_ctl.c:187-290 | The actual rollbacks of a list, newest first, each through the name of the moment, all succeed and have exactly that effect. |
| Unwinding.UnwindingReaches | kernel/cowfs_ctl.c:200-289 | From any state, rolling back the versions recorded since, newest first, always succeeds, restores name, owner and mode, changes nothing else, and ends with the content that the oldest of them with data saved, or the present one. |
| Unwinding.FullUnwinding | kernel/cowfs_ctl.c:200-289 | If no open handle was marked and writable at the start, that content is the one of the start: the file is back as it was, although later writes through a handle recorded nothing. |
| Unwinding.MarkedLoses | kernel/cowfs_file.c:60-90 | With such a handle, one write through it is a run that unwinding does not undo. |
| Unwinding.RestorableIff | kernel/cowfs_file.c:60-90 | Unwinding restores a moment whatever comes after it if and only if no open handle is then both marked and writable. |
| Unwinding.FullUnwindingAlone | kernel/cowfs_inode.c:154-271 | If nothing but operations on the file happened, unwinding restores the whole lower file system. |
| Leftovers.StepTidy | kernel/cowfs_versions.c:238-246 | A step that strands no file leaves no shadow file without a listed version. |
| Leftovers.UnfilledStrands | kernel/cowfs_file.c:72-81 | A capture that created its file and failed to fill it or to record its version leaves a file that no version leads to. |
| Leftovers.UnremovedAfterPublish | kernel/cowfs_versions.c:120-123 | So does an eviction whose removal does not get at the file, for want of a mount or credentials or by a failing lookup or unlink. |
| Leftovers.UnremovedAfterCollection | kernel/cowfs_versions.c:243-246 | So does a collection of an expired version. |
| Leftovers.StepStrands | kernel/cowfs_versions.c:66-71 | Every step that strands a file in one of these ways leaves one that no version leads to. |
| Leftovers.StrandedForever | kernel/cowfs_versions.c:66-71 | The file that a step strands is there right after it and stays, byte for byte and with no version that leads to it, through the rest of the run. |
| Leftovers.TidyIff | kernel/cowfs_inode.c:129-143 | After any run the shadow directory holds only files of listed versions if and only if no step stranded one: no created copy was left unfilled or unrecorded, and no freed version with data kept its file. |
| Departures.FirstMount | kernel/cowfs_super.c:97-135 | A first mount of two directories with a file of one name in each, and a second name for one of them, is a state from which all the following runs exist. |
| Departures.WholeCopyWorks | kernel/cowfs_shadow.c:143-151 | Every content has a complete error-free copy, so the runs below exist for every file. |
| Departures.RollbackReplacesFile | kernel/cowfs_ctl.c:231-247 | From any state: rename a file, create another under the old name; the rollback is an enabled step, returns 0, and the new file has lost its name. |
| Departures.RollbackStaysInDirectory | kernel/cowfs_ctl.c:231-247 | From any state: rename a file into another directory; the rollback is an enabled step, returns 0, and the file has its old name in the new directory. |
| Departures.FailedCopyStaysBehind | kernel/cowfs_file.c:72-81 | From any state: a first write whose copy meets a read error changes the file, records nothing and strands a shadow file. |
| Departures.FailedRemovalStaysBehind | kernel/cowfs_shadow.c:245-261 | From any state: a truncate and a collection after the default window whose removal fails; the version is gone and its file stays. |
| Departures.RecreatedEmpty | kernel/cowfs_ctl.c:84-92 | From any state: unlink a file; a rollback whose restore fails is an enabled step, returns 0, and leaves an empty file although the content is saved. |
| Departures.ModeNotRestored | kernel/cowfs_ctl.c:277-288 | From any state: change a mode; a rollback with a failing last call is an enabled step, returns 0 and changes nothing. |
| Departures.LookupErrorDropped | kernel/cowfs_ctl.c:210-222 | From any state with two names of one file: unlink one; a rollback through the other whose lookup fails is an enabled step, returns 0 and changes nothing. |
| Departures.WrongFileRecreated | kernel/cowfs_versions.c:194-203 | From any state: unlink two files of one base name; the rollback of the first by 0 is an enabled step, returns 0, and gives the content of the second. |
| Threads.StepHolders | kernel/cowfs_versions.c:93-125 | A step of any thread moves versions between in flight, a list, waiting to be freed, freed and leaked, without losing or doubling one. |
| Threads.EndsOnlyBy | kernel/cowfs_versions.c:93-125 | A version leaks only when it cannot be added, and is freed only from flight or after it was detached. |
| Threads.ActConserves | kernel/cowfs_versions.c:52-125 | Every allocated version is in exactly one of these places after every step. |
| Threads.ActInv | kernel/cowfs_versions.c:66-125 | Every step also keeps the shadow file of every listed or detached version with data, unchanged since it was published. |
| Threads.NewWorldInv | kernel/cowfs_versions.c:20-42 | The world after loading the module satisfies the invariant. |
| Threads.RemovedOnlyAfterLeaving | kernel/cowfs_shadow.c:223-264 | A shadow file is removed only by the freeing of its own version, after that version left every list. |
| Threads.PublishedShadowsNeverChange | kernel/cowfs_versions.c:222-246 | Under any interleaving the shadow file of a version does not change while the version is on its list. |
| Threads.FreedOnce | kernel/cowfs_versions.c:243-246 | Under any interleaving no version is freed twice, or while still listed, detached or in flight. |
| Threads.TeardownFreesAll | kernel/cowfs_versions.c:249-275 | Once the table is empty and nothing waits, every version that was ever listed has been freed exactly once. |
| Threads.Teardown | kernel/cowfs_versions.c:249-275 | Detaching every record and freeing one by one, and nothing else, gets there from every state, whatever removals get at. |
| Threads.PublishingKeepsOrderIff | kernel/cowfs_versions.c:108-115 | Publishing keeps a list in time order if and only if the version is newer than everything listed. |
| Threads.OvertakenPublication | kernel/cowfs_versions.c:163-168 | Two threads that publish in the other order than they allocated: timestamp 0 then does not find the newest version. |
| Threads.LastAddedIsFoundIff | kernel/cowfs_versions.c:181-203 | The search for a deleted file can find nothing but the version just added if and only if that is newer than all other UNLINK versions of the base name on all lists. |
| Threads.OvertakenDeletion | kernel/cowfs_versions.c:184-208 | Two interleaved unlinks of one base name after which every list is in time order and the search finds the version that was added first. |
| Atomic.CaptureIsARun | kernel/cowfs_inode.c:123-144 | A capture of the state machine is a run of thread steps with the same store and shadow files. |
| Atomic.CollectionIsARun | kernel/cowfs_versions.c:210-247 | So is a collection: detach inode by inode, then free one by one. |
| Atomic.RunIsARun | kernel/cowfs_versions.c:52-125 | Every run of the state machine from a first mount is a run of the threads from the loading of the module, with the same store and shadow files at the end. |
| ShadowStore.ShadowDir.CopyFile | kernel/cowfs_shadow.c:109-162 | The copy on every error path: error number, the file left behind, and exact content on success if and only if no write was short. |
| ShadowStore.ShadowDir.RestoreFile | kernel/cowfs_shadow.c:164-221 | The restore on every error path: error number and what the target holds. |
| ShadowStore.ShadowDir.Init | kernel/cowfs_shadow.c:55-89 | A later mount enables removal if it finds the shadow directory, and leaves it as it is otherwise. |
| ShadowStore.ShadowDir.Cleanup | kernel/cowfs_shadow.c:91-98 | An unmount leaves the shadow files and disables removal. |
| ShadowStore.ShadowDir.Remove | kernel/cowfs_shadow.c:223-264 | Removal takes away the file of that base name and no other; nothing without a live mount, and nothing if credentials, lookup or unlink fail. |
| ShadowStore.ShadowDir.FreeVersion | kernel/cowfs_versions.c:66-71 | Freeing a version removes its shadow file if it has one and the removal gets at it. |
| VersionStore.InodeInfo.Push | kernel/cowfs_versions.c:106-117 | Counter and list stay equal and within 64; the list becomes the new version before the old list without its last when full. |
| VersionStore.InodeInfo.Sweep | kernel/cowfs_versions.c:224-234 | Deletion during traversal keeps the counter right, leaves the order-preserving filter and hands over what it dropped. |
| VersionStore.InodeInfo.Drain | kernel/cowfs_versions.c:261-264 | Every version of the list moves to the worklist exactly once, none is added or lost. |
| VersionStore.DetachedIsTheRest | kernel/cowfs_versions.c:225-232 | The worklist gains exactly what the list loses, every version as often as it was listed. |
| VersionStore.DetachedMembers | kernel/cowfs_versions.c:225-232 | These are the expired versions. |
| VersionStore.SweepConserves | kernel/cowfs_versions.c:223-235 | Sweeping one record keeps the sum of worklist and table. |
| VersionStore.PlacedInsert | kernel/cowfs_versions.c:86-89 | Linking a record of a new inode keeps every record in its own bucket, once, and the only one of its inode. |
| VersionStore.PlacedRemove | kernel/cowfs_versions.c:259-268 | So does taking the first record out of a chain. |
| VersionStore.FreeManyRemoves | kernel/cowfs_versions.c:243-246 | Freeing a worklist one by one removes the shadow files of its versions with data that a removal gets at, and no others. |
| VersionStore.FreeManySweeps | kernel/cowfs_versions.c:222-246 | The worklist of a complete collection removes exactly the shadow files of the expired versions, but for the stuck ones. |
| VersionStore.ScanList | kernel/cowfs_versions.c:194-203 | One list of the search for a deleted file: a match at least as new as every match seen so far. |
| VersionStore.VersionTable.constructor | kernel/cowfs_versions.c:36 | The table starts as the empty map. |
| VersionStore.VersionTable.Lookup | kernel/cowfs_versions.c:77-80 | Walking the chain finds the record of the inode if and only if there is one. |
| VersionStore.VersionTable.Link | kernel/cowfs_versions.c:86-89 | A new record adds an empty list for its inode and nothing else. |
| VersionStore.VersionTable.FindOrCreate | kernel/cowfs_versions.c:73-91 | The record of the inode, created if necessary; none and no change if it cannot be allocated. |
| VersionStore.VersionTable.AddLocked | kernel/cowfs_versions.c:99-118 | The table refines the map: the list of this inode gets the new version and gives up its last when full, all others stay; out of memory changes nothing. |
| VersionStore.VersionTable.Add | kernel/cowfs_versions.c:93-125 | With the freeing of the evicted version this is the publication step of the state machine on store and shadow directory. |
| VersionStore.VersionTable.FindVersion | kernel/cowfs_versions.c:152-174 | Search in the table agrees with search in the map. |
| VersionStore.VersionTable.ListVersions | kernel/cowfs_versions.c:127-150 | The listing is the front of the list, up to the maximum asked for. |
| VersionStore.VersionTable.FindDeletedVersion | kernel/cowfs_versions.c:184-208 | The walk over all buckets returns a match of maximal timestamp among all stored versions, none only if there is none. |
| VersionStore.VersionTable.SweepAll | kernel/cowfs_versions.c:222-236 | The walk visits every record once: every list is filtered, the worklist holds exactly the expired versions, and worklist and table together hold every version as often as the table did before. |
| VersionStore.VersionTable.FreeWorklist | kernel/cowfs_versions.c:243-246 | Freeing the worklist outside the locks, with and without a live mount, with and without failing removals. |
| VersionStore.VersionTable.Gc | kernel/cowfs_versions.c:210-247 | A collection turns every list into the filter by the cutoff and removes exactly the shadow files of what it drops that removals get at. |
| VersionStore.VersionTable.DrainAll | kernel/cowfs_versions.c:258-269 | The table is empty and the worklist holds everything it held, every version as often. |
| VersionStore.VersionTable.GcAll | kernel/cowfs_versions.c:249-275 | Teardown leaves an empty table and removes exactly the shadow files of the versions it held that removals get at. |
| CowFs.Mount.constructor | kernel/cowfs_super.c:97-135 | A mount starts in the initial state of the machine, also when its shadow directory cannot be set up. |
| CowFs.Mount.Open | kernel/cowfs_file.c:5-27 | An open is the opening step, with a handle that is not marked; without memory or when the lower open fails it returns the error and changes nothing. |
| CowFs.Mount.Release | kernel/cowfs_file.c:29-37 | A release is the closing step. |
| CowFs.Mount.Write | kernel/cowfs_file.c:49-91 | A write is the writing step: mark, allocate, copy, record, then write, also when the capture fails on the way. |
| CowFs.Mount.Unlink | kernel/cowfs_inode.c:113-152 | An unlink is the unlinking step. |
| CowFs.Mount.Rename | kernel/cowfs_inode.c:154-192 | A rename is the renaming step, across directories and over existing names too. |
| CowFs.Mount.Setattr | kernel/cowfs_inode.c:194-271 | A setattr is the attribute step, with the copy before a truncate and the mark on the truncating handle. |
| CowFs.Mount.CollectGarbage | kernel/cowfs_versions.c:277-282 | A run of the worker is the collection step. |
| CowFs.Mount.Unmount | kernel/cowfs_shadow.c:91-98 | An unmount is the step that keeps all versions and all shadow files and disables removal. |
| CowFs.Mount.Remount | kernel/cowfs_super.c:128-135 | A later mount of the same directory finds the versions of the earlier one; it enables removal if its shadow directory can be set up. |
| CowFs.Mount.Unload | kernel/cowfs_main.c:56-63 | Unloading the module after an unmount forgets every version and leaves every shadow file behind. |
| CowFs.Mount.IoctlList | kernel/cowfs_ctl.c:126-167 | LIST returns at most 32 versions, the newest ones of the file in order, ENOENT for every path that does not resolve inside the mount. |
| CowFs.Mount.RecreateFile | kernel/cowfs_ctl.c:79-98 | Recreating a deleted file: existing-name error, creation error, or a new inode filled from the shadow file. |
| CowFs.Mount.RollbackMissing | kernel/cowfs_ctl.c:34-119 | The rollback of a missing path, with path cutting, table-wide search and every error path, is the specified one. |
| CowFs.Mount.UndoVersion | kernel/cowfs_ctl.c:200-289 | The branch for each kind of version, with every error path, is the specified one. |
| CowFs.Mount.IoctlRollback | kernel/cowfs_ctl.c:169-292 | ROLLBACK is the rollback step with its result. |
| CowFs.BestUnique | kernel/cowfs_versions.c:184-208 | In every reachable state the search for a deleted file has one possible result, whatever the order of buckets. |
| CowFs.ListedNewest | kernel/cowfs_versions.c:127-150 | The front of a time-ordered list is newer than everything after it. |

## Left out

- Mounting, option parsing, statfs, module parameters and initialization: plumbing.
- Reference counts of dentries, mounts and inodes, and the dropping of cached dentries.
- VFS locks, credentials and permission checks: a lower call succeeds with its usual effect or fails without one.
- The fields cached in the upper inode: state is read from the lower file system only.
- mmap writes, symbolic links, hard links made through cowfs, mkdir and rmdir.
- Directories, relative paths, paths with a trailing slash and symbolic links as targets of an ioctl; lookups that
  fail with an error other than ENOENT; a second lookup that disagrees with the first.
- atime and mtime: a rollback does not restore them.
- The directory listing filter, copying ioctl arguments from and to user memory, `userspace/cowctl.c` and scripts.
- Torn snapshots when another thread writes during a copy: what a snapshot holds is stated for sequential runs;
  the interleaved model states that published shadow files do not change.
- Pointers that `cowfs_version_find` and `cowfs_version_list` return and their callers use after the lock is dropped:
  an ioctl is one step, not interleaved with collection or eviction.
- Mounting another directory after an unmount, with the versions of the previous mount still in the table.
- Unwinding through renames across directories or over an existing name: such renames are steps of the machine, and
  `Rollbacks.RenameUndoneIff` says exactly when an immediate rollback undoes one.
- CowFs.Mount.Rename: does not model rename flags (exchange, no-replace) nor the renaming of a directory; versions are
  histories of regular files.
- ShadowStore.ShadowDir.RestoreFile: the truncation on opening the target is not modelled, the one by `vfs_truncate`
  is, because the code opens the target with `dentry_open`, which does not truncate.
- ShadowCopy.Transfer: the target is a local value handed to the caller, not a file changed in place, and one method
  stands for the loop of the copy and the loop of the restore, which are the same.
- VersionStore.InodeInfo.Push: lists are sequences in a field of the heap record, not linked nodes.
- CowFs.Mount.RecreateFile: creation and filling of the new file are one change of the lower file system.
- CowFs.Mount.Open: the truncation by an opening with O_TRUNC is a separate setattr step, as the VFS issues it.
