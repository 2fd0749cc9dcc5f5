# Verification of the runtime's hard cores

This project models, in Dafny, the parts of an STM32 runtime that carry its own logic: the POSIX file
adapter over FileX, the C++ threading backend over ThreadX, the clocks, the one-time construction
guards, the NOR flash driver, the Linux timer and Ethernet filter, the calendar of the real-time clock
and the console input. ThreadX and FileX appear only as small abstract machines: a mutex, a semaphore,
a bounded queue, a file, and a tree of entries whose operations take effect or fail without effect.

Code that changes state in place is modelled by classes and methods proved against specification
functions. Protocols between threads are modelled as step relations over any number of threads, where
one step is one kernel call, one atomic access, or one block between two of them; their theorems speak
about every state of every run. `dafny verify dfyconfig.toml` covers the whole project.

| file | content |
|---|---|
| `Errors`, `Arithmetic`, `FixedWidth`, `Lists` | error numbers, division with remainder, 32- and 64-bit integers and their bitwise or, removal from lists |
| `Paths`, `FileXTree`, `FileSystem`, `FileSystemErrors`, `FileSystemAdapter` | path normalisation, the FileX tree, what a call may do and what every run keeps, which calls are refused and why, the calls themselves |
| `ByteFile` | read, write, lseek and ftruncate against a POSIX byte file |
| `ThreadRegistry`, `ThreadLifecycle`, `JoinCircles` | the list of threads; create, join, detach and the reaper; which joins never return |
| `WaiterList`, `Condition` | the list of waiters; wait, signal and broadcast |
| `ThreadKeys`, `ThreadExit` | thread-specific keys; their destructors at thread exit |
| `Clock`, `TickCounter`, `PublishedTime` | conversions and counter reconstruction; the 64-bit tick; the monotone system time |
| `Guards` | C++ guards and `once` |
| `NorFlash`, `LinuxTimer`, `EtherTypeFilter`, `Calendar`, `Console` | the smaller cores |

## Assumptions

- FileX refuses to delete a file that it holds open, compares names after folding ASCII letters the way
  `fold_ascii_case` does, and leaves everything as it was when an operation fails; so a file whose closing
  failed is still held by FileX, until the adapter clears the control block. A failing status is mapped to a
  nonzero error, and to ENOENT only for a missing entry: `filex_errno` also gives ENOENT for FX_NOT_OPEN and
  FX_MEDIA_NOT_OPEN (filesystem.cpp:136-139), and it is assumed that a mounted medium and an open file never
  report these. Every other pattern of failures is allowed; the ghost field `faults` of the adapter counts
  the failures that FileX had no reason for.
- Each call of the file adapter is one critical section of the registry mutex. A null path pointer, which
  the code rejects together with the empty path, is the empty path.
- Each thread handle is joined or detached once, by one owner; creating the acknowledgement semaphore of a
  join succeeds; a registry id is not handed out again while a thread with that id is registered
  (`ThreadRegistry.IdsRepeatOnlyAfterAFullRound` says when ids come back).
- A thread executes one join, detach or wait at a time. Atomic accesses are sequentially consistent.
- The monotonic clock does not go back between two uses of the Linux timer.

## Findings

- That the path of every allocated descriptor keeps naming its object is true of every call but one: when
  reopening a file in another mode fails, the descriptor stays allocated while FileX has let go of the
  file, and a later unlink of that file succeeds (platform/runtime/libc/filesystem.cpp:521-562 and
  1163-1198). `FileSystem.RunKeepsExactlyWhenSafe` gives the exact condition,
  `FileSystem.DetachedDescriptorDangles` the shortest such run.
- A pending join whose thread has returned from its entry can be stuck for ever: threads that join each other
  in a circle, in their entries or in their exit callbacks (platform/runtime/libstdcxx/backend.cpp:723-726 and
  905). `JoinCircles.JoinReturnsUnlessCircle` gives the exact condition: without further calls the system
  comes to rest under every schedule, and then a join has returned if and only if its chain of joins met no
  circle. `JoinCircles.CaughtJoinNeverReturns` says that further calls do not help either, and
  `JoinCircles.CircleBlocks` is a run with two threads.
- A signal can be spent on a wait that fails with EPERM, because such a wait visits the list twice
  (platform/runtime/libstdcxx/backend.cpp:1206-1212); `Condition.SignalSpentOnFailingWait` is the run. It
  happens only to waits whose thread did not own the mutex when it called.
- The generations of a key slot protect against stale values for 2^24 - 1 creations, and no longer
  (platform/runtime/libstdcxx/backend.cpp:988-992): `ThreadKeys.SlotsAreAMap` and
  `ThreadKeys.FullCircleReadsStaleValue`.
- The socket filter and the frame parser agree on all frames exactly when the wanted type is not itself a
  VLAN type (platform/hal/drivers/impl/linux/Ethernet.cpp:128-155): `EtherTypeFilter.AgreementIsExact`.

## Model

| member | source | states |
|---|---|---|
| Paths.MeaningOfJoined | platform/runtime/libc/filesystem.cpp:196-212 | walking the joined text once gives the same stack of names as walking the working directory and then the path |
| Paths.NormalizedIsCanonical | platform/runtime/libc/filesystem.cpp:189-258 | a normalised path is absolute, spells names only, has one slash before each and none at the end, and holds no backslash, no NUL and no component `.` or `..` |
| Paths.CanonicalIsFixed | platform/runtime/libc/filesystem.cpp:189-258 | normalising a canonical path gives it back under every working directory, so normalisation is idempotent |
| Paths.BackslashIsSlash | platform/runtime/libc/filesystem.cpp:196-228 | replacing each backslash of the path by a slash changes nothing; in the working directory neither, except that one ending in a backslash can make the joined text one character too long |
| Paths.NormalizedErrors | platform/runtime/libc/filesystem.cpp:192-212 | ENOENT exactly for the empty path, ENAMETOOLONG exactly when the joined text has 256 characters or more, otherwise a normal form or EACCES |
| Paths.RelativeIsBelowDirectory | platform/runtime/libc/filesystem.cpp:196-212 | a path that begins with a slash or backslash does not depend on the working directory, and any other one is taken to lie below it |
| Paths.OneMoreComponent | platform/runtime/libc/filesystem.cpp:217-256 | one more component leaves the normal form for the empty one and `.`, cuts off the last name for `..`, which fails with EACCES at the root, and adds every other one; this determines every normal form |
| Paths.SpellingIsInjective | platform/runtime/libc/filesystem.cpp:189-258 | two stacks of names with the same spelling are the same stack |
| Paths.WalkNeverGrows | platform/runtime/libc/filesystem.cpp:218-256 | the spelling after any part of the scan is no longer than the spelling before plus the text scanned |
| Paths.NormalizedNeverGrows | platform/runtime/libc/filesystem.cpp:189-258 | the normal form is never longer than the joined text, which the length test already bounds |
| Paths.JoinSource | platform/runtime/libc/filesystem.cpp:196-212 | the buffer holds exactly the joined text, or its length does not fit and nothing else is promised |
| Paths.NextComponent | platform/runtime/libc/filesystem.cpp:218-226 | skipping separators and running to the next one isolates the first component of the remaining text |
| Paths.CutName | platform/runtime/libc/filesystem.cpp:230-242 | cutting back to the last slash in place removes exactly the last name from the spelled stack |
| Paths.AppendName | platform/runtime/libc/filesystem.cpp:243-256 | appending in place adds exactly one name, and both ENAMETOOLONG exits of the loop are never taken |
| Paths.ScanComponent | platform/runtime/libc/filesystem.cpp:218-256 | one round of the loop leaves the meaning of the rest unchanged, and fails with EACCES only when `..` stands above the root |
| Paths.NormalizePath | platform/runtime/libc/filesystem.cpp:189-258 | the in-place pass computes the component-stack meaning of cwd and path, with ENOENT, ENAMETOOLONG and EACCES in exactly the cases of the specification |
| FileXTree.FoldsLetters | platform/runtime/libc/filesystem.cpp:260-267 | folding turns each of the 26 small letters into its capital and changes no other character |
| FileXTree.CoversMeans | platform/runtime/libc/filesystem.cpp:269-280 | the prefix test holds exactly for the name itself and, when descendants count, for the name followed by a slash and anything |
| FileXTree.PathHasPrefix | platform/runtime/libc/filesystem.cpp:269-280 | the loop decides, up to ASCII case, whether one path is the other or lies below it |
| FileXTree.MigrateIsInjective | platform/runtime/libc/filesystem.cpp:341-358 | two entries never migrate to one name when there is room at the destination |
| FileXTree.MoveKeepsUnrelated | platform/runtime/libc/filesystem.cpp:416-439 | a move changes no entry outside the two names |
| FileXTree.MoveLeavesNothingBehind | platform/runtime/libc/filesystem.cpp:416-439 | nothing that moved is still found under the old name |
| FileXTree.MoveWithExtra | platform/runtime/libc/filesystem.cpp:1326-1352 | a move commutes with an entry that waits out of its way, as the backup does |
| FileXTree.MoveIdentifiesObjects | platform/runtime/libc/filesystem.cpp:416-439 | after a move different names still name different objects |
| FileXTree.MoveKeepsClosed | platform/runtime/libc/filesystem.cpp:416-439 | after a move every entry still has all its parent directories |
| FileXTree.NothingBelow | platform/runtime/libc/filesystem.cpp:452-481 | nothing lies below a name that is not a directory |
| FileSystem.UnlinkKeeps | platform/runtime/libc/filesystem.cpp:1163-1198 | a deletion keeps the invariant if and only if no descriptor detached by a failed mode switch names the file |
| FileSystem.RemoveDirectoryKeeps | platform/runtime/libc/filesystem.cpp:1409-1450 | removing an empty directory that the working directory is not at or below keeps the invariant |
| FileSystem.RemovalUndoesCreation | platform/runtime/libc/filesystem.cpp:823-830 | a created entry is a new object of the kind asked for, and removing it again gives back the tree |
| FileSystem.FoldOfMigrated | platform/runtime/libc/filesystem.cpp:341-358 | rewriting a stored path commutes with moving the entry it names |
| FileSystem.FollowKeeps | platform/runtime/libc/filesystem.cpp:1353-1368 | after the source moved, the rewritten working directory and descriptor paths name what they named before |
| FileSystem.BackupKeeps | platform/runtime/libc/filesystem.cpp:1326-1332 | setting the destination aside under a free backup name keeps the invariant and everything the rename relies on |
| FileSystem.MoveOfOneEntry | platform/runtime/libc/filesystem.cpp:416-439 | renaming a file or empty directory changes one key only |
| FileSystem.BackupDeleted | platform/runtime/libc/filesystem.cpp:1334-1352 | set aside, move, delete the backup has the same result as removing the destination and moving |
| FileSystem.BackupRestored | platform/runtime/libc/filesystem.cpp:1337-1348 | moving the destination back undoes setting it aside |
| FileSystem.RenameKeeps | platform/runtime/libc/filesystem.cpp:1200-1379 | every way a rename can end keeps the invariant |
| FileSystem.RenameMeaning | platform/runtime/libc/filesystem.cpp:1200-1379 | key by key: the source is wholly at one of its names, under the new name lies nothing but what came from the old one, unrelated entries are unchanged, the old destination is replaced, intact under its backup name, or stranded there with the source still in place |
| FileSystem.StepKeepsExactlyWhenSafe | platform/runtime/libc/filesystem.cpp:712-1450 | each call of open, close, mode switch, mkdir, chdir, unlink, rmdir and rename, with any FileX failures, keeps the invariant if and only if it is safe |
| FileSystem.RunKeepsExactlyWhenSafe | platform/runtime/libc/filesystem.cpp:712-1450 | in every run from a sound state, all states are sound if and only if every step is safe |
| FileSystem.DescriptorFollowsObject | platform/runtime/libc/filesystem.cpp:769-1450 | over any safe run, between its open and its close a descriptor keeps naming the object it was opened on, for the same use, through renames of it and of its parents |
| FileSystem.WorkingDirectoryFollowsObject | platform/runtime/libc/filesystem.cpp:1353-1368 | over any safe run, until it is changed the working directory stays the same object, through renames of it and of its parents |
| FileSystem.InitialIsSound | platform/runtime/libc/filesystem.cpp:737-767 | initialisation leaves a sound state over every volume content |
| FileSystem.DetachedDescriptorDangles | platform/runtime/libc/filesystem.cpp:521-562 | a concrete run from initialisation in which open, a failed mode switch and unlink leave an allocated descriptor that names nothing |
| FileSystemErrors.ParentSuffices | platform/runtime/libc/filesystem.cpp:416-439 | in a sound tree all directories above a name exist if and only if the next one does |
| FileSystemErrors.ChangeDirectoryErrors | platform/runtime/libc/filesystem.cpp:712-734 | for each error of chdir exactly the names and volumes for which it comes, and success exactly for existing directories |
| FileSystemErrors.OpenErrors | platform/runtime/libc/filesystem.cpp:771-830 | the same for open: EMFILE, EISDIR, EEXIST, ENOENT, ENODEV and EINVAL, and success |
| FileSystemErrors.UnlinkErrors | platform/runtime/libc/filesystem.cpp:1163-1198 | the same for unlink: EACCES exactly for a file that a descriptor of this name holds in FileX |
| FileSystemErrors.MakeDirectoryErrors | platform/runtime/libc/filesystem.cpp:1381-1407 | the same for mkdir: EEXIST, EINVAL exactly without a parent directory, ENODEV, ENOENT |
| FileSystemErrors.RemoveDirectoryErrors | platform/runtime/libc/filesystem.cpp:1409-1450 | the same for rmdir: EBUSY exactly for a volume or a directory at or above the working directory, ENOTEMPTY, ENOTDIR |
| FileSystemErrors.ReplaceErrors | platform/runtime/libc/filesystem.cpp:1269-1307 | what stands against replacing an entry: its kind, its use by the working directory or a descriptor, its content, and nothing else |
| FileSystemErrors.RenameErrors | platform/runtime/libc/filesystem.cpp:1200-1307 | for each error of rename exactly the names and volumes for which it comes, and success exactly when the move or the replacement is possible |
| FileSystemErrors.ReplacementIsAllowed | platform/runtime/libc/filesystem.cpp:1269-1307 | an entry of the same kind that is not in use and has nothing below it may always be replaced by another one of its volume |
| FileSystemAdapter.Adapter.constructor | platform/runtime/libc/filesystem.cpp:737-767 | initialisation establishes the initial state, with the working directory on the first mounted volume |
| FileSystemAdapter.Adapter.Normalize | platform/runtime/libc/filesystem.cpp:322-328 | the result is the normal form under the current directory, always a path that fits its buffer |
| FileSystemAdapter.Adapter.Resolve | platform/runtime/libc/filesystem.cpp:292-320 | a name resolves to the virtual root, a volume, or an entry of a mounted volume, otherwise ENODEV or ENOENT |
| FileSystemAdapter.Adapter.Information | platform/runtime/libc/filesystem.cpp:360-414 | success tells truly whether the name is a directory, ENOENT that it names no entry; normalising again changes nothing |
| FileSystemAdapter.Adapter.SwitchMode | platform/runtime/libc/filesystem.cpp:521-562 | whatever fails on the way, only the mode of this one descriptor changes: it is the requested one on success, and otherwise that, detached, or, only if the file was attached before, closed for the adapter while FileX still holds it; a file that another descriptor writes is opened for reading only after a flush |
| FileSystemAdapter.Adapter.SlotFor | platform/runtime/libc/filesystem.cpp:581-592 | a descriptor number is accepted exactly when it names an allocated slot, otherwise EBADF |
| FileSystemAdapter.Adapter.CheckOpen | platform/runtime/libc/filesystem.cpp:771-822 | the checks pass only for an entry of a mounted volume with a free slot, a file if it exists, and creation asked for if it does not; without a device fault each refusal has its own error |
| FileSystemAdapter.Adapter.TakeSlot | platform/runtime/libc/filesystem.cpp:832-855 | a failing open leaves the state as it was, a successful one fills one free slot with the object found, readable and writable as the access mode says, to be flushed on closing when it is writable or created the file |
| FileSystemAdapter.Adapter.Open | platform/runtime/libc/filesystem.cpp:769-856 | an open creates the missing file at most and then takes one free slot for it, readable and writable as the access mode says; exclusive creation succeeds only by creating; without a device fault the error is exactly that of the specification |
| FileSystemAdapter.Adapter.Close | platform/runtime/libc/filesystem.cpp:858-891 | the slot is released even when closing or flushing fails, which alone makes the call fail; a written or created file is closed successfully only when its medium is flushed; other numbers change nothing |
| FileSystemAdapter.Adapter.Sync | platform/runtime/libc/filesystem.cpp:1479-1505 | success means that the medium of the file is flushed in the present state; numbers that are not open give EBADF |
| FileSystemAdapter.Adapter.ChangeDirectory | platform/runtime/libc/filesystem.cpp:712-734 | the new working directory is the normalised path and names an existing directory, or nothing changes; without a device fault it succeeds exactly for existing directories |
| FileSystemAdapter.Adapter.MakeDirectory | platform/runtime/libc/filesystem.cpp:1381-1407 | exactly one directory is created, or nothing; success implies created and flushed; without a device fault EEXIST, EINVAL and path errors in exactly their cases |
| FileSystemAdapter.Adapter.Unlink | platform/runtime/libc/filesystem.cpp:1163-1198 | exactly the named file is deleted, or nothing changes; success implies that the medium is flushed; the invariant holds afterwards if and only if the call was safe; without a device fault ENOENT, EISDIR, EACCES and path errors in exactly their cases |
| FileSystemAdapter.Adapter.RemoveDirectory | platform/runtime/libc/filesystem.cpp:1409-1450 | exactly the named empty directory is deleted, never one that holds the working directory; success implies that the medium is flushed; without a device fault ENOENT, ENOTDIR, EBUSY and ENOTEMPTY in exactly their cases |
| FileSystemAdapter.Adapter.CheckLengths | platform/runtime/libc/filesystem.cpp:330-339 | ENAMETOOLONG exactly when some stored path would outgrow its buffer |
| FileSystemAdapter.Adapter.LookAtDestination | platform/runtime/libc/filesystem.cpp:1269-1307 | whether the destination exists, and whether a destination that is not the source may be replaced: kind, working directory, open descriptors, emptiness |
| FileSystemAdapter.Adapter.CheckRename | platform/runtime/libc/filesystem.cpp:1230-1321 | when the checks pass, everything that the transaction relies on holds, and a source that FileX has open has been flushed; without a device fault each refusal has its own error |
| FileSystemAdapter.Adapter.SpellBackup | platform/runtime/libc/filesystem.cpp:483-505 | five hexadecimal digits written one by one give the backup name of the sequence number |
| FileSystemAdapter.DigitsAreReadBack | platform/runtime/libc/filesystem.cpp:483-505 | the five digits of a backup name, read as a hexadecimal number, give back the sequence number |
| FileSystemAdapter.Adapter.FindBackup | platform/runtime/libc/filesystem.cpp:483-519 | the name found is unused; without a device fault ENOSPC means that all 256 names tried are taken |
| FileSystemAdapter.Adapter.FollowSource | platform/runtime/libc/filesystem.cpp:1353-1368 | the loop rewrites every stored path that lies at or below the old name and no other |
| FileSystemAdapter.Adapter.MoveSource | platform/runtime/libc/filesystem.cpp:1334-1372 | without a destination in the way the source moves or nothing changes, and nothing is deleted; without a device fault it moves exactly when the new parent exists |
| FileSystemAdapter.Adapter.MoveOrRestore | platform/runtime/libc/filesystem.cpp:1334-1348 | after the destination was set aside the source moves, or the tree is restored, or the device failed both renames |
| FileSystemAdapter.Adapter.FinishReplacement | platform/runtime/libc/filesystem.cpp:1350-1372 | the backup is deleted or left, and in both cases the bookkeeping follows the source |
| FileSystemAdapter.Adapter.ReplaceDestination | platform/runtime/libc/filesystem.cpp:1323-1372 | the destination object is deleted only after the source sits at the new name; success means it is gone |
| FileSystemAdapter.Adapter.Rename | platform/runtime/libc/filesystem.cpp:1200-1379 | for every pattern of failures: nothing changed, or the source has the new name, or both the move and the restore failed and the destination is intact under its backup name; 0 implies no backup is left and the medium is flushed; without a device fault it is refused exactly for the reasons of the specification, or for want of a backup name, and then nothing has changed; a rename over an entry that may be replaced ends with the source in its place, unless 256 backup names are taken |
| ByteFile.SeekEndsAt | platform/runtime/libc/filesystem.cpp:1040-1088 | a seek ends at the start, the present offset or the end of the file plus the distance; EOVERFLOW exactly above the largest offset, EINVAL exactly below 0, and then nothing changes |
| ByteFile.SeeksAddUp | platform/runtime/libc/filesystem.cpp:1040-1088 | a relative seek goes on from where the last one ended, and the end is found wherever the offset is |
| ByteFile.ReadGivesBytes | platform/runtime/libc/filesystem.cpp:936-956 | a read gives the bytes at the offset, as many as asked for unless the file ends before, and moves the offset behind them |
| ByteFile.ReadsJoin | platform/runtime/libc/filesystem.cpp:936-956 | two reads give what one read of both lengths gives |
| ByteFile.WriteKeepsTheRest | platform/runtime/libc/filesystem.cpp:993-1018 | a write changes only its own place and a gap before it, and leaves the offset behind its data |
| ByteFile.RefusalsMean | platform/runtime/libc/filesystem.cpp:893-1545 | EINVAL exactly for negative sizes and then EBADF exactly for descriptors opened for something else, without effect |
| ByteFile.SeekPastEndPersists | platform/runtime/libc/filesystem.cpp:936-943 | after a seek past the end any number of reads give nothing, or the error of a descriptor that may not read, and keep the offset |
| ByteFile.GapReadsZeroes | platform/runtime/libc/filesystem.cpp:564-579 | a write behind the end makes the gap read back as zeroes and keeps what was before it |
| ByteFile.WrittenIsRead | platform/runtime/libc/filesystem.cpp:959-1019 | what a write put is read back, appending or not |
| ByteFile.TruncationKeepsPrefix | platform/runtime/libc/filesystem.cpp:1507-1545 | truncation keeps the offset and the common prefix, extends with zeroes, and undoes an extension |
| ByteFile.Descriptor.constructor | platform/runtime/libc/filesystem.cpp:832-848 | an appending descriptor starts at the end of the file and any other at 0; a writer that truncates empties the file |
| ByteFile.Descriptor.SwitchMode | platform/runtime/libc/filesystem.cpp:521-562 | reopening in another mode changes nothing that the descriptor presents |
| ByteFile.Descriptor.ExtendWithZeroes | platform/runtime/libc/filesystem.cpp:564-579 | the loop appends exactly the zeroes up to the size, a sector at most at a time |
| ByteFile.Descriptor.Read | platform/runtime/libc/filesystem.cpp:893-957 | a read over the clamping FileX file is a POSIX read, with EINVAL and EBADF in their order |
| ByteFile.Descriptor.Write | platform/runtime/libc/filesystem.cpp:959-1019 | a write or append over the clamping FileX file is a POSIX write |
| ByteFile.Descriptor.Lseek | platform/runtime/libc/filesystem.cpp:1021-1089 | the guarded arithmetic returns base plus offset exactly when base and target are representable, otherwise EOVERFLOW or EINVAL and no change |
| ByteFile.Descriptor.Ftruncate | platform/runtime/libc/filesystem.cpp:1507-1545 | the file has exactly the new size with the prefix kept, and the POSIX offset is untouched |
| ByteFile.Descriptor.Run | platform/runtime/libc/filesystem.cpp:893-1545 | over any descriptor, whatever it was opened for, any sequence of calls in which FileX does not fail has the outcomes, errors included, and the final file of a POSIX byte file |
| ThreadRegistry.IdsRepeatOnlyAfterAFullRound | platform/runtime/libstdcxx/backend.cpp:669-679 | the 32-bit id that skips 0 comes back exactly every 2^32 - 1 registrations |
| ThreadRegistry.Registry.Register | platform/runtime/libstdcxx/backend.cpp:669-679 | the control gets the next id and is put in front of the list |
| ThreadRegistry.Registry.Find | platform/runtime/libstdcxx/backend.cpp:694-703 | the walk returns the first control with the id, or none |
| ThreadRegistry.Registry.Unregister | platform/runtime/libstdcxx/backend.cpp:681-692 | exactly this control leaves the linked list, from any place, and the others keep their order |
| ThreadLifecycle.WorkerStepKeeps | platform/runtime/libstdcxx/backend.cpp:715-742 | every step of every worker keeps the system invariant |
| ThreadLifecycle.CallerStepKeeps | platform/runtime/libstdcxx/backend.cpp:892-963 | every step of every join and detach keeps the system invariant |
| ThreadLifecycle.ReaperStepKeeps | platform/runtime/libstdcxx/backend.cpp:744-791 | every step of the reaper keeps the system invariant |
| ThreadLifecycle.CreateKeeps | platform/runtime/libstdcxx/backend.cpp:868-889 | creating a thread under a free id keeps the system invariant |
| ThreadLifecycle.FoundByItsId | platform/runtime/libstdcxx/backend.cpp:694-703 | every registered control is the one that its id finds |
| ThreadLifecycle.ReachableIsSafe | platform/runtime/libstdcxx/backend.cpp:705-791 | in every run: no fatal error, no refused join or detach, at most one cleanup message and one free per control, the free only after completion |
| ThreadLifecycle.JoinReturnsAfterReclamation | platform/runtime/libstdcxx/backend.cpp:892-936 | join has returned 0 only when entry and exit callbacks are over and everything is reclaimed |
| ThreadLifecycle.JoinReturnsAfterUserCode | platform/runtime/libstdcxx/backend.cpp:715-936 | in every run in which a join has returned, the entry of the thread was over once, then its exit callbacks once, and then the join returned once |
| ThreadLifecycle.NothingIsUsedAfterItsEnd | platform/runtime/libstdcxx/backend.cpp:705-963 | no step of any party touches a freed control or a deleted kernel object |
| ThreadLifecycle.WaitersAreKeptAlive | platform/runtime/libstdcxx/backend.cpp:777-789 | a blocked party keeps its control alive, and the reaper acknowledges only a joiner that still waits |
| ThreadLifecycle.ReaperWaitsForUnblockable | platform/runtime/libstdcxx/backend.cpp:757-775 | the thread that the reaper polls has no step left that could block |
| ThreadLifecycle.OnlyUserCodeBlocks | platform/runtime/libstdcxx/backend.cpp:705-791 | in every reachable state the runtime is out of steps if and only if nothing is pending and every join waits for a thread in its user code, so the bounded queue cannot deadlock |
| ThreadLifecycle.QuietHasReclaimed | platform/runtime/libstdcxx/backend.cpp:744-791 | at rest every completed thread that was joined or detached has been reclaimed |
| ThreadLifecycle.RunsEnd | platform/runtime/libstdcxx/backend.cpp:705-963 | a run without new threads and calls has at most as many steps as the measure of its first state, so every cleanup that can finish does |
| JoinCircles.StepKeepsOneCallEach | platform/runtime/libstdcxx/backend.cpp:892-963 | no step lets a thread run two joins or detaches at once, so that each thread waits for at most one other |
| JoinCircles.CircleIsForEver | platform/runtime/libstdcxx/backend.cpp:892-936 | no continuation, with new calls or without, releases a circle of joins or a chain that leads to one |
| JoinCircles.CaughtJoinNeverReturns | platform/runtime/libstdcxx/backend.cpp:892-936 | from the moment when its chain meets a circle a join never returns, whatever is done then |
| JoinCircles.ChainGoesOnUnlessCircle | platform/runtime/libstdcxx/backend.cpp:723-726 | in every reachable quiet state the chain of a waiting join leads to a thread that can take the next step of its own code if and only if it meets no circle |
| JoinCircles.NothingMovesExactly | platform/runtime/libstdcxx/backend.cpp:705-963 | no step but a new thread or call is enabled if and only if the runtime is quiet and every thread in user code is held up there by a join or detach of its own |
| JoinCircles.ComesToRest | platform/runtime/libstdcxx/backend.cpp:705-963 | from every state the system can come to rest without new calls |
| JoinCircles.JoinReturnsUnlessCircle | platform/runtime/libstdcxx/backend.cpp:892-936 | whatever the order of the steps, when the system has come to rest without new calls a join that was waiting has returned if and only if its chain met no circle |
| JoinCircles.OrderExcludesCircles | platform/runtime/libstdcxx/backend.cpp:723-726 | joins that follow an order of the threads form no circle |
| JoinCircles.ChainEndsInRunningCode | platform/runtime/libstdcxx/backend.cpp:723-726 | with such an order a waiting join leads to a thread that is not after it and whose own code can go on |
| JoinCircles.CircleBlocks | platform/runtime/libstdcxx/backend.cpp:723-726 | a concrete run: two threads joining each other in exit callbacks form a circle and leave no step enabled |
| WaiterList.Condition.Append | platform/runtime/libstdcxx/backend.cpp:605-617 | the waiter becomes the last of the doubly linked list |
| WaiterList.Condition.Remove | platform/runtime/libstdcxx/backend.cpp:619-637 | exactly this waiter leaves the list, wherever it stands; an unlinked one changes nothing |
| Condition.WaitStepOk | platform/runtime/libstdcxx/backend.cpp:1183-1244 | each step of a wait keeps the relation between its place, the list, its semaphore and whether it was taken out |
| Condition.StepKeeps | platform/runtime/libstdcxx/backend.cpp:1183-1322 | every step of every wait, signal and broadcast keeps the invariant |
| Condition.ReleasedOnlyWhileLinked | platform/runtime/libstdcxx/backend.cpp:1202-1205 | in every run the user's mutex is released only by a linked wait, and a wait that listens is linked or already taken out |
| Condition.WokenExactlyWhenPopped | platform/runtime/libstdcxx/backend.cpp:1214-1243 | a wait that owned its mutex returns 0 if and only if a signal took it out, even when racing with its timeout; a returned wait is not in the list |
| Condition.ReturnedStatus | platform/runtime/libstdcxx/backend.cpp:1183-1244 | what a wait returns, exactly: ETIMEDOUT or EINVAL if it gave up for that reason and no signal took it out, 0 if it owned its mutex and one did, EPERM if it did not own it, EAGAIN if its semaphore could not be created |
| Condition.OwnershipIsRestored | platform/runtime/libstdcxx/backend.cpp:1183-1244 | whatever a wait returns, at that step its thread owns the mutex exactly if it did when it called |
| Condition.WakeupsAreFifo | platform/runtime/libstdcxx/backend.cpp:1274-1297 | signals take waiters in arrival order, each once |
| Condition.SignalsWakeOneEach | platform/runtime/libstdcxx/backend.cpp:1274-1297 | without broadcasts no more waiters are taken out than signals are begun |
| Condition.SignalTakesTheFirst | platform/runtime/libstdcxx/backend.cpp:1278-1322 | a signal or broadcast that finds a waiter takes out the first of the list |
| Condition.PoppedCanWake | platform/runtime/libstdcxx/backend.cpp:1287-1295 | a sleeping waiter that was taken out has its semaphore put or about to be put, never twice |
| Condition.BroadcastTakesEveryone | platform/runtime/libstdcxx/backend.cpp:1299-1322 | when a broadcast leaves, every wait that had released its mutex was taken out or gave up by itself |
| Condition.OnlyTheUserHoldsUp | platform/runtime/libstdcxx/backend.cpp:1183-1322 | in every reachable state waits and signals stand still if and only if each wait has returned, sleeps in the list without having been signalled, or finds the user's mutex taken; a sleeper can still run into its deadline |
| Condition.RunsEnd | platform/runtime/libstdcxx/backend.cpp:1183-1322 | without new calls of the program a condition takes only a bounded number of steps |
| Condition.OwnerChanges | platform/runtime/libstdcxx/backend.cpp:1203-1242 | the user's mutex changes hands only when a free thread locks it or its owner unlocks it, or when a wait does so for its thread |
| Condition.FreeThreads | platform/runtime/libstdcxx/backend.cpp:1183-1244 | a thread is free for a call, a lock or an unlock exactly when all its waits have returned |
| Condition.SignalSpentOnFailingWait | platform/runtime/libstdcxx/backend.cpp:1206-1212 | a concrete run in which a wait without ownership fails with EPERM and still consumes a signal |
| ThreadKeys.KeyRoundTrip | platform/runtime/libstdcxx/backend.cpp:178-194 | index and generation are recovered from a handle, and every handle is made of its own |
| ThreadKeys.GenerationsCount | platform/runtime/libstdcxx/backend.cpp:988-992 | the masked increment that skips 0 is a count modulo 2^24 - 1 |
| ThreadKeys.GenerationsRepeat | platform/runtime/libstdcxx/backend.cpp:988-992 | two creations of a slot share a generation exactly when a multiple of 2^24 - 1 lies between them |
| ThreadKeys.KeyTable.Create | platform/runtime/libstdcxx/backend.cpp:976-1000 | the first free slot is taken under its next generation and the handle is live; EAGAIN exactly when all sixteen are in use |
| ThreadKeys.KeyTable.Delete | platform/runtime/libstdcxx/backend.cpp:1002-1020 | EINVAL exactly when the handle is not live; afterwards it is not |
| ThreadKeys.AcceptedKeys | platform/runtime/libstdcxx/backend.cpp:1002-1037 | a handle is accepted exactly when its low 8 bits name an allocated slot of the generation in its other bits, which is not 0 |
| ThreadKeys.CreationTakesTheFirstFree | platform/runtime/libstdcxx/backend.cpp:976-1000 | a creation allocates the first free slot with the destructor passed, and nothing when there is none |
| ThreadKeys.DeletionFreesTheSlot | platform/runtime/libstdcxx/backend.cpp:1002-1020 | a deletion frees the slot of a live handle and changes nothing for any other |
| ThreadKeys.CallIsRecorded | platform/runtime/libstdcxx/backend.cpp:1022-1059 | from the check of the handle to the access, whatever other threads do meanwhile, a set stores the value passed and a get reads under the allocation that the handle named; a dead handle changes nothing |
| ThreadKeys.DestroyedExactlyWhenDue | platform/runtime/libstdcxx/backend.cpp:1071-1082 | at thread exit a value goes to its destructor exactly when the slot had one as it was read, the value is not null and its generation is that of the slot |
| ThreadKeys.FinishIsLegal | platform/runtime/libstdcxx/backend.cpp:1030-1037 | what is read or destroyed after the check belongs to the allocation that was checked, though other threads ran in between |
| ThreadKeys.StepKeeps | platform/runtime/libstdcxx/backend.cpp:976-1059 | every step of create, delete, get, set and destroy keeps the refinement |
| ThreadKeys.SlotsAreAMap | platform/runtime/libstdcxx/backend.cpp:976-1059 | over any run the slots behave as a map from allocation and thread to value, while no slot has been created 2^24 times |
| ThreadKeys.FullCircleReadsStaleValue | platform/runtime/libstdcxx/backend.cpp:988-992 | a concrete run in which the 2^24th creation of a slot reads a value of the first |
| ThreadExit.SettledStays | platform/runtime/libstdcxx/backend.cpp:1071-1078 | a value that is not due does not become due by what other threads do to the keys |
| ThreadExit.ExitingThread.Visit | platform/runtime/libstdcxx/backend.cpp:1071-1082 | a destructor is called exactly when the value is due for the slot as it was read, after the value was cleared, with that value and the destructor of its own allocation |
| ThreadExit.ExitingThread.RunDestructors | platform/runtime/libstdcxx/backend.cpp:1061-1088 | at most four passes, at most one call for each key and pass, in the order of passes and indices, each with a value of the destructor's own allocation, and an early stop means that no value with a live destructor remains, under any interference |
| Clock.TicksToNanoseconds | platform/runtime/libstdcxx/backend.cpp:73-85 | exact floor in unbounded arithmetic, saturated at the largest value, without overflow |
| Clock.ThreadTicksToCounterTicks | platform/runtime/libstdcxx/backend.cpp:276-288 | exact floor, refused exactly when it does not fit |
| Clock.CounterTicksToNanoseconds | platform/runtime/libstdcxx/backend.cpp:290-304 | exact floor, refused exactly when it does not fit |
| Clock.TicksAreMilliseconds | platform/runtime/libstdcxx/backend.cpp:73-85 | a tick is a million nanoseconds, and times that are too long become the longest one |
| Clock.ConversionsRoundDown | platform/runtime/libstdcxx/backend.cpp:276-304 | what a conversion leaves over is less than one unit of its result, and a refusal means that the result does not fit |
| Clock.AdvancesByOne | platform/runtime/libstdcxx/backend.cpp:329-342 | the counter whose count is reconstructed goes up by one with each tick and starts again at its modulus |
| Clock.ReconstructIsNearest | platform/runtime/libstdcxx/backend.cpp:329-362 | a count is returned if and only if it is the one in the right residue class within half a turn of the estimate, ties upward, and fits |
| Clock.ReconstructionIsExact | platform/runtime/libstdcxx/backend.cpp:329-362 | for every true count, modulus and estimate off by less than half a turn the true count comes out |
| Clock.HalfATurnIsAmbiguous | platform/runtime/libstdcxx/backend.cpp:342-350 | at half a turn the reconstruction takes a counter that did not move for one that went round |
| Clock.HighResolutionClock.ElapsedNanoseconds | platform/runtime/libstdcxx/backend.cpp:306-365 | a timer whose reading fails, is out of range or has another scale is retired for good, an implausible reading only passed over |
| Clock.ElapsedIsExact | platform/runtime/libstdcxx/backend.cpp:306-365 | the whole path from counter reading to nanoseconds is the exact floor |
| Clock.PlainCounterCounts | platform/runtime/libstdcxx/backend.cpp:322-327 | a counter that does not wrap gives the difference, or nothing when it has gone back |
| Clock.DurationToTicks | platform/runtime/libstdcxx/backend.cpp:1479-1494 | the ceiling, or the longest finite wait when it is larger |
| Clock.DurationIsCovered | platform/runtime/libstdcxx/backend.cpp:1479-1494 | the fewest milliseconds that are not shorter than the duration, or the longest finite wait |
| Clock.SleepsAddUp | platform/runtime/libstdcxx/backend.cpp:1496-1517 | sleeps of n ticks that last at least n - 1 milliseconds together last at least the milliseconds that `SleepFor` adds up, and no longer when each takes just that |
| Clock.SleepFor | platform/runtime/libstdcxx/backend.cpp:1496-1517 | the sleeps together last at least the duration and none of them waits forever |
| FixedWidth.OrOfBits | platform/runtime/libstdcxx/backend.cpp:1456 | the bitwise or sets a bit exactly if one of the words has it set |
| TickCounter.ExtendedTick.Extend | platform/runtime/libstdcxx/backend.cpp:1448-1457 | the in-place update, whose bitwise or of epoch and sample is shown to add them, is the specified step |
| TickCounter.ExtensionIsTrue | platform/runtime/libstdcxx/backend.cpp:1448-1457 | a call gives the true 64-bit tick if and only if less than 2^32 ticks passed since the last sample |
| TickCounter.RunIsTrue | platform/runtime/libstdcxx/backend.cpp:1439-1457 | a whole run of samples is true if and only if no gap reaches 2^32 ticks |
| PublishedTime.StepKeeps | platform/runtime/libstdcxx/backend.cpp:367-375 | every step keeps the invariant and never lowers the published time |
| PublishedTime.TimeNeverGoesBack | platform/runtime/libstdcxx/backend.cpp:367-375 | under every interleaving a call returns at least every value returned by calls finished before it began |
| PublishedTime.LaterCallsReturnNoLess | platform/runtime/libstdcxx/backend.cpp:367-375 | a call that begins after another one has returned returns no less, and no less than its own candidate |
| PublishedTime.FailureMeansProgress | platform/runtime/libstdcxx/backend.cpp:370-373 | an exchange that fails for a reason means that another call has published meanwhile |
| Guards.StepKeeps | platform/runtime/libstdcxx/cxx_guard.cpp:124-184 | every load, store and mutex operation of every visit keeps the invariant |
| Guards.GuardsStay | platform/runtime/libstdcxx/cxx_guard.cpp:124-184 | in every run a guard keeps its two bytes and a once control its word, all zero at first, and each can be visited at any time |
| Guards.StepsRefinePhases | platform/runtime/libstdcxx/cxx_guard.cpp:124-184 | each step is a step of the machine Fresh, Busy, Done for its own guard or none; the initialized byte never reverts |
| Guards.OneInitializer | platform/runtime/libstdcxx/cxx_guard.cpp:124-172 | at most one initializer of a guard is in progress, only one ever completes, and acquire returns 0 only after it did |
| Guards.UserCodeRunsUnlocked | platform/runtime/libstdcxx/cxx_guard.cpp:141-157 | no visit holds the mutex while its initializer runs or while it sleeps |
| Guards.HolderLeaves | platform/runtime/libstdcxx/cxx_guard.cpp:135-147 | whoever holds the mutex can always go on and gives it back after at most four steps |
| Guards.FreshGuardIsTaken | platform/runtime/libstdcxx/cxx_guard.cpp:174-184 | after an abort any visit that gets the mutex runs the initializer |
| Guards.LifeOfVisit | platform/runtime/libstdcxx/cxx_guard.cpp:124-184 | a visit that released its guard ran the initializer once and it succeeded, one that aborted ran it once and it failed, one that returned 0 did not run it; before that it got the mutex and slept as often as it found another visit inside |
| Guards.OwnStep | platform/runtime/libstdcxx/backend.cpp:1324-1356 | a step of a guard or of `once`, seen by itself, keeps the relation between word, phase and mutex |
| NorFlash.ProgrammingClearsBits | platform/runtime/libc/storage_media.cpp:247-263 | programming clears exactly the bits on its range that are clear in the data, and sets none |
| NorFlash.OverwrittenIsReadBack | platform/runtime/libc/storage_media.cpp:389-396 | what is written to the image file is read back, and all the rest is as it was |
| NorFlash.ErasureStaysInBlock | platform/runtime/libc/storage_media.cpp:271-280 | an erasure makes 4096 bytes 0xFF and leaves all the rest |
| NorFlash.PageProgramPlaces | platform/runtime/libc/storage_media.cpp:247-253 | the byte of a command goes on from the address inside its page of 256 bytes and then on from the start of the page; nothing else changes |
| NorFlash.PageProgramWithinPage | platform/runtime/libc/storage_media.cpp:247-253 | a program command that stays inside its page has no wrap-around effect |
| NorFlash.PageProgramWraps | platform/runtime/libc/storage_media.cpp:247-253 | one that does not goes on at the start of the same page instead |
| NorFlash.EachByteOnce | platform/runtime/libc/storage_media.cpp:247-263 | each byte of the range lies in exactly one of the commands, no other byte in any, and no command leaves its page |
| NorFlash.Device.Write | platform/runtime/libc/storage_media.cpp:241-269 | the commands cover the range once, in order, each inside a page; the image becomes old AND source there and is unchanged elsewhere; it fails exactly out of range or when a command fails, leaving a programmed prefix |
| NorFlash.Simulator.Write | platform/runtime/libc/storage_media.cpp:440-465 | a write is accepted if and only if it is in range, sets no clear bit and the image file does not fail; a refusal leaves a prefix written that only clears bits, in whole chunks when the file did not fail |
| NorFlash.AcceptedWritesAgree | platform/runtime/libc/storage_media.cpp:440-465 | overwriting and programming give the same image if and only if only bits are cleared |
| NorFlash.WriteBoth | platform/runtime/libc/storage_media.cpp:241-465 | a write that the simulator takes is taken by a device without faults, and leaves identical images |
| NorFlash.ErasedTakesAnything | platform/runtime/libc/storage_media.cpp:271-280 | an erased block accepts any data and gives it back |
| NorFlash.Simulator.Erase | platform/runtime/libc/storage_media.cpp:467-473 | exactly the aligned block becomes 0xFF, or nothing changes, or a failing file leaves a prefix of the block erased |
| NorFlash.Device.Verify | platform/runtime/libc/storage_media.cpp:578-592 | success means every byte of the block is erased, and on a device that fails no command refusal means one is not |
| LinuxTimer.FrequencyDivides | platform/hal/drivers/impl/linux/Timer.cpp:326-330 | the tick frequency is the number of times that prescaler plus one goes into the input frequency |
| LinuxTimer.TicksAreComplete | platform/hal/drivers/impl/linux/Timer.cpp:309-324 | a tick counts when all its nanoseconds have passed |
| LinuxTimer.CounterCountsUp | platform/hal/drivers/impl/linux/Timer.cpp:309-324 | the counter goes up by one with each tick and from the auto-reload value to 0 |
| LinuxTimer.CounterAt | platform/hal/drivers/impl/linux/Timer.cpp:309-324 | the 64-bit computation does not overflow and equals counter plus floor of elapsed times frequency, modulo the period |
| LinuxTimer.Timer.Counter | platform/hal/drivers/impl/linux/Timer.cpp:153-157 | a running timer shows the counter of its base at that time, a stopped one its counter |
| LinuxTimer.TicksOfParts | platform/hal/drivers/impl/linux/Timer.cpp:347-352 | counting in two parts loses one tick exactly when the fractions left over make a whole one |
| LinuxTimer.RebasingLosesAtMostOneTick | platform/hal/drivers/impl/linux/Timer.cpp:347-352 | a reading after a new base is at most one tick behind and never ahead |
| LinuxTimer.RebasingNeverGains | platform/hal/drivers/impl/linux/Timer.cpp:347-352 | after captures at any moments the counter shows, modulo the period, what it would show without them less at most one tick for each capture, and never more |
| LinuxTimer.DeadlineIsNotEarly | platform/hal/drivers/impl/linux/Timer.cpp:332-345 | at the deadline the counter has wrapped, and a whole tick earlier it has not |
| LinuxTimer.DurationIsRoundedUp | platform/hal/drivers/impl/linux/Timer.cpp:249-272 | the ceiling in unbounded arithmetic, at most the largest tick, 0 for no duration |
| LinuxTimer.Timer.Start | platform/hal/drivers/impl/linux/Timer.cpp:112-127 | refused exactly without a tick frequency; otherwise the timer goes on from the counter it showed |
| LinuxTimer.Timer.Stop | platform/hal/drivers/impl/linux/Timer.cpp:129-138 | the counter stands still at what it showed, at every later time |
| LinuxTimer.Timer.SetPrescaler | platform/hal/drivers/impl/linux/Timer.cpp:197-206 | what was counted so far is kept at the old frequency |
| LinuxTimer.Timer.SetAutoReload | platform/hal/drivers/impl/linux/Timer.cpp:180-189 | what was counted so far is kept modulo the old period |
| LinuxTimer.Timer.SetCounter | platform/hal/drivers/impl/linux/Timer.cpp:165-172 | the counter goes on from the given value, with the same frequency and period |
| LinuxTimer.Timer.SetPeriod | platform/hal/drivers/impl/linux/Timer.cpp:274-283 | the counter starts at 0 and wraps after the ticks of the duration, at least one |
| LinuxTimer.Restart | platform/hal/drivers/impl/linux/Timer.cpp:112-127 | starting a running timer again does not change its reading |
| EtherTypeFilter.FrameEtherType | platform/hal/drivers/itf/IEthernet.hpp:87-111 | the loop finds the type behind all tags, or none when the frame ends before it |
| EtherTypeFilter.ParsedAsBuilt | platform/hal/drivers/itf/IEthernet.hpp:87-111 | in every frame built from two addresses, any number of 81 00 and 88 A8 tags, a type and a payload the parser finds the type, high byte first, and the number of tags |
| EtherTypeFilter.CutFramesHaveNoType | platform/hal/drivers/itf/IEthernet.hpp:87-111 | a frame that ends before its type has none |
| EtherTypeFilter.FilterLooksAtThreeTypes | platform/hal/drivers/impl/linux/Ethernet.cpp:128-155 | what the twelve instructions decide under a classic BPF interpreter, for every wanted type and every frame |
| EtherTypeFilter.FilterAgreesWithParser | platform/hal/drivers/impl/linux/Ethernet.cpp:128-155 | the filter keeps a frame of any length and content exactly when the parser finds the wanted type behind at most two tags, for wanted types that are no tags |
| EtherTypeFilter.AgreementIsExact | platform/hal/drivers/impl/linux/Ethernet.cpp:128-155 | they agree on all frames if and only if the wanted type is no tag |
| EtherTypeFilter.Receive | platform/hal/drivers/impl/linux/Ethernet.cpp:438-479 | a delivered frame has the wanted type behind at most two tags, and every frame before it was rightly skipped |
| Calendar.ErasCount | platform/hal/drivers/impl/stm32/Rtc.cpp:45-52 | eras cut toward zero with the correction are rounded down, for negative years too |
| Calendar.NextDayCounts | platform/hal/drivers/impl/stm32/Rtc.cpp:41-53 | for every valid date in any year the next day has the next number |
| Calendar.YearLength | platform/hal/drivers/impl/stm32/Rtc.cpp:41-53 | a year has 366 days exactly by the Gregorian rule |
| Calendar.KnownDates | platform/hal/drivers/impl/stm32/Rtc.cpp:55-57 | the three dates whose numbers the source asserts |
| Calendar.CountingDays | platform/hal/drivers/impl/stm32/Rtc.cpp:41-55 | the number equals the day-by-day count from 1970-01-01 in both directions |
| Calendar.EveryDateIsCounted | platform/hal/drivers/impl/stm32/Rtc.cpp:41-53 | every valid date is the one found by counting its number of days |
| Calendar.DaysAreOrdered | platform/hal/drivers/impl/stm32/Rtc.cpp:41-53 | numbers are ordered exactly as dates are |
| Calendar.TimeIsOrdered | platform/hal/drivers/impl/stm32/Rtc.cpp:86-97 | seconds increase strictly in calendar order and only so; nanoseconds are in range |
| Calendar.NextSecondCounts | platform/hal/drivers/impl/stm32/Rtc.cpp:86-97 | the reading one second later, over minutes, hours, days, months and years, gives one second more |
| Calendar.YearTwoThousand | platform/hal/drivers/impl/stm32/Rtc.cpp:86-97 | the year 2000 begins at 946684800 |
| Calendar.ReadingsAreChecked | platform/hal/drivers/impl/stm32/Rtc.cpp:86-103 | a reading is refused exactly when a field is out of range, and the part of a second is rounded down |
| Calendar.SubSecondsAreOrdered | platform/hal/drivers/impl/stm32/Rtc.cpp:99-101 | nanoseconds do not decrease while the sub-second counter counts down |
| Console.ConsoleRing.Pop | platform/hal/stm32/hal.cpp:38-48 | the oldest byte is taken, or none when the ring is empty |
| Console.ConsoleRing.Push | platform/hal/stm32/hal.cpp:250-266 | a byte is appended, or dropped exactly when 255 bytes wait |
| Console.TextAppended | platform/hal/stm32/hal.cpp:100-119 | one more raw byte adds exactly one byte of text at once, except the line feed of a pair, which adds none |
| Console.TextHasNoReturns | platform/hal/stm32/hal.cpp:100-119 | no carriage return is left, input without any is kept, and a pair becomes one line feed |
| Console.ReadCharacters | platform/hal/stm32/hal.cpp:100-119 | the reads deliver the input with each CR LF and each lone CR turned into one LF |
| Console.StepKeeps | platform/hal/stm32/hal.cpp:82-277 | every step of interrupt and reader keeps the invariant |
| Console.NothingIsLostOrRepeated | platform/hal/stm32/hal.cpp:38-277 | for every interleaving the accepted bytes are delivered once and in order |
| Console.AcceptedIsWhatArrived | platform/hal/stm32/hal.cpp:250-266 | what the ring accepted is what arrived on the line, in order, without the bytes that found 255 waiting |
| Console.BlockedMeansEmpty | platform/hal/stm32/hal.cpp:91-96 | a reader blocked on the semaphore, with no interrupt running, means an empty ring |
| Console.OnlyAFullRingDrops | platform/hal/stm32/hal.cpp:253-261 | an arriving byte is stored if and only if fewer than 255 bytes wait |
| Console.ByteIsStored | platform/hal/stm32/hal.cpp:250-266 | after a byte has arrived three steps store it behind the waiting ones, or one step drops it when 255 wait, and the reader will be woken |
| Console.EmptyInterrupt | platform/hal/stm32/hal.cpp:238-277 | an interrupt that finds neither a byte nor an idle line changes nothing and wakes nobody |
| Console.ReaderCatchesUp | platform/hal/stm32/hal.cpp:82-119 | from every reachable state with no interrupt running, steps of the reader alone give out the whole accepted input, with its line ends turned into LF |

## Left out

- FileSystemAdapter.Adapter.Open: FileX refusing a second writer of one file counts as a fault of the device, not as a refusal with its own condition.
- FileSystemAdapter.Adapter.SwitchMode: which of its FileX calls failed is not stated, only the modes that can result; what FileX does with a cleared control block that it still lists is taken to be a release.
- FileSystemAdapter.Adapter.Rename: the error of a failing device is arbitrary, so with a fault only the effects are stated.
- FileSystemAdapter.Adapter.Information: size, time stamps and attributes are not modelled.
- FileSystemAdapter.Adapter.RequireEmptyDirectory: the iteration over directory entries is one step of FileX.
- ByteFile.Descriptor.Run: calls that fail inside FileX are not modelled; what a failed write leaves behind belongs to FileX.
- NorFlash.Device.PageProgram: a failed command is taken to have programmed a prefix of its data.
- ThreadLifecycle.CreateKeeps: a thread creation that fails takes back its registration within the call and is not modelled.
- Guards.StepsRefinePhases: the use before the scheduler starts, without the mutex, where a recursive initialization is fatal, is not modelled.
- Console.BlockedMeansEmpty: errors of the semaphore and reading before the scheduler starts are not modelled.
- Console.ConsoleRing.Push: stands for one turn of the interrupt loop taken at once; the separate steps are those of the interleaving in the same module.
- Thread keys, conditions and the thread life cycle are proved on values that describe their shared state; only their lists, tables and loops are classes.
- The guard of the file adapter against use in interrupts, its standard streams, open directories, `fstat`, `stat`, `utime`, `truncate`, `statvfs` and the reentrant wrappers.
- `condition_destroy`, the creation of mutexes, conditions and semaphores on first use, and the timed waits of mutexes and semaphores.
- `system_time_nanoseconds` beyond its parts: the sum with the epoch is one guarded addition.
- The thread names, priorities and stack sizes of `thread_create`.
- The FileX, LevelX and ThreadX internals, DMA and register code, sockets and polling.
- The size that one descriptor sees of a file written through another, which depends on FileX's directory cache.
- Weak memory effects.
