# Verified model of the govfs storage layer

This project models the crash-safe storage layer of govfs and proves what it is for. It covers the two storage
drivers (`pkg/drivers/localstorage`, `pkg/drivers/badger`), the rotation of the Badger encryption key, the manager
that hands drives out, the completion protocol of the MCP server with the event broker under it, and the binary swap
of the updater.

Run `dafny verify dfyconfig.toml` in this directory.

## How the model works

**Disk and failures.** A storage directory is a map from paths to nodes with `rename(2)` on subtrees (`Disk.dfy`).
The class `Root` (`Root.dfy`) offers the system calls. Each of them may succeed, fail, or be the last thing the process
does: the choice is left open, so a contract proved about a caller holds for every schedule of failures and crashes. Two
constants describe the world. `reliable` says that every system call succeeds that can, which is how progress is
stated: on a reliable directory an operation succeeds exactly when its checks pass. `atomicCleanup` says whether the
removal of the transaction directory counts as one step; otherwise its files go one at a time in any order, and the
removal may stop after any of them. The class of the key rotation has both constants, and the Badger class has
`reliable` and `alone`, which says that no other operation runs.

**LocalStorage.** `Journal.dfy` has the heart of the protocol: a list of renames, its backward scan guided by which
paths exist, and the theorem that the scan is a left inverse of every prefix and can be interrupted anywhere.
`Recovery.dfy` names the trees a transaction can leave behind (`Recovers(t, u, atomic)`: completed recovery turns t into
u). `Plans.dfy` and `Swap.dfy` show that every list the driver builds has the property the theorem needs.
`Staging.dfy`, `Transaction.dfy`, `Store.dfy`, `Effects.dfy` and `Fitting.dfy` connect the renames with what a mutation
means; `Namespace.dfy` and `Entries.dfy` hold the namespace, its invariant and the updates of the two maps; `Index.dfy`
is the index file. `Archive.dfy`, `Restore.dfy` and `Backup.dfy` model backup archives. `LocalStorage.dfy` is the class
with its mutations, `Opening.dfy` is `New`, `Migration.dfy` backs up one store and loads into another, and `Runs.dfy`
composes everything into arbitrary runs with crashes and restarts.

**Badger.** `Blobs.dfy` has chunks, `BadgerState.dfy` the key space, the invariant that no file lacks its data, and what
concurrent operations may do to each other; `KeyOrder.dfy` the order of its iterators; `BadgerTxn.dfy` the bodies of the
transactions; `BadgerMoves.dfy` and `BadgerCopies.dfy` what a move and a copy can lose; `Badger.dfy` the class, with other
operations taking steps between any two of its own, and the seekable reader. `Refinement.dfy`, `Additions.dfy` and
`Agreement.dfy` relate the two drivers through the namespace both implement, `Differences.dfy` says for any argument
where they part, `Refusals.dfy` why they refuse, and `MoveLosses.dfy` and `CopyLosses.dfy` which moves and copies lose
something.

**The rest.** `TreeShape.dfy`, `LocalTree.dfy` and `Trees.dfy` are the two tree builders; `Rotation.dfy`, `Drives.dfy`,
`Completion.dfy` and `Updater.dfy` are the other protocols.

Paths are lists of components, and the string functions of the source (`storagePath`, `TransferPath`, the prefix tests,
`TrimSpace`) are modelled on strings and tied to them by lemmas in `Paths.dfy`.

## What came out

The main results hold over every input, schedule and run:

- Every LocalStorage mutation is atomic, it takes effect exactly when the index rename happened, and what has been
  acknowledged survives every later crash (`LocalStorage.Transaction`, `Runs.Run`).
- A file of the Badger driver lacks its data only if a `Move` has deleted it with what it replaced and then put it back,
  see below; every operation keeps all others complete, whatever runs concurrently, such a `Move` included, and wherever
  it stops (`BadgerState.Safe`, whose third argument is the set of blobs that are gone). A reader never mixes versions,
  under any interleaving (`BadgerState.StepIsInterference`, `BlobReader.Read`). And every record is always found by its
  ID (`BadgerState.Findable`).
- The drivers implement one namespace, field by field (`Agreement.CreateAlike`, `MkdirAlike`, `WriteAlike`,
  `CommentAlike`, `MoveAlike`, `CopyAlike`, `DeleteAlike`, `Trees.DriversAgree`).
- Paths are what the rules for them say: a cleaned path is the one normal form that dropping empty and dotted parts and
  taking back one name for each `..` leads to (`Paths.CleanIff`), and destinations are read by these rules
  (`Paths.TransferPathReads`, `Paths.StoragePathReads`).

Some expectations turned out to be false of the code. Each is stated with the exact condition under which the code meets
it:

- *"Each source exists and each target is free" is not enough for rollback.* A list that can be run is undone from every
  prefix if and only if after no prefix a move that has not run misses its source while its target is there
  (`Journal.RollbackIff`). `Journal.NestedSourcesFail` is a list where that happens; the lists the driver builds have
  unnested sources, for which it does not (`Plans.StaticIsPlan`, `Journal.PlanUnmistaken`).
- *Removing the transaction directory in an arbitrary order* is harmless after a rollback exactly if no move replaces
  existing content with staged content (`Journal.CleanupOrderIrrelevantIff`). `Write`, a replacing `Copy`, and a `Load`
  whose archive shares a top-level name with the store are not (`Store.InstallCleanupIff`, `Swaps.SwapCleanupIff`); all
  other requests are proved for any order (`Runs.Run`).
- *Every store can be reopened.* `New` refuses exactly the stores with a file whose name ends in white space, and
  `Create("/a /")` makes one (`Opening.New`, `Opening.CreateShutsOut`).
- *Every backup can be loaded.* Exactly if no file's path starts or ends in white space (`Backups.BackupLoadsIff`,
  `Migration.Migrate`). `Create("/ a")` makes a store that reopens and whose backup is refused
  (`Migration.BackupRefused`).
- *An error means that nothing has happened.* Not after the commit; `committed` tells the difference (`Atomic`).
- *A Badger move keeps what it does not replace.* Every record at or under the source arrives, and every other one that
  is not replaced stays, each with its data and found by its ID, if and only if nothing under the source and no data of
  the source itself lies in the replaced subtree and no two records get into each other's way
  (`BadgerMoves.MoveLosesNothingIff`, `BadgerVFS.Move`). In the spelling of a namespace that is so for every accepted
  move (`MoveLosses.NamespaceLosesNothing`), but `Mkdir` and `Create` also accept keys with `..` and `.`, with which
  directories lose their files (`MoveLosses.DirectorySwept`, `MoveLosses.FilesClash`) and a file its bytes
  (`MoveLosses.FileSwallowed`, `BadgerTransactions.MoveSafeIff`).
- *A Badger copy keeps what it does not replace.* Every record that is not replaced, and every one at or under the
  source, stays with its data, and every one at or under the source is copied with its data, if and only if nothing at
  or under the source lies in the replaced subtree and no copy's key is that of a record that is not replaced
  (`BadgerCopies.CopyLosesNothingIff`, `BadgerVFS.Copy`). In the spelling of namespaces that is so for every accepted
  copy that replaces nothing, whatever runs between its look and its commit, and for any other that runs alone
  (`CopyLosses.NamespaceCopyLosesNothing`). But `Move` checks no parent, so that `/d/x` can be there without `/d`, and
  then a copy of a directory to `/d` overwrites it (`CopyLosses.OrphanOverwritten`); a file beside a directory of its
  name lets a copy that replaces the one overwrite the other (`CopyLosses.TwinOverwritten`); and with `..` keys a copy
  deletes its own source (`CopyLosses.SourceSwept`).
- *Both drivers read a destination alike.* Exactly if LocalStorage accepts the argument and its last name does not end in
  white space, or both refuse (`Differences.DestinationsAgreeIff`). They part at `/x/../b`, `/.vfsx` and `/b /`
  (`DotDotDivides`, `ReservedDivides`, `SpaceDivides`).
- *Both drivers accept the same new paths.* Exactly if the argument means the same key to both and there is no entry of
  the other kind beside it, or both refuse (`Differences.NewPathsAgreeIff`). They part at `//y`, at `/.vfsx`, at the
  empty string, and at a file beside a directory of the same name (`InnerSlashDivides`, `BadgerTakesMore`,
  `TwinDivides`).
- *Both drivers accept the same transfers.* Exactly if they read the destination alike and LocalStorage finds its parent
  or the expectation fails, or neither accepts what it reads (`Differences.TransfersAgreeIff`); Badger transfers to where
  there is no parent (`NoParentDivides`).
- *Both drivers answer Tree for the same paths.* Exactly if the argument spells out a stored path and there is no file at
  it, or neither answers (`Differences.TreesAgreeIff`). They part at `/a//b` (`InnerSlashUnanswered`), and the root that
  both make up is called `/` by one and `.` by the other (`Trees.RootsAgree`).
- *Both drivers give the same reason for refusing.* Below a file LocalStorage says that the parent is no directory and
  Badger that it is not found (`Refusals.FileParentDivides`).
- *An interrupted recovery of a key rotation can be repeated.* If the backup directory is removed file by file, exactly
  for a backup that is not ready (`KeyRotation.RepeatedRecoveryIff`); `CommittedCleanupIff` and `RollbackCleanupIff` say
  which partial removals do no harm.
- *A failed key rotation leaves the key alone.* One that finds the backup of an earlier rotation deletes its committed
  marker; without further failures the key survives exactly if that backup was not ready or held this very key
  (`BadgerKeys.Rotate`, `KeyRotation.LeftoverIsRevived`). `KeyRotation.OldKeyReturns` is a directory where the key before
  comes back.

## Model

| member | source | states |
|---|---|---|
| Paths.StoragePathYieldsStoredNames | pkg/drivers/localstorage/transaction.go:25-40 | every accepted path has only sensible components: none empty, dotted, reserved or with a forbidden character |
| Paths.CleanIff | pkg/drivers/localstorage/transaction.go:35 | a clean path is the result of path.Clean if and only if some sequence of the rules leads to it: empty parts and "." vanish, ".." takes back the name before it and vanishes at the root |
| Paths.CleanTakesBack | transfer.go:12 | a name followed by ".." vanishes wherever it stands, and nothing else does |
| Paths.CleanSkips | transfer.go:12 | empty parts and "." vanish wherever they stand |
| Paths.CleanAtRoot | transfer.go:12 | ".." at the root vanishes |
| Paths.StoragePathReads | pkg/drivers/localstorage/transaction.go:25-40 | storagePath goes where the rules lead from the trimmed argument, and refuses exactly backslashes, zero bytes, "..", and parts beginning with ".vfs" |
| Paths.TransferPathReads | transfer.go:10-23 | TransferPath goes where the rules lead from the trimmed argument, and refuses exactly the root, the item, its ancestors, a directory's descendants and forbidden characters |
| Paths.InnerUp | transfer.go:12 | "/docs/a/../b" is /docs/b |
| Paths.TrimSpaceIs | pkg/drivers/localstorage/transaction.go:26 | trimming takes away the white space at both ends and nothing else |
| Paths.FileStable | pkg/drivers/localstorage/transaction.go:25-40 | reading a file's stored path again gives the same path exactly if its name does not end in white space |
| Paths.DirectoryStable | pkg/drivers/localstorage/transaction.go:25-40 | a directory's stored path always reads back as itself |
| Paths.RenderInjective | pkg/drivers/localstorage/transaction.go:25-40 | the stored string determines the components |
| Paths.StoredPrefix | pkg/drivers/localstorage/localstorage.go:448-457 | the string prefix test on stored paths means: the directory itself or something below it |
| Paths.TransferPathDecidesAncestry | transfer.go:10-23 | TransferPath refuses exactly the root, the item itself, its ancestors and, for a directory, its descendants |
| Paths.TransferKeepsStoredNames | transfer.go:10-23 | an accepted destination again has only sensible components |
| Disk.ComputeMoved | pkg/drivers/localstorage/transaction.go:235-238 | what a rename makes of the tree, entry by entry |
| Disk.RenameBack | pkg/drivers/localstorage/transaction.go:158-160 | renaming back undoes a rename onto a free path |
| Journal.UndoSkips | pkg/drivers/localstorage/transaction.go:144-148 | the scan leaves alone a move that has not run |
| Journal.UndoReverses | pkg/drivers/localstorage/transaction.go:149-160 | the scan recognises the last move that has run, can reverse it, and does |
| Journal.RollbackFromEveryPrefix | pkg/drivers/localstorage/transaction.go:138-166 | from the tree after any k moves the scan restores the initial tree, and interrupted anywhere it leaves the tree of a shorter prefix |
| Journal.RollbackIff | pkg/drivers/localstorage/transaction.go:126-174 | a list that can be run is undone from every prefix, wherever the scan stops, if and only if after no prefix a move that has not run misses its source while its target is there |
| Journal.PlanUnmistaken | pkg/drivers/localstorage/transaction.go:138-166 | a plan makes no such mistake |
| Journal.NestedSourcesFail | pkg/drivers/localstorage/transaction.go:138-166 | a family of lists with existing sources and free targets that recovery cannot undo after one move |
| Journal.NestedSourcesFailHere | pkg/drivers/localstorage/transaction.go:138-166 | one such list and tree |
| Journal.HarmlessScanIsIdle | pkg/drivers/localstorage/transaction.go:138-166 | if every move is harmless the scan changes nothing, however much of the transaction directory is gone |
| Journal.UnluckyRemoval | pkg/drivers/localstorage/transaction.go:144-173 | for a move that is not harmless, removing its staged source first makes recovery carry the user's entry away |
| Journal.CleanupOrderIrrelevantIff | pkg/drivers/localstorage/transaction.go:126-174 | after a rollback, clean-up in any order with repeated recovery keeps the user's entries if and only if every move is harmless |
| Recovery.RecoversToOne | pkg/drivers/localstorage/transaction.go:126-174 | recovery leads to one state at most, the one the backward scan computes |
| Recovery.InternalPathIs | pkg/drivers/localstorage/transaction.go:176-179 | isInternalPath accepts exactly the non-empty paths that path.Clean leaves alone and that hold no forbidden character |
| Recovery.InterruptedScan | pkg/drivers/localstorage/transaction.go:138-166 | wherever the scan stops, recovery still leads to the same state |
| Recovery.CleaningKeepsOutcome | pkg/drivers/localstorage/transaction.go:170-174 | wherever the removal of the transaction directory stops, recovery still leads to the same state |
| Plans.StaticIsPlan | pkg/drivers/localstorage/transaction.go:235-244 | a list whose sources exist, are unnested and whose targets are free or put aside earlier can be undone from every prefix |
| Plans.Lands | pkg/drivers/localstorage/transaction.go:235-244 | what a move has put somewhere is there at the end |
| Swaps.SwapStatic | pkg/drivers/localstorage/localstorage.go:665-685 | the list that Load builds, evictions then installations, can be undone from every prefix |
| Swaps.SwapSparesControl | pkg/drivers/localstorage/localstorage.go:665-685 | its paths pass isInternalPath and leave index, journal and committed index alone |
| Swaps.SwapRun | pkg/drivers/localstorage/localstorage.go:665-686 | running it makes the user's part of the tree the staged tree |
| Swaps.DecimalsDiffer | pkg/drivers/localstorage/localstorage.go:670-675 | the numbered names of what is put aside are distinct |
| Swaps.SwapCleanupIff | pkg/drivers/localstorage/localstorage.go:642-687 | a rolled-back Load survives clean-up in any order exactly if the archive shares no top-level name with the store |
| RootDirectory.Root.RecoverTransaction | pkg/drivers/localstorage/transaction.go:126-174 | under every schedule recovery keeps leading to the same state; when it completes that state is reached; without failing system calls it completes |
| RootDirectory.Root.UndoMoves | pkg/drivers/localstorage/transaction.go:138-166 | the loop computes the backward scan, leaves nothing to undo, and never meets a path it must refuse |
| RootDirectory.Root.UndoMove | pkg/drivers/localstorage/transaction.go:139-165 | one step reverses the move exactly if its source is missing and its target there, and refuses paths that are not internal |
| RootDirectory.Root.RemoveTransaction | pkg/drivers/localstorage/transaction.go:170-174 | removal takes children before parents and may stop anywhere, unless it counts as one step |
| RootDirectory.Root.Rename | pkg/drivers/localstorage/transaction.go:235-238 | a rename happens entirely or not at all |
| RootDirectory.Root.WriteSynced | pkg/drivers/localstorage/transaction.go:116-123 | an exclusive write leaves the file, a torn file or nothing |
| Transactions.PublishJournal | pkg/drivers/localstorage/transaction.go:208-228 | index and journal are written and the journal renamed into place; a failure leaves no journal |
| Transactions.PublishAndRun | pkg/drivers/localstorage/transaction.go:207-250 | recovery leads to the old tree until the index rename and to the new tree from then on, wherever the run stops |
| Transactions.RunMoves | pkg/drivers/localstorage/transaction.go:229-244 | after every rename the tree is one that recovery rolls back, and every rename is possible |
| Transactions.CommitSettles | pkg/drivers/localstorage/transaction.go:245-249 | renaming the index is the commit |
| Namespace.InSubtreeIsBelow | pkg/drivers/localstorage/localstorage.go:448-457 | the test by ID and stored prefix selects exactly the entries at or below the root |
| Namespace.DeletedOk | pkg/drivers/localstorage/localstorage.go:285-291 | deleting a subtree keeps the namespace invariant |
| Namespace.RelocatedOk | pkg/drivers/localstorage/localstorage.go:448-483 | moving a subtree keeps the namespace invariant: parents indexed, paths unique up to the trailing slash |
| Namespace.DuplicatedOk | pkg/drivers/localstorage/localstorage.go:448-483 | copying a subtree under fresh IDs keeps the namespace invariant |
| Namespace.RelocatedIs | pkg/drivers/localstorage/localstorage.go:448-483 | a move gives exactly the entries at or below its source a new path, name and time, and keeps their IDs, kinds, sizes and comments |
| Namespace.DuplicatedIs | pkg/drivers/localstorage/localstorage.go:448-483 | a copy leaves every entry as it is and adds one such entry under a fresh ID for each at or below its source |
| Store.InstallJournalable | pkg/drivers/localstorage/localstorage.go:411-443 | the one or two moves of Create, Write, Mkdir, Move and Copy may be journalled: undoable, internal, sparing the control files |
| Store.InstallCleanupIff | pkg/drivers/localstorage/localstorage.go:234-254 | a rolled-back installation survives clean-up in any order exactly if it does not replace something with staged content |
| Store.CommittedIsChanged | pkg/drivers/localstorage/transaction.go:182-250 | the tree at the commit is the old one with the mutation's change and the new index |
| Effects.PutSound | pkg/drivers/localstorage/localstorage.go:200-231 | adding a file or a directory keeps entries and disk in step |
| Effects.RelocateSound | pkg/drivers/localstorage/localstorage.go:377-445 | moving keeps entries and disk in step, the replaced subtree included |
| Effects.DuplicateSound | pkg/drivers/localstorage/localstorage.go:377-445 | copying keeps entries and disk in step |
| StagingArea.CopyTree | pkg/drivers/localstorage/localstorage.go:499-516 | what is staged is the source's subtree, entry by entry, whatever order it is visited in |
| StagingArea.RunStage | pkg/drivers/localstorage/transaction.go:203-206 | every staging closure leaves the user's tree alone, asks for the moves that carry out the mutation, and fails without an I/O error exactly on an occupied path |
| EntryMaps.CheckParentDecides | pkg/drivers/localstorage/transaction.go:44-57 | the parent check on strings decides whether the parent is the root or an indexed directory |
| EntryMaps.CheckNewDecides | pkg/drivers/localstorage/localstorage.go:200-220 | Create and Mkdir let a path through exactly if its parent is indexed and it is free, a file name ending in white space excepted |
| EntryMaps.CheckTransferDecides | pkg/drivers/localstorage/localstorage.go:377-410 | what an accepted Move or Copy may rely on: sensible destination, indexed parent, disjoint from the source, the expected entry at the destination |
| EntryMaps.MoveStep | pkg/drivers/localstorage/localstorage.go:465-481 | one turn of the loop over the two maps, in any iteration order |
| EntryMaps.MoveComplete | pkg/drivers/localstorage/localstorage.go:448-483 | the loop re-roots exactly the source's subtree and keeps every other entry |
| EntryMaps.DuplicateComplete | pkg/drivers/localstorage/localstorage.go:448-483 | the loop adds an isomorphic subtree with fresh IDs and leaves the source |
| Fittings.TransferFits | pkg/drivers/localstorage/localstorage.go:377-483 | the disk change and the map update of a transfer belong together |
| IndexFiles.DecodesBack | pkg/drivers/localstorage/transaction.go:59-93 | an entry written to the index reads back exactly if it is sensible and, for a file, its name does not end in white space |
| IndexFiles.ReadIndex | pkg/drivers/localstorage/transaction.go:59-93 | the loop accepts exactly the rows of a namespace and then holds that namespace in both maps |
| IndexFiles.SameIndex | pkg/drivers/localstorage/transaction.go:59-93 | rows are the index of one namespace at most |
| LocalStorages.LocalStorage.Transaction | pkg/drivers/localstorage/transaction.go:182-250 | under every schedule the store is in the old state until the index rename and in the complete new state after it; maps and disk agree unless the driver has marked itself failed; without failing system calls it succeeds |
| LocalStorages.LocalStorage.Create | pkg/drivers/localstorage/localstorage.go:200-231 | atomic; adds one file with a fresh ID, its content and nothing else; refuses as the checks say; succeeds if nothing fails and the path is free |
| LocalStorages.LocalStorage.Mkdir | pkg/drivers/localstorage/localstorage.go:296-323 | the same for a directory |
| LocalStorages.LocalStorage.Write | pkg/drivers/localstorage/localstorage.go:234-254 | atomic; replaces one file's content, size and time and nothing else |
| LocalStorages.LocalStorage.WriteComments | pkg/drivers/localstorage/localstorage.go:257-270 | atomic; changes one comment and no file |
| LocalStorages.LocalStorage.Delete | pkg/drivers/localstorage/localstorage.go:273-293 | atomic; takes exactly the subtree from maps, index and disk |
| LocalStorages.LocalStorage.Move | pkg/drivers/localstorage/localstorage.go:365-367 | atomic; re-roots exactly the source's subtree, keeping IDs, and drops the replaced one |
| LocalStorages.LocalStorage.Copy | pkg/drivers/localstorage/localstorage.go:370-375 | atomic; adds an isomorphic subtree under fresh IDs and drops the replaced one; without an expectation nothing may be replaced |
| LocalStorages.LocalStorage.TransferEntry | pkg/drivers/localstorage/localstorage.go:377-445 | the common part of Move and Copy |
| LocalStorages.LocalStorage.MoveItems | pkg/drivers/localstorage/localstorage.go:448-483 | deleting and inserting in two maps entry by entry relocates the subtree |
| LocalStorages.LocalStorage.CopyItems | pkg/drivers/localstorage/localstorage.go:448-483 | inserting entry by entry duplicates the subtree |
| LocalStorages.LocalStorage.DropSubtree | pkg/drivers/localstorage/localstorage.go:285-291 | the loop deletes exactly the subtree from both maps |
| LocalStorages.LocalStorage.Snapshot | pkg/drivers/localstorage/transaction.go:208-215 | the index lists every entry once |
| LocalStorages.LocalStorage.Backup | pkg/drivers/localstorage/localstorage.go:529-626 | the archive holds the index and every file's content once |
| LocalStorages.LocalStorage.Load | pkg/drivers/localstorage/localstorage.go:642-687 | all or nothing: an acceptable archive replaces index, maps and files by exactly what it describes; any other, or a load that does not commit, changes nothing; with clean-up in any order if the archive shares no top-level name with the store |
| Archives.MakeAllMakes | pkg/drivers/localstorage/localstorage.go:769-813 | MkdirAll adds exactly the missing directories, or meets a file |
| Archives.UnpackIff | pkg/drivers/localstorage/localstorage.go:732-813 | an archive can be unpacked if and only if every member is supported and none needs a directory where another one is a file, in whatever order they come; and then every path is there for whatever is or lies below it, files with the content of their last member |
| Restoring.Extract | pkg/drivers/localstorage/localstorage.go:732-813 | unpacking to disk does what unpacking means, item by item, and refuses only what cannot be unpacked |
| Restoring.MakeDirectories | pkg/drivers/localstorage/localstorage.go:690-704 | indexed directories that no file has created are added, or the archive is hopeless |
| Restoring.WalkStaged | pkg/drivers/localstorage/localstorage.go:705-730 | the walk accepts exactly if staged entries and index correspond one to one |
| Restoring.ListMoves | pkg/drivers/localstorage/localstorage.go:665-685 | the two listings give every top-level entry of the store one eviction and every staged one an installation |
| Backups.BackupLoadsIff | pkg/drivers/localstorage/localstorage.go:529-687 | the backup of a store is acceptable if and only if no file's path starts or ends in white space |
| Backups.BackupLoadIsIdentity | pkg/drivers/localstorage/localstorage.go:529-687 | loading a backup gives the same entries and the same indexed files, empty directories included |
| Migration.Migrate | pkg/drivers/localstorage/localstorage.go:529-687 | backing up one store and loading into another gives the other the same entries and indexed files or leaves it as it was; if nothing fails it succeeds exactly if no file's path starts or ends in white space |
| Migration.BackupRefused | pkg/drivers/localstorage/localstorage.go:200-231 | Create("/ a") is accepted, its store reopens, and no backup of it is accepted |
| Opening.New | pkg/drivers/localstorage/localstorage.go:46-88 | opening recovers the one state recovery leads to and reads its namespace back; it refuses, I/O errors aside, exactly if a file name ends in white space |
| Opening.ReadStore | pkg/drivers/localstorage/localstorage.go:72-90 | on any tree, opening after recovery accepts exactly a readable index, or none, whose every entry is on disk with its kind and size |
| Opening.CheckIndexedFiles | pkg/drivers/localstorage/transaction.go:95-106 | the check passes exactly if every entry is on disk with its kind and size |
| Opening.CreateShutsOut | pkg/drivers/localstorage/localstorage.go:200-220 | Create accepts "/a /" and stores a file that reopening refuses |
| Runs.Perform | pkg/drivers/localstorage/localstorage.go:200-687 | every request is atomic and has its complete effect if it commits, with clean-up in any order for the requests that survive it |
| Runs.CommittedSane | pkg/drivers/localstorage/transaction.go:182-250 | a committed state is consistent even if the process died right after the commit |
| Runs.Run | pkg/drivers/localstorage/localstorage.go:46-687 | in every run, with crashes and restarts anywhere, each request has its complete effect or none, what was acknowledged has it, and recovery leads to the state after the last one; on a reliable directory every request is carried out unless a file name ends in white space; with clean-up in any order if all requests survive it |
| Blobs.CompleteJoins | pkg/drivers/badger/badger.go:467-510 | the chunks of a complete blob concatenate to the content |
| Blobs.CompleteIsUnique | pkg/drivers/badger/badger.go:467-510 | a blob is the complete form of one content of a given length |
| Blobs.AllWritten | pkg/drivers/badger/badger.go:467-510 | when the loop ends and everything is flushed the blob is complete |
| BadgerState.SafeHasContent | pkg/drivers/badger/badger.go:247-287 | every file has exactly Size bytes of data under an internal ID of its own, unless a move has lost it |
| BadgerTransactions.EraseFindable | pkg/drivers/badger/utils.go:199-264 | after a deletion every record that is left is found by its ID |
| BadgerTransactions.AddAllFindable | pkg/drivers/badger/badger.go:857-881 | after adding records under fresh IDs every record is |
| BadgerState.StepIsInterference | pkg/drivers/badger/badger.go:290-516 | a step of one operation is something every other operation can live with |
| BadgerState.MineStays | pkg/drivers/badger/badger.go:376-400 | chunks of a blob that has not been published stay as they are |
| BadgerState.VersionStays | pkg/drivers/badger/badger.go:1222-1274 | an open version can lose chunks but never change |
| BadgerTransactions.Scan | pkg/drivers/badger/badger.go:894-912 | iterating a prefix yields exactly the records under it, in key order |
| BadgerTransactions.TransferItems | pkg/drivers/badger/badger.go:894-912 | the item and everything under it, the item first |
| BadgerTransactions.DeleteItems | pkg/drivers/badger/utils.go:222-264 | records, index keys and chunks of the items go, and nothing else |
| BadgerTransactions.EraseSafe | pkg/drivers/badger/utils.go:199-264 | deleting items leaves every other file what it has of its data |
| BadgerTransactions.PrepareTransfer | pkg/drivers/badger/badger.go:915-931 | the replacement check, and the target's subtree out of the way |
| BadgerTransactions.MoveChildren | pkg/drivers/badger/utils.go:295-332 | every record under the source moves to the same place under the destination |
| BadgerTransactions.MoveBody | pkg/drivers/badger/badger.go:767-815 | the closure refuses as TransferRefusal says and otherwise computes the move |
| BadgerTransactions.MoveSafeIff | pkg/drivers/badger/badger.go:767-822 | a move leaves no further file without its data if and only if the source is, in the store before the move, no file with data in the subtree that is replaced; otherwise that file alone is lost; and in either case the move is a step that others can live with |
| BadgerTransactions.MoveItemSafe | pkg/drivers/badger/utils.go:267-292 | re-keying one record leaves every file what it has of its data |
| BadgerMoves.MoveLosesNothingIff | pkg/drivers/badger/utils.go:267-332 | every record at or under the source arrives and every other one that is not replaced stays, each with its data and found by its ID, if and only if the store before the move has nothing under the source, and no data of the source, in the replaced subtree, and no two records that get into each other's way |
| BadgerMoves.AcceptedIsOutside | transfer.go:10-23 | an accepted destination does not lie under the source's key, however that is spelt |
| BadgerMoves.SweptLost | pkg/drivers/badger/utils.go:244-264 | what is swept away is lost |
| BadgerMoves.ClashLost | pkg/drivers/badger/utils.go:319-329 | of two records that get into each other's way one is lost |
| BadgerMoves.MoveKeepsFindable | pkg/drivers/badger/utils.go:267-332 | whatever a move loses, every record that is there afterwards is found by its ID |
| BadgerCopies.CopyLosesNothingIff | pkg/drivers/badger/badger.go:825-891 | every record that is not replaced stays, every one at or under the source stays and is copied, each with its data and found by its ID, if and only if nothing at or under the source is in the replaced subtree and no copy's key is that of a record, at the commit, that is not replaced |
| BadgerCopies.KeysOfCopies | pkg/drivers/badger/badger.go:861-864 | no two copies get the same key |
| BadgerCopies.OthersId | pkg/drivers/badger/badger.go:857-881 | a record that is swept away or overwritten is not there any more |
| BadgerDriver.BadgerVFS.WriteChunks | pkg/drivers/badger/badger.go:467-510 | with flushes anywhere and others at work, the blob is complete at the end; only its chunks are written |
| BadgerDriver.BadgerVFS.DropChunks | pkg/drivers/badger/badger.go:512-516 | only chunks of a blob that no file uses are deleted |
| BadgerDriver.BadgerVFS.Create | pkg/drivers/badger/badger.go:290-373 | a new file whose record is spelled out field by field, with its complete data under a fresh internal ID, accepted exactly if its parent exists and its key is free; on failure no record changes, and if nothing else goes wrong no chunk is left either |
| BadgerDriver.BadgerVFS.Write | pkg/drivers/badger/badger.go:376-465 | one swap to a complete new version; before it the old version is untouched, after it only the old chunks go, and all of them when it succeeds |
| BadgerDriver.BadgerVFS.WriteComments | pkg/drivers/badger/badger.go:519-551 | one record's comment, in one step; its other fields and all else stay |
| BadgerDriver.BadgerVFS.Mkdir | pkg/drivers/badger/badger.go:612-686 | one record, spelled out field by field, accepted exactly if its parent exists and its key is free |
| BadgerTransactions.BaseNameIs | pkg/drivers/badger/badger.go:344-352 | what filepath.Base makes of any path: slashes at its end go, then everything up to the last slash |
| Additions.NewKeyOf | pkg/drivers/badger/badger.go:290-310 | white space around a sensible path, a missing slash in front and, for a directory, one at the end make no difference to the key |
| Additions.WrittenIsRead | pkg/drivers/badger/badger.go:968-980 | so written, LocalStorage reads the path and Badger's Tree looks for the directory there |
| Additions.NoNewRoot | pkg/drivers/badger/badger.go:612-632 | the root makes no key, and for Tree nothing but white space around a slash, or nothing at all, is the root |
| Additions.NewRefines | pkg/drivers/badger/badger.go:344-352 | on the spelling of a namespace an accepted Create or Mkdir adds exactly one entry, named by the last component, of the given size and time, without a comment |
| Additions.WriteRefines | pkg/drivers/badger/badger.go:376-465 | a Write changes one entry's size and time and nothing else of the namespace |
| Additions.CommentRefines | pkg/drivers/badger/badger.go:519-551 | WriteComments changes one entry's comment and nothing else |
| BadgerDriver.BadgerVFS.Delete | pkg/drivers/badger/badger.go:554-609 | one step takes exactly the entry, or everything under its key, with chunks and index keys |
| BadgerDriver.BadgerVFS.Move | pkg/drivers/badger/badger.go:767-822 | one step that others can live with; it leaves no further file without its data exactly if it does not swallow its source, and loses nothing exactly if nothing is swept away and nothing clashes |
| BadgerDriver.BadgerVFS.Copy | pkg/drivers/badger/badger.go:825-891 | copies of the versions in the transaction's view, each complete under its own internal ID, published together; it loses nothing exactly if it sweeps away nothing of its source and overwrites nothing that it does not replace; a conflict, also about a destination found free, or a failure publishes none |
| BadgerDriver.BadgerVFS.CopyItems | pkg/drivers/badger/badger.go:857-881 | every file's data transcribed while others are at work |
| BadgerDriver.BadgerVFS.CommitCopy | pkg/drivers/badger/badger.go:837-891 | the transaction commits only if no record it has read has changed and the destination's keys lead to what they led to |
| BadgerDriver.BadgerVFS.Open | pkg/drivers/badger/badger.go:247-287 | a reader of the current version, which is complete unless a move has lost it |
| BadgerDriver.BlobReader.Read | pkg/drivers/badger/badger.go:1222-1274 | the bytes are those of the opened version at the offset, as many as fit; the call is short only at the end or when the version has been deleted, never from another version, whatever other operations do, a move that deletes its own source included |
| BadgerDriver.BlobReader.ReadSome | pkg/drivers/badger/badger.go:1237-1272 | one turn copies from the right chunk, cached or loaded, and makes progress |
| BadgerDriver.BlobReader.ReadAll | pkg/drivers/badger/badger.go:1211-1274 | reading to the end gives the content; it fails only if the version is no longer complete |
| BadgerDriver.BlobReader.Seek | pkg/drivers/badger/badger.go:1276-1295 | the new offset for each whence, refused if negative |
| Refinement.KeyStringInjective | pkg/drivers/badger/utils.go:100-105 | a meta key determines path and kind |
| Refinement.FindByPathFinds | pkg/drivers/badger/utils.go:168-185 | on the spelling of a namespace findByPath finds the entry at the path whatever its kind |
| Refinement.ParentOfStored | pkg/drivers/badger/utils.go:71-96 | getParentPath of a stored path is the stored path of its parent directory |
| Refinement.EraseRefines | pkg/drivers/badger/utils.go:244-264 | erasing a subtree's records is deleting the subtree from the namespace, index keys included |
| Refinement.MoveRefines | pkg/drivers/badger/badger.go:767-822 | Badger's key-by-key move is the relocation of the namespace |
| Refinement.CopyRefines | pkg/drivers/badger/badger.go:825-891 | Badger's copy is the duplication of the namespace under fresh IDs |
| Refinement.AcceptedByBoth | pkg/drivers/badger/badger.go:767-931 | what LocalStorage's checks accept Badger's accept, for destinations that both read alike |
| Refinement.DestinationKept | pkg/drivers/localstorage/localstorage.go:377-395 | trimming the cleaned path once more keeps it exactly if its last name does not end in white space |
| Refinement.NamespaceNeverSwallows | pkg/drivers/badger/badger.go:767-822 | from the spelling of a namespace no move deletes its own source |
| MoveLosses.NamespaceLosesNothing | pkg/drivers/badger/badger.go:767-822 | on the spelling of a namespace every accepted move, also to a path that only Badger accepts, keeps every record with its data except those it replaces |
| MoveLosses.SweptStoreArises | pkg/drivers/badger/badger.go:612-686 | Mkdir and Create accept /a, /a/.., /a/../d and /a/../d/f one after the other |
| MoveLosses.SweptStoreAccepts | transfer.go:10-23 | the checks let /a/../d move to /a |
| MoveLosses.DirectorySwept | pkg/drivers/badger/badger.go:767-822 | that move deletes the file in the directory, its ID and its bytes |
| MoveLosses.FileSwallowed | pkg/drivers/badger/badger.go:767-822 | moving the file itself to /a leaves it, and no other, without its bytes |
| MoveLosses.ClashStoreArises | pkg/drivers/badger/badger.go:290-373 | Mkdir and Create accept /a, /a/., /a/./x and /a/x one after the other |
| MoveLosses.FilesClash | pkg/drivers/badger/utils.go:295-332 | moving /a to /b then loses one of the two files |
| CopyLosses.NamespaceCopyLosesNothing | pkg/drivers/badger/badger.go:825-891 | on the spelling of namespaces an accepted copy that replaces nothing loses nothing, whatever has run since it looked, and any accepted copy if nothing has |
| CopyLosses.FreeStoreArises | pkg/drivers/badger/badger.go:612-686 | Mkdir and Create accept /s, /s/x and /f one after the other |
| CopyLosses.OrphanAccepted | pkg/drivers/badger/badger.go:767-800 | Move lets /f go to /d/x although there is no /d |
| CopyLosses.OrphanArises | pkg/drivers/badger/badger.go:767-822 | the store that this makes |
| CopyLosses.OrphanCopyAccepted | pkg/drivers/badger/badger.go:915-931 | for a copy of /s without an expectation /d is free |
| CopyLosses.OrphanOverwritten | pkg/drivers/badger/badger.go:857-881 | the copy of /s/x overwrites /d/x, whose ID then leads to the copy |
| CopyLosses.TwinStoreArises | pkg/drivers/badger/badger.go:290-338 | a file /d is accepted beside a directory /d |
| CopyLosses.TwinCopyAccepted | pkg/drivers/badger/badger.go:915-931 | a copy of a directory may replace the file |
| CopyLosses.TwinOverwritten | pkg/drivers/badger/badger.go:857-881 | it overwrites the directory too |
| CopyLosses.SweptCopyAccepted | pkg/drivers/badger/badger.go:915-931 | /a/../d may be copied over /a |
| CopyLosses.SourceSwept | pkg/drivers/badger/badger.go:850-856 | that copy deletes its own source with the file in it |
| Refinement.NewRefusalDecides | pkg/drivers/badger/badger.go:321-338 | for a clean key, Badger's checks on a new path ask for an indexed parent and for a free key of the same kind |
| Refinement.NewKeyDecides | pkg/drivers/badger/badger.go:321-338 | for any key, they ask for a directory that has the parent's key, and for a free key |
| Differences.DestinationsAgreeIff | transfer.go:10-23 | for any argument the drivers read a destination alike if and only if LocalStorage accepts the argument and its last name does not end in white space, or both bar what they make of it |
| Differences.DotDotDivides | pkg/drivers/localstorage/transaction.go:25-40 | "/x/../b" is refused by LocalStorage and read as /b by Badger |
| Differences.ReservedDivides | pkg/drivers/localstorage/transaction.go:25-40 | "/.vfsx" is refused by LocalStorage and accepted by Badger |
| Differences.SpaceDivides | pkg/drivers/localstorage/localstorage.go:377-395 | "/b /" is read differently |
| Differences.LocalTransferIff | pkg/drivers/localstorage/localstorage.go:377-410 | what LocalStorage's checks on any transfer mean in the namespace |
| Differences.BadgerTransferIff | pkg/drivers/badger/badger.go:779-797 | what Badger's checks on any transfer mean in the namespace |
| Differences.TransfersAgreeIff | pkg/drivers/badger/badger.go:767-931 | for any argument the drivers do the same with a transfer if and only if they read the destination alike and LocalStorage finds an indexed parent or the expectation fails, or neither accepts what it reads |
| Differences.NoParentDivides | pkg/drivers/badger/badger.go:779-797 | "/d/x" without a directory /d is refused by LocalStorage and accepted by Badger |
| Differences.LocalAdmitsIff | pkg/drivers/localstorage/localstorage.go:200-220 | what LocalStorage's checks on any argument mean in the namespace |
| Differences.BadgerAdmitsIff | pkg/drivers/badger/badger.go:290-338 | what Badger's checks on any argument mean in the namespace |
| Differences.NewPathsAgreeIff | pkg/drivers/badger/badger.go:290-338 | for any argument of Create or Mkdir the drivers do the same if and only if it means the same key to both and no entry of the other kind has the path in an indexed directory, or both refuse |
| Differences.InnerSlashDivides | pkg/drivers/badger/badger.go:290-338 | "//y" is accepted by LocalStorage and refused by Badger, on empty stores |
| Differences.BadgerTakesMore | pkg/drivers/badger/badger.go:290-338 | "/.vfsx" and the empty string are accepted by Badger and refused by LocalStorage |
| Differences.TwinDivides | pkg/drivers/badger/badger.go:290-338 | beside a directory of the same name Badger creates a file and LocalStorage does not |
| Refusals.ParentErrors | pkg/drivers/localstorage/transaction.go:44-57 | not found means that nothing has the parent's path, no directory that a file has it, and success that it is the root or an indexed directory |
| Refusals.LocalNewErrors | pkg/drivers/localstorage/localstorage.go:200-220 | each error of LocalStorage's Create and Mkdir if and only if its cause |
| Refusals.LocalTransferErrors | pkg/drivers/localstorage/localstorage.go:377-410 | each error of LocalStorage's Move and Copy if and only if its cause |
| Refusals.BadgerNewErrors | pkg/drivers/badger/badger.go:290-338 | each error of Badger's Create and Mkdir if and only if its cause |
| Refusals.BadgerTransferErrors | pkg/drivers/badger/badger.go:767-797 | each error of Badger's Move and Copy if and only if its cause |
| Refusals.BadgerWriteErrors | pkg/drivers/badger/badger.go:376-465 | each error of Badger's Write if and only if its cause |
| Refusals.FileParentDivides | pkg/drivers/badger/badger.go:321-338 | below a file LocalStorage says that the parent is no directory and Badger that it is not found |
| Differences.LocalFindsIff | pkg/drivers/localstorage/localstorage.go:816-840 | what LocalStorage's Tree answers for any argument |
| Differences.TreesAgreeIff | pkg/drivers/badger/badger.go:968-979 | for any argument the drivers answer Tree alike if and only if it spells out a stored path, an ending slash aside, with no file at it, or neither answers |
| Differences.DirectoriesAnswered | pkg/drivers/badger/badger.go:968-979 | for the stored path of a directory and for the root both answer |
| Differences.InnerSlashUnanswered | pkg/drivers/badger/badger.go:968-979 | "/a//b" is answered by LocalStorage alone |
| Agreement.MovesAlike | pkg/drivers/localstorage/localstorage.go:448-483 | a checked move gives the same ID-to-path map in both drivers |
| Agreement.CopiesAlike | pkg/drivers/badger/badger.go:825-891 | so does a copy, up to fresh IDs |
| Agreement.DeletionsAlike | pkg/drivers/badger/badger.go:554-609 | so does a deletion |
| Agreement.CreateAlike | pkg/drivers/badger/badger.go:290-373 | a file that LocalStorage creates Badger creates, if the argument means the same key to both: the same path, kind, name, size, time and comment, each under an ID of its own |
| Agreement.MkdirAlike | pkg/drivers/badger/badger.go:612-686 | likewise a directory |
| Agreement.WriteAlike | pkg/drivers/badger/badger.go:376-465 | when writing they stay on a common namespace, and refuse the same IDs |
| Agreement.CommentAlike | pkg/drivers/badger/badger.go:519-551 | when commenting they stay on a common namespace |
| Agreement.MoveAlike | pkg/drivers/badger/badger.go:767-822 | both drivers run side by side stay on a common namespace when moving |
| Agreement.CopyAlike | pkg/drivers/badger/badger.go:825-891 | when copying they end in copies that differ in the fresh IDs alone |
| Agreement.DeleteAlike | pkg/drivers/localstorage/localstorage.go:273-293 | when deleting they stay on a common namespace, and find the same IDs missing |
| TreeShapes.ExactlyOnce | pkg/drivers/localstorage/localstorage.go:877-895 | in the tree of a namespace every entry below the path occurs exactly once and nothing else occurs |
| TreeShapes.OneTree | pkg/drivers/localstorage/localstorage.go:877-895 | a namespace has one tree below a path, up to the order of siblings |
| LocalTrees.GroupChildren | pkg/drivers/localstorage/localstorage.go:852-860 | grouping by parent in any map order puts every shown entry into its group once |
| LocalTrees.BuildTree | pkg/drivers/localstorage/localstorage.go:877-895 | the recursion ends and builds the tree of the namespace |
| LocalTrees.Tree | pkg/drivers/localstorage/localstorage.go:816-863 | what Tree answers for any argument: the tree below the entry, with its row, or below a root made up as a directory called "/" of size 0, or the right error |
| Trees.BadgerTree | pkg/drivers/badger/badger.go:963-1043 | one pass in key order hangs every key but the root exactly once, where the complete set of nodes says |
| Trees.HostIsParent | pkg/drivers/badger/badger.go:1021-1031 | in the spelling of a namespace every key hangs under its parent's node; the fall-back to the root serves only the root's own children |
| Trees.PassIsTree | pkg/drivers/badger/badger.go:963-1043 | what Badger links is the tree of the namespace |
| Trees.DriversAgree | pkg/drivers/badger/badger.go:963-1043 | both drivers answer a directory with the same descendants and parents, and with the same root row but for the name of the made-up root |
| Trees.RootsAgree | pkg/drivers/badger/badger.go:984-993 | both give a directory its own row; the root is made up as a directory of size 0 in both, called "." by Badger and "/" by LocalStorage |
| Trees.FoundIffDirectory | pkg/drivers/badger/badger.go:968-979 | for a stored path Badger's Tree finds exactly the directories |
| KeyRotation.LeadsToMeansRecovered | pkg/drivers/badger/rotation.go:46-73 | a directory leads to a key exactly if recovery ends with both files under it |
| KeyRotation.AtomicRecoveries | pkg/drivers/badger/rotation.go:46-73 | if the backup goes in one step, any run of interrupted recoveries leads to the same key |
| KeyRotation.RepeatedRecoveryIff | pkg/drivers/badger/rotation.go:46-73 | if its files go one at a time in any order, that holds if and only if the backup is not ready |
| KeyRotation.BadgerKeys.RecoverRotation | pkg/drivers/badger/rotation.go:46-73 | wherever recovery stops, the removal of the backup file by file included, the directory is one that Recovering describes; completed, recovery is done |
| KeyRotation.BadgerKeys.RemoveBackup | pkg/drivers/badger/rotation.go:53-57 | the removal goes in one step or file by file in any order, and may stop anywhere |
| KeyRotation.RecoveringLeft | pkg/drivers/badger/rotation.go:46-73 | what an interrupted recovery leaves leads to the key or is a partly removed backup |
| KeyRotation.BadgerKeys.PrepareRotation | pkg/drivers/badger/rotation.go:140-161 | until the ready marker is written the live files count |
| KeyRotation.BadgerKeys.Rotate | pkg/drivers/badger/rotation.go:75-138 | wherever it stops the directory leads to one key, the new one exactly if the committed marker was written; a live driver that has not failed holds that key; with the backup of an earlier rotation there and no further failure, the key survives exactly if that backup was not ready or held it |
| KeyRotation.BadgerKeys.RollBack | pkg/drivers/badger/rotation.go:82-103 | the deferred roll-back, itself interruptible |
| KeyRotation.BadgerKeys.Start | pkg/drivers/badger/badger.go:138-152 | recovery and opening: the database is opened under the one key that the directory leads to |
| KeyRotation.CommittedCleanupIff | pkg/drivers/badger/rotation.go:53-57 | an interrupted removal after the commit keeps the new key exactly if the committed marker outlasts the ready marker |
| KeyRotation.RollbackCleanupIff | pkg/drivers/badger/rotation.go:58-73 | an interrupted removal after a roll-back keeps the old key exactly if the copies outlast the ready marker |
| KeyRotation.LeftoverIsRevived | pkg/drivers/badger/rotation.go:82-103 | without its committed marker the directory still leads to its key exactly if its backup was not ready or held this key |
| KeyRotation.OldKeyReturns | pkg/drivers/badger/rotation.go:82-103 | a directory whose next rotation brings the key before the last one back |
| KeyRotation.RotateOverLeftover | pkg/drivers/badger/rotation.go:75-138 | over that directory the next rotation fails, marks the driver failed and leaves the old key |
| KeyRotation.Run | pkg/drivers/badger/rotation.go:46-138 | after any run of rotations, crashes and restarts the directory leads to one key, one in use at the start or asked for, and to the new one after a rotation that was acknowledged, which without failures is every one |
| DriveManagers.OneDrivePerUser | internal/server/services/drives.go:67-82 | no user has two open drives |
| DriveManagers.HeldStaysOpen | internal/server/services/drives.go:92-130 | a held drive is open, short of a forced shutdown |
| DriveManagers.DrainedMeansReleased | internal/server/services/drives.go:108-130 | once the channel is closed every release has been called |
| DriveManagers.ReleaseMeans | internal/server/services/drives.go:108-130 | what a release does to the counts, the times, the drive and the channel, case by case |
| DriveManagers.DriveManager.Drive | internal/server/services/drives.go:67-82 | opens at most one drive per user, none after shutdown began |
| DriveManagers.DriveManager.Acquire | internal/server/services/drives.go:92-106 | counts one more holder of an open drive, on a fresh channel if it is the first |
| DriveManagers.DriveManager.Release | internal/server/services/drives.go:108-130 | counts one less, once, closing drive and channel with the last; late or repeated calls are harmless |
| DriveManagers.DriveManager.AcquireForStats | internal/server/services/drives.go:172-202 | a drive opened only for statistics is marked to be closed with its last release, and one that was open is not |
| DriveManagers.DriveManager.Stats | internal/server/services/drives.go:172-202 | with the release at its end: if nobody else holds the drive and its closing was not requested, it is open afterwards if and only if it was open before |
| DriveManagers.DriveManager.CloseDrive | internal/server/services/drives.go:205-219 | closes at once or with the last release |
| DriveManagers.DriveManager.CloseIdle | internal/server/services/drives.go:239-251 | closes exactly the drives that nobody holds and nobody has used for long |
| DriveManagers.DriveManager.FinishClose | internal/server/services/drives.go:259-285 | a shutdown that was signalled closes the drives only after every release; no drive stays open and none is closed twice |
| DriveManagers.DriveManager.CloseWithContext | internal/server/services/drives.go:253-285 | with others going on while it waits, it reports success only if every release has been called before it closes the drives, and does so if nobody holds one and no close fails; in any case none stays open and none is opened again |
| DriveManagers.VfsHandler.AsyncExecute | internal/server/handlers/vfs.go:556-572 | while other requests run, and whether its handler is closed before or after, the job keeps the same open drive until it ends, short of a forced shutdown, and gives it back exactly once |
| DriveManagers.DriveManager.Interfere | internal/server/services/drives.go:67-285 | no number of critical sections of others closes or replaces a drive that is held, short of a forced shutdown |
| DriveManagers.VfsHandler.Close | internal/server/handlers/vfs.go:603-615 | closing a handler gives back only what has not been taken over |
| Completions.Server.WaitForMutation | internal/mcp/server.go:65-101 | the first completion of this action that it sees is that of the request it waits for, and decides; without one the completion is in doubt; the channel is what the broker's Deliver makes of it |
| Completions.Server.Mutate | internal/mcp/tools.go:101-142 | once a completion is in doubt nothing is sent any more; otherwise the result belongs to this very request |
| Completions.Read | internal/mcp/server.go:65-101 | a completion that has been read is outstanding no longer, and no request is announced twice |
| Completions.SSEBroker.Deliver | internal/server/services/sse.go:298-320 | a client of another user, or another than the target if there is one, is left alone; any other gets the publication at the end of its channel if there is room, and it is dropped if there is not |
| Completions.SSEBroker.Remove | internal/server/services/sse.go:258-297 | no channel is closed twice |
| Completions.SSEBroker.Stop | internal/server/services/sse.go:258-280 | stopping closes every remaining channel once |
| Updater.Installation.Replace | internal/updater/update.go:263-296 | every path has its new binary, or every path has its original back except where restoring failed, and there the backup directory still holds the original; other files never change, and if removing does not fail nothing else is left |
| Updater.Installation.Link | internal/updater/update.go:272-281 | every original is linked into a directory of its own before anything is renamed |
| Updater.Installation.Rename | internal/updater/update.go:282-294 | all renames, or the way back |
| Updater.Installation.Restore | internal/updater/update.go:282-294 | under further failures each path from the failed one back has its original again and nothing left in its directory, or its link is still there |
| Updater.Installation.RemoveTemps | internal/updater/update.go:265-271 | the deferred removal takes every directory but those of the paths that could not be restored |

## Left out

- LocalStorages.LocalStorage.Write: requires the transaction directory to be removed in one step, because rolling it back is not safe otherwise; `Store.InstallCleanupIff` says exactly when.
- LocalStorages.LocalStorage.Copy: requires the same if it replaces something, for the same reason.
- LocalStorages.LocalStorage.Load: requires the same if the archive shares a top-level name with the store; `Swaps.SwapCleanupIff` says that this is exactly when it matters.
- Runs.Run: states durability with clean-up in any order for requests that survive it on any tree; with a Write, a replacing Copy or a Load among them the removal has to be one step.
- KeyRotation.BadgerKeys.Rotate: if the backup directory is not removed in one step, a rotation that starts with the backup of an earlier one promises no key; `KeyRotation.RepeatedRecoveryIff` says why.
- BadgerDriver.BadgerVFS.Copy: reads a blob completely before writing it; public IDs of the copies are drawn at the commit.
- KeyRotation.Run: takes the removal of the backup directory as one step; `KeyRotation.RepeatedRecoveryIff` says exactly when another order matters.
- Completions.Server.WaitForMutation: whether a completion arrives in time is not modelled; giving up is always possible.
- Durability below `rename` and `write`: syncs have no effect, and what a call has done is persisted in order.
- Codecs: JSON, tar and gzip are lossless; an interrupted write leaves a file that is recognisably torn.
- UUIDs are fresh numbers; the clock is a parameter; the file extension and the MIME type of an entry are not modelled.
- `TrimSpace` removes the white space characters listed in `Paths.IsSpace`; strings are sequences of characters, without encodings.
- `isInternalPath` is modelled on components, so paths that are not clean cannot occur in a journal.
- Renaming a path to itself, symbolic links, permissions and entries other than files and directories.
- The staged copy of the index file that Load takes from the archive; the model writes the index from the entries.
- `Close`, `saveIndex`, `List` and `Stat` of both drivers, and `Open` of LocalStorage.
- Badger itself: `Update` is one atomic step whose commit fails if a record it has read has changed or a destination it has found free is taken; keys that appear inside a range it has scanned are not a conflict in the model.
- Files without an internal ID from older versions, and files of more than 2^32 chunks.
- Rotation of in-memory databases, the check of the key's length, and the generation of a missing secret file.
- What Stats counts and adds up over the tree.
- The timers of the drive manager and of the broker; listing and counting of clients, heartbeats.
- HTTP handlers, routing, sessions, the user store, configuration, the command line, and the updater apart from `replace`.
