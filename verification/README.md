# Model of the kernel's file system, pipes and process tables

A Dafny model of three parts of the OS simulator's kernel, with proofs of what they keep and of exactly when they
do what they are for.

* **FAT12 volume** (`src/kernel/fat12_functions.cpp`, `fat12_parts.cpp`, the file handles of `io_handles.cpp`):
  the packed table, cluster chains, reading and writing of items, directories of 32-byte entries, path lookup
  and the working directory, and reading and rewriting files through handles.
* **Pipe over hand-off semaphores** (`src/kernel/pipe.cpp`, `semaphore.cpp`): every thread as a program counter
  over the accesses to the flags, the semaphores' critical sections and the buffer.
* **Process tables and wait/exit protocol** (`src/kernel/process_controller.cpp`, `process.cpp`, `thread.cpp`):
  the identifier pools, the three maps that must agree, and registering, blocking and waking.

`dafny verify dfyconfig.toml` checks everything.

## Reading order

| part | modules |
|---|---|
| table and chains | Fat12Types, TablePacking, Chains, FatHeap |
| items on the volume | ItemData (functions on the volume's value), Appending, Volumes (the class and its loops) |
| directories | Names, Directories, DirectoryItems, CreateLimits, DirectoryCode, ItemListing |
| files | FileData, FileHandles, ReadBuffers, FileWrite, LongWrites, RootFiles |
| paths | PathTexts, Paths, WorkingDir, PathMeaning, PathCode, ItemLookup |
| whole calls and sessions | VolumeTree, FirstSector, DirectoryRuns, ItemCalls, Refusals, CreatedTree, RemovedTree, DistinctNames, TreeSessions |
| pipe | Semaphores, PipeProtocol, PipeFifo, PipeCalls, PipeSafety |
| processes | IdPools, ProcessTables, TableChanges, ProcessControllers, ThreadControls, WaitProtocol, ExitRuns |

Code that changes state step by step is a class or a method with loops (Volumes, DirectoryCode, ItemListing,
FileHandles, FileWrite, PathCode, Semaphores, IdPools, ProcessControllers, ThreadControls). Each method is tied to
a function of the old state, and the theorems are about those functions. Protocols are state machines whose steps
are the critical sections, and the theorems are about every run.

## Main results

* Every run of allocating, extending, truncating and freeing keeps the table a set of disjoint, acyclic,
  terminated chains, and accounts for every free cluster (`FatHeap.RunKeepsHeap`).
* In the root, while it keeps to its first sector, every session of creating, storing short contents and removing is
  a map from names to contents, read back by name. In a one-sector subdirectory a session is served to its end exactly
  when it removes nothing, since `Remove_Item` follows a null pointer there (`DirectoryRuns.SessionIsMapIff`,
  `DirectoryRuns.ReadNamed`); with the removal that is intended it would be a map as well
  (`DirectoryRuns.IntendedSessionIsMap`). `DirectoryRuns.BlankDiskStarts` is a disk to start from.
* End to end, from working directory and path, for every volume: what `Create_Item` and `Remove_Item` come to, and
  exactly when the next `Get_Item` finds the item (`CreatedTree.CreateInRootThenGetIff`,
  `CreatedTree.CreateThenGetIff`, `ItemCalls.RemoveItemIff`, `RemovedTree.RemoveThenGetIff`); the whole tree of names
  after `Create_Item` (`CreatedTree.CreatedLook`); when `Create_Item` keeps the live names of a directory distinct
  (`DistinctNames.CreateKeepsDistinctIff`); and exactly when a working directory outlives either call
  (`CreatedTree.CreateThenAgreesIff`, `RemovedTree.RemoveThenAgreesIff`).
* Over every session of moving, creating where there is room, and removing from the root, on a tree that changes, the
  directories stay a tree in which every entry has a cluster of its own, and the working directory agrees with its
  sector (`TreeSessions.SessionKeepsTree`).
* On any fixed tree the working directory and its sector agree after every sequence of moves
  (`WorkingDir.AlwaysAgrees`).
* Permits are conserved in every interleaving of any number of producers, consumers and closers
  (`PipeProtocol.RunKeepsInv`), the pipe is first-in first-out (`PipeFifo.RunKeepsLog`, `PipeFifo.OneToOne`), a
  call returns early exactly when the other end is closed and nothing is left (`PipeCalls.ConsumeCall`,
  `PipeCalls.ProduceCall`, `PipeCalls.ShortConsumeDrains`), and a byte can be taken from the empty buffer exactly in the
  pipes named by `PipeSafety.NoEmptyPopIff`.
* The process tables agree after every run, the siblings of a main thread being removed as intended
  (`ProcessTables.RunKeepsAgreement`); the runs that the code makes so are those of `ProcessTables.CodeRunIff`. What
  each call adds or takes away is given thread by thread (`TableChanges.ReapTakesAway`, `TableChanges.CreateThreadAdds`),
  and so is what a whole exit ends (`ExitRuns.ExitEnds`). No wakeup is lost (`WaitProtocol.NoLostWakeup`,
  `WaitProtocol.AllExitedMeansAwake`), and an exit finishes notifying exactly when no sleeper spins in `Stop`
  (`WaitProtocol.NotifyingEndsIff`).

## Where the code departs from its intent

The model does what the code does; each line names the lemma that says exactly when the intent is met.

* `Next_Sector` overwrites its out-parameter on failure (`fat12_functions.cpp:718`), so growth in `Write_Item` links
  from the terminator and leaves the table: `ItemData.WriteStaysInTableIff`. A write inside a chain truncates it
  (`:399`), and a write to the root always starts at its first sector (`:378-385`).
* So creating or removing in a longer directory loses what lies behind the sector written, and in the root
  replaces the first sector: `CreateIsInsertIff`, `RemoveIsDeleteIff`, `CreateInRootIff`, `RemoveInRootIff`. With no
  free cluster, creating wipes the first root sector: `NoRoomWipesRoot`. In a full root, with a single free cluster
  left, the sector meant for the root goes over its first one: `CreateLimits.CreateInRootArea`,
  `CreateLimits.NoClusterLosesFirst`. In a full subdirectory, with a single free cluster left, the sector meant for the
  directory goes over the first root sector and the directory's own first cluster is marked free (`:253-262`):
  `CreateLimits.AppendWithoutRoom`, `CreateLimits.CreateKeepsRootIff`, `CreateLimits.CreateKeepsHeapIff`.
* A later root sector that is copied over the first shows its other names twice. Removing one of them marks the copy and
  frees the clusters, and the name is found still: `DirectoryItems.CopiedShowsTwice`, `RemoveInRootIff`,
  `RemovedTree.CreateThenRemoveKeepsName`.
* Short extensions are padded in the name field (`:217`): `Names.NameRoundTripIff`.
* `File_Handle::Read` in 512-byte pieces (`io_handles.cpp:164-184`) delivers the file length exactly under the
  condition of `FileData.TotalIsLengthIff`; for a chain of length/512 + 1 sectors, the one files are written for, it
  always does. A read inside a sector starts at the beginning of that sector. In longer pieces, 4096 bytes in
  `src/user/type.cpp:66-76`, a file shorter than a piece and longer than a sector is copied from past the end of one
  sector: `ReadBuffers.ReadAllByIff`.
* `Seek` goes one byte too far from the current position, and one too low from the end (`io_handles.cpp:20-25`):
  `FileHandles.SeekIsMeantIff`.
* `Write_Item` at the append position links a free cluster before it is marked used, and finds it once more (`:404-410`):
  of more than one further sector every other one is lost. Its one caller appends one: `Appending.AppendFromUsed`,
  `Appending.AppendKeepsIff`.
* `File_Handle::Write` frees the chain and then needs growth: `FileData.WriteKeepsChainIff`. Reading what a longer write
  leaves goes past the chain and leaves the table: `FileHandles.ReadAllIff`. The file's first cluster is then free, and
  a new item can be given it: `LongWrites.LongWriteSharesIff`, `LongWrites.SharedStart`.
* `Save_FAT12_Table` writes every copy at the first one's place (`fat12_parts.cpp:47-49`):
  `ItemData.SaveKeepsCopiesIff`.
* `Get_Item` drops one component for every ".." anywhere in the path: `PathMeaning.UsualMeaningIff`. It takes "." for
  the root, and refuses more ".." than the working directory is deep, even on absolute paths, and absolute paths
  without names unless their ".." are as many as it is deep: `WorkingDir.Admissible`, `WorkingDir.MoveIff`.
* The second lookup of `Remove_Item` starts with `founded` set (`fat12_functions.cpp:312`) and gives a null pointer
  for every parent but the root: `PathMeaning.RemoveFindsParentIff`, `ItemCalls.RemoveItemIff`. What
  `DirectoryItems.RemoveIsDeleteIff` and `DirectoryRuns.IntendedSessionIsMap` say of removing in a subdirectory is
  about the rest of the function (`:314-333`), given the parent's sector; the code does not come there.
* `Create_Item` keeps the slash of a path such as "/a" in the file name (`:182-189`): `PathMeaning.FileNameIsLastIff`,
  `CreatedTree.CreateThenGetIff`. So creating "/a" again succeeds, and the root shows the name twice:
  `DistinctNames.CreateKeepsDistinctIff`.
* An item created without a free cluster starts at sector 0, and what is written to it goes over the root
  (`:378-385`): `RootFiles.NoClusterItem`, `RootFiles.NoClusterWriteIff`, `RootFiles.NoClusterReads`.
* The loop counter of `Write_Item` has 16 bits (`:376`), so long writes never end: `LongWrites.WriteEndsIff`.
* After a TID request met a full pool the cursor is 0, below the pool (`process_controller.cpp:451`), and stays lost:
  `IdPools.CursorAfterGetIff`, `IdPools.RunStaysDefinedIff`.
* `Wait_For` adds unknown handles to `tid_to_pid` (`:105`): `ProcessTables.LookupKeepsAgreementIff`. It waits for all
  of its handles, not for the first one, since `Stop` loops until none is left (`thread.cpp:52-57`).
* `Read_Exit_Code` of a main thread erases its siblings under its own iterator (`process_controller.cpp:175-190`),
  which is defined exactly when there is none, or one with a higher identifier:
  `ProcessControllers.ProcessController.ReapSiblings`, `ProcessTables.CodeRunIff`, `ProcessTables.FirstReapIff`,
  `ProcessTables.SingleRunsDefined`.
* `Create_Process` follows the end iterator when its native thread is unknown (`process_controller.cpp:44`, `:501`):
  `ProcessTables.CreateProcessDefinedIff`.
* `Stop` keeps the thread's mutex from pass to pass (`thread.cpp:50-57`). A thread that has exited and then calls
  `Wait_For` spins there, and the exit of a thread it waits for blocks in `Restart` for ever, with the table locked:
  `WaitProtocol.StuckRun`, `WaitProtocol.NotifyingEndsIff`, `WaitProtocol.LivingExitsEnd`.
* `Get_TID` adds an unknown native thread to `stdtid_to_tid` with identifier 0
  (`process_controller.cpp:504-507`): `ProcessTables.CreateThreadKeepsAgreementIff`.
* `Close` wakes a consumer that holds no permit (`pipe.cpp:69`): `PipeSafety.NoEmptyPopIff`.

## Conventions

* The disk is a sequence of 512-byte sectors with exact reads and writes; accesses behind its end are refused
  (`src/boot/disk.cpp:97`). None, or a method's result false, stands for an access outside the table.
* A valid geometry has nine sectors per table, as the table buffers do, at least one table, and a root of at least
  two sectors, so that the scan for a free cluster cannot return cluster 0 or 1.
* Masks and shifts are written as remainders and quotients by powers of two. A TID pool's position is its
  identifier less 1024, a multiple of the pool's size, so the code's wrap is the model's.
* A directory, file or item is given together with its chain, a ghost argument; the chain is unique
  (`Chains.ChainUnique`).
* Lookup inside a directory is an abstract function in Paths, WorkingDir and PathMeaning (the tree is fixed);
  `VolumeTree.LookOf` is the one of a volume, and `DirectoryCode.LookupIn` computes it.
* In the pipe and wait protocols waits end only by a notification: `P` waits without a loop, and there are no
  spurious wakeups. Which waiting thread a notification wakes is left open. Native thread identifiers are distinct
  parameters. Reaping takes only exited threads that no remaining thread lists as a sleeper.

## Model

| member | source | states |
|---|---|---|
| `TablePacking.LoadTable` | src/kernel/fat12_parts.cpp:32-35 | the load loop fills the logical table with the unpacking of the physical bytes |
| `TablePacking.SaveTable` | src/kernel/fat12_parts.cpp:41-45 | the save loop fills the physical bytes with the packing of the logical table |
| `TablePacking.PairRoundTrip` | src/kernel/fat12_parts.cpp:33-44 | two entries written as three bytes read back as the entries mod 4096 |
| `TablePacking.BytesRoundTrip` | src/kernel/fat12_parts.cpp:33-44 | three bytes read as two entries write back as the same bytes |
| `TablePacking.LoadAfterSave` | src/kernel/fat12_parts.cpp:27-45 | load after save returns every one of the 3072 entries mod 4096 |
| `TablePacking.LoadAfterSaveExact` | src/kernel/fat12_parts.cpp:27-45 | load after save is the identity on tables of 12-bit entries |
| `TablePacking.SaveAfterLoad` | src/kernel/fat12_parts.cpp:27-45 | save after load is the identity on all 4608 bytes |
| `TablePacking.LayoutIsStandard` | src/kernel/fat12_parts.cpp:32-35 | every entry read is the one that section 4.1 of the Microsoft FAT Specification places at byte n + n/2 |
| `Chains.ChainUnique` | src/kernel/fat12_functions.cpp:717-724 | a start cluster has at most one terminated chain |
| `Chains.ChainDistinct` | src/kernel/fat12_functions.cpp:707-724 | a terminated chain never meets a cluster twice |
| `Chains.ChainFits` | src/kernel/fat12_functions.cpp:694-705 | a terminated chain has at most 3072 clusters |
| `Chains.WalkOnChain` | src/kernel/fat12_functions.cpp:707-724 | Find_Sector(k) is the k-th cluster for k below the length, the terminator at the length, and out of the table behind it |
| `Chains.WalkCompose` | src/kernel/fat12_functions.cpp:707-715 | Find_Sector(a + b) is Find_Sector(b) from where Find_Sector(a) ended |
| `Chains.CountStopsIffChain` | src/kernel/fat12_functions.cpp:694-705 | the counting loop of Get_Sectors_Count stops exactly on the starts of terminated chains |
| `FatHeap.HeapInRange` | src/kernel/fat12_functions.cpp:717-724 | the heap invariant keeps every link inside the table |
| `FatHeap.ChainInUse` | src/kernel/fat12_functions.cpp:717-724 | no cluster of a chain of a used start is free |
| `FatHeap.HeadsAreDisjoint` | src/kernel/fat12_functions.cpp:717-724 | chains from two clusters without predecessors share no cluster |
| `FatHeap.ChainReachable` | src/kernel/fat12_functions.cpp:336-345 | what Remove_Item_Data visits from the head of a chain is exactly the chain |
| `FatHeap.FreedChain` | src/kernel/fat12_functions.cpp:336-345 | freeing a chain zeroes exactly its clusters |
| `FatHeap.FreedCount` | src/kernel/fat12_functions.cpp:336-345 | freeing a chain raises the number of free entries by exactly its length |
| `FatHeap.SealKeepsHeap` | src/kernel/fat12_functions.cpp:233-233 | writing the terminator into any entry keeps the heap invariant |
| `FatHeap.ExtendKeepsHeap` | src/kernel/fat12_functions.cpp:256-261 | linking a free cluster from a used one, which loses what was behind it, keeps the heap invariant |
| `FatHeap.FreeKeepsHeapIffHead` | src/kernel/fat12_functions.cpp:336-345 | freeing a chain keeps the heap invariant exactly when nothing links to its first cluster |
| `FatHeap.DropKeepsHeapIff` | src/kernel/fat12_functions.cpp:260-260 | zeroing one entry in use keeps the heap invariant exactly when nothing links to it |
| `FatHeap.RunKeepsHeap` | src/kernel/fat12_functions.cpp:14-417 | every run of allocating, extending, truncating and freeing keeps the heap invariant, and the free entries change by exactly the clusters taken and given back |
| `ItemData.WriteWithinChain` | src/kernel/fat12_functions.cpp:386-417 | inside a chain, Write_Item stores count sectors from place num and makes the last one written the end of the chain |
| `ItemData.WritePastChain` | src/kernel/fat12_functions.cpp:387-399 | a write that goes past a chain leaves the table, as growth links from the terminator value |
| `ItemData.WriteStaysInTableIff` | src/kernel/fat12_functions.cpp:386-399 | Write_Item stays inside the table exactly when num + max(count, 1) is at most the chain length |
| `ItemData.ReadOnChain` | src/kernel/fat12_functions.cpp:347-368 | Read_Item returns the contents of clusters num .. num+count-1 of the chain and leaves the rest of the buffer |
| `ItemData.ReadPastChain` | src/kernel/fat12_functions.cpp:347-368 | asked for more than the chain has, Read_Item returns the clusters there are and leaves the rest of the buffer |
| `ItemData.TruncatedChain` | src/kernel/fat12_functions.cpp:399-399 | after a write the chain is exactly its first num + count clusters |
| `ItemData.SavedPlaces` | src/kernel/fat12_parts.cpp:38-50 | saving puts the packed table at sectors 1 to 9 and touches no other sector |
| `ItemData.RegionsPartition` | src/kernel/fat12_functions.cpp:349-356 | every block behind the boot sector belongs to one copy of the table, to the root or to one cluster, and to one of them only |
| `ItemData.SaveKeepsCopiesIff` | src/kernel/fat12_parts.cpp:47-49 | after saving the copies of the table agree exactly when every copy but the first was right before; from copies that agree, exactly when there is one copy or the table on the disk was up to date |
| `ItemData.WriteThenRead` | src/kernel/fat12_functions.cpp:347-417 | reading what was just written returns it, and the table on disk agrees with the logical one |
| `ItemData.WriteFrame` | src/kernel/fat12_functions.cpp:386-417 | a write leaves every other chain and its contents, the earlier sectors of its own chain, and the root area |
| `Appending.AppendFromUsed` | src/kernel/fat12_functions.cpp:400-413 | the append branch from a cluster in use: its sector takes the first one, and of every two further sectors only the second is kept, in the lowest free clusters, which are linked up behind it; every other link and block stays |
| `Appending.AppendFromFree` | src/kernel/fat12_functions.cpp:400-413 | from the lowest free cluster, as Find_Free_Sector gives it, the first sector is lost to the second one as well |
| `Appending.AppendKeepsIff` | src/kernel/fat12_functions.cpp:400-413 | so all sectors are kept exactly for at most two, or for one when the cluster was free |
| `Volumes.Volume.constructor` | src/kernel/fat12_parts.cpp:22-36 | a volume starts with the table unpacked from sectors 1 to 9 |
| `Volumes.Volume.NextSector` | src/kernel/fat12_functions.cpp:717-724 | the out-parameter is overwritten even when the result says there is no next cluster |
| `Volumes.Volume.FindSector` | src/kernel/fat12_functions.cpp:707-715 | computes the walk of num links, or says that it leaves the table |
| `Volumes.Volume.GetSectorsCount` | src/kernel/fat12_functions.cpp:694-705 | terminates with the chain length, or the size of the root |
| `Volumes.Volume.FindFreeSector` | src/kernel/fat12_functions.cpp:14-26 | returns the lowest free entry from the root size on, 0 when there is none |
| `FatHeap.FindFree` | src/kernel/fat12_functions.cpp:14-26 | the result is free with no free entry before it, or 0 and then none is free |
| `Volumes.Volume.RemoveItemData` | src/kernel/fat12_functions.cpp:336-345 | terminates on every in-range table, cyclic ones too, and zeroes exactly the entries reachable from start |
| `Volumes.Volume.SaveTableToDisk` | src/kernel/fat12_parts.cpp:38-50 | packs the table and writes it, every copy at the place of the first |
| `Volumes.Volume.ReadItem` | src/kernel/fat12_functions.cpp:347-368 | the loop over the chain computes the read function on the state |
| `Volumes.Volume.WriteItem` | src/kernel/fat12_functions.cpp:370-417 | the three branches compute the write function on the state |
| `Volumes.ErasedAll` | src/kernel/fat12_functions.cpp:336-345 | what the freeing loop has zeroed when it stops is what was reachable at the start |
| `Names.SameFilename` | src/kernel/fat12_functions.cpp:41-65 | says equal exactly when the displayed 8.3 name is the given one |
| `Names.EntriesPreordered` | src/kernel/fat12_functions.cpp:67-77 | Compare_Filename on two entries is a total preorder; which one, CompareEntriesIff says |
| `Names.CompareBytesIff` | src/kernel/fat12_functions.cpp:70-71 | comparing two fields of bytes is negative exactly when, at the first place where they differ, before any zero byte, the first one has the lower byte, and zero exactly when there is no such place |
| `Names.CompareEntriesIff` | src/kernel/fat12_functions.cpp:67-77 | so for two entries: first by name, then, for equal names, by extension |
| `Names.EqualEntriesShowAlike` | src/kernel/fat12_functions.cpp:67-77 | entries that compare equal show the same name and are both live or both dead |
| `Names.BuiltFields` | src/kernel/fat12_functions.cpp:206-227 | the fields of a new entry |
| `Names.EntryLayout` | src/kernel/fat12_functions.cpp:206-227 | the bytes of the new entry are those of the directory entry format, low byte first |
| `Names.AcceptedIff` | src/kernel/fat12_functions.cpp:189-217 | the names accepted are those with at most eight bytes and no dot, or at most eight before the first dot and three behind it, apart from the reserved ones |
| `Names.ShortExtensionShows` | src/kernel/fat12_functions.cpp:213-218 | what a name with a short extension shows: its base as far as the extension is long, and the extension continued by the stack content |
| `Names.BuiltShows` | src/kernel/fat12_functions.cpp:204-218 | the entry built for a well-padded name shows that name |
| `Names.NameRoundTripIff` | src/kernel/fat12_functions.cpp:204-218 | the entry built shows the name, whatever the stack held, exactly when there is no dot or three characters follow the first one |
| `Names.ShortExtensionMayDiffer` | src/kernel/fat12_functions.cpp:213-218 | a stack content that makes a name with a short extension show as another |
| `Names.WithLength` | src/kernel/io_handles.cpp:213-213 | the length field changes and no other |
| `Directories.CutKeepsNamesIff` | src/kernel/fat12_functions.cpp:399-399 | cutting slots off keeps every name exactly when none of them was live |
| `Directories.InsertResolves` | src/kernel/fat12_functions.cpp:243-248 | filling a dead slot binds one new name and changes no other |
| `Directories.RemoveResolves` | src/kernel/fat12_functions.cpp:322-322 | marking a slot unbinds its name and changes no other |
| `Directories.EqualFindsItself` | src/kernel/fat12_functions.cpp:319-323 | comparing whole entries finds the slot that lookup by name found |
| `Directories.SlotsOfUpdate` | src/kernel/fat12_functions.cpp:244-246 | storing one slot of a directory sector changes that slot only |
| `DirectoryItems.SlotBytes` | src/kernel/fat12_functions.cpp:241-244 | slot k of a directory is its k-th 32 bytes |
| `DirectoryCode.ReadDirectory` | src/kernel/fat12_functions.cpp:236-239 | reads the sectors of the whole directory |
| `DirectoryCode.LookupIn` | src/kernel/fat12_functions.cpp:589-614 | the double loop finds the first live entry that shows the name |
| `DirectoryCode.IsDirectoryEmpty` | src/kernel/fat12_functions.cpp:101-120 | true exactly for files and for directories without a live entry |
| `DirectoryCode.FindDeadSlot` | src/kernel/fat12_functions.cpp:241-251 | the place of the first dead slot |
| `DirectoryCode.FindEqualSlot` | src/kernel/fat12_functions.cpp:319-331 | the place of the first entry that compares equal, live or not |
| `DirectoryCode.AllocateItem` | src/kernel/fat12_functions.cpp:226-234 | takes the lowest free cluster, wipes it and ends its chain |
| `DirectoryCode.CreateItemIn` | src/kernel/fat12_functions.cpp:226-264 | the directory half of Create_Item computes the create function |
| `DirectoryCode.RemoveItemIn` | src/kernel/fat12_functions.cpp:314-333 | the directory half of Remove_Item computes the remove function, and changes nothing when no entry compares equal |
| `DirectoryCode.ChangeEntry` | src/kernel/io_handles.cpp:205-218 | finds and stores the changed entry, and changes nothing when there is none |
| `DirectoryItems.CreateInSlot` | src/kernel/fat12_functions.cpp:226-251 | table, chain and slots after creating into a dead slot of a subdirectory |
| `DirectoryItems.CreateInFull` | src/kernel/fat12_functions.cpp:253-262 | a full subdirectory that gets a further cluster on the disk keeps its first sector and gets one new one; the sectors between are lost (every other case: CreateLimits.CreateEndsFull) |
| `DirectoryItems.CreateWithRoomIff` | src/kernel/fat12_functions.cpp:226-264 | in a subdirectory with room for it creating is a map insertion exactly when nothing live lies behind the sector written |
| `DirectoryItems.OneSectorIsMap` | src/kernel/fat12_functions.cpp:236-251 | in a one-sector subdirectory creating is a map insertion and names stay distinct |
| `DirectoryItems.NewItemShows` | src/kernel/fat12_functions.cpp:206-226 | the new entry is live, shows its name, and starts at a cluster that was free |
| `CreateLimits.CreateIsInsertIff` | src/kernel/fat12_functions.cpp:226-264 | in every subdirectory, with or without room, creating binds the name to an item with a cluster of its own and keeps the other names exactly when there is room on the disk and nothing live lies behind the sector written |
| `CreateLimits.CreateEndsInSlot` | src/kernel/fat12_functions.cpp:226-251 | root area and table after creating into a dead slot of a subdirectory, whether or not a cluster was found for the item |
| `CreateLimits.CreateEndsFull` | src/kernel/fat12_functions.cpp:226-264 | root area, table and first sector after creating in a full subdirectory, whatever the two searches found |
| `CreateLimits.AppendWithoutRoom` | src/kernel/fat12_functions.cpp:253-262 | with no cluster for a further directory sector, that sector goes over the first root sector and the own first cluster of the directory is marked free |
| `CreateLimits.CreateKeepsRootIff` | src/kernel/fat12_functions.cpp:226-264 | creating in a subdirectory leaves the root and keeps the directory in use exactly when both searches find a cluster, or only the first fails, a slot is dead and the root sector it wipes was blank |
| `CreateLimits.CreateKeepsHeapIff` | src/kernel/fat12_functions.cpp:226-264 | creating keeps the heap invariant, in the root and in subdirectories, except exactly in a full one that is linked to and gets no further cluster |
| `CreateLimits.NoRoomLosesName` | src/kernel/fat12_functions.cpp:253-264 | a full subdirectory that gets no further sector on the disk does not show the new name |
| `CreateLimits.CreateInRootIff` | src/kernel/fat12_functions.cpp:226-264 | in every root, whatever the searches for clusters find, creating binds the name to an item with a cluster of its own and keeps the other names exactly when a cluster is free and the first dead slot is in the first sector |
| `CreateLimits.CreateInRootArea` | src/kernel/fat12_functions.cpp:226-264 | the root afterwards: when either search fails the new entry stands alone in the first sector, a full root with both clusters stays as it was, and otherwise the sector with the entry takes the place of the first |
| `CreateLimits.NoClusterLosesFirst` | src/kernel/fat12_functions.cpp:226-264 | when either search fails exactly the names of the first root sector are lost |
| `DirectoryItems.NoRoomWipesRoot` | src/kernel/fat12_functions.cpp:226-234 | with no free cluster creating wipes the first sector of the root |
| `DirectoryItems.RemoveInSlot` | src/kernel/fat12_functions.cpp:314-326 | given the sector of the parent, which the lookup before gives for the root only (ItemCalls.RemoveItemIff): the slot is marked, the clusters are free, the heap is kept and the table is saved |
| `DirectoryItems.RemoveIsDeleteIff` | src/kernel/fat12_functions.cpp:314-326 | given the sector of the parent, again: in a subdirectory removing is a map deletion exactly when nothing live lies behind the sector written |
| `DirectoryItems.RemoveInRootIff` | src/kernel/fat12_functions.cpp:314-326 | in every root removing is a map deletion exactly when the entry is in the first sector and no other entry shows the name; otherwise the name still resolves |
| `DirectoryItems.CopiedShowsTwice` | src/kernel/fat12_functions.cpp:241-248 | a root sector copied over the first one shows its other names twice, once in the first sector |
| `FirstSector.StoreFirst` | src/kernel/fat12_functions.cpp:243-246 | storing a slot of the first sector of the root or of a one-sector subdirectory changes that slot and no other, and no table entry but the end mark of the directory |
| `FirstSector.CreateIsStore` | src/kernel/fat12_functions.cpp:226-251 | creating with a dead slot in the first sector is wiping a cluster and storing that slot |
| `FirstSector.RewriteFrame` | src/kernel/io_handles.cpp:194-203 | a short rewrite leaves every other chain and its contents |
| `DirectoryRuns.IntendedIsMapStep` | src/kernel/fat12_functions.cpp:226-326 | given its directory, the root or one of one sector, each of creating, storing short contents and removing succeeds and does what it means on a map from names to contents |
| `DirectoryRuns.ServedIff` | src/kernel/fat12_functions.cpp:300-326 | a request is served as that, except that removing in a subdirectory follows a null pointer |
| `DirectoryRuns.SessionIsMapIff` | src/kernel/fat12_functions.cpp:162-334 | over every session: it is served to its end exactly in the root or without removing; then names and contents are those of the map, and heap, ownership of clusters and distinct names are kept |
| `DirectoryRuns.IntendedSessionIsMap` | src/kernel/fat12_functions.cpp:226-326 | with removing as it is intended the same holds in a one-sector subdirectory, over every session |
| `DirectoryRuns.ReadNamed` | src/kernel/io_handles.cpp:136-189 | looking a name up and reading the file to its end returns what the map holds for it |
| `DirectoryRuns.EmptyDirectoryStarts` | src/kernel/fat12_functions.cpp:236-251 | an empty root or one-sector directory is the empty map |
| `DirectoryRuns.NewDirectoryStarts` | src/kernel/fat12_functions.cpp:229-234 | a directory just created is the empty map |
| `DirectoryRuns.CreateSpares` | src/kernel/fat12_functions.cpp:226-251 | creating leaves every other chain and its contents |
| `DirectoryRuns.RemoveFrame` | src/kernel/fat12_functions.cpp:314-326 | removing, given the sector of the parent, leaves every other file |
| `DirectoryRuns.StoreServes` | src/kernel/io_handles.cpp:191-221 | after a short write the entry has the new length, its file the new contents, and every other file is as before |
| `ItemListing.ColumnKeepsInvariant` | src/kernel/fat12_functions.cpp:678-684 | one comparison of the exchange loop keeps the sorting invariant |
| `ItemListing.ExchangeSort` | src/kernel/fat12_functions.cpp:677-685 | the double loop over all pairs sorts, and permutes |
| `ItemListing.GetItems` | src/kernel/fat12_functions.cpp:656-692 | returns a permutation of exactly the live entries in which none comes before one that is smaller by the bytes of name and extension |
| `ItemListing.SortedIff` | src/kernel/fat12_functions.cpp:677-685 | sorted by Compare_Filename is sorted by the bytes of name and extension |
| `ItemListing.LiveOnlyCounts` | src/kernel/fat12_functions.cpp:668-675 | every live entry is listed as often as it occurs and nothing else is |
| `FileData.ReadSectorOnChain` | src/kernel/io_handles.cpp:136-189 | a 512-byte read at any position delivers the stated part of the sector it is in, from the beginning of that sector |
| `FileData.TotalIsLengthIff` | src/kernel/io_handles.cpp:136-189 | the total delivered is the file length exactly when it is below 512, or the chain is longer than length/512 and either the length is a multiple of 512 or the chain is length/512 + 1 long |
| `FileData.PiecesOnChain` | src/user/find.cpp:72-121 | reading piece by piece delivers the first bytes of the chain, if the chain is long enough or the length a multiple of 512 |
| `FileData.PiecesLeaveTable` | src/user/find.cpp:72-121 | otherwise, as after a long write, the last sector is read again and again and then the walk leaves the table |
| `FileHandles.ReadAllIff` | src/user/find.cpp:72-121 | both together for every chain and length, and when the result is the whole file |
| `FileData.RewrittenTable` | src/kernel/io_handles.cpp:194-203 | the table after File_Handle::Write; long contents end up linked from entry 0 |
| `FileData.SectorsHold` | src/kernel/io_handles.cpp:196-201 | the sectors written hold the bytes, and zeros behind them |
| `FileData.WriteKeepsChainIff` | src/kernel/io_handles.cpp:191-203 | the file has the chain its contents need exactly when they are below 512 bytes |
| `FileData.ShortWriteReadsBack` | src/kernel/io_handles.cpp:191-203 | contents below 512 bytes read back as written |
| `FileHandles.FileHandle.Seek` | src/kernel/io_handles.cpp:15-33 | stores and returns the position sought: the byte given from the start; one too far from the current one; one too low from the end, wrapping below the start |
| `FileHandles.SeekIsMeantIff` | src/kernel/io_handles.cpp:15-33 | a seek goes where it is meant to exactly from the start, or from the end by the whole length |
| `FileHandles.FileHandle.Read` | src/kernel/io_handles.cpp:136-189 | fills the buffer with what the read function yields, for any buffer length (ReadBuffers.ReadAtOnChain says what that is) |
| `FileHandles.FileHandle.ReadAll` | src/user/find.cpp:72-121 | the loop of seek and read until 0, with a buffer of any length, terminates with the pieces, or says that a read left the table, a sector or the buffer |
| `ReadBuffers.ReadAtOnChain` | src/kernel/io_handles.cpp:136-189 | a read at any position with a buffer of any length: whole sectors of the chain from the one sought, or up to the last one and then length % 512 bytes of it; a file shorter than the buffer gives its first length bytes from the sector sought and leaves a sector when it is longer than one; in a buffer that ends inside a sector as many bytes follow as lie beyond it |
| `ReadBuffers.ReadStretch` | src/kernel/io_handles.cpp:136-189 | with a buffer of m sectors, no longer than the file: the stretch of the contents that is delivered |
| `ReadBuffers.PiecesLong` | src/user/type.cpp:66-76 | reading a file no shorter than the buffer to its end in pieces of m sectors: the first bytes of the chain if it is long enough, and otherwise the reading leaves the table |
| `ReadBuffers.TotalByIsLengthIff` | src/user/type.cpp:66-76 | these are the whole file exactly for a chain of length/512 + 1 sectors, or a longer one when the length is a whole number of pieces |
| `ReadBuffers.ReadAllByIff` | src/user/type.cpp:66-76 | the reading loop with a buffer of m sectors (8 in the command), for every chain and length, and exactly when its result is the file: one shorter than the buffer is read only when it fits in a sector |
| `FileWrite.Write` | src/kernel/io_handles.cpp:191-221 | frees, writes, and registers the length, for files with a chain and for files without a cluster; the handle is at the start again |
| `FileWrite.WritableFinishes` | src/kernel/io_handles.cpp:191-221 | on a file with a chain the write comes to its end, and the directory that lists it stays readable |
| `FileWrite.RewriteKeepsHeap` | src/kernel/io_handles.cpp:194-203 | rewriting a file of any length keeps the heap invariant |
| `FileWrite.RewriteKeepsDir` | src/kernel/io_handles.cpp:194-203 | rewriting a file keeps the directory that lists it readable |
| `FileWrite.ShortWriteReopens` | src/kernel/io_handles.cpp:191-221 | after a short write the name resolves to the same cluster with the new length and contents |
| `FileWrite.LongWriteReopens` | src/kernel/io_handles.cpp:191-221 | after a longer write, with a free cluster left, the name resolves to the same first cluster with the new length |
| `LongWrites.CountedLoop` | src/kernel/fat12_functions.cpp:389-397 | as far as the 16-bit counter reaches the loop of Write_Item computes the write function |
| `LongWrites.WriteEndsIff` | src/kernel/fat12_functions.cpp:371-397 | writing a file ends exactly for fewer than 65535 times 512 bytes; a longer write stays inside the table for ever |
| `LongWrites.LongWriteTable` | src/kernel/io_handles.cpp:194-203 | after a write of 512 bytes or more the first cluster of the file is free, unless it is the lowest free one |
| `LongWrites.LongWriteSharesIff` | src/kernel/io_handles.cpp:194-203 | and the next item created is given it exactly when all lower clusters but the one the data went to are in use by others |
| `LongWrites.SharedStart` | src/kernel/fat12_functions.cpp:226-234 | then two items start at one cluster, and it is wiped |
| `RootFiles.NoClusterItem` | src/kernel/fat12_functions.cpp:224-264 | with no cluster free Create_Item leaves an item that starts at sector 0, and entry 0 as the end |
| `RootFiles.NoClusterReads` | src/kernel/io_handles.cpp:136-189 | reading such a file to its end: the beginning of the root below 512 bytes, nothing for whole sectors, and otherwise the read leaves the table |
| `RootFiles.NoClusterWriteIff` | src/kernel/io_handles.cpp:191-203 | writing it stays inside the table exactly below 3072 sectors; the data goes over the root, and free entries below the sector count are linked up |
| `RootFiles.NoClusterWriteSlots` | src/kernel/fat12_functions.cpp:378-385 | the slots of the root sectors written over are then those of the data |
| `RootFiles.NoClusterReadsBack` | src/kernel/io_handles.cpp:136-203 | below 512 bytes the contents are read back as written |
| `RootFiles.NoClusterWriteFinishes` | src/kernel/io_handles.cpp:205-220 | the directory that lists the file can be read afterwards, as far as the first cluster behind the data |
| `RootFiles.NoClusterWriteKeepsHeap` | src/kernel/fat12_functions.cpp:378-385 | below 1024 bytes such a write keeps the heap invariant |
| `PathCode.ConvertSlashes` | src/kernel/fat12_functions.cpp:476-479 | the replacing loop changes every backslash |
| `PathCode.PathDirCount` | src/kernel/fat12_functions.cpp:79-99 | counts the components that are neither empty nor ".." |
| `PathCode.GetItem` | src/kernel/fat12_functions.cpp:462-626 | Get_Item computes the lookup function, reference parameters included |
| `PathCode.MoveToDir` | src/kernel/fat12_functions.cpp:419-460 | Move_To_Dir computes the move function |
| `PathCode.CutParentPath` | src/kernel/fat12_functions.cpp:300-310 | cuts the found path after its count-th slash |
| `PathCode.TakeFileName` | src/kernel/fat12_functions.cpp:180-189 | takes the file name off a path |
| `WorkingDir.FindIff` | src/kernel/fat12_functions.cpp:462-626 | Get_Item finds a directory exactly when the path is admissible and its target can be reached from the root |
| `WorkingDir.FollowPathTo` | src/kernel/fat12_functions.cpp:572-623 | what following the components of a path yields, from any directory |
| `WorkingDir.FollowDirLoses` | src/kernel/fat12_functions.cpp:523-563 | a working directory that has lost a component is followed on from the directory before it, and what counts as found is a later component |
| `WorkingDir.MoveIff` | src/kernel/fat12_functions.cpp:419-460 | Move_To_Dir succeeds exactly then, and leaves directory and sector agreeing on the target |
| `WorkingDir.MoveKeepsAgreement` | src/kernel/fat12_functions.cpp:419-460 | one move keeps working directory and sector in agreement |
| `WorkingDir.AlwaysAgrees` | src/kernel/fat12_functions.cpp:419-460 | so does every sequence of moves with any path strings |
| `WorkingDir.RootAgrees` | src/kernel/kernel.cpp:39-40 | the first working directory agrees with its sector |
| `PathMeaning.UsualMeaningIff` | src/kernel/fat12_functions.cpp:494-566 | dropping all ".." first means the same as taking them in order, in every working directory, exactly for paths whose ".." come first |
| `PathMeaning.TargetIsDropThenAppend` | src/kernel/fat12_functions.cpp:519-623 | a relative path with enough depth leads to: drop as many components as it has "..", then append the rest |
| `PathMeaning.LeadingIsNormal` | src/kernel/fat12_functions.cpp:494-566 | for leading ".." that is the usual meaning |
| `PathMeaning.ParentPath` | src/kernel/fat12_functions.cpp:300-310 | the cut path is the path of the parent directory |
| `PathMeaning.RemoveFindsParentIff` | src/kernel/fat12_functions.cpp:283-314 | the second lookup of Remove_Item returns an entry exactly when the parent is the root, and a null pointer otherwise |
| `PathMeaning.CreateFindsParent` | src/kernel/fat12_functions.cpp:198-202 | the second lookup of Create_Item, by the path that the first one hands back (ItemLookup.GetItemIs), finds the parent directory |
| `PathMeaning.FileNameIsLastIff` | src/kernel/fat12_functions.cpp:180-189 | the file name taken is the last component exactly when the path is not a slash and one component |
| `ItemLookup.FollowPathItem` | src/kernel/fat12_functions.cpp:572-623 | following components whose parent directory is there: the item, or only the last name missing, with the path and depth handed back |
| `ItemLookup.GetItemIs` | src/kernel/fat12_functions.cpp:462-626 | so for a whole call of Get_Item, from any working directory that agrees with its sector |
| `Refusals.NowhereFails` | src/kernel/fat12_functions.cpp:462-626 | Get_Item fails for more ".." than the working directory is deep, and when a component before the last is missing or no directory |
| `ItemLookup.GetRootItemIs` | src/kernel/fat12_functions.cpp:462-626 | for an item of the root, from any working directory, whether it is still there or not |
| `ItemCalls.StoredName` | src/kernel/fat12_functions.cpp:180-189 | the name stored is the last component, with its slash when the path is a slash and one component |
| `ItemCalls.CreateItemIs` | src/kernel/fat12_functions.cpp:162-269 | from working directory and path: Create_Item changes the parent directory of the path, under that name, or refuses the name |
| `Refusals.CreateRefuses` | src/kernel/fat12_functions.cpp:162-269 | Create_Item changes nothing and says so for the root, for a path that leads nowhere, and for an item that is there |
| `CreatedTree.CreatedLook` | src/kernel/fat12_functions.cpp:226-264 | the whole tree after Create_Item, whatever the searches for clusters find: what every safe directory shows under every name |
| `CreatedTree.SubdirectoryCreated` | src/kernel/fat12_functions.cpp:226-264 | every name of a subdirectory afterwards: the new one if it can be read there, and the others up to the sector written |
| `CreatedTree.CreateThenAgreesIff` | src/kernel/fat12_functions.cpp:226-264 | after Create_Item a working directory still agrees with its sector exactly when no directory on the way there loses the next component |
| `CreatedTree.CreateInRootThenGetIff` | src/kernel/fat12_functions.cpp:162-269 | end to end for every volume and caller, the root being the parent: the next Get_Item finds the item exactly when the path is not a slash and one component and the root was not left full |
| `CreatedTree.CreateThenGetIff` | src/kernel/fat12_functions.cpp:162-269 | end to end for every volume, if the way up of a path with ".." loses nothing and the new entry hides no component of the path in the root: the next Get_Item finds the item exactly when it is stored under the name looked for, can be read in its directory, and no further directory on the way loses the next component |
| `DistinctNames.CreateKeepsDistinctIff` | src/kernel/fat12_functions.cpp:162-269 | end to end: Create_Item keeps the live names of a subdirectory distinct, and those of the root exactly when none is shown twice; with room in its first sector, unless the path is a slash and one component whose name is there already, with its slash |
| `DistinctNames.RootDistinctIff` | src/kernel/fat12_functions.cpp:226-264 | the names of the root stay distinct exactly when the new one is not shown in a sector that stays, and a sector copied over the first has no other live slot |
| `DistinctNames.SubdirectoryStaysDistinct` | src/kernel/fat12_functions.cpp:226-264 | the names of a subdirectory stay distinct whatever the searches for clusters find |
| `ItemCalls.RemoveItemIff` | src/kernel/fat12_functions.cpp:271-334 | from working directory and path: Remove_Item runs to its end exactly when the parent is the root, and otherwise follows a null pointer |
| `Refusals.RemoveRefuses` | src/kernel/fat12_functions.cpp:271-298 | Remove_Item changes nothing and says so for the root, for a path that leads nowhere, for an item that is not there, and for a directory that is not empty |
| `RemovedTree.RemoveThenGetIff` | src/kernel/fat12_functions.cpp:271-334 | end to end for an item of every root and any caller: the next Get_Item finds the name still exactly when the entry was in a later sector or another entry shows it |
| `RemovedTree.CreateThenRemoveKeepsName` | src/kernel/fat12_functions.cpp:226-326 | after one Create_Item that copies a later root sector over the first, removing another item of that sector leaves its name found |
| `RemovedTree.RemoveThenAgreesIff` | src/kernel/fat12_functions.cpp:314-326 | after removing an item of the root, from any sector, a working directory still agrees with its sector exactly when the way there has no component that the root loses |
| `TreeSessions.CreateKeepsTree` | src/kernel/fat12_functions.cpp:226-264 | creating where there is room keeps the directories a tree in which every entry has a cluster of its own |
| `TreeSessions.RemoveKeepsTree` | src/kernel/fat12_functions.cpp:314-326 | so does removing an item of the first root sector |
| `TreeSessions.SessionKeepsTree` | src/kernel/fat12_functions.cpp:162-460 | over every session of moving, creating and removing that fits the volume: no null pointer is followed, the directories stay such a tree, and the working directory agrees with its sector |
| `TreeSessions.EmptyVolumeStarts` | src/kernel/kernel.cpp:28-49 | a volume without entries is such a tree, with the caller in the root |
| `Semaphores.Semaphore.P` | src/kernel/semaphore.cpp:10-20 | one critical section: take a permit or be counted as waiting |
| `Semaphores.Semaphore.V` | src/kernel/semaphore.cpp:22-32 | one critical section: hand the permit to a waiter or raise the value |
| `Semaphores.Semaphore.constructor` | src/kernel/semaphore.cpp:5-8 | a new semaphore holds its initial value |
| `Semaphores.CallsKeepBalance` | src/kernel/semaphore.cpp:10-32 | value - waiting = initial + V calls - P calls begun, and one of value and waiting is 0 |
| `PipeProtocol.StepKeepsInv` | src/kernel/pipe.cpp:15-72 | every step of every thread conserves the permits |
| `PipeProtocol.RunKeepsInv` | src/kernel/pipe.cpp:15-72 | so does every interleaving of any number of threads |
| `PipeProtocol.InitInv` | src/kernel/pipe.cpp:5-13 | a new pipe conserves them |
| `PipeProtocol.BufferWithinBounds` | src/kernel/pipe.cpp:15-60 | the buffer never exceeds its capacity; before a Close wakes anyone a permit to take means a byte is there |
| `PipeProtocol.NeverStuck` | src/kernel/pipe.cpp:15-60 | when producers and consumers both wait, exactly buffer_size permits are held by others |
| `PipeProtocol.QuietMeansFullOrEmpty` | src/kernel/pipe.cpp:15-60 | when no one holds a permit, waiting producers mean a full and waiting consumers an empty buffer |
| `PipeFifo.RunKeepsLog` | src/kernel/pipe.cpp:15-72 | over every run bytes taken followed by the buffer are the bytes put in, and every thread moved exactly what its calls reported |
| `PipeFifo.OneToOne` | src/kernel/pipe.cpp:15-60 | with one producer and one consumer the bytes received, then the buffer, are the bytes sent, with closes at any point; when a call returns, PipeCalls says |
| `PipeCalls.ConsumeReturnsIff` | src/kernel/pipe.cpp:34-60 | in every reachable state a step ends a call of Consume exactly at one of its two checks, with all it was asked for or, when the write end is closed and the buffer empty, with what it has; it reports all it took and never more than it was asked for |
| `PipeCalls.ProduceReturnsIff` | src/kernel/pipe.cpp:15-32 | a step ends a call of Produce exactly at its check, with the whole buffer put in or the read end closed |
| `PipeCalls.ConsumeCall` | src/kernel/pipe.cpp:34-60 | a whole call of Consume in any interleaving: the next bytes taken, at most as many as asked for, and fewer only if it last saw the write end closed and the buffer empty |
| `PipeCalls.ProduceCall` | src/kernel/pipe.cpp:15-32 | a whole call of Produce: the first bytes of its buffer, and fewer than all only if it last saw the read end closed |
| `PipeCalls.ShortConsumeDrains` | src/kernel/pipe.cpp:34-72 | with one producer and one consumer, a short result while the producer is in no call means that every byte sent has been received |
| `PipeCalls.CloseReadStops` | src/kernel/pipe.cpp:15-72 | once the read end is closed a thread puts nothing more into the pipe, except the one byte it had already gone on to |
| `PipeCalls.CloseWriteReleases` | src/kernel/pipe.cpp:34-72 | Close of the write end, with its notification, lets a consumer that waits at an empty buffer return what it has |
| `PipeSafety.FailureNeedsWakeup` | src/kernel/pipe.cpp:36-70 | a byte is taken from the empty buffer only after a Close has woken a consumer |
| `PipeSafety.WaitersMeanStep` | src/kernel/pipe.cpp:15-60 | before that, when a producer and a consumer wait some step that passes a permit on is possible |
| `PipeSafety.SafeRun` | src/kernel/pipe.cpp:36-72 | with at most one consumer, or nothing to take, no run takes a byte from the empty buffer |
| `PipeSafety.FailingRun` | src/kernel/pipe.cpp:36-72 | with two consumers and a producer there is such a run |
| `PipeSafety.NoEmptyPopIff` | src/kernel/pipe.cpp:36-72 | no run does exactly when there is at most one consumer, no producer, or no capacity |
| `IdPools.GetIff` | src/kernel/process_controller.cpp:407-465 | fails exactly when every identifier is used; otherwise returns the first unused one in the circle and marks only it |
| `IdPools.CursorAfterGetIff` | src/kernel/process_controller.cpp:413-424 | the cursor stays in range unless a pool that does not start at 0 was full |
| `IdPools.CursorAfterPutIff` | src/kernel/process_controller.cpp:432-475 | giving back an identifier neither loses nor repairs the cursor |
| `IdPools.PutThenGetIff` | src/kernel/process_controller.cpp:407-475 | an identifier given back is the next one handed out exactly when it is below the cursor or nothing from the cursor up to it is free |
| `IdPools.RunStaysDefinedIff` | src/kernel/process_controller.cpp:407-475 | over any run all accesses are inside the table, with the cursor in range, exactly when no request met a full pool or the pool starts at 0 |
| `IdPools.IdPool.Get` | src/kernel/process_controller.cpp:442-465 | the scanning loop computes the pool function |
| `IdPools.IdPool.Put` | src/kernel/process_controller.cpp:467-475 | unmarks the identifier and lowers the cursor |
| `IdPools.IdPool.constructor` | src/kernel/process_controller.h:29-33 | a new pool is empty |
| `ProcessTables.CreateProcessKeepsAgreement` | src/kernel/process_controller.cpp:26-55 | creating a process keeps the three tables and two pools in agreement |
| `ProcessTables.CreateProcessDefinedIff` | src/kernel/process_controller.cpp:44-44 | the lookup of the process that hands down its working directory is defined exactly for a known native thread, and then the tables stay in agreement |
| `ProcessTables.CreateThreadKeepsAgreement` | src/kernel/process_controller.cpp:57-90 | so does creating a thread in a known process |
| `ProcessTables.CreateThreadKeepsAgreementIff` | src/kernel/process_controller.cpp:57-90 | a call of Create_Thread creates one and keeps the agreement exactly when its native thread is known |
| `ProcessTables.ReapProcessKeepsAgreement` | src/kernel/process_controller.cpp:169-198 | so does reaping a main thread, with its siblings removed as intended (CodeRunIff) |
| `ProcessTables.ReapThreadKeepsAgreement` | src/kernel/process_controller.cpp:200-206 | so does reaping another thread, which TableChanges.ReapTakesAway says is gone from every table |
| `ProcessTables.ReapTakesSiblings` | src/kernel/process_controller.cpp:169-198 | reaping a main thread, as intended, removes and frees all threads of its process |
| `ProcessTables.ReapSparesOthers` | src/kernel/process_controller.cpp:142-209 | and leaves the threads of every other process |
| `TableChanges.ReapTakesAway` | src/kernel/process_controller.cpp:142-209 | reading the exit code of any known thread takes it away, and with a main thread all threads of its process and the process: from every table, identifiers free again; every other thread keeps its process, its thread object and its native identifier |
| `TableChanges.CreateProcessAdds` | src/kernel/process_controller.cpp:26-55 | a new process and its main thread, with identifiers that were not in use, are added to the tables and nothing else |
| `TableChanges.CreateThreadAdds` | src/kernel/process_controller.cpp:57-90 | a thread is added to the process of the caller and nothing else, and the identifier returned is its own |
| `ProcessTables.LookupKeepsAgreementIff` | src/kernel/process_controller.cpp:103-110 | the lookup in Wait_For keeps the agreement exactly for known handles |
| `ProcessTables.RunKeepsAgreement` | src/kernel/process_controller.cpp:26-209 | every run of creating and reaping, with siblings removed as intended, keeps the agreement |
| `ProcessTables.CodeRunIff` | src/kernel/process_controller.cpp:171-190 | such a run is one of the code exactly when at every reaping of a main thread its process has no other thread, or one with a higher identifier |
| `ProcessTables.SingleRunsDefined` | src/kernel/process_controller.cpp:171-190 | as long as no process starts a second thread every run is one of the code |
| `ProcessTables.FirstReapIff` | src/kernel/process_controller.cpp:171-190 | after any calls of Create_Process and Create_Thread since the start, reaping a main thread is defined exactly when at most one of them started a thread in its process |
| `ProcessTables.BootAgrees` | src/kernel/kernel.cpp:28-49 | the tables agree once the kernel process exists |
| `ProcessControllers.ProcessController.constructor` | src/kernel/kernel.cpp:28-49 | the kernel process as the first entry of the tables |
| `ProcessControllers.ProcessController.CreateProcess` | src/kernel/process_controller.cpp:26-55 | says whether the lookup of the calling process is defined; then maps and pools are updated as the create function says, keys that are there keeping their values; nothing after a shutdown; from tables that agree, with identifiers left, exactly one process is added and its main thread returned |
| `ProcessControllers.ProcessController.CreateThread` | src/kernel/process_controller.cpp:57-90 | updates maps and pools as the create function says, for known and unknown callers; nothing after a shutdown; for a known caller exactly one thread is added to the caller's process, and it is the one returned |
| `ProcessControllers.ProcessController.GetStdTid` | src/kernel/process_controller.cpp:477-489 | a native identifier that maps to the thread, 0 when there is none |
| `ProcessControllers.ProcessController.ReadExitCode` | src/kernel/process_controller.cpp:142-209 | says whether the loop over the siblings is defined; then returns the exit code; the thread, or its whole process when it is the main one, is gone from every table and its identifiers are free, every other thread is as before, and the tables agree |
| `ProcessControllers.ProcessController.ReapSiblings` | src/kernel/process_controller.cpp:171-190 | the loop in ascending order: it never advances an erased iterator exactly when the main thread has no sibling, or one with a higher identifier, and then erases exactly the threads other than the main one |
| `ThreadControls.ThreadControl.StopPass` | src/kernel/thread.cpp:49-58 | one pass of Stop: leave, block, or spin, and whether the mutex is given up |
| `ThreadControls.ThreadControl.Restart` | src/kernel/thread.cpp:60-73 | once the mutex is free: the waker is no longer waited for, and a sleeping thread is woken |
| `ThreadControls.ThreadControl.Join` | src/kernel/thread.cpp:75-82 | the thread is exited with its code |
| `WaitProtocol.RegisterAllKeepsInv` | src/kernel/process_controller.cpp:101-122 | registering at any list of handles keeps the invariant |
| `WaitProtocol.StopPassKeepsInv` | src/kernel/thread.cpp:49-58 | so does a pass of Stop |
| `WaitProtocol.NotifyKeepsInv` | src/kernel/process_controller.cpp:366-405 | so does waking one sleeper |
| `WaitProtocol.JoinKeepsInv` | src/kernel/process.cpp:56-62 | so does joining a thread |
| `WaitProtocol.ReapKeepsInv` | src/kernel/process_controller.cpp:142-209 | so does reaping exited threads that list no remaining sleeper |
| `WaitProtocol.RunKeepsInv` | src/kernel/process_controller.cpp:92-405 | so does every interleaving; which threads an exit ends, ExitRuns.ExitEnds says |
| `WaitProtocol.NoLostWakeup` | src/kernel/process_controller.cpp:92-140 | a blocked thread waits for one that has not exited and lists it, unless it is itself being ended |
| `WaitProtocol.AllExitedMeansAwake` | src/kernel/process_controller.cpp:366-405 | once every thread it registered at has exited a thread runs and its Stop returns |
| `WaitProtocol.NextExitStepIff` | src/kernel/process_controller.cpp:211-266 | an exit under way can take its next step exactly when the sleeper it comes to does not spin in Stop |
| `WaitProtocol.StuckForever` | src/kernel/thread.cpp:49-73 | a sleeper that spins with handles left keeps its mutex, and the exit never gets past it, whatever any thread does |
| `WaitProtocol.NotifyingEndsIff` | src/kernel/process_controller.cpp:366-405 | an exit can finish notifying exactly when no sleeper still to be notified is such a thread |
| `WaitProtocol.LivingExitsEnd` | src/kernel/process_controller.cpp:92-266 | in every run in which no exited thread calls Wait_For it can |
| `WaitProtocol.StuckRun` | src/kernel/process_controller.cpp:92-266 | a run in which an exited thread calls Wait_For and an exit is stuck |
| `ExitRuns.ExitEnds` | src/kernel/process_controller.cpp:211-266 | a whole Exit in any interleaving: of a main thread it ends all threads of its process with the code given, and the process; of another thread that thread alone; no other thread exits, and no other exit code or process changes |
| `ExitRuns.WaitForRegisters` | src/kernel/process_controller.cpp:92-124 | Wait_For registers its caller, on both sides, for exactly the handles before the first that is unknown, exited or of a process that is over, and goes on into Stop exactly when there is none |
| `ExitRuns.WokenByRegistered` | src/kernel/thread.cpp:60-73 | in every run a blocked thread goes on only by the notice of a thread it registered for that is being ended, which is the one reported, and is taken off its handles |
| `ExitRuns.NoticeWakes` | src/kernel/thread.cpp:60-73 | a notice leaves no sleeper blocked |

## Left out

- The branch of `Find_Free_Sector` for a count other than 1, which has no caller.
- FileWrite.Write: is about contents on which it ends, fewer than 65535 times 512 bytes (`LongWrites.WriteEndsIff`).
- ItemCalls.CreateItemIs: whole calls are functions composed of the parts; the parts are methods (PathCode,
  DirectoryCode), but a method for the whole is not written, because the path walk takes the directory scan as a value.
- CreatedTree.CreateThenGetIff: assumes that nothing else links into the directories on the way. It leaves open what a
  path with ".." finds when the way up loses a component, as `Get_Item` then goes on from the directory before it
  (`WorkingDir.FollowDirLoses`); and
  what is found when the new entry stands in the first root sector under the name of a component of the path. In both
  cases `CreatedTree.CreatedLook` is the tree that is searched. When the parent directory is missing both calls
  refuse (`Refusals.CreateRefuses`, `Refusals.RemoveRefuses`).
- CreatedTree.CreateThenAgreesIff: leaves open the second of these cases, too.
- TreeSessions.SessionKeepsTree: sessions keep to calls that have room and stay in the first root sector, because the
  others lose entries; they remove from the root only (`ItemCalls.RemoveItemIff`), and nothing the caller is in
  (`RemovedTree.RemoveThenAgreesIff`); they do not write files, because longer contents lose their cluster
  (`LongWrites.LongWriteTable`).
- DirectoryItems.RemoveInSlot: is about lines 314-326 given the parent's sector; for a subdirectory the code follows a
  null pointer at line 314 (`ItemCalls.RemoveItemIff`). So are DirectoryItems.RemoveIsDeleteIff,
  DirectoryRuns.IntendedIsMapStep, DirectoryRuns.IntendedSessionIsMap and DirectoryRuns.RemoveFrame.
- DirectoryRuns.SessionIsMapIff: sessions store contents of less than 512 bytes, because longer contents lose their
  chain (`FileData.WriteKeepsChainIff`), and keep to the first sector of the directory, because the others lose entries.
- ProcessTables.RunKeepsAgreement: the agreement of the tables is claimed while both pools have a free identifier.
- Processes and threads are values in the controller's maps, which own them alone; the thread's own fields are the
  class ThreadControl, and aliasing between the two is not modelled.
- Produce and Consume are steps of a state machine rather than methods with loops, as a method cannot be
  interrupted by other threads.
- Appending.AppendFromUsed: is about a volume with enough free clusters, and so is Appending.AppendFromFree; without
  them the chain goes on from sector 0, as for a single sector (`CreateLimits.AppendWithoutRoom`).
- PipeSafety.WaitersMeanStep: nothing is claimed about progress after a Close, whose notification can race with a
  thread about to wait.
- `Process_Controller::Shutdown` and signal handlers, which call user code.
- `Directory_Handle::Read`, `Procfs_Handle::Read`, the standard handles and the pipe handle's forwarding: paging,
  formatting and device I/O.
- Date and time fields, which are parameters of a new item, and the other flags of `Read_Attribute`: short closed
  forms.
- `IO::Seek` with Set_Size, which passes a null buffer to `Write_Item`.
- `src/boot`, `src/user` other than the reading loops of `find.cpp` and `type.cpp`, and the system-call dispatch: device emulation
  and text output.
