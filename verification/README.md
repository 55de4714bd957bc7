# OSComplex: a verified model of the kernel's hard core

OSComplex is a small 32-bit x86 kernel. This project models five of its parts over an
abstract machine and proves what they are for. The disk is a sequence of 512-byte
sectors whose reads and writes may fail, physical memory is a sequence of 4096-byte
frames, and a task switch is an atomic change of states.

| part | files | what is proved |
|---|---|---|
| FAT16 driver and formatter | `Fat*.dfy` | cluster chains stay in range, acyclic, ended and disjoint, and every cluster is free or on one of them; a directory behaves as a map from 8.3 names to byte sequences, with exact conditions where it does not; what was written is read back, on any disk; a file's life restores the free clusters; mounting again gives the same volume |
| Page allocator and kernel heap | `Bits.dfy`, `Pmm.dfy`, `Heap*.dfy`, `KernelHeap.dfy` | the bitmap refines a set of pages; free and live blocks tile the heap pages exactly and live blocks never overlap; what kmalloc cuts off the free list and what kfree puts back, piece by piece, and when the two cancel |
| Tasks, scheduler, wait and exit | `Tasks.dfy`, `Task[RTF]*.dfy`, `Scheduler.dfy` | the linked queue and child lists refine a state machine; one running task, no lost wake-up, every child its creator's until sys_wait returns it, once, with its exit code, in every run; turns, sleep times and the order of the queue |
| Page tables and ELF loader | `Paging.dfy`, `Vmm.dfy`, `TaskSpace.dfy`, `ElfImage.dfy`, `Elf.dfy` | the table walk refines a map from pages to entries; a loaded task, in user mode, reads the image its program headers specify and writes exactly what they let it |
| Paths and the command table | `Path.dfy`, `Lru.dfy`, `Suggest.dfy` | splitting inverts joining; resolution is a fold; the table is a true LRU cache; suggestions are sorted |

The state that the C code updates in place is a class here (`FatVolume.Volume`,
`FatTable.ClusterTable`, `Pmm.PageAllocator`, `KernelHeap.KHeap`, `Scheduler.Kernel`,
`Vmm.AddressSpace`, `Elf.Loader`, `Lru.CommandTable`). Its methods follow the source's
branches and loops. Each is proved against a relation or function on values, and the
laws are lemmas about those.

Where the code does not meet the obvious claim, the model follows the code; a lemma states
exactly when the claim holds, and another shows an input at which it fails:

| exactly when | fails at |
|---|---|
| `FatGeometry.MountValidIff`, `FatGeometry.AcceptedIsExact` | `FatGeometry.MountInvalidExample`, `FatGeometry.HugeDiskExample` |
| `FatNames.NameRoundTrip` | `FatNames.NameLostExample` |
| `FatVolume.Volume.FindNode`, `FatNodes.WriteKeepsOwners` | `FatExamples.MisnamedExample` |
| `FatRuns.NamesUniqueIff` | `FatExamples.RootDuplicate`, `FatExamples.SubdirDuplicate` |
| `FatTheorems.HoleIsZeroIff`, `FatIo.PatchedCluster` | `FatExamples.DeletedBytesShow`, `FatIo.LostByteExample` |
| `FatLife.LifeRestoresFree`, `FatSlots.WritableSlot` | `FatExamples.LostNameLeaks`, `FatSlots.UnwritableExample` |
| `FatRuns.UnlinkOrphans` | `FatExamples.RmdirOrphansFile` |
| `FatTheorems.SizeCovered`, `FatTheorems.ReadStaysInside` | `FatExamples.SizeBeyondChain`, `FatTheorems.ReadOutsideExample` |
| `Pmm.InitRegionExact`, `Pmm.DeinitRegionExact` | `Pmm.InitRegionExample`, `Pmm.DeinitRegionExample` |
| `KernelHeap.LargeHoldsRequest`, `KernelHeap.LargeRoundTrip`, `KernelHeap.FailureRestores` | `KernelHeap.LargeMissesExample`, `KernelHeap.LargeRoundTripExample`, `KernelHeap.FailureExample` |
| `HeapPieces.SmallRoundTrip` | `HeapPieces.FragmentExample` |
| `TaskTimes.SleepThenTick` | `TaskTimes.EarlyWakeExample` |
| `Vmm.RangeCovers`, `ElfImage.ImageIsRight` | `Vmm.RangeMissesExample`, `ElfImage.UnalignedExample` |
| `Vmm.AddressSpace.UnmapPage`, `Paging.MappedAccess` | `Vmm.UnmapOwnTable`, `Paging.KernelTableExample` |
| `Path.ResolvedIsWalk`, `Path.NameThenParent` | `Path.MountedRootExample`, `Path.LongPathExample` |
| `Lru.DistinctAfterLearning`, `Lru.RateMoves` | `Lru.LongCommandExample`, `Lru.TrustLost` |

Three places where comments and code disagree, and the code is followed: the scheduler
calls itself round-robin but restarts its scan at the head of the queue every time
(kernel/scheduler.c:1-5 and 129-138), so the rule proved is "first READY task in queue
order", and `TaskTimes.HeadStarvesOthers` shows the starvation; the large path of kmalloc
calls its pages contiguous but only takes the lowest free ones (mm/heap.c:164-186); the
success rate of a command is said to move towards 100 with every success (ai/ai.c:153) but,
rounded down, rises only from 80 and below, and is at most 95 for ever after a failure.

Integers are unbounded in the model; 16-bit and 32-bit wrap-around is written out where
the code can reach it.

## Model

| member | source | states |
|---|---|---|
| `FatTable.FreeFromIsCleared` | fs/fat.c:101-107 | on every table, cyclic or out of range, freeing terminates, frees exactly the clusters on the walk and changes no other entry |
| `FatTable.FreeChainExact` | fs/fat.c:101-107 | on a well-formed chain exactly its clusters become free |
| `FatTable.FreeKeepsWellFormed` | fs/fat.c:101-107 | after freeing one chain all others are still in range, acyclic, ended by EOC and disjoint |
| `FatTable.AllocKeepsWellFormed` | fs/fat.c:91-99 | the lowest free cluster becomes a one-cluster chain apart from all others |
| `FatTable.LinkKeepsWellFormed` | fs/fat.c:341-354 | allocating and linking one cluster behind a chain keeps all chains well formed |
| `FatTable.ExtendKeepsWellFormed` | fs/fat.c:341-354 | the whole extension loop keeps all chains well formed and changes only this one |
| `FatTable.ExtendUsesFree` | fs/fat.c:341-354 | free clusters plus the chain's clusters are conserved; the chain stops short of what is needed only when nothing is free |
| `FatTable.ExtendedLength` | fs/fat.c:341-354 | how long the extended chain is, from the chain, the free clusters and the number needed |
| `FatTable.ChainUnique` | fs/fat.c:80-83 | a table and a first cluster determine the chain |
| `FatTable.ClusterTable.GetNext` | fs/fat.c:80-83 | the next cluster, EOC outside the table |
| `FatTable.ClusterTable.SetCluster` | fs/fat.c:85-89 | one entry changes and the table is dirty, nothing happens out of range |
| `FatTable.ClusterTable.AllocCluster` | fs/fat.c:91-99 | the lowest free cluster marked EOC, or 0 and no change when the volume is full |
| `FatTable.ClusterTable.FreeClusterChain` | fs/fat.c:101-107 | the loop computes the freed table, with the dirty flag set exactly when an entry was written |
| `FatTable.ClusterTable.ExtendChain` | fs/fat.c:341-354 | the loop computes the extended table and chain, dirty exactly when a cluster was added |
| `FatGeometry.ClusterRange` | fs/fat.c:113-116 | a cluster's sectors lie inside the volume behind the root directory |
| `FatGeometry.ClustersDisjoint` | fs/fat.c:113-116 | different clusters have disjoint sectors |
| `FatGeometry.ClustersAdjoin` | fs/fat.c:113-116 | cluster 2 opens the data area and each cluster follows the one before |
| `FatGeometry.AcceptedIsExact` | tools/mkfs.fat.c:86-120 | for an accepted image nothing computed from the sector count wrapped in 16 or 32 bits and the FAT size is the rounded-up quotient; the sector count itself is right if and only if the disk has fewer than 2^32 sectors |
| `FatGeometry.HugeDiskExample` | tools/mkfs.fat.c:92 | a disk of 2^32 + 20000 sectors is accepted as one of 20000 |
| `FatGeometry.FormatExample` | tools/mkfs.fat.c:92-103 | the layout of a 32 MiB disk: 64 sectors a FAT, data from sector 161 on, 16343 clusters |
| `FatGeometry.MountAgreesWithFormat` | fs/fat.c:617-632 | the driver computes the formatter's layout, and all clusters fit on the disk |
| `FatGeometry.FatHoldsClusters` | tools/mkfs.fat.c:92-103 | a FAT has at least one entry per cluster |
| `FatGeometry.MountValidIff` | tools/mkfs.fat.c:92-103 | the table holds the entries the driver indexes if and only if tmp2 * sectors_per_fat - tmp1 is at least 5 |
| `FatGeometry.MountInvalidExample` | tools/mkfs.fat.c:92-103 | a 17475-sector image is accepted with a table two entries short |
| `FatFormat.FormattedMounts` | tools/mkfs.fat.c:155-187 | whatever was on the disk, an accepted image with a large enough FAT gives the driver a signed boot sector with the formatter's geometry and a volume that satisfies its invariant, with both FATs equal to the table, every cluster free and no file |
| `FatFormat.BootRoundTrip` | fs/fat.c:611-626 | the fields the driver reads from the boot sector are those the formatter wrote |
| `FatFormat.BootIsStandard` | tools/mkfs.fat.c:122-153 | each field lies at the bytes at which the FAT specification puts it, and the driver takes every sector so laid out for these fields |
| `FatFormat.Mount` | fs/fat.c:601-680 | NULL for an unsigned or unreadable disk or without memory; otherwise the volume is the one that the disk holds, with all its files |
| `FatFormat.FormattedHolds` | tools/mkfs.fat.c:155-187 | a formatted disk holds the empty volume |
| `FatFormat.CleanIsOnImage` | fs/fat.c:683-697 | a volume whose table is clean is the one its disk holds |
| `FatFormat.Remount` | fs/fat.c:601-680 | mounting again while the table is clean, without unmounting, gives the same volume: table, chains, directories and files |
| `FatData.FileBytesUpdate` | fs/fat.c:127-134 | rewriting one cluster of a chain splices its bytes into the file |
| `FatIo.ReadCluster` | fs/fat.c:118-125 | the cluster's bytes in the buffer, or failure |
| `FatIo.WriteCluster` | fs/fat.c:127-134 | the cluster's sectors become the buffer, a failed write leaves a written prefix, no other sector changes |
| `FatIo.ReadChain` | fs/fat.c:273-315 | the bytes read are the file's bytes from the offset on; on a working disk as many as asked for and as the chain holds |
| `FatIo.WriteChain` | fs/fat.c:356-380 | only the chain's sectors change, and on any disk the bytes counted are in the chain at the offset; on a working disk exactly the reachable part of the data lies over the old bytes |
| `FatIo.PatchCluster` | fs/fat.c:366-375 | the chunk is in the cluster after a write that succeeds; the rest of the cluster survives if and only if the buffer held it, which the ignored result of the read does not ensure |
| `FatIo.PatchedCluster` | fs/fat.c:366-375 | the patched buffer is the cluster with the chunk in it if and only if the buffer held the other bytes |
| `FatIo.LostByteExample` | fs/fat.c:366-375 | one byte written while the read fails: the byte in front of it comes from an earlier call |
| `FatNames.StrToFilename` | fs/fat.c:47-66 | the loop computes the padded upper-case 8.3 name |
| `FatNames.FilenameToStr` | fs/fat.c:37-45 | the loop computes the printed name |
| `FatNames.NameRoundTrip` | fs/fat.c:37-66 | parsing a printed name gives it back if and only if neither the first eight characters before the dot nor the first three behind it have a space inside |
| `FatNames.NameLostExample` | fs/fat.c:37-66 | "A B" prints as "A" |
| `FatNames.SpaceFreeRoundTrip` | fs/fat.c:37-66 | it does for every space-free string |
| `FatNames.CaseIgnored` | fs/fat.c:47-66 | names that differ only in case are one name; fitting names without spaces are one name only then |
| `FatNames.CaseExample` | fs/fat.c:47-66 | "a.b" is A, seven spaces, B and two spaces |
| `FatNames.PrintedIsString` | fs/fat.c:37-66 | a parsed name prints as a string without NUL |
| `FatNames.NeverDotOrNul` | fs/fat.c:47-66 | no string names the `.` or `..` entry or an end-of-directory mark |
| `FatDir.ScanChain` | fs/fat.c:165-183 | a chain scan finds the first matching slot, and on a working disk finds one exactly when there is one |
| `FatDir.ScanRoot` | fs/fat.c:146-163 | the same for the root directory |
| `FatDir.PartialPatch` | fs/fat.c:127-134 | a cluster write that stops early leaves a patched entry either old or new, never torn |
| `FatDir.CreatedLookup` | fs/fat.c:186-246 | a new entry keeps names unique, is found unless it starts with 0xE5, and changes no other lookup |
| `FatDir.DeletedLookup` | fs/fat.c:809-847 | a deleted name is gone, no other lookup changes, names stay unique |
| `FatDir.ResizedLookup` | fs/fat.c:388-439 | updating size and first cluster changes no lookup |
| `FatSlots.Locate` | fs/fat.c:140-228 | the slot found matches, and on a working disk is the first match of the directory |
| `FatSlots.Rewrite` | fs/fat.c:859-866 | writing back a patched sector or cluster changes exactly that slot or nothing |
| `FatSlots.WriteDirEntry` | fs/fat.c:231-246 | the entry is stored exactly when its offset lies in the sector; otherwise the disk is as before |
| `FatSlots.WritableSlot` | fs/fat.c:218-219 | the offset lies in the sector if and only if the slot is in the root or below 16 in its cluster |
| `FatSlots.UnwritableExample` | fs/fat.c:218-219 | the 17th slot of a subdirectory cannot be written |
| `FatFs.OtherChain` | fs/fat.c:113-134 | a write to one file or directory leaves the bytes of every other chain alone |
| `FatFs.FatsUntouched` | fs/fat.c:113-134 | no cluster or root-directory write touches a FAT copy |
| `FatFs.EncodeDecode` | fs/fat.c:636-653 | encoding the decoded bytes gives them back |
| `FatFs.DecodeEncode` | fs/fat.c:683-697 | decoding an encoded table gives it back |
| `FatFs.Sync` | fs/fat.c:683-697 | after a dirty sync succeeds every copy on disk is the table; failure leaves it dirty |
| `FatFs.LoadTable` | fs/fat.c:636-653 | the mounted table is the first copy on disk |
| `FatState.AllocStep` | fs/fat.c:91-99 | allocation keeps the volume invariant (chains, ownership, cache) |
| `FatState.FreeStep` | fs/fat.c:101-107 | so does freeing a chain without owner |
| `FatState.GrowStep` | fs/fat.c:341-354 | so does growing a chain |
| `FatState.SlotStep` | fs/fat.c:231-246 | so does replacing a slot by an entry that owns an unowned chain or none |
| `FatState.SyncStep` | fs/fat.c:683-697 | rewriting the FAT copies keeps the invariant, of which agreement of a clean table with the first copy is part, and the tree |
| `FatVolume.Volume.Find` | fs/fat.c:140-183 | a hit is a valid entry of that name; on a working disk exactly the first one |
| `FatVolume.Volume.Create` | fs/fat.c:533-573 | keeps the invariant on any disk; either nothing changed, or the lowest free cluster is a new file's and the tree is as before or has its entry in one vacant slot; only the directory and the FATs change on disk; on a working disk exactly when the name is new, a slot is vacant and a cluster free, in the first vacant slot and with a clean table; when just the first read fails, a name that lies there is entered again |
| `FatVolume.Volume.CreateNode` | fs/fat.c:533-595 | a node if the file was created and there is memory; it can be read and written, and on a working disk stands for the new file |
| `FatVolume.Volume.FindNode` | fs/fat.c:503-531 | a file's node has the entry's chain, size and printed name and can be read and written; under unique names it stands for its file if and only if the name has no space inside a field, or no entry goes by the printed name (or both are empty files without a cluster); on a working disk the first entry of the name |
| `FatOps.FoundEntry` | fs/fat.c:503-531 | the same of a volume's state: what an entry found under a name gives, and when it is live under its printed name |
| `FatOps.ReopensFits` | fs/fat.c:503-531 | entries under the printed name are the found file's own if and only if the name reopens |
| `FatVolume.Volume.Mkdir` | fs/fat.c:717-803 | the same as create for a directory that holds `.` and `..`; NULL without memory for the node though the directory was made |
| `FatVolume.Volume.Unlink` | fs/fat.c:809-884 | keeps the invariant; the first entry of that name is marked deleted and exactly its chain freed |
| `FatVolume.Volume.Write` | fs/fat.c:327-446 | for every open node, whatever it is called: table, chains and cache stay in order and all other files keep their bytes on any disk; the tree is as before or has the new size and first cluster in one entry of the node's name; the invariant is kept if and only if that entry is no directory's and no other entry has the chain, as for a live node; stores and reports what the chain can take; a live node stays live if it had a cluster or was written on a working disk under a unique name |
| `FatTheorems.NeededIsCeiling` | fs/fat.c:341-343 | the clusters asked for hold offset plus length bytes and one less would not; with a wrapped sum they are at most as many |
| `FatTheorems.WriteStoresAll` | fs/fat.c:341-380 | on a working disk a write stores all its data if and only if there is none or it ends within the clusters the file has and the free ones, otherwise exactly what fits there; the chain takes no cluster that the bytes up to the end of the data do not need |
| `FatTheorems.SecondClusterExample` | fs/fat.c:341-354 | 100 bytes at offset 2000 of a one-cluster file take a second cluster and are all stored |
| `FatNodes.WriteKeepsOwners` | fs/fat.c:385-440 | told before the call, on a working disk: a write keeps the invariant if and only if it stores nothing, or no entry goes by the node's name, or the first that does is no directory's and no other entry has the node's chain |
| `FatOps.OwnedResized` | fs/fat.c:408-410 | storing a first cluster and size in an entry keeps every chain's owner single if and only if the entry is no directory's and no other entry owns the chain |
| `FatOps.LiveSingly` | fs/fat.c:385-440 | writing through a live node keeps every chain's owner single, on any disk |
| `FatVolume.Volume.Read` | fs/fat.c:252-324 | a contiguous part of the file from the offset on, complete on a working disk |
| `FatNodes.ReadPart` | fs/fat.c:252-324 | on a working disk exactly the bytes of the file from the offset on, at most size of them and none behind its end, unless offset plus size wraps |
| `FatTheorems.WriteMeaning` | fs/fat.c:327-383 | for every offset: the count is what the chain can take, and the file becomes its old bytes with the stored prefix of the data written over them, behind its end with what the clusters held in between |
| `FatTheorems.HoleIsZeroIff` | fs/fat.c:341-380 | a file written behind its end reads as zeros in between if and only if its clusters held zeros there |
| `FatTheorems.SizeCovered` | fs/fat.c:382-383 | after a write the size lies within the file's clusters if and only if the offset lies within the clusters the file can get from its own and the free ones; otherwise 0 is returned and the size becomes the offset |
| `FatTheorems.ReadStaysInside` | fs/fat.c:257 | the clamp keeps a read inside the file if and only if the 32-bit sum of offset and size does not wrap |
| `FatTheorems.ReadOutsideExample` | fs/fat.c:257 | 2^32 - 10 bytes from byte 50 of a 100-byte file are not clamped |
| `FatTheorems.SucceedsIff` | fs/fat.c:533-556 | by the bytes of the slots: on a working disk create and mkdir succeed if and only if no entry goes by the name, a slot is vacant and a cluster is free |
| `FatTheorems.CreateIsMapUpdate` | fs/fat.c:533-595 | the name, unused before, stands for the empty file and every other name for what it did; names stay unique |
| `FatTheorems.WriteIsMapUpdate` | fs/fat.c:327-446 | for every offset and whatever entry the node's name finds: that name stands for the outcome of the write on the node's file, and every name whose entry has another chain for what it did |
| `FatTheorems.OwnEntry` | fs/fat.c:385-440 | when the name finds the node's own entry, it stood for the node's file and all other entries have other chains |
| `FatTheorems.OwnWriteIsMapUpdate` | fs/fat.c:327-446 | then the write is a map update: the name stands for the outcome on what it stood for, every other name anywhere for what it did, and names stay unique |
| `FatTheorems.MisnamedWrite` | fs/fat.c:385-440 | when the name finds another file's entry, that name comes to stand for the written file, the file's own name for as much of it as its old size shows, and two entries own one chain |
| `FatTheorems.UnlinkIsMapRemoval` | fs/fat.c:809-879 | the name is gone and every other name stands for what it did |
| `FatNodes.StoredBytes` | fs/fat.c:356-380 | on any disk the bytes counted by a write are in the chain at the offset |
| `FatNodes.WriteThenRead` | fs/fat.c:252-446 | a read after a write returns a prefix of the stored part of the data on any disk, and all of it on a working one, for every node and offset and also for a file that had no cluster |
| `FatNodes.FindThenRead` | fs/fat.c:252-531 | on a working disk finddir and a read of the whole file return what the name stands for in the directory |
| `FatOps.CreateGivesLive` | fs/fat.c:571-595 | on a working disk the node of a created file stands for it |
| `FatOps.WriteKeepsLive` | fs/fat.c:327-446 | writing keeps the node live, on any disk if it had a cluster |
| `FatNodes.CreateSpares` | fs/fat.c:533-595 | creating another file keeps a node live, on any disk |
| `FatNodes.MkdirSpares` | fs/fat.c:717-803 | so does making a directory |
| `FatNodes.WriteSpares` | fs/fat.c:327-446 | so does writing another file |
| `FatNodes.UnlinkSpares` | fs/fat.c:809-884 | so does unlinking another name, while the node's directory and entry exist |
| `FatRuns.MkdirChangesNoFile` | fs/fat.c:717-803 | no name stands for another file afterwards, and the new directory holds none |
| `FatRuns.NewDirectory` | fs/fat.c:739-759 | by its bytes: `.` of a new directory leads to itself, `..` to the directory it was made in, and all other slots are vacant |
| `FatRuns.CreateUnique` | fs/fat.c:533-570 | on any disk create keeps names unique if and only if the name was unused, starts with 0xE5 or was not entered |
| `FatRuns.MkdirUnique` | fs/fat.c:717-785 | so does mkdir |
| `FatRuns.UnlinkUnique` | fs/fat.c:809-884 | unlink always does |
| `FatRuns.WriteUnique` | fs/fat.c:327-446 | and so does a write, through whatever node |
| `FatRuns.NamesUniqueIff` | fs/fat.c:140-246 | in every run of create, mkdir, unlink and write on any disk no two valid entries of a directory ever share a name if and only if every name entered was unused or starts with 0xE5 |
| `FatRuns.NamesStayUnique` | fs/fat.c:140-246 | so they are in every run on a disk that does not fail |
| `FatRuns.RunStaysClean` | fs/fat.c:683-697 | in every run on a disk that does not fail the table is clean after each operation, the first FAT on disk is the table, and the boot sector stays |
| `FatRuns.NoClusterLost` | fs/fat.c:80-107 | in every run on any disk each cluster is free and on no chain, or used and on exactly one |
| `FatSessions.Serve` | fs/fat.c:252-884 | a request by path and name is one operation of such runs, or nothing |
| `FatSessions.Perform` | fs/fat.c:252-884 | a list of requests keeps the volume valid and is such a run; every cluster stays accounted for on any disk, and names stay unique on a working one |
| `FatSessions.NoClusterLostSinceFormat` | tools/mkfs.fat.c:155-187 | so each cluster is free or on one chain in every run from the formatted image on |
| `FatSessions.NamesUniqueSinceFormat` | tools/mkfs.fat.c:155-187 | from there on names are unique exactly as long as no name in use is entered, and always on a disk that does not fail |
| `FatSessions.RemountSinceFormat` | fs/fat.c:601-697 | after every run from the formatted image on a disk that does not fail, the disk holds exactly the volume in memory: mounting it gives the same files |
| `FatRuns.UnlinkOrphans` | fs/fat.c:809-884 | after unlink or rmdir every other owned chain still has an owner if and only if the removed entry names no directory or one that owns nothing |
| `FatTheorems.ChainLifeRestoresFree` | fs/fat.c:533-879 | create, any writes, then unlink of an entry of the chain restores exactly the set of free clusters, whatever the disk did |
| `FatLife.LifeRestoresFree` | fs/fat.c:533-879 | on a working disk create, any writes, then unlink by name succeeds and restores exactly the set of free clusters, if and only if the entry's slot could be written and the name does not start with 0xE5 |
| `FatExamples.LostNameLeaks` | fs/fat.c:188-246 | on a newly formatted disk a file named 0xE5... is created, cannot be unlinked, and keeps its cluster |
| `FatExamples.MisnamedExample` | fs/fat.c:503-531 | with files "A" and "A B" in the root, the node of "A B" is called "A"; one byte written through it appears under "A", "A B" stays empty, and both entries own one cluster |
| `FatExamples.BlindCreate` | fs/fat.c:146-246 | create under a name in use, while just the first read fails, enters it twice |
| `FatExamples.RootDuplicate` | fs/fat.c:146-163 | so it does on a new disk with one file in the root |
| `FatExamples.SubdirDuplicate` | fs/fat.c:165-183 | and in a subdirectory, where a failed read ends the search |
| `FatExamples.DeletedBytesShow` | fs/fat.c:341-380 | a byte of a deleted file shows up in a new file that was written only behind it |
| `FatExamples.RmdirOrphansFile` | fs/fat.c:881-884 | on a newly formatted disk mkdir, create in it and rmdir leave the file's cluster in use on a chain that no entry owns |
| `FatExamples.SizeBeyondChain` | fs/fat.c:382-383 | on a newly formatted disk a file that fills the volume, written one past its end, grows beyond its clusters while 0 is returned |
| `FatExamples.FormattedIsNew` | tools/mkfs.fat.c:155-187 | formatting a 20000-sector disk gives the disk of these examples |
| `Pmm.BitUpdate` | mm/pmm.c:16-26 | setting or clearing a bit changes that bit only |
| `Pmm.PageAllocator.AllocBlock` | mm/pmm.c:38-51 | the lowest free page, or 0 only when none is free; the search never falls through |
| `Pmm.PageAllocator.FreeBlock` | mm/pmm.c:53-65 | exactly the page that holds the address becomes free, and the counter stays exact |
| `Pmm.PageAllocator.InitRegion` | mm/pmm.c:68-80 | which pages become free |
| `Pmm.PageAllocator.DeinitRegion` | mm/pmm.c:82-93 | which pages become used |
| `Pmm.InitRegionExact` | mm/pmm.c:68-80 | these are exactly the pages inside the region if and only if the base is aligned, the rests of base and size make up a page, or no page is freed |
| `Pmm.InitRegionExample` | mm/pmm.c:68-80 | two pages from the middle of page 0 free page 2, which is not inside |
| `Pmm.DeinitRegionExact` | mm/pmm.c:82-93 | these are exactly the pages the region touches if and only if base and size are aligned or the size is 0 |
| `Pmm.DeinitRegionExample` | mm/pmm.c:82-93 | one page from the middle of page 0 leaves page 1, which it touches |
| `HeapTiles.CutTiles` | mm/heap.c:108-124 | cutting a block keeps the exact tiling and the total |
| `HeapTiles.JoinedTiles` | mm/heap.c:127-148 | so does merging two adjacent blocks |
| `HeapTiles.GrownTiles` | mm/heap.c:81-105 | a new page extends the tiling by one page |
| `Heap.GrowOk` | mm/heap.c:81-105 | growth keeps the heap invariant: exact tiling, free list equal to the free blocks without repeats, sizes and addresses multiples of 8 |
| `Heap.SplitOk` | mm/heap.c:108-124 | so does splitting |
| `Heap.TakeOk` | mm/heap.c:206-223 | so does handing a block out |
| `Heap.ReleaseOk` | mm/heap.c:264-275 | so does taking a block back |
| `Heap.MergeOk` | mm/heap.c:127-148 | so does merging list neighbours |
| `KernelHeap.SmallSizes` | mm/heap.c:35-45 | small requests are those of at most 2024 bytes and the 23 sizes whose total wraps around |
| `KernelHeap.UnroundedTestIsEnough` | mm/heap.c:206-209 | the test on the unrounded size decides whether the rounded size fits |
| `KernelHeap.PointerKinds` | mm/heap.c:246-249 | the page-alignment test in kfree fails for every block and holds for everything a large kmalloc handed out |
| `KernelHeap.BlockBound` | mm/heap.c:206-209 | no block is larger than the heap, so a wrapping request never finds one |
| `KernelHeap.LiveApart` | mm/heap.c:151-233 | live allocations lie in the heap pages and never overlap |
| `KernelHeap.SmallLargeApart` | mm/heap.c:151-233 | a small allocation shares no byte with a large one's pages |
| `HeapRuns.RunKeepsHeap` | mm/heap.c:81-277 | over every run of growth, allocation, release and merging: blocks with headers tile the pages exactly and add up to page_count * 4096, the free list has no repeats and no live block, and a block not released keeps its place and size |
| `HeapRuns.RunFromBoot` | mm/heap.c:81-277 | all this from the empty heap on, and every block is either live or on the free list |
| `HeapPieces.ServedMeaning` | mm/heap.c:108-124 | a block served from the free pieces holds the request and less than 24 bytes beyond the request rounded up to 8; the other pieces stay; if the piece found was larger, a free piece lies from the new block's end to the old one's |
| `HeapPieces.EightBytes` | mm/heap.c:201-223 | 8 bytes take 24 off the front of a single piece, so a new page keeps 4056 free |
| `HeapPieces.CoalescedLoose` | mm/heap.c:127-148 | joining leaves no adjacent neighbours, and changes the pieces if and only if there were any |
| `HeapPieces.CoalescedHolds` | mm/heap.c:127-148 | joining neither loses nor adds a byte |
| `HeapPieces.SmallRoundTrip` | mm/heap.c:201-277 | kfree after a small kmalloc restores the free pieces and their order if and only if the first piece was taken and no neighbours were adjacent |
| `HeapPieces.FragmentExample` | mm/heap.c:201-277 | a block taken from the second piece and freed leaves its page in two adjacent pieces |
| `HeapRuns.SmallThenFree` | mm/heap.c:151-277 | the same through the two calls, with growth |
| `HeapRuns.FillPage` | mm/heap.c:201-233 | 170 requests for 8 bytes take one page between them |
| `KernelHeap.AllocatedPieces` | mm/heap.c:206-223 | the split and the unlinking serve the request from the first piece that fits |
| `KernelHeap.KHeap.Grow` | mm/heap.c:81-105 | fails only at the limit or without a free page; otherwise one new free block heads the list |
| `KernelHeap.KHeap.Search` | mm/heap.c:201-226 | the scan returns the first list element that fits and the element before it |
| `KernelHeap.KHeap.KmallocSmall` | mm/heap.c:201-233 | the block was free and holds the request; it is served from the first free piece that fits, cut behind the rounded request when a block remains, or else from one new page in front of the list, and all other pieces stay; fails if and only if no piece fits and the heap cannot grow; all live blocks keep their headers, and the retry terminates |
| `KernelHeap.KHeap.KmallocLarge` | mm/heap.c:160-192 | success takes the lowest free pages, stores their byte count and keeps the heap valid; failure gives back the run of pages from the first one on |
| `KernelHeap.KHeap.Kmalloc` | mm/heap.c:151-235 | size 0 changes nothing; a small block is served from the free pieces or one new page as in the small path; large pages were free; the heap stays valid unless a large request fails |
| `KernelHeap.KHeap.ValidIff` | mm/heap.c:172-181 | an intact heap is valid if and only if no free page is a page of the heap or of a large allocation |
| `KernelHeap.FailureRestores` | mm/heap.c:172-181 | a failed large kmalloc restores the free pages if and only if they were consecutive |
| `KernelHeap.FailureExample` | mm/heap.c:172-181 | with pages 5 and 7 free and three wanted, pages 5 and 6 are free afterwards, though 6 may belong to the heap |
| `KernelHeap.KHeap.MergeBlocks` | mm/heap.c:127-148 | keeps the invariant and all live blocks; the free pieces become their list neighbours joined wherever adjacent, so no adjacent neighbours remain |
| `KernelHeap.KHeap.KfreeSmall` | mm/heap.c:264-277 | exactly that block stops being live, all others keep their headers; the free pieces become the block in front of them, joined |
| `KernelHeap.KHeap.Kfree` | mm/heap.c:238-278 | a large pointer gives back the pages of its count and the heap is valid if and only if none of them is in use otherwise; a small one gives back its block, NULL nothing |
| `KernelHeap.LargeRoundTrip` | mm/heap.c:160-197 | kfree after a large kmalloc restores the free pages if and only if the pages taken were consecutive |
| `KernelHeap.LargeRoundTripExample` | mm/heap.c:246-260 | freeing what was taken from pages 5 and 7 leaves pages 5 and 6 free |
| `HeapRuns.LargeThenFree` | mm/heap.c:151-260 | through the two calls: the free pages are restored if and only if the pages taken were consecutive, and then the heap is valid |
| `KernelHeap.LargeHoldsRequest` | mm/heap.c:160-192 | every byte of a large allocation lies on a page taken for it if and only if the page count did not wrap and the lowest free pages are consecutive as far as the request reaches |
| `KernelHeap.PagesNeededIsCeiling` | mm/heap.c:160-162 | so many pages as header and rounded request fill, and none more; none when the sum wraps |
| `KernelHeap.LargeMissesExample` | mm/heap.c:160-192 | with pages 5 and 7 free, 5000 bytes reach into page 6 |
| `Tasks.PickIsFirst` | kernel/scheduler.c:123-141 | the pick is the first READY task in queue order, the kernel task only if none is READY |
| `Tasks.ScheduleKeeps` | kernel/scheduler.c:195-217 | after a switch exactly the current task is RUNNING, and sleepers and zombies are untouched |
| `TaskRuns.TickKeeps` | kernel/scheduler.c:160-193 | a tick keeps all scheduling and family invariants |
| `TaskRuns.SleepKeeps` | kernel/task.c:707-719 | so does task_sleep |
| `TaskRuns.ExitKeeps` | kernel/task.c:652-682 | so does task_exit |
| `TaskRuns.WaitKeeps` | kernel/syscall.c:236-307 | so does one scan of sys_wait, which blocks only without a zombie child |
| `TaskRuns.CreateKeeps` | kernel/task.c:150-217 | so does task_create |
| `TaskRuns.AddKeeps` | kernel/scheduler.c:54-83 | so does scheduler_add_task |
| `TaskTheorems.StepKeeps` | kernel/syscall.c:236-307 | every step also keeps the record of exit codes and of what sys_wait returned |
| `TaskTheorems.RunKeeps` | kernel/scheduler.c:160-217 | every run keeps the invariants and the record |
| `TaskTheorems.SafeFromBoot` | kernel/task.c:652-705 | in every state reachable from boot: one RUNNING task, the current one, the kernel task or queued; a BLOCKED parent has a child and no zombie child; every child was returned by sys_wait at most once, with its PID and the code it exited with |
| `TaskTheorems.ZombieForever` | kernel/task.c:652-682 | a zombie stays one with its exit code and never runs again |
| `TaskFamilies.KinRun` | kernel/task.c:107-145 | in every run each task's children are the tasks it created that sys_wait has not returned, the newest first |
| `TaskFamilies.ChildrenFromBoot` | kernel/task.c:205-216 | from boot on a task is on its creator's list, with it as its parent, until sys_wait of the creator returns it, with the PID it was created with and its exit code; no list holds anything else |
| `TaskFamilies.CreateThenWait` | kernel/syscall.c:236-307 | after task_create sys_wait does not answer "no children", and blocks if no child has exited |
| `TaskFamilies.WaitAnswer` | kernel/syscall.c:236-307 | sys_wait answers -1 if and only if all tasks created by the caller were returned, blocks if and only if some were not and none of them exited, and otherwise returns the newest that exited |
| `TaskFamilies.ChildRun` | kernel/syscall.c:236-307 | while an exited child is not returned, every scan of its parent takes one other child off the list |
| `TaskFamilies.ReturnedInTime` | kernel/syscall.c:236-307 | once a task has exited, if its parent scans as often as it has children, plus once for each it creates meanwhile, one scan returns the task with its PID and code |
| `TaskTurns.ReadyUntilItRuns` | kernel/scheduler.c:123-141 | a READY task stays READY and keeps its place in the queue, in every run, until it runs |
| `TaskTurns.WaitBlocks` | kernel/task.c:690-697 | sys_wait without an exited child leaves the caller BLOCKED and not running, unless it is the kernel task and nothing else is READY |
| `TaskTurns.BlockedStep` | kernel/task.c:699-705 | a BLOCKED task is woken by the exit of one of its children and by no other step |
| `TaskTurns.BlockedUntilChildExits` | kernel/task.c:672-705 | so it stays BLOCKED in every run in which none of its children exits |
| `TaskTurns.NewTurn` | kernel/scheduler.c:150-151 | a switch gives a turn of ten ticks |
| `TaskTurns.SliceLasts` | kernel/scheduler.c:181-187 | a task runs on while its slice lasts; each tick takes one from it and adds one to its running time; no other task runs |
| `TaskTurns.SliceEnds` | kernel/scheduler.c:188-192 | after as many ticks as its slice has, a task is switched away from if one further to the front is READY, to that one or one before it |
| `TaskTurns.QueueIsAdded` | kernel/scheduler.c:54-83 | from boot on the queue is the tasks added, in the order in which each was first added |
| `TaskTurns.NewTaskRuns` | kernel/scheduler.c:54-141 | a task created, added and yielded to by the kernel task runs at once if no other is READY |
| `TaskTimes.RunsFirstReady` | kernel/scheduler.c:129-138 | after a switch no READY task stands before the current one, and none at all if the kernel task runs |
| `TaskTimes.HeadStarvesOthers` | kernel/scheduler.c:129-138 | while the head of the queue runs, no run of ticks, yields and new tasks lets another task run |
| `TaskTimes.NotBeforeWakeTime` | kernel/scheduler.c:166-179 | over every run, a queued sleeper sleeps while the tick counter is below its wake time |
| `TaskTimes.SleepsItsTime` | kernel/task.c:707-719 | task_sleep(ms) lasts through fewer than ms ticks, whatever else happens, unless the counter wraps around |
| `TaskTimes.WakesOnTime` | kernel/scheduler.c:166-179 | at the ms-th tick the sleeper is READY or RUNNING |
| `TaskTimes.WakeTimeZero` | kernel/scheduler.c:172-175 | a wake time that wrapped to zero never comes |
| `TaskTimes.SleepThenTick` | kernel/task.c:715-716 | exactly when a sleeper survives the first tick, for every counter value |
| `TaskTimes.EarlyWakeExample` | kernel/task.c:715-716 | five ticks before the counter wraps, task_sleep(10) ends at the next tick |
| `TaskTimes.ExitWakesParent` | kernel/task.c:672-676 | the exit of a child makes its BLOCKED parent READY or RUNNING |
| `Scheduler.Kernel.constructor` | kernel/task.c:57-97 | boot: the kernel task runs alone, the queue is empty and total_tasks is 0 |
| `Scheduler.Kernel.GetNextReady` | kernel/scheduler.c:123-141 | the circular scan returns the pick and stops |
| `Scheduler.Kernel.CountStates` | kernel/scheduler.c:223-246 | the scan counts READY and BLOCKED or SLEEPING queued tasks, each once |
| `Scheduler.Kernel.PickNext` | kernel/scheduler.c:143-154 | the pick gets a full slice and nothing else changes |
| `Scheduler.Kernel.TaskSwitch` | kernel/task.c:410-427 | a running old task goes back to READY, the new one runs and is current; the same task changes nothing |
| `Scheduler.Kernel.Schedule` | kernel/scheduler.c:195-217 | both branches are the switch step of the state machine |
| `Scheduler.Kernel.Tick` | kernel/scheduler.c:160-193 | the wake-up loop and the slice are the tick step |
| `Scheduler.Kernel.Sleep` | kernel/task.c:707-719 | is the sleep step |
| `Scheduler.Kernel.Block` | kernel/task.c:690-697 | is the block step |
| `Scheduler.Kernel.Exit` | kernel/task.c:652-682 | is the exit step, parent wake-up included |
| `Scheduler.Kernel.InQueue` | kernel/scheduler.c:61-68 | the scan decides membership and stops |
| `Scheduler.Kernel.AddTask` | kernel/scheduler.c:54-83 | appends exactly a new non-kernel task, keeps the circle, and keeps total_tasks equal to the length |
| `Scheduler.Kernel.RemoveTask` | kernel/scheduler.c:85-117 | a member leaves and the others keep their order; total_tasks stays equal to the length if and only if the task was NULL or queued or the queue empty |
| `Scheduler.Kernel.AddChild` | kernel/task.c:107-116 | the child heads the parent's list, all other lists are as before |
| `Scheduler.Kernel.RemoveChild` | kernel/task.c:118-145 | the child leaves the list, the others keep their order, a non-member changes nothing |
| `Scheduler.Kernel.Create` | kernel/task.c:150-217 | is the create step: the new task is READY, the first child of the current task and has it as its parent |
| `Scheduler.Kernel.FindZombie` | kernel/syscall.c:259-298 | the scan finds the first zombie child not yet waited for |
| `Scheduler.Kernel.Wait` | kernel/syscall.c:236-307 | one scan is the wait step and returns the child, PID and exit code of that step; total_tasks and the queue are untouched |
| `Paging.SetPte` | mm/vmm.c:88-89 | one table entry written changes the walk at that page only |
| `Paging.NewTable` | mm/vmm.c:43-71 | a new cleared table changes the walk nowhere |
| `Paging.MappedUpdates` | mm/vmm.c:74-93 | mapping updates the translation at that page only, with or without a new table |
| `Paging.MappedAccess` | mm/vmm.c:43-93 | by both levels of the walk: a mapped page is readable in user mode if and only if the flags say so and the table, if there was one, lets user mode through, and writable likewise |
| `Paging.KernelTableExample` | mm/vmm.c:50-56 | a page mapped for user mode under a table made without USER is closed to it |
| `Vmm.MapStep` | mm/vmm.c:74-93 | it also keeps frames in use and leaves the tables distinct and unfree |
| `Vmm.AddressSpace.MapPage` | mm/vmm.c:129-134 | frame and flags at the page, no other page changes, user access exactly as flags and table say; without a frame for the table nothing happens |
| `Vmm.AddressSpace.UnmapPage` | mm/vmm.c:137-167 | the entry is cleared, no other page changes, a frame at or above 1 MiB is free again; the address space stays valid if and only if that frame is not its directory or one of its tables |
| `Vmm.UnmapOwnTable` | mm/vmm.c:137-167 | unmapping a page that maps its own table frees the table while the directory points to it |
| `Vmm.UnmapUndoesMap` | mm/vmm.c:74-167 | clearing the entry after mapping an unmapped page restores every entry |
| `Vmm.MapThenUnmap` | mm/vmm.c:129-167 | through the two calls: every page has the entry it had, and the frame is back at the page allocator if it lies at or above 1 MiB |
| `Vmm.AddressSpace.MapRange` | mm/vmm.c:170-185 | pages outside the range keep their entries; page i of the range gets frame i whenever there are frames for the missing tables |
| `Vmm.RangeTranslates` | mm/vmm.c:170-185 | from an aligned start every address translates to the physical start plus its offset |
| `Vmm.RangeCovers` | mm/vmm.c:175-177 | every byte of the range is mapped if and only if the start's page offset fits into the rounding |
| `Vmm.RangeMissesExample` | mm/vmm.c:175-177 | 4096 bytes from the middle of a page: the last byte is not mapped |
| `Vmm.AddressSpace.VirtToPhys` | mm/vmm.c:275-293 | the translation under the walk, 0 if not present |
| `Vmm.AddressSpace.GetFlags` | mm/vmm.c:296-310 | the flags under the walk |
| `TaskSpace.KernelMap` | kernel/elf.c:104-117 | mapping a scratch page changes no user page of the task and no other kernel page |
| `TaskSpace.TaskTable` | kernel/elf.c:97-110 | a cleared frame becomes a task table without changing a translation |
| `TaskSpace.TaskEntry` | kernel/elf.c:119-120 | a task entry changes one user page and no kernel page |
| `TaskSpace.PlainWrite` | kernel/elf.c:221-261 | a store into a data frame changes no translation |
| `Elf.Loader.MapUser` | kernel/elf.c:70-136 | the page gets a frame of its own, a new table's directory entry PRESENT, WRITE and USER, all frames in use keep their contents; out of memory nothing has changed |
| `ElfImage.FilledPage` | kernel/elf.c:221-261 | with the loader's 32-bit arithmetic a page holds its part of the file and zeros, but an unaligned first page only zeros |
| `Elf.Loader.LoadSegment` | kernel/elf.c:184-281 | every page of the segment is in place, no other user page changes |
| `Elf.Loader.Load` | kernel/elf.c:139-303 | every page of every PT_LOAD segment is in place as the last segment that has it says, no other user page, kernel mapping or frame in use changes; succeeds whenever there is a frame for every page and missing table |
| `Elf.Loader.LoadFile` | kernel/elf.c:139-303 | the same from the file's bytes: refused if and only if one of ten bytes is not as in an i386 executable, segments and entry point as its headers say |
| `ElfImage.AcceptsBytes` | kernel/elf.c:13-55 | elf_validate decides by the first six bytes and bytes 16 to 19 |
| `ElfImage.PhdrRoundTrip` | kernel/elf.h:77-86 | a program header laid out member by member is read back |
| `ElfImage.PagesOfBytes` | kernel/elf.c:184-187 | a segment takes exactly the pages on which its bytes lie; an empty one none, or one if unaligned |
| `Elf.LoadedAccess` | kernel/elf.c:93-120 | after the load user mode can read a page of a segment if and only if the task had no table for it or an open one, and write it if and only if PF_W is set, too, and such a table lets it |
| `Elf.LoadedImage` | kernel/elf.c:139-303 | in a task whose own tables, if any, are open, segments apart: user mode reads every byte, writes it exactly with PF_W, and finds the image the header specifies if and only if the segment is aligned or its first partial page holds zeros |
| `Elf.ApartAllIn` | kernel/elf.c:160-281 | segments that share no page are all in place entirely |
| `ElfImage.ImageIsRight` | kernel/elf.c:196-271 | in user mode, by both levels of the walk, the task reads file bytes, then zeros, on pages that are writable exactly with PF_W, if and only if the segment is page-aligned or the file bytes of its first partial page are zero |
| `ElfImage.UnalignedExample` | kernel/elf.c:225-227 | one byte at 0x8048100 reads as 0 after loading |
| `Path.PathSplit` | fs/vfs.c:84-114 | the nested loops compute the components, cut at 255 characters, at most max of them |
| `Path.SplitInvertsJoin` | fs/vfs.c:84-114 | splitting gives joined names back, with any runs of slashes, if and only if they have at most 255 characters and are at most max |
| `Path.PiecesConcat` | fs/vfs.c:84-114 | the components of two paths joined by a slash |
| `Path.WalkPath` | fs/vfs.c:163-205 | the loop is the fold of the one-component step, which the rows below pin down |
| `Path.DotIsNothing` | fs/vfs.c:166-170 | `.` anywhere in a path changes nothing |
| `Path.NameLeads` | fs/vfs.c:180-205 | a name leads to what the directory, or what is mounted on it, finds; to nothing behind a node that is no directory, without finddir, or when not found |
| `Path.UpsLead` | fs/vfs.c:171-178 | n times `..` from a node of depth k leads to its ancestor min(n, k) |
| `Path.RootIsTop` | fs/vfs.c:122-214 | every absolute path of nothing but `..`, of any length, resolves to the root, or to what is mounted on it |
| `Path.UpPath` | fs/vfs.c:84-114 | "/..", "/../.." and so on are such paths |
| `Path.RelativeIsAbsolute` | fs/vfs.c:129-143 | a relative path resolves as the absolute one that goes by way of the current directory, as long as both have at most 32 components together |
| `Path.ResolvePath` | fs/vfs.c:122-214 | special cases, walk and mount points as the resolver has them |
| `Path.ResolvedIsWalk` | fs/vfs.c:145-157 | the special cases agree with the walk if and only if nothing is mounted on the node they return |
| `Path.MountedRootExample` | fs/vfs.c:145-157 | with something mounted on the root "/" and "/." differ |
| `Path.DownAndUp` | fs/vfs.c:171-204 | a found name followed by `..`, anywhere in a path, leads to what is mounted on the directory, and so is the identity if and only if nothing else is mounted there |
| `Path.NameThenParent` | fs/vfs.c:122-214 | without mounts "path/name/.." resolves as "path" does if and only if the path does not have 31 components or the name stands for its own directory |
| `Path.LongPathExample` | fs/vfs.c:159-161 | behind a path of 31 dots "/x/.." leads to x |
| `Lru.CommandTable.FindCommand` | ai/ai.c:75-82 | the first entry with that command, or -1 |
| `Lru.CommandTable.FindOldest` | ai/ai.c:118-128 | the scan finds the first entry with the smallest time stamp |
| `Lru.CommandTable.Learn` | ai/ai.c:103-160 | one use of a command, empty commands ignored |
| `Lru.TableIsLru` | ai/ai.c:103-160 | after any history of commands shorter than 64 characters: exactly the commands since whose last use fewer than 32 others were used, each once, with last use, uses since entered and success rate within 0..100 |
| `Lru.RateMoves` | ai/ai.c:156-159 | a success adds a twentieth of the way to 100, rounded down, so raises the rate if and only if it is at most 80; a failure takes a twentieth, rounded up |
| `Lru.RatingIsRated` | ai/ai.c:141-159 | the rate depends on nothing but the outcomes of the uses counted, the latest of the command |
| `Lru.TrustLost` | ai/ai.c:156-159 | the rate is 100 if no use failed and at most 95 for ever after a failure |
| `Lru.EmptyIgnored` | ai/ai.c:104-105 | empty commands leave no trace |
| `Lru.FoundAfterLearning` | ai/ai.c:133-139 | in every reachable table a command just learned is found again if and only if it has fewer than 64 characters |
| `Lru.DistinctAfterLearning` | ai/ai.c:113-139 | learning keeps the commands distinct if and only if the command fits, or its first 63 characters are no entry but the one it replaces |
| `Lru.LongCommandExample` | ai/ai.c:133-139 | a 64-character command used twice is entered twice under the same name |
| `Suggest.Pass` | ai/ai.c:286-296 | one pass moves a smallest score to the end of its range, keeps all lower bounds, permutes the matches and leaves the rest alone |
| `Suggest.SortMatches` | ai/ai.c:283-297 | the sorted matches are the matches in another order, by falling score |

## Left out

- Hardware: ATA ports, timers, interrupts, registers, CR3 and TLB, GDT and TSS, all drivers and printing; a failed sector write is modelled as leaving the sector as it was.
- The identity mapping by which the kernel reaches page tables and the heap by physical address is taken for granted.
- FatVolume.Volume.Write: on a failing disk says nothing about the bytes of the file beyond those counted, which the cluster whose write failed, or whose read was ignored, may have lost.
- FatFormat.Mount: requires that a signed disk holds a consistent volume; the source does not check the other fields of the boot sector, and divides by sectors_per_cluster.
- FatSessions.Perform: takes writes only on a disk that works, under unique names without inner spaces; what a write does otherwise is stated of `FatVolume.Volume.Write`.
- FatSlots.WriteDirEntry: an offset past the sector buffer overwrites memory in the source; the model has only the lost entry.
- FatGeometry.MountAgreesWithFormat: is for a partition that starts at sector 0.
- FatNames.StrToFilename: path names of 256 or more characters, which vfs nodes truncate, are not modelled.
- fat_node_readdir, open and close, the VFS file descriptors, ramfs and tarfs.
- heap_init and kmalloc_aligned; page 0 is assumed not to be free, as after boot.
- Scheduler.Kernel.Create: the `next` link that task_create puts a task into the task list with is not modelled, nor are names, priorities and stacks.
- Scheduler.Kernel.Wait: is one scan; the loop in sys_wait repeats it as further steps, and the status pointer is its result.
- Scheduler.Kernel.AddChild: requires a child without a parent, as every caller in the kernel but sys_fork's copied block has it; on a listed child the source would break the list it is in.
- sys_fork, task_destroy and PID counters. scheduler_remove_task is not a step of the runs, since nothing in the kernel calls it.
- TaskTheorems.SafeFromBoot: takes the check for zombies and the block in sys_wait as one atomic step.
- vmm_create_as, vmm_destroy_as and clone_page_directory; page allocation counters such as vmm_alloc_pages.
- Elf.Loader.Load: requires segments in the user half and file bytes inside the file, and `Elf.Loader.LoadFile` headers inside it, which the source does not check; the code and data ranges noted in the task are not modelled.
- Elf.Loader.MapScratch: a scratch page that cannot be mapped is an outcome of its own, since the source would fault on it.
- Path.ResolvePath: takes what finddir returns as given.
- The scores and the display of the suggestions of ai/ai.c; counters of the command table past 2^32 uses.
- Shell, boot sequence and user programs.
