# Moxia: a verified model of the kernel's core

Moxia is a small x86-64 kernel. This project models the four components in which it changes shared
state under strong invariants, and proves what they promise, over whole runs where that is the point.

- **Frames and page tables.** `MemoryManager.dfy` has the word-packed bitmap allocator and the boot-time
  set-up of the memory map. `Paging.dfy` has the bit fields of addresses and entries. `PageTables.dfy`,
  `PageMapping.dfy`, `Teardown.dfy` and `AddressSpaces.dfy` describe growing and tearing down 4-level page
  tables on a state of physical memory, frame marks and the forest the tables form; `Segments.dfy` says what
  loading a program maps, `Execution.dfy` and `Loader.dfy` account for frames over its life, `Running.dfy` says
  when it runs at all, and `Isolation.dfy` covers every run of these
  operations by any tasks. `PageTableManager.dfy` is the code in place, proved equal to those functions.
  `IdentityPaging.dfy` has the boot tables, and `PlainWalks.dfy` the processor's full walk.
- **FAT32 volume.** `FatChains.dfy` (cluster chains), `FatFile.dfy` and `FatSessions.dfy` (reading and writing
  files, and whole sessions), `FatDirectory.dfy` (names, lookup, creation) work on values; `FatVolume.dfy`
  and `FatDirectoryVolume.dfy` are the code in place. `FatLayout.dfy` has the addresses.
- **Scheduler, mailboxes, timers.** `Tasks.dfy` is the scheduler as a state machine, each region with
  interrupts off one step, and `TaskMeanings.dfy` tells its operations without the queues, `QueueOrder.dfy` the
  order within them; `TaskRuns.dfy` adds
  the history of messages and exit codes, and `WaiterRuns.dfy` who is woken from `WaitFinish`; `Timers.dfy` and
  `TimerRuns.dfy` have the timer queue, one tick and runs of ticks; `Preemption.dfy` puts scheduler and task
  timer together. `TaskManager.dfy` and `TimerManager.dfy` are the code in place.
- **Pipe.** `Pipe.dfy` is the packet stream and the byte queue it refines; `PipeDescriptor.dfy` is the code in
  place over the task manager.

Each component follows one pattern: a method with the source's loops and branches is proved equal to a
function on the component's state, and the theorems are about that function, for all inputs and all runs.
`Words.dfy` and `Division.dfy` hold the arithmetic the solver needs help with, `Sequences.dfy` a predicate that two components share.

Where the naive promise is false of the code, the code is kept as it is and the project states exactly when
the promise holds, or what happens instead:

- `kernel/memory_manager.cpp:104` hands a byte address over as the end of the frame range
  (`BlockIsRealMemory`, `PhantomFrameIsHandedOut`);
- `kernel/terminal.cpp:195` ignores the in-page offset of a segment (`SegmentIsMappedIff`, `LastByteIsLost`),
  `kernel/terminal.cpp:214-216` checks the address of the first segment only (`KernelHalfKeptIff`), and
  `kernel/terminal.cpp:436` cleans one PML4 slot only (`ExecuteFileLeaves`, `ExecuteFileLeavesFive`,
  `FirstSlotIsPresentIff`);
- `kernel/fat.cpp:69` copies by the whole length instead of what is left (`ExactIff`,
  `InexactCall`), and `kernel/fat.cpp:61` goes on in the last of several new clusters (`SmoothIff`,
  `CallRoundTripsIff`, `StaleByteIsRead`);
- `kernel/fat.cpp:134` and `kernel/fat.cpp:316` scan without an upper bound: running past the table is an
  outcome of its own, taken if and only if too few clusters are free;
- `kernel/fat.cpp:212-213` leaves attribute and first cluster of a reused slot as they were (`CreatedIsFound`),
  `kernel/fat.cpp:254` restarts at the root behind two slashes (`DoubleSlashResets`, `SlashesFindRootFile`),
  and some long names and names with two dots are stored and looked up differently (`StoredNameIsFoundIff`,
  `CreatedIsFoundIff`);
- `kernel/task.cpp:249` keeps one waiter for each task (`ServedIffTimely`, `SecondWaiterReplacesFirst`).

## Model

| member | source | states |
|---|---|---|
| MemoryManager.BitmapMemoryManager.constructor | kernel/memory_manager.cpp:5-6 | all frames unmarked, range 0 to the end of the bitmap |
| MemoryManager.BitmapMemoryManager.SetBit | kernel/memory_manager.cpp:56-65 | marks or clears exactly one frame of the word-packed bitmap |
| MemoryManager.BitmapMemoryManager.MarkAllocated | kernel/memory_manager.cpp:38-42 | marks exactly the frames of the run |
| MemoryManager.BitmapMemoryManager.Free | kernel/memory_manager.cpp:31-36 | clears exactly the frames of the run |
| MemoryManager.BitmapMemoryManager.Allocate | kernel/memory_manager.cpp:8-29 | answers first fit on the set of marked frames (the skip loses no candidate) and marks exactly the block; a range end past the bitmap is a separate outcome |
| MemoryManager.FirstFitIsExact | kernel/memory_manager.cpp:8-29 | first fit has one answer: the lowest free run, and a block if and only if some free run fits the range |
| MemoryManager.LiveBlocksNeverOverlap | kernel/memory_manager.cpp:8-42 | over every run of Allocate, and of Free on live blocks, live blocks are disjoint from each other and from reserved frames, and nothing else is marked |
| MemoryManager.BitmapMemoryManager.ReserveUnavailable | kernel/memory_manager.cpp:89-103 | the descriptor loop marks exactly the frames below the end of the map that no accepted descriptor covers |
| MemoryManager.InitializeMemoryManager | kernel/memory_manager.cpp:86-110 | the whole set-up, with the heap block; the range end handed over is a byte address |
| MemoryManager.ClearIffAvailable | kernel/memory_manager.cpp:91-103 | a frame below the end of the last accepted descriptor is clear if and only if a descriptor of type 3, 4 or 7 covers it |
| MemoryManager.BlockIsRealMemory | kernel/memory_manager.cpp:104-104 | with that range end, a block lies in available memory if and only if it ends below the last accepted descriptor's end, and that is so if and only if a free run of its length is left there |
| MemoryManager.PhantomFrameIsHandedOut | kernel/memory_manager.cpp:66-104 | a memory map for which the heap itself, the first request at boot, gets a frame that does not exist |
| Paging.AddressRoundTrip | kernel/paging.hpp:7-55 | 64-bit addresses and their five parts are one to one |
| Paging.NextPageNumber | kernel/terminal.cpp:136-139 | advancing the part of a level and zeroing the lower ones selects the first page of the next entry |
| Paging.EntryRoundTrip | kernel/paging.hpp:57-74 | the fields of an entry are what its data word decodes to |
| Paging.PointerOfFrame | kernel/paging.hpp:76-82 | an entry pointed at a frame points back at that frame |
| IdentityPaging.OrIntoClearBits | kernel/paging.cpp:21-25 | or-ing flags into an aligned address touches no address bit |
| IdentityPaging.WordsDecode | kernel/paging.cpp:21-25 | the words written decode to present, writable entries with the intended frame |
| IdentityPaging.BootTables.SetupIdentityPageTable | kernel/paging.cpp:20-30 | the nested loops fill the three tables completely |
| IdentityPaging.IdentityMapped | kernel/paging.cpp:20-30 | every 48-bit address below 64 GiB is mapped to itself through a 2 MiB page, and no other address is mapped |
| PageTableManager.PageTableManager.NewPageMap | kernel/terminal.cpp:84-93 | takes the lowest free frame and zeroes it, or fails |
| PageTableManager.PageTableManager.SetNewPageMapIfNotPresent | kernel/terminal.cpp:95-109 | in place, does what the state function of the same name says |
| PageTableManager.PageTableManager.SetupPageMap | kernel/terminal.cpp:111-143 | loop and recursion in place equal the state function the mapping theorems are about |
| PageTableManager.PageTableManager.SetupPageMaps | kernel/terminal.cpp:145-148 | maps below the current task's PML4 |
| PageTableManager.PageTableManager.CleanPageMap | kernel/terminal.cpp:150-172 | the cleaning loop in place equals the state function |
| PageTableManager.PageTableManager.CleanPageMaps | kernel/terminal.cpp:174-185 | detaches, cleans and frees one PML4 slot |
| PageTableManager.PageTableManager.SetupPML4 | kernel/terminal.cpp:226-239 | a new PML4 with the shared lower half becomes the task's |
| PageTableManager.PageTableManager.FreePML4 | kernel/terminal.cpp:241-248 | the PML4's frame is freed and the task returns to the boot tables |
| PageTableManager.PageTableManager.constructor | kernel/task.cpp:106-112 | after boot the main task and the idle task run on the boot tables, and the forest invariant holds |
| AddressSpaces.BootedInv | kernel/task.cpp:106-112 | boot tables that map nothing in the upper half satisfy the forest invariant |
| PageTables.SetupGrows | kernel/terminal.cpp:111-143 | any call, also a failing one, keeps the forest invariant; every frame it takes was free and hangs below its table; the rest of memory and all mapped pages stay |
| PageMapping.SetupMaps | kernel/terminal.cpp:111-143 | maps exactly the pages of the requested range below the table, writable and user on the whole path, and no page outside it |
| PageMapping.EnteredWord | kernel/paging.hpp:57-83 | the word it leaves in an entry that was zero is 4096 times the frame, plus the present, writable and user bits |
| PageMapping.SetupCounts | kernel/terminal.cpp:111-143 | returns n - min(n, pages from the start to the end of the table); fails only when no frame is left |
| PageMapping.NewPageIsFresh | kernel/terminal.cpp:84-109 | a newly mapped page has a zeroed frame that was free before |
| PageMapping.TranslateKept | kernel/terminal.cpp:95-120 | no page that was mapped is moved or loses a permission |
| PageMapping.WalksAreInjective | kernel/terminal.cpp:95-143 | two walks end in one frame only from the same table along the same entries |
| PlainWalks.WalkIsTranslate | kernel/paging.hpp:57-74 | on tables without large pages the processor's walk is the one of the mapping results |
| PlainWalks.BootedIsPlain | kernel/paging.cpp:11-30 | booted tables, whose PML4 is zero but for its first entry, are such tables |
| PlainWalks.WalksInRuns | kernel/terminal.cpp:84-248 | in every run from such tables it is that walk, for every task and upper-half address |
| Teardown.CleanShrinks | kernel/terminal.cpp:150-172 | cleaning removes only frames below its table, frees each once, and keeps the invariant |
| Execution.CleanFreesSubtree | kernel/terminal.cpp:150-172 | exactly the frames below the table are freed |
| Execution.CleanSlotFrees | kernel/terminal.cpp:174-185 | CleanPageMaps frees each frame of its slot once, and no other frame |
| Execution.CleanSlotUnmaps | kernel/terminal.cpp:174-185 | exactly the addresses of the slot become unmapped; every other walk is as before |
| Execution.TeardownRestoresFrames | kernel/terminal.cpp:95-185 | any requests below one empty slot, also failing ones, followed by CleanPageMaps restore the allocator's marks |
| Execution.SetupOneTakes | kernel/terminal.cpp:95-143 | mapping one page takes exactly the frames missing on its path |
| AddressSpaces.SetupPml4KeepsInv | kernel/terminal.cpp:226-239 | a new address space keeps the invariant |
| AddressSpaces.CleanSlotKeepsInv | kernel/terminal.cpp:174-185 | tearing a slot down keeps the invariant |
| AddressSpaces.FreePml4KeepsInv | kernel/terminal.cpp:241-248 | freeing a PML4 keeps the invariant |
| Isolation.RunKeepsInv | kernel/terminal.cpp:84-248 | the forest invariant holds in every state of every run of the address-space operations of any tasks |
| Isolation.BootedRunKeepsInv | kernel/terminal.cpp:84-248 | so it holds in every run of a booted system |
| Isolation.BootedTaskGetsSpace | kernel/terminal.cpp:226-239 | such runs exist: with a frame left, the main task of a booted system gets page tables of its own |
| Isolation.NewTaskKeepsInv | kernel/task.cpp:31-31 | a new task that starts on the page tables of its creator keeps the invariant |
| Isolation.AddressSpacesAreSeparate | kernel/terminal.cpp:84-248 | in every run, two user mappings of one frame belong to one address space and one page, and the frame is marked |
| Isolation.LowerHalfIsShared | kernel/terminal.cpp:232-233 | in every run, the lower 256 PML4 slots of every task are the kernel's |
| Isolation.FrameServesOnce | kernel/terminal.cpp:84-248 | no frame serves twice, as a table or as a page |
| Segments.ByteIsMappedIff | kernel/terminal.cpp:193-204 | byte k of a segment is mapped after its pages were, if and only if it lies in the first (memsz + 4095) / 4096 pages counted from the segment's first page, or was mapped before |
| Segments.SegmentIsMappedIff | kernel/terminal.cpp:193-204 | the in-page offset of a segment is ignored: all its bytes are mapped if and only if the offset leaves them enough room in those pages, or the page of its last byte was mapped before |
| Segments.LastByteIsLost | kernel/terminal.cpp:193-204 | a segment for which that fails: 4096 bytes that start one byte behind a page's start |
| Segments.LoadMapsExactly | kernel/terminal.cpp:187-207 | loading a program maps exactly the pages of its segments |
| Segments.LoadedSlots | kernel/terminal.cpp:187-207 | and makes exactly the PML4 slots present that they reach |
| Segments.KernelHalfKeptIff | kernel/terminal.cpp:209-224 | only the first segment's address is checked: loading leaves the PML4 half shared with the kernel as it is if and only if every segment that maps pages starts in the upper half |
| Segments.LowerSegmentChangesKernelHalf | kernel/terminal.cpp:209-224 | a program of two segments that changes it |
| Loader.FirstPageIsMapped | kernel/terminal.cpp:187-207 | after loading, the first page of every segment that is not empty is mapped |
| Loader.ArgsAndStackTakeFive | kernel/terminal.cpp:408-424 | in a fresh address space the argument and stack pages take five frames |
| Loader.FirstSlotIsPresentIff | kernel/terminal.cpp:435-436 | the slot that CleanPageMaps is called for is present if and only if it is the last one or some segment's pages reach it |
| Loader.EmptyFirstSegment | kernel/terminal.cpp:435-436 | a program for which it is not: an empty first segment alone in its slot |
| Running.ExecuteFileFailsIff | kernel/terminal.cpp:400-442 | ExecuteFile fails if and only if there is no load segment, the first one lies below 0xffff800000000000, the arguments do not fit, or no frame was left where it stopped |
| Running.RunsWithEnoughFrames | kernel/terminal.cpp:84-143 | a program whose first segment is in the upper half runs if more frames are free than four for each of its pages, and nine |
| Loader.StackAndArgsAreMapped | kernel/terminal.cpp:408-431 | when it runs, every byte of the argument page and of the stack page below the stack top it gets is mapped, writable and user |
| Loader.ExecuteFileLeaves | kernel/terminal.cpp:400-442 | a successful run that finds it present leaves marked exactly the frames below the PML4 slots other than the first segment's, and so none if and only if all segments lie in the last slot |
| Loader.FailedRunKeepsFrames | kernel/terminal.cpp:400-426 | a run that fails after it got its PML4 leaves that and every frame below it marked, and the task on it |
| Loader.ExecuteFileLeavesFive | kernel/terminal.cpp:400-442 | a successful program that loads into one slot other than 511 leaves exactly five more frames marked: those below slot 511 |
| FatLayout.FirstClusterAddr | kernel/fat.cpp:86-90 | cluster 2 starts where the last copy of the table ends |
| FatLayout.ClustersAreApart | kernel/fat.cpp:86-90 | two clusters share no byte |
| FatLayout.TableIsApart | kernel/fat.cpp:86-119 | the table lies in front of all clusters |
| FatChains.ChainIsUnique | kernel/fat.cpp:106-129 | a first cluster has one chain |
| FatChains.ChainIsAcyclic | kernel/fat.cpp:106-129 | a chain visits no cluster twice |
| FatChains.EndIsMarked | kernel/fat.cpp:142-142 | the last cluster of what is linked carries the mark 0x0fffffff |
| FatChains.FreeFromIsExact | kernel/fat.cpp:134-141 | the scan order lists every free cluster, ascending and each once |
| FatChains.ExtendKeepsChains | kernel/fat.cpp:125-144 | the chain becomes itself followed by the n lowest free clusters in ascending order, every other chain is unchanged, and exactly those n stop being free |
| FatChains.LowestFreeFacts | kernel/fat.cpp:134-141 | the clusters taken are free, ascending, and below every free cluster that is left |
| FatChains.AllocateKeepsChains | kernel/fat.cpp:313-327 | one new chain of the max(1, n) lowest free clusters |
| FatChains.ExtendKeepsLost | kernel/fat.cpp:125-144 | used clusters in no chain, such as bad ones, are the same before and after, with their table entries |
| FatChains.AllocateKeepsLost | kernel/fat.cpp:313-327 | the same for a new chain |
| FatVolume.Volume.NextCluster | kernel/fat.cpp:106-114 | the link, with every end mark read as the one value |
| FatVolume.Volume.ExtendCluster | kernel/fat.cpp:125-144 | both loops terminate and make that table; the scan runs past the table if and only if fewer than n clusters are free |
| FatVolume.Volume.AllocateClusterchain | kernel/fat.cpp:313-327 | as above for a new chain |
| FatVolume.DirectoryEntry.SetFirstCluster | kernel/fat.hpp:66-68 | a 32-bit cluster number written as two halves is read back |
| FatFile.FlatAt | kernel/fat.cpp:86-90 | cluster k of a chain holds the bytes behind those of the first k clusters |
| FatFile.NumClusterStep | kernel/fat.cpp:40-42 | one cluster for each started run of bytes |
| FatFile.ExactIff | kernel/fat.cpp:57-78 | Write returns its length if and only if that fits the room left or exceeds it by whole clusters |
| FatFile.Rounds | kernel/fat.cpp:57-74 | from a full cluster on: clusters taken, end position, bytes counted, and failure if and only if too few clusters are free, for any chain and length |
| FatFile.RoundsAppend | kernel/fat.cpp:57-74 | rounds that lack at most one cluster put their bytes one behind the other |
| FatFile.WriteCall | kernel/fat.cpp:39-79 | one call, whatever its length and position: clusters taken, no cluster written but the file's own from the writer on, and contiguous bytes if it lacks at most one cluster |
| FatSessions.LongCall | kernel/fat.cpp:57-74 | a call that lacks m clusters makes the chain m(m+1)/2 clusters longer, and its writer passes m(m-1)/2 of them |
| FatSessions.SkippedClustersAreStale | kernel/fat.cpp:61-61 | the first m-1 clusters added keep their old contents |
| FatSessions.SessionStep | kernel/fat.cpp:39-79 | every Write of any session either makes the session's step or runs past the table |
| FatSessions.ChainCoversSize | kernel/fat.cpp:57-77 | a call keeps the writer in a chain that holds at least as many bytes as it has counted and as the size field says |
| FatSessions.ChainAlwaysCoversSize | kernel/fat.cpp:39-79 | so after any calls on a fresh descriptor, also with gaps, the chain holds at least as many bytes as the size field says |
| FatSessions.WriteKeepsOthers | kernel/fat.cpp:39-79 | no other chain and no byte of another file changes |
| FatSessions.SmoothIff | kernel/fat.cpp:57-66 | a call leaves no gap if and only if it ends at most one cluster behind the end of the chain |
| FatSessions.FirstCallIsSmooth | kernel/fat.cpp:44-52 | the first call on an empty file leaves no gap |
| FatSessions.WriteAppends | kernel/fat.cpp:39-79 | such a call puts its bytes directly behind those of the calls before |
| FatSessions.UnsmoothLeavesStaleBytes | kernel/fat.cpp:61-61 | any other call leaves, at the old end of the file, what the lowest free cluster held before |
| FatSessions.StaleByteIsRead | kernel/fat.cpp:61-77 | and that cluster lies wholly below the size field, so its bytes are read as the file's |
| FatSessions.CallRoundTripsIff | kernel/fat.cpp:14-79 | behind calls that can be read back, the next one can, whatever its buffer holds, if and only if it leaves no gap and returns its length |
| FatSessions.InexactCall | kernel/fat.cpp:69-69 | 512-byte clusters: a call of length 513 at a file's start returns 1024 |
| FatSessions.UnsmoothCall | kernel/fat.cpp:57-66 | 512-byte clusters: behind a first write of 512 bytes to an empty file a second one of 512 bytes leaves no gap, one of 513 bytes does |
| FatSessions.WrittenIsRead | kernel/fat.cpp:14-79 | after any run of exact, gapless calls on a fresh descriptor the file is the concatenation of the buffers |
| FatSessions.RoundTrip | kernel/fat.cpp:14-79 | and any sequence of reads of a fresh descriptor returns it |
| FatSessions.ReadsAreConsecutive | kernel/fat.cpp:14-37 | however reads cut a file, together they return its next bytes |
| FatVolume.FileDescriptor.Read | kernel/fat.cpp:14-37 | returns the next bytes of the chain cut at the size, and keeps the cursor in the chain |
| FatVolume.Volume.CopyBytes | kernel/fat.cpp:21-33 | the copy loop follows the chain byte for byte |
| FatVolume.FileDescriptor.Write | kernel/fat.cpp:39-79 | equals the value-level Write the session theorems are about |
| FatVolume.Volume.WriteBytes | kernel/fat.cpp:56-74 | the write loop equals the value-level loop |
| FatVolume.Volume.LoadFile | kernel/fat.cpp:217-238 | copies the first min(len, chain length times cluster size) bytes of the chain |
| FatDirectoryVolume.NameIsEqual | kernel/fat.cpp:288-303 | compares with the 8.3 form of the path element |
| FatDirectoryVolume.SetFileName | kernel/fat.cpp:168-183 | stores the 8.3 form split at the last dot |
| FatDirectoryVolume.NextPathElement | kernel/fat.cpp:240-251 | splits a path at its first slash |
| FatDirectory.FormsHaveNoLower | kernel/fat.cpp:168-303 | names are stored and looked up without lower-case letters |
| FatDirectory.BaseIsKept | kernel/fat.cpp:168-303 | the first eight characters of a name are otherwise stored and looked up as they are |
| FatDirectory.CommonName | kernel/fat.cpp:168-303 | "hello.txt" is stored and looked up as "HELLO   TXT" |
| FatDirectory.ElementsIgnoreCase | kernel/fat.cpp:288-303 | path elements that differ in the case of letters only are looked up alike |
| FatDirectory.SearchIgnoresCase | kernel/fat.cpp:253-286 | so FindFile answers alike for two such paths |
| FatDirectory.ShortNameIsLookedUp | kernel/fat.cpp:168-183 | a name with at most 8 characters before its only dot is stored and looked up alike |
| FatDirectory.StoredNameIsFoundIff | kernel/fat.cpp:168-303 | any name is found as it was stored if and only if no dot but the last is among its first 8 characters and, with no dot there at all, the parts behind them leave the last one standing in the extension |
| FatDirectory.NoDotIff | kernel/fat.cpp:168-303 | for a name without a dot: if and only if nothing but blanks follows its eighth character, as far as the eleventh |
| FatDirectory.OneLateDotIff | kernel/fat.cpp:168-303 | for one dot behind 8 to 10 characters: if and only if the extension is long enough to cover the characters behind the eighth |
| FatDirectory.DistantDotIff | kernel/fat.cpp:168-303 | for a first dot behind 11 characters or more: if and only if the ninth to eleventh are the extension |
| FatDirectory.SeveralDotsIff | kernel/fat.cpp:168-303 | for dots behind the eighth character and no part of three characters in front of the last one: if and only if the extension covers what those parts leave in its places |
| FatDirectory.SeveralDotsWithoutBlanksIff | kernel/fat.cpp:168-303 | in a name without blanks that is: if and only if the extension has three characters or is as long as each of those parts |
| FatDirectory.LongPartIff | kernel/fat.cpp:168-303 | otherwise: if and only if the first three characters of the first such part are the extension |
| FatDirectory.LongNameNotFound | kernel/fat.cpp:168-303 | "longfiles" is stored and looked up differently |
| FatDirectory.TwoDotsNotFound | kernel/fat.cpp:168-303 | so is "a.b.c" |
| FatDirectory.LateDotIsFound | kernel/fat.cpp:168-303 | "abcdefghi.tx" is not |
| FatDirectory.ScanWithFile | kernel/fat.cpp:265-279 | after a file was added, a name is found where it was before, or in the new slot, or not at all; which of them, for every name |
| FatDirectory.WithFileKeepsShape | kernel/fat.cpp:146-166 | nothing follows the first zero name, also after the directory grew |
| FatDirectory.GrownEntryIsEmpty | kernel/fat.cpp:162-166 | in a directory that had to grow the new entry has no attribute, cluster or size |
| FatDirectory.SearchStarts | kernel/fat.cpp:253-259 | a search starts at the root behind a leading slash or for directory 0, else at the directory given |
| FatDirectory.SearchStep | kernel/fat.cpp:261-286 | an element with more behind it is not found, or a directory in which the search goes on, or an entry at which it ends |
| FatDirectory.WalkOn | kernel/fat.cpp:253-286 | the element behind a directory's path is looked up in that directory |
| FatDirectory.DoubleSlashResets | kernel/fat.cpp:254-256 | behind two slashes the search starts again at the root |
| FatDirectory.SlashesFindRootFile | kernel/fat.cpp:254-256 | "a//b" finds a file b of the root directory that "a/b" does not |
| FatDirectory.LookupsKept | kernel/fat.cpp:185-286 | unless the new slot hides an entry of the same stored name behind it: every earlier lookup finds the same entry with the same fields; a failed one stays failed or finds the new file, or passes through it if it took over a slot with the directory attribute |
| FatDirectory.FoundAsBeforeIff | kernel/fat.cpp:185-286 | an entry with the stored name of the new file is found as before if and only if the new slot is not in front of it |
| FatDirectory.CreateBelow | kernel/fat.cpp:185-215 | kIsDirectory if and only if the path ends in a slash, kNoSuchDirectory if and only if its parent part is not found; a file is created only in the root or in the directory the parent part leads to |
| FatDirectory.CreateInRoot | kernel/fat.cpp:185-215 | a path without a slash is created in the root |
| FatDirectory.CreationSucceedsIff | kernel/fat.cpp:146-166 | a file is created in a directory if and only if that has an entry whose name starts with 0 or 0xe5, or a cluster is free |
| FatDirectory.CreatedIsFound | kernel/fat.cpp:185-286 | a created file is found under its path in the slot returned, with its name and size 0 but the slot's old attribute and first cluster |
| FatDirectory.CreatedIsFoundIff | kernel/fat.cpp:185-286 | a created file is found in its slot under its path if and only if its name is stored and looked up alike |
| FatDirectoryVolume.Directories.FindElement | kernel/fat.cpp:265-282 | the loops over clusters and entries find what the scan of the listing finds |
| FatDirectoryVolume.Directories.FindFile | kernel/fat.cpp:253-286 | finds the entry that the search of the tree of listings finds |
| FatDirectoryVolume.Directories.FindFreeSlot | kernel/fat.cpp:146-160 | the first unused or deleted slot of the whole chain |
| FatDirectoryVolume.Directories.AllocateEntry | kernel/fat.cpp:146-166 | a free slot; a full directory grows by one cleared cluster, and all other listings are unchanged |
| FatDirectoryVolume.Directories.CreateFile | kernel/fat.cpp:185-215 | makes the tree that the creation on trees makes, with its error cases |
| Tasks.RotateRepairs | kernel/task.cpp:255-277 | after a rotation the current level is the highest one with tasks |
| Tasks.RotateFindsOneIff | kernel/task.cpp:255-277 | a rotation away from a sleeping task finds a task if and only if another one is in a queue |
| Tasks.SwitchKeepsInv | kernel/task.cpp:119-126 | a timer switch keeps the scheduler invariant |
| Tasks.SleepKeepsInv | kernel/task.cpp:132-146 | so does sleeping, of the current task or of another one but the idle task |
| Tasks.WakeupKeepsInv | kernel/task.cpp:158-175 | so does waking, which never changes who is current |
| Tasks.ChangeLevelKeepsInv | kernel/task.cpp:197-221 | changing a running task's level never changes who is current |
| Tasks.FinishKeepsInv | kernel/task.cpp:223-238 | a finished task is in no queue and the invariant holds |
| Tasks.WaitKeepsInv | kernel/task.cpp:240-253 | a round of WaitFinish keeps the invariant |
| Tasks.BootedInv | kernel/task.cpp:106-112 | the constructor establishes the invariant |
| Tasks.RunKeepsInv | kernel/task.cpp:106-277 | over every run in which the idle task keeps running: each queue holds exactly the live running tasks of its level, once; the current queue is not empty; without a pending level change no higher level has a task |
| Tasks.OnlyRotationSwitches | kernel/task.cpp:132-277 | no other operation than a rotation changes the current task, also not a wait whose code is there |
| QueueOrder.BeforeIsAnOrder | kernel/task.cpp:119-277 | of two tasks in a run queue exactly one stands in front of the other |
| QueueOrder.StepKeepsOrder | kernel/task.cpp:119-277 | in the queue of every level, whoever stays keeps their order and whoever joins stands behind all who were there; a task switch puts the current task behind the others, and a new level for the current task puts it in front |
| TaskMeanings.StepMeans | kernel/task.cpp:80-277 | what each operation does to tasks, messages, codes and waiters, told without the run queues; with the invariant that settles who is in which queue |
| TaskManagers.TaskManager.constructor | kernel/task.cpp:106-112 | builds the booted state |
| TaskManagers.TaskManager.CreateTask | kernel/task.cpp:114-117 | a task with a new id, on the default level, not running |
| TaskManagers.Erase | kernel/task.cpp:10-14 | removes a task from a queue and keeps the order of the others |
| TaskManagers.TaskManager.RotateCurrentRunQueue | kernel/task.cpp:255-277 | in place, equals the rotation on values |
| TaskManagers.TaskManager.SwitchTask | kernel/task.cpp:119-126 | rotates, keeping the current task runnable |
| TaskManagers.TaskManager.SleepTask | kernel/task.cpp:132-146 | in place, equals Sleep on values |
| TaskManagers.TaskManager.ChangeLevel | kernel/task.cpp:197-221 | in place, equals the level change on values |
| TaskManagers.TaskManager.WakeTask | kernel/task.cpp:158-175 | in place, equals Wakeup on values |
| TaskManagers.TaskManager.SendMessage | kernel/task.cpp:187-195 | appends the message and wakes the task, or reports an unknown id |
| TaskManagers.TaskManager.ReceiveMessage | kernel/task.cpp:85-93 | takes the oldest message, if any |
| TaskManagers.TaskManager.FinishTask | kernel/task.cpp:223-238 | in place, equals Finish on values |
| TaskManagers.TaskManager.WaitRound | kernel/task.cpp:240-253 | one round of WaitFinish: the code, or registered and asleep |
| TaskRuns.EventKeepsGood | kernel/task.cpp:80-253 | every event keeps the promises about mailboxes, waiters and codes |
| TaskRuns.BlockedTasks | kernel/task.cpp:80-93 | in every run: a task blocked outside WaitFinish has an empty mailbox, messages are received in the order sent, and every waiter pointer is to a live task inside WaitFinish for that code |
| TaskRuns.CodesAreHandedOver | kernel/task.cpp:223-253 | however many tasks wait: WaitFinish returns if and only if the task finished and its code was not returned yet, and then it returns exactly that code; so no code is returned twice |
| WaiterRuns.EventServesIff | kernel/task.cpp:80-253 | while every sleeper in WaitFinish is the registered waiter of an unfinished task, an event keeps it so if and only if it is no wait for a code already returned or slept for by another task |
| WaiterRuns.ServedIffTimely | kernel/task.cpp:240-253 | in a run from boot, every sleeper in WaitFinish is at all times the registered waiter of an unfinished task if and only if all waits of the run are so |
| WaiterRuns.ExitWakesIff | kernel/task.cpp:223-238 | when a task ends, a sleeper that waits for it is woken if and only if it is the registered waiter |
| WaiterRuns.LostNeverRuns | kernel/task.cpp:223-253 | a sleeper that is not never runs again in any continuation without a message or wake for it |
| WaiterRuns.MessageWakes | kernel/task.cpp:80-83 | a message for it makes it run, still inside WaitFinish |
| WaiterRuns.NextRoundRegisters | kernel/task.cpp:240-253 | and its next round takes the code or registers it again, in place of any other sleeper |
| WaiterRuns.SecondWaiterReplacesFirst | kernel/task.cpp:249-249 | a run from boot in which a second waiter takes the place of the first, who is then lost |
| TimerManagers.TimerManager.constructor | kernel/timer.cpp:39-41 | the queue starts with its sentinel |
| TimerManagers.TimerManager.AddTimer | kernel/timer.cpp:43-45 | the queue gets one more timer |
| TimerManagers.TimerManager.Top | kernel/timer.hpp:28-30 | the inverted order makes the top a timer with the smallest timeout |
| TimerManagers.TimerManager.Tick | kernel/timer.cpp:47-73 | the loop terminates; due one-shot timers are sent in the order of their timeouts, due task timers renewed, all others kept; the main task gets one message for each timer sent, with its timeout and value, and runs if there was one, and no other task changes |
| TimerManagers.SendAllDelivers | kernel/timer.cpp:64-68 | what the messages of a tick do to the tasks |
| TimerManagers.TimerManager.OnInterrupt | kernel/timer.cpp:77-84 | a switch follows the tick if and only if a task timer was due |
| Timers.TickedLeavesLater | kernel/timer.cpp:50-70 | after a tick every pending timeout lies ahead, and exactly the due timers with another value than the task timer's were sent |
| TimerRuns.EachIsSentOnce | kernel/timer.cpp:43-70 | over any run each one-shot timer sent one message or is still pending |
| TimerRuns.SentAtFirstTick | kernel/timer.cpp:47-70 | and it is sent at the first tick that reaches its timeout after its insertion |
| TimerRuns.TickKeepsTaskTimer | kernel/timer.cpp:57-62 | the only task timer stays the only one |
| TimerRuns.FiresEverySecondTick | kernel/timer.cpp:57-62 | it fires exactly at every second tick, from the one it was armed for on |
| Preemption.StepNearer | kernel/task.cpp:119-277 | every undisturbed operation brings a ready task no further back, and every rotation one place nearer |
| Preemption.TurnWithinSwitches | kernel/task.cpp:119-146 | a ready task at place p becomes current within p task switches |
| Preemption.TurnWithinTicks | kernel/timer.cpp:47-84 | hence once the armed task timer has fired p times, in either phase of its period, so within kTaskTimerPeriod times p ticks, whatever else happens below its level |
| Pipe.ReadIsFifo | kernel/terminal.cpp:323-360 | a read takes bytes off the front of the byte queue; none if and only if there are none and the writer finished; it blocks otherwise |
| Pipe.KeptBytesComeFirst | kernel/terminal.cpp:323-331 | a read takes as many kept bytes as it may, and no message if there are any |
| Pipe.FirstPacketIsTaken | kernel/terminal.cpp:336-360 | otherwise it drops messages that are not the pipe's and takes as many bytes of the first packet as it may |
| Pipe.EmptyReadIsNoEnd | kernel/terminal.cpp:354-359 | a read of length 0 returns none although bytes are left |
| Pipe.PacketsCarry | kernel/terminal.cpp:362-375 | the packets carry the bytes in order, each with 1 to 16 of them |
| Pipe.PacketsAreFull | kernel/terminal.cpp:362-375 | packet k carries bytes 16k to 16k + 15 of the buffer, or those up to its end |
| Pipe.RunKeepsInv | kernel/terminal.cpp:323-383 | under any interleaving of packets, reads, finishing and stray messages, bytes read followed by bytes pending are the bytes written |
| Pipe.EndMeansAllDelivered | kernel/terminal.cpp:323-383 | a read returns 0 only after the writer finished and every byte was delivered, and it does then |
| Pipe.EndIsForever | kernel/terminal.cpp:332-334 | and then forever |
| PipeDescriptors.PipeDescriptor.Read | kernel/terminal.cpp:323-360 | in place, equals the read on values; with an empty mailbox the reader is asleep |
| PipeDescriptors.PipeDescriptor.Write | kernel/terminal.cpp:362-375 | sends the packets of the whole buffer, in order |
| PipeDescriptors.PipeDescriptor.FinishWrite | kernel/terminal.cpp:377-383 | sends the end marker |
| PipeDescriptors.SendEachDelivers | kernel/task.cpp:80-83 | messages sent one after the other stand in the mailbox in that order, and the task runs |

## Left out

- Assembly, CR3 and MSR access, descriptor tables, interrupt controllers and register contexts: a context switch is the change of the current task, and `GetCR3`/`SetCR3` are a field of the state.
- Console, graphics, keyboard, `printk`, command parsing and built-in commands, the UEFI loader, newlib and applications.
- ELF decoding: programs are lists of segments, and whether the arguments fit is a parameter of `Loader.ExecuteFile`; the contents of a program's pages are not modelled, and the program itself is a step that leaves page tables and allocator alone.
- PageTableManager.PageTableManager.CleanPageMaps: requires the slot to be present, because the source follows a null pointer otherwise; `Loader.FirstSlotIsPresentIff` says which programs get there.
- PageTableManager.PageTableManager.FreePML4: requires a PML4 that the task shares with no other; freeing a shared one, or the boot tables, is not modelled.
- Loader.ExecuteFileLeaves: for programs whose segments with pages lie in the upper half and that use the slot of their first segment; that copying into a byte that is not mapped faults is not modelled.
- MemoryManager.BitmapMemoryManager.Allocate: reading behind the end of the bitmap is an outcome of the model, and nothing is said about what happens after it.
- Frames are numbers, and physical memory is a map from frame numbers to tables; that a page of a process may alias kernel data is not modelled.
- A cluster's contents are kept as bytes for files and as directory entries for directories, without the byte layout of an entry; a cluster serves as one or the other. Time stamps and long names are not modelled.
- FatVolume.Volume.ExtendCluster: when the scan runs past the table, nothing is said about the table after it.
- FatVolume.FileDescriptor.Write: bytes copied from behind the caller's buffer are whatever the memory function gives there; a failing call leaves the state unspecified; lengths and offsets are unbounded, only the size field has its 32 bits.
- FatVolume.FileDescriptor.Read: for a file that does not change between the reads, and whose chain covers its size.
- FatDirectory.CreatedIsFound: for paths of ASCII characters with no empty element and a directory as parent; path elements are not cut at 12 characters.
- FatDirectoryVolume.Directories.CreateFile: a parent entry that leads to no directory, such as a plain file or one with first cluster 0, is the outcome `Elsewhere`, behind which the clusters of something else would be read as entries.
- FatDirectoryVolume.Directories.FindFile: requires that the search does not lead into clusters that are no directory.
- TaskManagers.TaskManager.FinishTask: requires a registered waiter to be alive, as it is in every run of `TaskRuns.dfy`; task objects are values in a map by id, so a dangling task pointer cannot be followed.
- A pipe's reader outlives its writer.
- Blocking calls are split at `Sleep`: `WaitRound` and `PipeDescriptor.Read` return to their caller when the task went to sleep, and are called again when it is woken.
- The tick counter does not reach its largest value; which of several timers with equal timeouts the queue yields first is not specified.
- `TaskManager::Sleep` by id of another task is in the runs of `Tasks.dfy` but not in those of `TaskRuns.dfy`, where tasks block only in the kernel's own check-then-sleep loops.
- File descriptor tables (`AllocateFD`), `ReadName` and `FormatName`: lookups with shallow claims only.
