# NixCore in Dafny

NixCore is a hobby operating system kernel written in C. This project models its self-contained algorithms and data
structures and proves what they promise. `dafny verify dfyconfig.toml` checks everything.

The C code mostly works by updating state in place, and so does the model: classes with fields, arrays and loops. Each
such method is proved to refine a function or predicate on values, and the theorems are lemmas about those. A few source
functions are divided into several methods, one for each loop or stage; the comment on each says which part it is.

| files | component |
|---|---|
| `PageBitmap`, `PageTree`, `HardwareWalk`, `AccessRights`, `Mappings`, `IdentityMap`, `KernelMap`, `MemoryManager` | physical pages, 4-level page tables and the kernel's own map. Memory is a sequence of frames of 512 words; tables are named by the path of indices that leads to them, and the processor's walk and its access rights are written down separately from the builder |
| `PageFaults`, `DemandPaging`, `SharedFrames`, `FaultRuns` | runs of page faults: when frames are private, and when two pages come to share one |
| `FloodFill`, `MinePlacement`, `Minesweeper` | the minesweeper engine. The flood is defined by paths, independently of any search order |
| `Paths`, `FileTable`, `PathRoundTrips`, `DirectoryChanges`, `FileSystem` | the in-memory file table, with identities that deletion does not renumber; path printing against path resolution, and where changing the directory leads |
| `BlockList`, `BlockSizes`, `KernelHeap` | the kernel heap: best fit with counters, over headers linked by address, and how much of the heap a request uses up |
| `HeapMemory`, `LibcHeap` | the C library heap: first fit with `realloc`, over bytes in which the headers themselves are stored |
| `Calendar` | timestamps to dates, and Zeller's congruence |
| `RunQueues`, `Starvation`, `Preemption`, `Scheduler` | the scheduler as a state machine, who gets to run, and its linked queues |
| `PhaseRing`, `Nvme` | the NVMe queue pair: a driver and a controller that share only a ring and its phase bit |
| `Line` | Bresenham's loop against the rounded straight line |
| `ByteStream`, `ClusterChain`, `Fat32` | reading files along FAT32 cluster chains |
| `ByteOrder`, `InternetChecksum`, `Packets` | the Internet checksum and the IP and TCP headers that carry it |
| `Decimal`, `NixVariables`, `NixLang` | printing and reading numbers, and the NixLang variable store |
| `Arithmetic`, `Bits`, `ByteType`, `CIntegers`, `Options` | division, words, bytes, C's `int` and optional values |

Some promises do not hold on all inputs. For these the model keeps the code as it is and proves exactly when it meets
the promise:

- private frames: `mm_init` maps frames that are free or hold tables, and the fault handler later hands out the free
  ones (`MmInit`, `FaultSharesExactly`, `NextFaultShares`; `ShareFrame` is a run in which two pages share a frame);
- freeing a page that is not in use (`FreePage`);
- the placement loop of minesweeper (`PlacementEnds`);
- unique names with long names (`CreateKeepsInvariants`), a rooted current directory after a deletion
  (`DeleteKeepsCurrentRooted`), changing back to a printed path (`PathRoundTrip`), printing it into its buffer
  (`PathFits`, `PathOverrunsBuffer`), and reading into an empty buffer (`ReadAfterWrite`);
- rounding a request in either heap (`MallocAddsBlock`, `AlignedCovers`, `WrappedSizeGetsNoRoom`), and a second request
  (`SecondRequest`);
- dates before the epoch or beyond a 32-bit year (`UnixToDatetime`), and weekdays when Zeller's sum overflows or is that
  of a negative year (`GetDayOfWeek`);
- adding a thread that is queued already, which loses the threads behind it, or the current one
  (`AddLosesNothingExactly`, `AddIsSafeExactly`; `AddingLosesAThread` is an input), running at all while more urgent
  threads are ready (`ServedExactly`), and preemption with nothing else ready (`SliceEnds`);
- completions after a timeout (`Execute`; `LateCompletion` is a run in which a call hears about the one before),
  commands still in the submission ring (`FetchedCommand`), and data buffers that do not start on a page
  (`PointersFollowBuffer`);
- a FAT32 read whose `offset + count` wraps (`ReadIsSlice`), and the 32-bit checksum accumulator (`Checksum`);
- the least `int` in decimal (`RoundTrip`, `AddIsRight`).

Where the code and its comments disagree, the model follows the code: `mm_init` says that it identity-maps the first 4
GB, but maps one page of 4 KB in every 2 MB (`MmInit`). Path resolution is modelled over the tokeniser of
`lib/libc/libc.c`, whose contract is that of section 7.24.5.8 of ISO C11; the tokeniser of the kernel's own string
library looks for its delimiters with a search that never matches the terminating NUL, and is not part of this model.

## Model

| member | source | states |
|---|---|---|
| PageBitmap.SetBit | kernel/mm/mm.c:50 | setting bit j of word i sets bit 64i+j of the bitmap, no other, and the word stays in 64 bits |
| PageBitmap.UnsetBit | kernel/mm/mm.c:71 | clearing bit j of word i clears bit 64i+j and no other |
| PageBitmap.NotFullWord | kernel/mm/mm.c:47-61 | a word that is not all ones has a clear bit, so the inner search never runs off its end |
| PageBitmap.LowestClearIsPage | kernel/mm/mm.c:46-64 | as long as the free count is right, the lowest clear bit is the first free page and never a bit in the padding of the last word |
| MemoryManagement.ClearFrame | kernel/mm/mm.c:54-56 | the 512 words of one frame become 0, every other frame stays |
| MemoryManagement.MemoryManager.FindClearBit | kernel/mm/mm.c:46-64 | finds a clear bit below which every bit is set, or every bit is set |
| MemoryManagement.MemoryManager.AllocPage | kernel/mm/mm.c:42-65 | returns 0 exactly if no page is free; otherwise the first free page, zeroed, marked and counted, with nothing else changed |
| MemoryManagement.MemoryManager.FreePage | kernel/mm/mm.c:67-73 | unmarks a page that the bitmap has a bit for, and counts it; the accounting survives exactly if the page was in use and is not page 0 |
| PageTree.WriteEntry | kernel/mm/mm.c:87-111 | writing one entry of a table that only one path reaches changes the entry at that path and at no other |
| PageTree.LinkKeepsTree | kernel/mm/mm.c:87-106 | a link to a fresh zeroed page adds exactly one table, keeps all tables allocated and referenced once, and changes no mapping |
| PageTree.LeafKeepsTree | kernel/mm/mm.c:111 | the leaf write sets (or, without PRESENT, removes) one mapping and moves no table |
| PageTree.AddTableGrows | kernel/mm/mm.c:84-88 | taking a page and linking it changes no frame that is in use and is not a table, and adds tables only on the path being built |
| Mappings.NextLevel | kernel/mm/mm.c:84-90 | each level either exists already, or costs exactly one page, or fails for want of one; no mapping changes |
| Mappings.MappingSeenByProcessor | kernel/mm/mm.c:75-117 | for an aligned frame with PRESENT set: success is reported exactly if there is a page for each missing table; then the processor translates the page to the frame; every address that differs in bits 12..47, and on failure every address, translates as before |
| Mappings.AccessAfterMapping | kernel/mm/mm.c:75-117 | after a mapping the processor allows writes at the page exactly if bit 1 of the flags is set, and user-mode accesses exactly if bit 2 is; what it allows at every other page, and on failure everywhere, stays |
| HardwareWalk.LeafPathOfAddress | kernel/mm/mm.c:78-81 | the four shift-and-mask indices are the digits in base 512 of bits 12..47 |
| HardwareWalk.WalkSeesFlatMap | kernel/mm/mm.c:75-117 | the 4-level walk of section 4.5 of the Intel 64 and IA-32 SDM, Volume 3A, written independently, sees exactly the flat map that the tables stand for |
| AccessRights.AccessSeesFlatMap | kernel/mm/mm.c:87-111 | the write and user-mode rights of section 4.6 of that manual, which need their bit in all four entries of the walk, are those of the leaf alone: links restrict nothing |
| MemoryManagement.MemoryManager.EnsureTable | kernel/mm/mm.c:84-88 | nothing happens if the entry is present; otherwise one new zeroed table is linked with bits 0, 1 and 2 set, or -1 and nothing changes |
| MemoryManagement.MemoryManager.MapPage | kernel/mm/mm.c:75-117 | refines the flat map: sets one entry and takes exactly the pages that were missing, or fails with every mapping unchanged; all tables stay allocated and referenced once |
| DemandPaging.TakeFrame | kernel/mm/mm.c:143 | taking the frame for a fault moves no table, changes no mapping and no count of missing tables |
| DemandPaging.FaultKeepsPrivate | kernel/mm/mm.c:134-149 | pages mapped since the kernel started keep private frames over a fault on any page: each allocated, holding no table, and no two pages sharing one; frames in use keep their contents |
| DemandPaging.FaultSharesExactly | kernel/mm/mm.c:134-149 | it can be told before a fault whether its page will share its frame with another: exactly if the next free page is still identity-mapped at another page |
| DemandPaging.DistinctExactly | kernel/mm/mm.c:134-149 | no two pages share a frame exactly as long as no page mapped since the start has the frame of a page still identity-mapped |
| DemandPaging.FaultTranslates | kernel/mm/mm.c:141-147 | a fault with pages enough makes every address of its page lead to the first page that was free |
| DemandPaging.FaultAllowsUserWrites | kernel/mm/mm.c:145-146 | and the processor then allows writes in user mode there |
| MemoryManagement.MemoryManager.PageFault | kernel/mm/mm.c:134-153 | halts exactly for a present-page fault or without a free page; otherwise a fresh zero frame is mapped at the page, or memory ran out on the way and no mapping changed; with pages enough the processor then allows user-mode writes at the address |
| MemoryManagement.MemoryManager.RunFaults | kernel/mm/mm.c:134-153 | over every run of faults, on whatever map the kernel started with: the tables stay a tree, pages mapped since have private frames, frames in use keep their contents, only faulting pages change, and the run ends early only at a fault on a present page or without a free page |
| FaultRuns.FaultsFromEmptyRoot | kernel/mm/mm.c:134-153 | from an empty level-4 table, whatever else is in use, no two pages ever share a frame and no mapped frame holds a table |
| FaultRuns.FaultsAfterBoot | kernel/mm/mm.c:12-40 | after `mm_init`, over memory of any contents and of more than 256 and at most MAX_PAGES pages, pages outside the identity map get private frames; all frames stay distinct exactly if none of those is a multiple of 512 below the end of that map; with too little memory for the whole map no fault is ever handled |
| SharedFrames.NextFaultShares | kernel/mm/mm.c:33-36 | so the free count tells beforehand whether the next fault will share its frame: if the page after those in use is a multiple of 512 below the end of the identity map |
| SharedFrames.BootIsPrivateExactly | kernel/mm/mm.c:33-36 | the map that `mm_init` leaves has private frames exactly if memory is too small for its second step |
| FaultRuns.ShareFrame | kernel/mm/mm.c:134-149 | with more than 10 MB of memory, faults on pages 1 to 251 leave pages 251 and 2560 with the same frame |
| IdentityMap.InitPathNext | kernel/mm/mm.c:34-36 | after k+1 steps the tables are those after k steps and the ones on the way to step k |
| KernelMap.MissingForStep | kernel/mm/mm.c:34-36 | what each step costs in tables while every earlier step has succeeded |
| KernelMap.StepMapped | kernel/mm/mm.c:34-36 | one turn of the mapping loop, successful or not, keeps the description of what has been built |
| KernelMap.BootTranslates | kernel/mm/mm.c:33-36 | the processor translates exactly the first page of each 2 MB that has been mapped, to itself |
| KernelMap.BootAllows | kernel/mm/mm.c:35 | there it allows writes by the supervisor, and no access in user mode |
| MemoryManagement.MemoryManager.ReserveFirstMegabyte | kernel/mm/mm.c:14-28 | exactly the first 256 pages are in use afterwards |
| MemoryManagement.MemoryManager.MmInit | kernel/mm/mm.c:12-40 | builds one 4 KB identity page for each 2 MB step, for as many of the 2048 steps as the pages allow; above 1 MB only the tables are in use, one after another; mapped frames are private exactly if there are fewer than 261 pages |
| MinePlacement.NextCellIsNew | apps/apps.c:460-469 | under the placement condition the cell tried next holds no mine yet |
| MinePlacement.CountCells | apps/apps.c:459-469 | the cells tried are as many different ones as turns |
| MinePlacement.CellCoordinates | apps/apps.c:461-463 | the cell of turn p is in row p / width and column 3p mod width |
| MinePlacement.PlacementEnds | apps/apps.c:459-469 | the placement loop ends if and only if 3 does not divide the width or the mines fit in a third of a row |
| Minesweeper.AtMostEight | apps/apps.c:471-491 | a cell without a mine has at most eight around it, so a count is never mistaken for the mine marker 9 |
| Minesweeper.ScanIsRight | apps/apps.c:475-487 | the steps of the scan that meet a mine correspond one to one to the mines on the cells around, apart from the cell itself: no step leaves the row |
| Minesweeper.FloodIsSafe | apps/apps.c:516-522 | on a counted board the cells reachable through hidden zero cells never include a mine |
| FloodFill.FloodIsLeast | apps/apps.c:516-522 | the cells reachable by paths are the least set closed under spreading |
| FloodFill.PartialFloodGrows | apps/apps.c:516-522 | a nested search from a neighbour extends a partial flood to a partial flood, whatever was opened before |
| FloodFill.PartialFloodComplete | apps/apps.c:516-522 | when every neighbour has been tried, exactly the reachable cells are open |
| Minesweeper.WinTest | apps/apps.c:510 | the count comparison holds exactly when every cell without a mine has been revealed |
| Minesweeper.TryNeighbour | apps/apps.c:516-522 | one recursive call keeps the search on course, also when an earlier win has cut the game short |
| Minesweeper.RevealKeepsConsistent | apps/apps.c:494-524 | a live game has no mine revealed and is not yet won; a won game has exactly the safe cells revealed |
| Minesweeper.FlagsProtect | apps/apps.c:494-524 | a flagged cell is never opened and nothing is hidden again |
| Minesweeper.RevealOpens | apps/apps.c:494-524 | the cell itself is opened if it is hidden and not flagged; so is every unflagged cell around it if its count is 0, and no other cell if it is not |
| Minesweeper.Game.RevealCell | apps/apps.c:494-524 | terminates; a hidden unflagged safe cell of a live game opens exactly the hidden cells reachable through hidden zero cells, a mine ends the game, anything else changes nothing; won if and only if every safe cell is revealed |
| Minesweeper.Game.FlagCell | apps/apps.c:526-537 | toggles the flag of a hidden cell of a live game and keeps the count of flags left; nothing else changes |
| Minesweeper.Game.PlaceMines | apps/apps.c:459-469 | terminates with mines on exactly the cells of the placement formula |
| Minesweeper.Game.CountMines | apps/apps.c:475-487 | for a cell without a mine, the number of mines on the cells around it |
| Minesweeper.Game.CountAll | apps/apps.c:471-491 | in place, every cell without a mine gets the number of mines around it, and no mine is lost or made |
| Minesweeper.Game.NewGame | apps/apps.c:442-492 | a live game with exactly `mines` distinct mines; every other cell holds the number of cells with a mine among those that touch it, on a side or a corner, and none beyond the edge; nothing revealed and nothing flagged |
| Paths.TokensOfJoin | lib/libc/libc.c:209-231 | splitting at slashes undoes joining names with slashes |
| Paths.Tokenizer.Next | lib/libc/libc.c:209-231 | each call returns the next maximal slash-free piece, and null when none is left |
| FileTable.DeleteSeenByIdentity | fs/filesystem.c:351-374 | seen through identities that are never renumbered, deletion removes one entry, orphans its children, and keeps every other entry's name, contents, attributes and parent |
| FileTable.CurrentSeenByIdentity | fs/filesystem.c:376-380 | the current directory keeps its identity, or becomes the root if it was deleted |
| FileTable.DeleteKeepsLookups | fs/filesystem.c:351-374 | every lookup in a directory that stays finds the same entry as before, or nothing if that was deleted |
| FileTable.DeleteKeepsInvariants | fs/filesystem.c:351-374 | parents stay below their children and sibling names unique |
| FileTable.CreateKeepsInvariants | fs/filesystem.c:236-290 | sibling names stay unique exactly if the name as stored is new; for names of fewer than 32 characters always |
| FileTable.CreatedIs | fs/filesystem.c:236-290 | -1 exactly for 256 entries, -2 exactly if the directory has the name; otherwise the last entry is the new one, empty, with at most 31 characters of the name, the time twice, and mode 0644 or 0755 |
| FileTable.LongNamesCollide | fs/filesystem.c:241-247 | two names of 32 characters that agree in the first 31 are both accepted and stored as one |
| FileTable.ChainResolves | fs/filesystem.c:410-418 | the names on the parent chain of a directory lead from the root back to it |
| PathRoundTrips.PathRoundTrip | fs/filesystem.c:387-500 | from anywhere, changing to the printed path of a directory ends in it if and only if the names on its chain are non-empty and slash-free, there are at most 64 of them, and the path has at most 256 characters |
| PathRoundTrips.PathTooDeep | fs/filesystem.c:480-487 | an input beyond the limit on depth: 65 nested directories |
| PathRoundTrips.PathTooLong | fs/filesystem.c:407-409 | an input beyond the limit on length: 9 nested directories with names of 31 characters |
| PathRoundTrips.PathWithSlash | shell/shell.c:481-485 | a directory named `a/b`, which the shell accepts, cannot be changed to by its printed path |
| FileTable.PathFits | fs/filesystem.c:476-500 | a printed path has at most 32 characters a name, so 15 names always fit the 512-byte buffer |
| PathRoundTrips.PathOverrunsBuffer | fs/filesystem.c:476-500 | 16 names of 31 characters do not fit it with their terminator |
| DirectoryChanges.EnterAndLeave | fs/filesystem.c:388-393 | entering a directory by its name and going up comes back |
| DirectoryChanges.UpDropsLastName | fs/filesystem.c:388-393 | for a rooted directory other than the root, `..` leads to a rooted directory with the same names less the last; of a path that shows all names it drops the last one |
| DirectoryChanges.RelativeIsAbsolute | fs/filesystem.c:405-434 | a plain name leads where the printed path of the current directory, a slash and the name lead from anywhere, or both fail |
| DirectoryChanges.AbsolutePath | fs/filesystem.c:405-421 | an absolute path leads to the one directory whose names from the root down are the pieces of the path, and fails exactly if there is none |
| DirectoryChanges.RelativePath | fs/filesystem.c:424-434 | a relative path leads to the first entry of that name in the current directory; -1 exactly if there is none, -2 exactly if the first is no directory |
| DirectoryChanges.SpecialPaths | fs/filesystem.c:388-403 | `.` stays, `/` and `..` at the root lead to the root, and every call that fails leaves the directory alone |
| DirectoryChanges.MadeIsEntered | fs/filesystem.c:264-290 | a directory that was just made is entered by its name; a file gives -2 |
| FileTable.RootedAfterDelete | fs/filesystem.c:368-374 | a deletion cuts the parent chain of an entry exactly if the deleted entry is on it |
| FileTable.DeleteKeepsCurrentRooted | fs/filesystem.c:376-380 | the current directory keeps a chain to the root if and only if it was itself deleted or no ancestor was |
| FileTable.StepKeepsShell | shell/shell.c:493-502 | with the shell's rule that only children of the current directory are deleted, the current directory stays connected to the root, whatever names are created |
| FileTable.RunKeepsInvariants | fs/filesystem.c:226-385 | over every run of create, write, delete and change directory, whatever the names, parents stay below their children; sibling names stay unique as long as stored names are new; with the shell's rule the current directory stays rooted |
| FileTable.StepKeepsDistinct | fs/filesystem.c:236-385 | an operation keeps sibling names unique exactly unless it creates an entry whose stored name is taken, which no name of fewer than 32 characters does |
| FileTable.ReadAfterWrite | fs/filesystem.c:292-349 | reading gives back what was written, cut to 4096 characters and to the reader's room; writing changes only contents, size and time of the entry; what is read fits the buffer with its terminator exactly if that is not empty, since for an empty one the limit wraps |
| FileSystems.FileStore.FindFile | fs/filesystem.c:226-234 | the first entry with the name and parent, or -1 |
| FileSystems.FileStore.CreateEntry | fs/filesystem.c:236-290 | appends the new entry, or reports a full table (-1) or a taken name (-2) and changes nothing |
| FileSystems.FileStore.WriteFile | fs/filesystem.c:292-322 | replaces the contents and size of a regular file and nothing else; the four results in their order of precedence |
| FileSystems.FileStore.ReadFile | fs/filesystem.c:324-349 | what is copied to the buffer, for every kind of entry and every buffer size, 0 included |
| FileSystems.FileStore.CloseGap | fs/filesystem.c:362-366 | entries after the deleted one move down by one place |
| FileSystems.FileStore.RenumberParents | fs/filesystem.c:368-374 | every parent index follows its entry; those of the deleted entry become -1 |
| FileSystems.FileStore.DeleteFile | fs/filesystem.c:351-385 | the table and the current directory after shifting and renumbering, or -1 and no change |
| FileSystems.FileStore.ChangeDir | fs/filesystem.c:387-435 | result and new current directory for every path, as the lemmas of `DirectoryChanges` and `PathRoundTrips` describe them |
| FileSystems.FileStore.GetCurrentPath | fs/filesystem.c:476-500 | prints the parent chain of the current directory, at most 64 names of it, and stays within the 512-byte buffer exactly if the path has fewer than 512 characters |
| BlockList.LiveDisjoint | lib/memory.c:16-78 | payloads of different blocks in use never overlap |
| BlockList.TakenIsSound | lib/memory.c:36-46 | putting a free block to use keeps the extent of the heap, adds one live block at an unused address, and touches no other |
| BlockList.TakenIsTight | lib/memory.c:36-46 | splitting creates no two adjacent free blocks |
| BlockList.ReleasedIsSound | lib/memory.c:63-77 | freeing with both merges keeps the extent and removes exactly one live block |
| BlockList.ReleasedIsTight | lib/memory.c:63-77 | after the two merges no two free blocks are adjacent |
| BlockList.AllFreeIsOneBlock | lib/memory.c:63-77 | when nothing is in use a single block covers the heap |
| BlockSizes.BytesAddUp | lib/memory.c:16-78 | every byte of the heap is in a header, in a block in use or in a free block |
| BlockSizes.TakenLeaves | lib/memory.c:36-44 | after a block has been taken, a free block of n bytes is one that was there before, or what is left of the one taken |
| BlockList.TakeLinks | lib/memory.c:36-46 | the split leaves the headers linked in address order |
| BlockList.MergeLinks | lib/memory.c:65-77 | a merge leaves the headers linked in address order |
| KernelHeap.AlignedCovers | lib/memory.c:17 | the rounded size covers the request exactly if the 32-bit addition does not wrap; then it is the next multiple of 4, otherwise 0 |
| KernelHeap.BestIsBest | lib/memory.c:19-31 | the search finds the first of the smallest blocks that fit, and nothing only if none fits |
| KernelHeap.MallocAddsBlock | lib/memory.c:16-53 | null only if no block fits; otherwise one more live block at a new address, large enough for the request exactly if rounding does not wrap in 32 bits; all others as they were, used bytes up by its size |
| KernelHeap.MallocTakesBest | lib/memory.c:19-34 | the block taken is the first of the smallest free ones that hold the request rounded up to 4; null exactly if none does |
| KernelHeap.MallocIsTight | lib/memory.c:36-47 | the block is less than 19 bytes larger than the request, and the free bytes shrink by it and at most one header of 12 |
| KernelHeap.SplitExactly | lib/memory.c:36-44 | a block is split exactly if its rest holds 12 + 4 bytes, and otherwise given away whole |
| KernelHeap.SecondRequest | lib/memory.c:36-44 | exactly when a second request succeeds: another free block holds it, or what is left of the block that the first one took |
| KernelHeap.FreshHeapServesTwo | lib/memory.c:7-53 | on a fresh heap two requests succeed exactly if both, rounded up, and one more header fit |
| KernelHeap.FreeRemovesBlock | lib/memory.c:55-78 | exactly the freed block goes, used bytes down by its size, the tiling stays |
| KernelHeap.RunKeepsTiling | lib/memory.c:7-78 | over every run of allocations and frees the blocks tile the heap with no adjacent free blocks, and freeing everything restores the initial block |
| KernelHeap.Heap.MemoryInit | lib/memory.c:7-14 | one free block over the heap, counters 0 |
| KernelHeap.Heap.FindBestFit | lib/memory.c:19-34 | the loop over the linked headers finds the best-fitting block |
| KernelHeap.Heap.Kmalloc | lib/memory.c:16-53 | refines the block list; used bytes equal the sum of the live sizes, grow by the request and less than 19 bytes more, and the peak is their maximum so far |
| KernelHeap.Heap.Kfree | lib/memory.c:55-78 | refines the block list for a live pointer or null, counters included |
| HeapMemory.StoredWord | lib/libc/libc.c:27-29 | a word stored in memory reads back |
| HeapMemory.RelinkMemory | lib/libc/libc.c:38-46 | if only the bytes of some blocks change and then hold the headers of their replacements, the whole list is in memory again |
| HeapMemory.HeaderWritePreserves | lib/libc/libc.c:59-75 | writing a block's header changes no byte of any live payload |
| HeapMemory.MoveCopies | lib/libc/libc.c:97-101 | after allocate, copy and free, the new block holds the old contents and every other live payload is unchanged |
| LibcHeap.FirstIsFirst | lib/libc/libc.c:33-50 | the search finds the first block that fits, and none only if none fits |
| LibcHeap.MallocAddsBlock | lib/libc/libc.c:18-53 | null only for size 0 or if nothing fits; otherwise one more live block, large enough exactly if rounding the size does not wrap |
| LibcHeap.MallocTakesFirst | lib/libc/libc.c:33-36 | the block taken is the first free one that holds the request rounded up to 8; null exactly for size 0 or if none does |
| LibcHeap.MallocIsTight | lib/libc/libc.c:36-46 | the block is less than 39 bytes larger than the request, and the free bytes shrink by it and at most one header of 24 |
| LibcHeap.SplitExactly | lib/libc/libc.c:38-43 | a block is split exactly if its rest holds 24 + 8 bytes, and otherwise given away whole |
| LibcHeap.SecondRequest | lib/libc/libc.c:36-46 | exactly when a second request succeeds: another free block holds it, or what is left of the block that the first one took |
| LibcHeap.FreshHeapServesTwo | lib/libc/libc.c:18-53 | before anything is allocated, two requests succeed exactly if both, rounded up, and one more header fit |
| LibcHeap.FreeRemovesBlock | lib/libc/libc.c:55-76 | exactly the freed block goes and the tiling stays |
| LibcHeap.WrappedSizeGetsNoRoom | lib/libc/libc.c:22 | sizes above 2^64 - 8 round to 0: the block that `realloc` would copy 16 bytes into has none |
| LibcHeap.StepKeepsTiling | lib/libc/libc.c:18-103 | malloc, free and realloc of null or live pointers keep the exact tiling without adjacent free blocks |
| LibcHeap.RunRestores | lib/libc/libc.c:18-103 | over every run, freeing everything restores the single initial block |
| LibcHeap.MoveRanges | lib/libc/libc.c:97-101 | the two ranges of the copy in `realloc` lie in the heap and are disjoint |
| LibcHeap.Heap.Malloc | lib/libc/libc.c:18-53 | refines the block list in memory; every live payload keeps its bytes, and a failure on a heap in use changes no byte |
| LibcHeap.Heap.Free | lib/libc/libc.c:55-76 | refines the block list in memory; every other live payload keeps its bytes |
| LibcHeap.Heap.Memcpy | lib/libc/libc.c:234-252 | copies between disjoint ranges, by words when aligned, and changes no other byte |
| LibcHeap.Heap.Realloc | lib/libc/libc.c:87-103 | the contents up to the smaller size survive, every other live payload keeps its bytes, and a failure changes nothing |
| Calendar.YearStartIs | kernel/time.c:52-62 | counting days year by year agrees with the closed form with leap years |
| Calendar.EncodeIsInjective | kernel/time.c:40-81 | a timestamp has only one date |
| Calendar.EncodeParts | kernel/time.c:44-49 | days and time of day can be read off the encoded timestamp |
| Calendar.FindYear | kernel/time.c:52-62 | terminates with the year that contains the day |
| Calendar.FindMonth | kernel/time.c:66-76 | terminates within twelve months with the month that contains the day |
| Calendar.UnixToDatetime | kernel/time.c:40-81 | the result is a valid date that encodes back to the zone-adjusted timestamp if and only if that is at least 0 and its year fits a 32-bit field |
| Calendar.DaysAreEncoded | kernel/time.c:222-235 | the day count of the weekday formula is the one that timestamps decompose into |
| Calendar.ZellerAgrees | kernel/time.c:222-235 | Zeller's congruence equals (days since the epoch + 4) mod 7 for every Gregorian date |
| Calendar.GetDayOfWeek | kernel/time.c:222-235 | agrees with day counting, for every year that fits `int`, if and only if Zeller's year is not negative and the sum does not exceed `int`, or it is a negative leap year and the sum does not fall below `int` |
| RunQueues.QueuesAreDisjoint | kernel/sched/process.c:129-147 | no thread is in two queues |
| RunQueues.AddKeepsSafe | kernel/sched/process.c:129-147 | adding any thread but the current one, queued already or not, keeps the queues duplicate-free, disjoint, and holding only ready threads of their level |
| RunQueues.AddIsSafeExactly | kernel/sched/process.c:129-145 | it keeps safety exactly if the thread is not the current one |
| RunQueues.YieldKeepsSafe | kernel/sched/process.c:173-194 | so does yielding: neither the current thread nor a zombie is ever queued |
| RunQueues.StepKeepsSafe | kernel/sched/process.c:129-194 | each of add, tick, yield and exit keeps safety, adding a queued thread included, so every run does |
| RunQueues.ChosenIsBest | kernel/sched/process.c:149-163 | a thread is chosen if any is ready; no ready one is more urgent, by priority numbers: smaller first, below 0 like 0 and above 4 like 4; and it is the oldest of its queue |
| RunQueues.LevelsFollowNumbers | kernel/sched/process.c:130-132 | the queues follow the priority numbers: a thread is in an earlier queue exactly if its number is smaller, once both are clamped to 0..4 |
| RunQueues.YieldCounts | kernel/sched/process.c:173-194 | a yield counts one switch, in 64 bits, and does nothing without a ready thread |
| RunQueues.YieldConserves | kernel/sched/process.c:173-194 | yielding neither loses nor makes a runnable thread |
| RunQueues.TickConserves | kernel/sched/process.c:165-171 | nor does a tick |
| RunQueues.ExitConserves | kernel/sched/process.c:297-313 | exiting removes the current thread from the runnable ones and no other |
| RunQueues.ExitMarksProcess | kernel/sched/process.c:303-310 | exactly the first process with the pid of the thread becomes a zombie with the exit code |
| RunQueues.AddConserves | kernel/sched/process.c:129-147 | a thread that is added is runnable; those queued behind it before are lost, and no other |
| RunQueues.AddLosesNothingExactly | kernel/sched/process.c:136-144 | no thread is lost exactly if the one added is not queued or is the last of its queue |
| RunQueues.AddingAgain | kernel/main.c:37-38 | adding a thread twice in a row, as `kernel_main` does with the first thread, is adding it once |
| RunQueues.AddingLosesAThread | kernel/sched/process.c:136-144 | adding the first of two queued threads again leaves the second ready, but in no queue |
| RunQueues.LostStaysLost | kernel/sched/process.c:129-194 | over every run that does not add it, a thread that is not runnable never becomes so |
| RunQueues.QueueAdvances | kernel/sched/process.c:129-194 | in any run that adds no more urgent thread and none again ahead of it, a ready thread that no ready or running one is more urgent than moves up exactly one place a yield |
| RunQueues.NoStarvation | kernel/sched/process.c:149-194 | and at position k it becomes current at exactly the (k+1)-th yield |
| Starvation.Served | kernel/sched/process.c:173-194 | with at most one runnable thread more urgent than it, the thread at position k of its queue runs within 2k+2 yields |
| Starvation.Starved | kernel/sched/process.c:173-194 | with two or more it keeps its place and never runs, however many yields follow |
| Starvation.ServedExactly | kernel/sched/process.c:173-194 | so a ready thread is reached by a run of yields if and only if at most one runnable thread has a more urgent priority number |
| Starvation.TwoShareTheProcessor | kernel/sched/process.c:173-194 | two threads of priority 0 that yield to each other come back to the same queues after two yields, and a thread of priority 1 never runs |
| Preemption.SliceEnds | kernel/sched/process.c:165-171 | a thread runs for its whole slice and is preempted at its end if and only if another is ready; otherwise the slice stays 0 and the next tick wraps it |
| Preemption.TenTicks | kernel/sched/process.c:165-183 | a thread that a yield has chosen runs for ten ticks and is preempted at the tenth exactly if another is ready then |
| Preemption.TickCounts | kernel/sched/process.c:168-169 | a tick adds one to the processor time of the thread, in 64 bits, and counts no switch |
| Scheduler.AppendLinked | kernel/sched/process.c:135-143 | linking a thread behind the last one appends it to the queue |
| Scheduler.CutLinked | kernel/sched/process.c:140-143 | linking a queued thread behind the last one ends its queue at that thread |
| Scheduler.Scheduler.SchedulerInit | kernel/sched/process.c:121-127 | five empty queues and no current thread |
| Scheduler.Scheduler.AddThread | kernel/sched/process.c:129-147 | refines adding, for every thread of the table: it comes last in the queue of its priority number, clamped to 0..4; the linked queues stay sound exactly if it is not the current one |
| Scheduler.Scheduler.PickNext | kernel/sched/process.c:149-163 | unlinks the head of the first non-empty queue, or null with nothing changed |
| Scheduler.Scheduler.YieldThread | kernel/sched/process.c:173-194 | refines the yield of the state machine |
| Scheduler.Scheduler.TickThread | kernel/sched/process.c:165-171 | refines the tick of the state machine |
| Scheduler.Scheduler.SysExit | kernel/sched/process.c:297-313 | refines the exit of the state machine, with the first process of the thread's pid |
| PhaseRing.HeadAdvances | drivers/nvme.c:157-158 | advancing the head and flipping the phase at slot 0 gives slot and phase of the next completion |
| PhaseRing.PostKeepsRing | drivers/nvme.c:148-151 | posting in order keeps the last lap of completions in the ring |
| PhaseRing.TestIsExact | drivers/nvme.c:148-156 | for every interleaving without overrun, across any number of wraps, the phase test succeeds exactly if the next unconsumed completion has been posted, and the status read is its own |
| PhaseRing.OverrunHidesCompletions | drivers/nvme.c:148-151 | with one completion too many the test fails although a full ring is waiting |
| Nvme.LateCompletion | drivers/nvme.c:148-162 | a run in which the first call times out and the second reports the status of the first command, whatever becomes of its own |
| Nvme.TransferCarriesAddress | drivers/nvme.c:128-143 | the command words carry the opcode, 2 for reads and 1 for writes, the namespace, the whole block address and the count |
| Nvme.PointersFollowBuffer | drivers/nvme.c:134-139 | for up to 16 blocks the two data pointers, as section 4.3 of the NVM Express Base Specification 1.4 reads them, lead through the buffer exactly if it starts on a page or stays within one |
| Nvme.SubmitKeepsRing | drivers/nvme.c:145-146 | the submission ring holds the last lap of commands |
| Nvme.FetchedCommand | drivers/nvme.c:128-146 | the slot of a command holds the last command written there: its own exactly if fewer than 64 were submitted after it |
| Nvme.QueuePair.Init | drivers/nvme.c:82-91 | empty rings, phase 1 |
| Nvme.QueuePair.Submit | drivers/nvme.c:128-146 | writes the command to its slot, advances the tail and rings the doorbell |
| Nvme.QueuePair.Wait | drivers/nvme.c:148-154 | ends with the first test that finds a completion, or with timeout 0 |
| Nvme.QueuePair.Consume | drivers/nvme.c:156-160 | takes the next completion and keeps head, phase and doorbell in step |
| Nvme.QueuePair.Execute | drivers/nvme.c:128-163 | a call succeeds exactly if a completion is there by its last counted test, and then reports the status of the command whose number is the number of earlier successes, which is its own command exactly if no earlier call timed out |
| Line.NearestIs | gui/gui.c:150-175 | the rounding used by the closed form is to the nearest integer, halves down |
| Line.LineIsStraight | gui/gui.c:150-175 | the line runs from end to end in max(dx, dy) king's moves, each a step along the longer axis, within half a pixel of the ideal line |
| Line.StepsMatch | gui/gui.c:163-173 | the two error tests decide exactly the next pixel of that line in all eight octants, and the error term stays within 3/2 of the length |
| Line.EndsExactly | gui/gui.c:159-161 | the end point is met at the last pixel and at no other, so the loop cannot overshoot |
| Line.Screen.SetPixel | gui/gui.c:117-121 | sets one pixel of the frame buffer, which is stored row by row, or none outside the screen |
| Line.Screen.DrawLine | gui/gui.c:150-175 | terminates having painted exactly the max(dx, dy)+1 pixels of the rounded line, in order |
| ByteStream.BytesSplit | kernel/fs/fat32.c:230-254 | bytes read in two pieces are the bytes read in one |
| ByteStream.ReadIsSlice | kernel/fs/fat32.c:213-257 | if the chain covers the file, a read is the slice clipped at the end of the file if and only if `offset + count` does not wrap or nothing follows the file |
| ByteStream.ReadsConcatenate | kernel/fs/vfs.c:147-161 | two reads with an advancing offset return what one larger read returns |
| ClusterChain.EndIsFinal | kernel/fs/fat32.c:225-228 | once a chain has ended it stays ended |
| ClusterChain.ContentsPrefixClosed | kernel/fs/fat32.c:225-228 | the positions that a chain covers have no gaps |
| ClusterChain.BytesInCluster | kernel/fs/fat32.c:234-250 | a piece inside one cluster is that part of its sectors |
| ClusterChain.ByteOnDisk | kernel/fs/fat32.c:234-240 | byte o of sector s of cluster number i of the file is byte o of the disk sector that comes s sectors into that cluster, counting clusters from number 2 at the start of the data |
| ClusterChain.NothingBehind | kernel/fs/fat32.c:234 | behind the last cluster, whose table entry is from 0x0FFFFFF8 up, there is nothing |
| Fat32.ReadCluster | kernel/fs/fat32.c:236-240 | the sectors of a cluster one after another |
| Fat32.SkipTo | kernel/fs/fat32.c:224-228 | follows the table to a cluster of the chain, or to its end |
| Fat32.Read | kernel/fs/fat32.c:213-257 | fills the buffer with the bytes of the concatenated clusters from the offset on, clipped at the end of the file, and leaves the rest of the buffer alone |
| Fat32.File.ReadNext | kernel/fs/vfs.c:147-161 | reads at the file's offset and advances it by the bytes returned |
| InternetChecksum.FoldIsResidue | drivers/network.c:219-221 | the folding loop terminates with the residue modulo 65535 in 1..65535, or 0 |
| InternetChecksum.FoldedSumIsOnesSum | drivers/network.c:206-224 | adding up and folding computes the one's complement sum of section 1 of RFC 1071 |
| InternetChecksum.Checksum | drivers/network.c:206-224 | the complement of the one's complement sum if and only if the 32-bit accumulator does not overflow |
| InternetChecksum.ChecksumVerifies | drivers/network.c:263 | stored in a zeroed field at any even offset, the checksum makes the checksum of the whole 0 |
| InternetChecksum.SwappedSum | drivers/network.c:206-224 | exchanging the bytes of all words exchanges the bytes of the sum |
| InternetChecksum.HostOrderIsNetworkOrder | drivers/network.c:263 | so the checksum stored in host order is the network-order checksum stored in network order |
| Packets.FilledInVerifies | drivers/network.c:421-432 | a segment with its checksum filled in verifies behind the prefix it was computed over |
| Packets.PseudoHeaderReads | drivers/network.c:424-426 | read in network order at the offsets of section 3.1 of RFC 793 the prefix holds the two addresses, a zero byte, protocol 6 and the length |
| Packets.NetInterface.IpSend | drivers/network.c:248-268 | a header that, read at the offsets of section 3.1 of RFC 791, says version 4, five words, the total length, no fragment, time to live 64, the protocol, source and destination; its checksum verifies, and the data follows |
| Packets.NetInterface.TcpSend | drivers/network.c:402-435 | a segment that, read at the offsets of section 3.1 of RFC 793, has the given ports, flags and data, five words, zero numbers and window 65535, and that verifies behind its pseudo-header, in a packet of protocol 6 |
| Decimal.DigitsDenote | lib/printf.c:22-27 | the digits denote the number, in every base from 2 to 36 |
| Decimal.DigitsAreProper | lib/printf.c:22-27 | they are figures and lower-case letters below the base, without a leading zero |
| Decimal.DigitsAreReversed | lib/printf.c:22-35 | reversing the digits as produced gives them most significant first |
| Decimal.Itoa | lib/printf.c:4-38 | leaves the text of the number, a sign only in base 10, and a terminating NUL; nothing for a base out of range |
| Decimal.Uitoa | lib/printf.c:40-68 | the same without a sign |
| Decimal.ReverseInPlace | lib/printf.c:31-35 | reverses part of the buffer and leaves the rest |
| Decimal.ScanDigits | lang/nixlang.c:51-54 | reading back the digits of a non-negative `int` gives it |
| Decimal.RoundTrip | lang/nixlang.c:42-57 | reading back the text of an `int` gives it if and only if it is not the least one |
| Decimal.NixlangToInt | lang/nixlang.c:42-57 | an optional sign and the digits up to the first other character |
| Decimal.ReadsNumber | lang/nixlang.c:42-57 | of digits, with or without a minus sign and followed by anything else, the number that they denote, modulo 2^32 as an `int` |
| NixVariables.StoreIsSeen | lang/nixlang.c:64-95 | a store is seen under its name exactly if the name is known, or has at most 31 characters while fewer than 64 are; then the variable holds at most 255 characters of the text, and its number if the text is numeric; no name but the one it is kept under changes |
| NixVariables.AddIsRight | lang/nixlang.c:195-214 | `add` and `sub` fail exactly for a new variable without room or with too long a name; otherwise text and number both say the old number plus, or minus, the number read from the text of the variable that the token names or from the token, if and only if that is not the least `int` |
| NixVariables.AddKeepsOthers | lang/nixlang.c:195-214 | no other variable changes, whether the line succeeds or not |
| NixLang.Interpreter.FindVariable | lang/nixlang.c:32-40 | the first variable of that name, or null |
| NixLang.Interpreter.StoreVariable | lang/nixlang.c:64-95 | refines the store on the table |
| NixLang.Interpreter.AddOrSub | lang/nixlang.c:195-214 | refines `add` and `sub` on the table, result code included |

## Left out

- PCI scanning, MMIO and port I/O, DMA descriptors, inline assembly, the register part of context switches, TLB and CR3 loads: hardware effects without logic to prove.
- The bitmap at 64 KB is kept beside the modelled memory, not inside it; that it lies in the first megabyte, which is reserved, is the bound `MAX_PAGES`.
- The bump allocator `kmalloc` of kernel/mm/mm.c hands out memory that the page bitmap does not reserve; it is kept out of the page-table model.
- MemoryManagement.MemoryManager.MmInit: for machines with more than 1 MB of memory. Otherwise no page is found for the level-4 table, and mapping goes on over whatever lies at address 0.
- MemoryManagement.MemoryManager.ReserveFirstMegabyte: likewise; with less than 1 MB the free count wraps.
- MemoryManagement.MemoryManager.FreePage: for pages that the bitmap has a bit for; others change memory beyond it.
- FaultRuns.FaultsAfterBoot: after `mm_init` loads its tables (kernel/mm/mm.c:39) the allocator and the fault handler use physical addresses as virtual ones, most of which those tables do not map. The model writes physical memory directly; what such an access does on the processor is left out. The same holds of FaultRuns.ShareFrame. Memory sizes are those of `MmInit`.
- Mappings.MappingSeenByProcessor: stated for frames below 2^40 and flags below 4096 with PRESENT set; `MapPage` itself is proved for all addresses and flags on the builder's own flat map.
- Missing level-4 tables, a root outside memory, and tables written by anyone but the builder: `MapPage` requires a tree of tables, which `MmInit` establishes and every operation keeps.
- Minesweeper.Game.NewGame: requires the placement condition, because the loop does not terminate without it (`PlacementEnds`), and at least one column; the boards are arrays of exactly the size of the game, and sounds are left out.
- Saving the file table to disk and loading it, the dirty flag, owners and groups, and the entries that a fresh file system starts with.
- FileSystems.FileStore.GetCurrentPath: what lies behind the static buffer, into which longer paths run, is not modelled. Names are character sequences without the terminating NUL.
- FileSystems.FileStore.WriteFile: whether the first allocation of a buffer succeeds is a parameter; releasing that buffer on deletion is not modelled.
- KernelHeap.Heap.Kmalloc: headers are kept in a map from addresses instead of in bytes; the byte-level argument is made for the C library's heap, in `HeapMemory`.
- KernelHeap.Heap.Kfree: for live pointers and null. Freeing anything else is undefined, and so it is for `free` and `realloc`.
- LibcHeap.Heap.Realloc: for sizes up to 2^64 - 8, because a larger size rounds to 0 (`WrappedSizeGetsNoRoom`). The address of the region, which the kernel provides, is a parameter.
- Calendar.UnixToDatetime: requires that adding the zone does not overflow, which C leaves undefined; the zone is a parameter instead of a global.
- Calendar.GetDayOfWeek: arithmetic that leaves `int`, which C leaves undefined, is modelled as wrapping.
- Process creation, the processes' own thread lists (which share the queues' link field), fork, address spaces and swap. `sys_exit` is modelled with its process table.
- Starvation.ServedExactly: for runs of yields alone; threads that are added or exit meanwhile change how many are more urgent.
- RunQueues.NoStarvation: as long as the run adds no thread more urgent than the waiting one and adds none again that is queued ahead of it, which would lose it (`AddConserves`).
- Nvme.PointersFollowBuffer: for at most 16 blocks of 512 bytes; for more, the second pointer would have to name a list, which the driver does not build.
- Nvme.QueuePair.Execute: the controller is any schedule of posts, given as a script, that answers commands in order and never overruns the ring; the two admin commands of `nvme_init`, which wait without a timeout, are left out. It answers the commands as submitted, also when more than 64 timeouts in a row have let the driver overwrite commands not yet fetched (`FetchedCommand`).
- Line.Screen.DrawLine: coordinates are unbounded integers; `StepsMatch` shows that the error term stays within three halves of the length, so C's `int` does not overflow for lines shorter than 2^31 / 3 pixels.
- Fat32.Read: sector reads succeed, the volume's geometry is consistent, and the file is smaller than 4 GB, as directory entries can only say; mounting, directory lookup and ext2 are left out.
- InternetChecksum.Checksum: lengths below 2^32, the range of its parameter.
- Packets.NetInterface.IpSend: up to the hand-over to the link layer; ARP, Ethernet framing, UDP, DHCP and reception are left out. Data must fit the 1500-byte buffers, which the code does not check.
- Decimal.Itoa: negation and arithmetic on `int` wrap, where C leaves overflow undefined; the rest of `vsprintf` is left out.
- NixLang.Interpreter.AddOrSub: from the words of a line on; splitting lines, the other commands and whole programs are left out, the latter because the line handler re-enters the tokeniser that is walking the program.
- Window painting, themes, games, the shell's command dispatch, boot code, USB, sockets, NTP, keyboard and floating point.
