# Hydrangea: verified models of the kernel's memory, namespace, scheduler and formats

Hydrangea is a small x86 kernel written in C. This project models five of its
parts in Dafny and proves what they keep over whole runs, what their operations
compute, and, where the code falls short of its intent, the exact condition
under which it does not.

- **Frames and page tables** (`Pmm`, `Paging`). The frame bitmap is an array of
  32-bit words, physical memory an array of 1024-word frames. Map and unmap act
  on the first words of a table, as the code does, so a page is mapped as asked
  exactly under a condition on alignment. The main results are that no live
  frame is handed out, that a cloned directory translates as its source does
  and shares no table with any other, and that no later run of calls on one
  directory affects the translations of another.
- **Kernel heap** (`HeapSpec`, `Heap`). `HeapSpec` states first fit, freeing and
  merging on sorted lists of blocks; `Heap` is the same on doubly linked nodes
  updated in place. Over every legal run the free and allocated blocks tile
  the heap's range. `FreeAsWritten` follows the code and has a null dereference
  as an outcome; `FreeRepaired` adds the null guards and the repairs of `prev`
  that the whole-run result needs.
- **Strings and namespace** (`CString`, `Numerals`, `Vfs`, `Tmpfs`). `strtok`
  works in place on a buffer with its static cursor; its tokens are the maximal
  delimiter-free runs. On top of it stand the path resolver, the path printer
  and the file creation of tmpfs, which never leaves its root.
- **Scheduler** (`RoundRobin`, `Scheduler`, `Termination`, `Pids`). `RoundRobin`
  gives a timer tick on values and proves fairness; `Scheduler` refines it on
  the linked task list and models termination, both as written and with its
  scan repaired; `Termination` says when the scan as written ends, and with
  what; `Pids` is the pid generator.
- **Disk, pipes and archives** (`Ata`, `Ext2Index`, `Ext2`, `Ext2Dir`, `Ext2File`,
  `Ext2Populate`, `Pipe`, `Tar`). Byte reads over sectors, the indirect-block
  numbering, the directory iterator over refilled blocks, the mount that builds
  an isomorphic subtree in which paths find the inodes they have on disk, the
  ring buffer as a queue, and the tar walk in memory.

`Common`, `Arithmetic` and `LittleEndian` hold lemmas and functions these share. Each part
that updates memory in place is a class or a method over arrays whose contract
ties it to a function on values, and the properties are proved of that function.

Where documentation or intent and the code disagree the model follows the code.
Findings of that kind are stated as the exact condition under which the code is
right: `Paging.FirstPageMapped`, `Pmm.WholeFramesMarked`,
`Pmm.KernelImageMarked`, `Heap.Heap.FreeAsWritten`, `HeapSpec.FreeReturnsIff`,
`HeapSpec.AllocKeepsIff`, `Termination.EndsIff`,
`Termination.MovesDescendantsIff`, `Pids.CreateKeepsDistinct`,
`Numerals.AtoiOfItoa`, `Ext2.SingleIndirectIff`, `Ext2Index.LevelsRightIff`,
`Ext2Dir.BlocksSkipped`, `Ext2Dir.NothingDropped`,
`Ext2File.RightForEveryBufferIff`, `Pipe.MadeIsFifoIff` and `Tar.ReadIsCutIff`.
Where the code is never right, or what it does instead is the point, the finding
says what it does: `Paging.UnmapReleasesLastFrame`, `HeapSpec.FirstFreeFaults`,
`Scheduler.Kernel.PickAfterExit`, `Scheduler.Kernel.MoveHeadAgain`,
`Pipe.OverflowQueue`, `Ext2.TypeBits`, `Ext2.OtherPointersUnused` and
`Ext2.DoubleOffsetIs` (the doubly and triply indirect levels are given entry
numbers where byte offsets are meant, lines 263 to 277 of
`kernel/fs/ext2fs/ext2.c`).

`dafny verify dfyconfig.toml` checks the whole project.

## Model

| member | source | states |
|---|---|---|
| Pmm.FrameAllocator.FrameBmpGetFirst | kernel/mem/pmm.c:113-127 | the scan returns the least free frame, and panics exactly if every frame whose group of 32, 128 KiB, lies wholly in memory is in use; it never falls out of a word that is not full |
| Pmm.FrameAllocator.FrameAlloc | kernel/mem/pmm.c:129-133 | the least free frame is handed out and marked, it is one whose 128 KiB lie in memory, and nothing else changes; a panic, exactly if there is none, changes nothing |
| Pmm.ManagedIff | kernel/mem/pmm.c:113-115 | the frames below the bound of the scan are those whose whole group of 32 lies in memory |
| Pmm.FrameAllocator.FrameFree | kernel/mem/pmm.c:105-108 | exactly the bit of the given frame is cleared |
| Pmm.FrameAllocator.FrameBmpSet | kernel/mem/pmm.c:101-104 | exactly the bit of the given frame is set |
| Pmm.FrameAllocator.MarkRun | kernel/mem/pmm.c:72-73 | the marking loop adds exactly the frames of a run, with the 32-bit address arithmetic |
| Pmm.FrameAllocator.ReserveRegions | kernel/mem/pmm.c:58-76 | the memory size is the sum of the available regions, and the frames in use are exactly those some reserved region marks |
| Pmm.FrameAllocator.ReserveEvenStarts | kernel/mem/pmm.c:89-95 | the last loop adds exactly the first frame of each region whose type is even |
| Pmm.FrameAllocator.PmmInit | kernel/mem/pmm.c:47-96 | the whole reservation after boot: both marking loops, the least frame left, the even starts, and nothing more; the panic in between happens exactly if the loops have marked every managed frame |
| Pmm.RunIsCyclicInterval | kernel/mem/pmm.c:72-85 | a marking loop covers consecutive frames, wrapping at 4 GiB |
| Pmm.WholeFramesMarked | kernel/mem/pmm.c:69-74 | which regions have all their whole frames reserved: an exact condition on the offsets of start and length within a frame |
| Pmm.UnreservedMarksNothing | kernel/mem/pmm.c:61-66 | an available region, or one above 4 GiB, marks no frame |
| Pmm.AvailableBytesAdd | kernel/mem/pmm.c:61-67 | the memory size is additive over the map, and of one entry it is the length if that is available below 4 GiB |
| Pmm.EvenStarts | kernel/mem/pmm.c:89-95 | of the region types of the Multiboot specification the last loop marks the starts of 2 and 4 only |
| Pmm.KernelImageMarked | kernel/mem/pmm.c:78-85 | the kernel loop starts at the last memory-map entry, not at 1 MiB, and counts whole frames: every frame that holds a part of the kernel image is marked exactly if the image is empty, or ends at a frame boundary and that entry starts in the frame of 1 MiB |
| Pmm.KernelImageReserved | kernel/mem/pmm.c:78-85 | after pmm_init the kernel image is reserved if it ends at a frame boundary and the last entry of the map starts at 1 MiB |
| Pmm.UsedUntilFreed | kernel/mem/pmm.c:129-135 | over every run, a frame in use stays in use until it is freed |
| Pmm.NoLiveFrameHandedOut | kernel/mem/pmm.c:129-135 | over every run, a frame that is reserved or handed out is handed out again only after a free of that frame |
| Paging.Mmu.PgMkPgtbl | kernel/mem/paging.c:22-29 | a zeroed table in a free frame is hung into the directory, with the present bit and the flags asked for |
| Paging.Mmu.PgIsMapped | kernel/mem/paging.c:38-46 | it panics exactly on an unaligned address; otherwise the result is the mapped status of the two-level translation |
| Paging.Mmu.PgVirtToPhys | kernel/mem/paging.c:48-56 | on a mapped page the result is its translation; the present bits are not consulted |
| Paging.Mmu.PgMapPages | kernel/mem/paging.c:58-90 | the three causes of a panic, and the state as the loop over words counted from 0 gives it; among directories that share no table, every word of memory and every bit of the bitmap (`MapDone`) |
| Paging.MapOutcome | kernel/mem/paging.c:58-90 | the whole state after a call: the table is the old one or the least free frame, zeroed; its first words map the frames asked for; the directory word gets the flags if its table is new or some page of the call was mapped before, and else keeps its own; nothing else changes; it panics exactly if a table is missing and no frame is free |
| Paging.Mmu.PgUnmapPages | kernel/mem/paging.c:92-107 | the state after the call, as the loop over words counted from 0 gives it, and, for at most 1024 pages, every word of memory and every bit of the bitmap |
| Paging.UnmapOutcome | kernel/mem/paging.c:92-107 | the first words of the table are cleared, the last frame of memory is marked free, and nothing else changes |
| Paging.EnsureTableKeeps | kernel/mem/paging.c:69-71 | a newly made table adds no mapping anywhere and is shared with nobody |
| Paging.MapLoopWrites | kernel/mem/paging.c:75-89 | for at most 1024 pages the loop rewrites the first words of one table, keeps the rest of it, and keeps the directory's frames and present bits |
| Paging.ApplyEffect | kernel/mem/paging.c:58-107 | one call changes exactly the translations of its own directory whose table index is below `num`, and keeps the invariant that no two directories share a table |
| Paging.RunIsolation | kernel/mem/paging.c:58-107 | noninterference over every run: each translation of a directory is determined by the calls on that directory alone |
| Paging.AlignedMap | kernel/mem/paging.c:58-90 | with a 4 MiB aligned address each page is mapped as asked and every other translation is kept |
| Paging.FirstPageMapped | kernel/mem/paging.c:73-88 | the exact condition under which the first page is mapped as asked, for any alignment |
| Paging.UnmapReleasesLastFrame | kernel/mem/paging.c:102-103 | over every run of map and unmap calls, a frame in use other than the last one of memory stays in use: no frame that is unmapped becomes available |
| Paging.OrFrameIsLast | kernel/mem/paging.c:102-103 | the frame bits of `word | PG_FRAME` are those of the last frame, whatever the word |
| Paging.UnmapBitsIs | kernel/mem/paging.c:95-106 | so the frees of one unmap call clear that one bit of the bitmap |
| Paging.MapPastTable | kernel/mem/paging.c:73-89 | past 1024 pages the loop writes into the frame after the table |
| Paging.Mmu.PgClonePageTable | kernel/mem/paging.c:145-150 | the copy lives in a fresh frame and keeps the flags |
| Paging.Mmu.PgClonePageDir | kernel/mem/paging.c:152-163 | it panics exactly if there are fewer free frames than the directory has tables and one; otherwise the clone translates every page as its source does, shares no table with any directory, and no existing frame or translation changes |
| Paging.CloneDone | kernel/mem/paging.c:152-163 | the copying loop, once done, has established the same |
| Paging.CloneIsPrivate | kernel/mem/paging.c:152-163 | any later run of map and unmap calls on the clone or on its source leaves every translation of the other as it was at the time of cloning |
| Heap.Heap.constructor | kernel/mem/heap.c:19-34 | the new heap is one free block and no record |
| Heap.Heap.SaveAllocatedBlock | kernel/mem/heap.c:43-62 | the record is appended |
| Heap.Heap.FirstFit | kernel/mem/heap.c:79-89 | the first free node that is large enough, or null |
| Heap.Heap.Alloc | kernel/mem/heap.c:91-111 | the linked lists refine the value-level allocation, links included |
| Heap.Heap.ForgetAllocatedBlock | kernel/mem/heap.c:64-77 | faults exactly if the list is empty or the record found has no neighbour on one side; otherwise the size and the shortened list, or -1 |
| Heap.Heap.FreeAsWritten | kernel/mem/heap.c:113-137 | for any address: faults exactly under `FreeFaults`; otherwise the `next` chain is the value-level result, and the `prev` links survive exactly under `PrevLinksSurvive`; an address that is not live is freed as a block of size -1 |
| Heap.Heap.FreeRepaired | kernel/mem/heap.c:113-137 | with the null guards and the `prev` repairs added (additions of the model), freeing a live block refines the value-level free |
| HeapSpec.CreateTiles | kernel/mem/heap.c:19-34 | the invariant holds of a new heap |
| HeapSpec.AllocKeeps | kernel/mem/heap.c:91-111 | an allocation of at least a byte keeps the tiling of the range, the strict order with no two free blocks touching, and the byte total |
| HeapSpec.AllocKeepsIff | kernel/mem/heap.c:91-111 | any allocation keeps them exactly if it is for at least a byte or finds no block |
| HeapSpec.ZeroBytesBreakOrder | kernel/mem/heap.c:91-137 | what a request of 0 bytes leads to: after alloc 0, alloc 8 and two frees of the one address the free list holds a 0-byte block and two blocks that touch and are not joined |
| HeapSpec.FreeKeeps | kernel/mem/heap.c:113-137 | freeing a live block keeps them too, through both merges |
| HeapSpec.RunTiles | kernel/mem/heap.c:91-137 | over every run of allocations of at least a byte and frees of live blocks, the invariant holds |
| HeapSpec.AllocIsLowestGap | kernel/mem/heap.c:91-111 | the address returned is the least at which that many unallocated bytes start; NULL exactly if there is none |
| HeapSpec.LiveDistinct | kernel/mem/heap.c:91-111 | live blocks have distinct addresses |
| HeapSpec.FreeUndoesAlloc | kernel/mem/heap.c:91-137 | freeing what was just allocated restores the heap exactly, also for 0 bytes |
| HeapSpec.FreeReturnsIff | kernel/mem/heap.c:64-130 | as written, freeing a live block meets no null pointer exactly if its record has one before and one behind it and there is a free block below and one above |
| HeapSpec.SameAddressTwice | kernel/mem/heap.c:91-101 | two allocations in a row return the same address exactly if the first asks for 0 bytes and the second fits the first free block |
| HeapSpec.FirstFreeFaults | kernel/mem/heap.c:113-137 | as written, after any run of allocations alone the first free faults |
| CString.Strchr | libk/string.c:74-79 | the index of the first such character, of the terminator for NUL; null exactly if the character is neither in the string nor NUL |
| CString.Strspn | libk/string.c:80-85 | the length of the longest prefix inside the set |
| CString.Strcspn | libk/string.c:86-94 | the length of the longest prefix outside the set |
| CString.Strcpy | libk/string.c:46-51 | the copy is terminated and reads as the source |
| CString.Memcmp | libk/string.c:4-14 | zero exactly if the text occurs at that place; else the sign of the first difference |
| CString.Strstr | libk/string.c:111-123 | the first occurrence, or none exactly if there is none |
| CString.Strtok.Call | libk/string.c:96-109 | one call moves the static cursor past one token, writes one NUL over the delimiter after it, and nothing else |
| CString.Strtok.Next | libk/string.c:96-109 | a following call continues the scan of the original text through the cut buffer |
| CString.Strtok.All | libk/string.c:96-109 | calling until NULL yields the tokens of the original text, and only delimiter positions are overwritten, with NUL |
| CString.TokensAreSpanTexts | libk/string.c:96-109 | the tokens are the texts of the spans the scan finds |
| CString.SpansAreTheMaximalRuns | libk/string.c:96-109 | those spans are exactly the maximal delimiter-free runs, in order (section 7.21.5.8 of ISO C99) |
| Numerals.WriteReversed | libk/string.c:128-133 | the digits, least significant first |
| Numerals.ReverseFirst | libk/string.c:135-139 | the in-place reversal |
| Numerals.ItoaInto | libk/string.c:125-142 | the buffer holds the digits, most significant first, and a NUL |
| Numerals.DigitsIsNumeral | libk/string.c:125-142 | for a non-negative number they are a numeral without leading zero whose value is the number, in every base from 2 to 36 |
| Numerals.NegativeDigits | libk/string.c:129-131 | for a negative number each digit d > 0 of its magnitude is written as the character 87 - d |
| Numerals.NumeralUnique | libk/string.c:125-142 | it is the only such numeral |
| Numerals.ParseInt | libk/string.c:144-164 | the value `atoi` accumulates, with its spaces, sign and stop at the first non-digit |
| Numerals.AtoiReads | libk/string.c:148-163 | spaces, a sign, digits and anything after them: the result is the value of the digits, negated after a minus sign, 0 without digits |
| Numerals.EveryTextSplits | libk/string.c:148-163 | every text is of that form |
| Numerals.AtoiOfItoa | libk/string.c:125-164 | `atoi` undoes `itoa` in base 10 exactly on the non-negative numbers |
| Vfs.Tree.GetChildByName | kernel/fs/vfs.c:136-151 | `.`, `..` and otherwise the first child of that name, or null |
| Vfs.Tree.DotDotIsParent | kernel/fs/vfs.c:139-140 | `..` leads from a child to the node it is a child of, and from the root to itself |
| Vfs.Tree.DotDotDropsComponent | kernel/fs/vfs.c:136-237 | as a path, `..` drops the last component of the path of a node, and `.` none |
| Vfs.Tree.AbsPathTo | kernel/fs/vfs.c:198-217 | the path printed is the slash-joined list of names from the root |
| Vfs.Tree.NodeFromPath | kernel/fs/vfs.c:219-237 | the node resolved is that of the tokens of the path, from the root or from the start node, through the in-place `strtok` |
| Vfs.TokensOfPath | kernel/fs/vfs.c:198-237 | scanning a printed path finds the names again |
| Vfs.PathTextShape | kernel/fs/vfs.c:198-217 | a printed path starts with a slash, has no two in a row, and ends in one for the root only |
| Vfs.Tree.PrintThenParse | kernel/fs/vfs.c:198-237 | printing then parsing returns the node exactly if no node on the way has an earlier sibling of the same name; with unique sibling names, for every node |
| Vfs.Tree.AddChild | kernel/fs/vfs.c:96-118 | exactly one node is added, as the last child; every earlier node keeps its place |
| Vfs.Tree.AddBelow | kernel/fs/vfs.c:96-118 | the names still lead to the parent, and the new node resolves exactly if its name is free there and not `.` or `..` |
| Vfs.Tree.ResolveStaysBelow | kernel/fs/vfs.c:136-151 | names without `..` never lead out of the subtree they start in |
| Tmpfs.SplitIsPath | kernel/fs/tmpfs/tmpfs.c:78-100 | parent, slash and file name give the path back |
| Tmpfs.PathFacts | kernel/fs/tmpfs/tmpfs.c:68-100 | the tokens of an accepted path are those of the parent path and the file name, and none is `..` |
| Tmpfs.Filesystem.ScanLastSlash | kernel/fs/tmpfs/tmpfs.c:78-84 | the backward scan finds the last slash |
| Tmpfs.Filesystem.Create | kernel/fs/tmpfs/tmpfs.c:22-117 | each return code exactly with its cause, for the empty path too, and no other refusal; on success exactly one node is added below the named directory, its inode is 0, its parents lead to the tmpfs root, every earlier node keeps its place, and the path resolves to it exactly if it is not empty and the name was free and not `.` |
| Scheduler.Kernel.PushTask | kernel/multitasking/scheduler.c:34-54 | the task is appended, links and all |
| Scheduler.Kernel.GetTaskByPid | kernel/multitasking/scheduler.c:92-100 | the task with that pid, or null exactly if there is none |
| Scheduler.Kernel.PickNextTask | kernel/multitasking/scheduler.c:102-119 | the next unfinished task in list order, else the head |
| Scheduler.Kernel.Schedule | kernel/multitasking/scheduler.c:187-210 | one timer tick on the linked list, the current task a live one, refines the value-level tick |
| RoundRobin.TickEffect | kernel/multitasking/scheduler.c:187-210 | every slot after a tick: counters with their 32-bit wrap, states, and the current task |
| RoundRobin.PickIsFirst | kernel/multitasking/scheduler.c:102-119 | the choice is the first unfinished task behind the current one, and the head if all of them have finished |
| RoundRobin.TickKeepsOneRunning | kernel/multitasking/scheduler.c:187-210 | at most the current task is in state TS_RUN, and after a switch it is |
| RoundRobin.RunsItsSlice | kernel/multitasking/scheduler.c:187-210 | a dispatched task runs for exactly its slice, then its successor is dispatched |
| RoundRobin.RoundRobinOrder | kernel/multitasking/scheduler.c:102-210 | after the slices of m tasks, the task m places on is dispatched |
| RoundRobin.DispatchedWithin | kernel/multitasking/scheduler.c:102-210 | every task is dispatched within the slices of the others |
| RoundRobin.RoundIsPeriodic | kernel/multitasking/scheduler.c:102-210 | a whole round restores the state |
| RoundRobin.FirstTickDispatches | kernel/multitasking/scheduler.c:58-71 | after mt_init the first tick dispatches the second task, whatever the slice of the first |
| Scheduler.Kernel.MoveToTerminated | kernel/multitasking/scheduler.c:151-165 | the task moves from the live to the terminated list; order and inverse links of the others are kept |
| Scheduler.Kernel.TerminateAsWritten | kernel/multitasking/scheduler.c:147-174 | as written, where it returns: the live and terminated lists after the call, links included; the target, its first live child, the first live child of that one, and so on have moved |
| Scheduler.ChainSplits | kernel/multitasking/scheduler.c:147-174 | they partition the tasks, and those moved are descendants of the target |
| Scheduler.SurvivorsInOrder | kernel/multitasking/scheduler.c:147-174 | the survivors keep their order |
| Scheduler.OrphansIff | kernel/multitasking/scheduler.c:167-173 | moving that chain of first children leaves an orphan exactly if some task on it has a second live child |
| Scheduler.ChainIsDescendantsIff | kernel/multitasking/scheduler.c:147-174 | the chain is exactly the descendants of the target if and only if no task on it has a second live child |
| Scheduler.Kernel.MoveWithinTerminated | kernel/multitasking/scheduler.c:151-165 | terminating again a task of the terminated list that is not its head moves it to the head; order and inverse links of the others are kept |
| Scheduler.Kernel.MoveHeadAgain | kernel/multitasking/scheduler.c:151-165 | terminating the head of the terminated list again makes it its own successor |
| Termination.NeverReturns | kernel/multitasking/scheduler.c:167-173 | behind the first of two children in the terminated list the scan never ends, whatever the number of steps |
| Termination.EndsIff | kernel/multitasking/scheduler.c:147-174 | the code as written returns exactly if no task on the way that has a live child has a terminated child too (by then it is in the terminated list itself, should it be its own parent), and then with the lists above; otherwise it goes on forever |
| Termination.EndsWithoutOrphansIff | kernel/multitasking/scheduler.c:147-174 | it returns and leaves no orphan exactly if, besides, no task on the way has a second live child |
| Termination.MovesDescendantsIff | kernel/multitasking/scheduler.c:147-174 | it returns with exactly the descendants of the target moved if and only if both hold |
| Scheduler.Kernel.TerminateRepaired | kernel/multitasking/scheduler.c:147-174 | with the scan begun again after each recursive call (a repair), the target and exactly its descendants move, the rest keep their order, and it terminates |
| Scheduler.Kernel.PickAfterExit | kernel/multitasking/scheduler.c:102-119 | after a task terminated itself the scheduler picks a task that had been terminated before, if there was one |
| Scheduler.Kernel.ScheduleAfterExit | kernel/multitasking/scheduler.c:187-210 | a tick when the current task has terminated itself: it runs on to the end of its slice, and then that task is switched to, states and counter included |
| Pids.PidGenerator.Exists | kernel/multitasking/scheduler.c:92-100 | the pid lookup as a test |
| Pids.PidGenerator.GenPid | kernel/multitasking/task.c:15-24 | the counter, or after wrap-around the least unused pid; the search ends |
| Pids.CreateKeepsDistinct | kernel/multitasking/task.c:15-24 | a creation keeps live pids distinct exactly if a search is made or the counter is unused |
| Pids.DistinctUpTo65537 | kernel/multitasking/task.c:15-24 | in every run that makes at most 65537 tasks live pids are distinct |
| Pids.SecondAfterWrapCollides | kernel/multitasking/task.c:15-24 | the creation after the search can take a pid in use |
| Pids.BoundIsSharp | kernel/multitasking/task.c:15-24 | a run of 65538 creations with two equal live pids |
| Ata.ReadB | kernel/drivers/ata.c:147-160 | the bytes read are exactly that slice of the disk, for every offset and size, inside both buffers |
| Ata.SectorsRead | kernel/drivers/ata.c:150-156 | the sectors read cover the request; one past the end of the disk is read exactly if the request ends there |
| Ext2Index.NumberLocate | kernel/fs/ext2fs/ext2.c:253-275 | for blocks of at most 4096 bytes each block number below the total has one place, its indices are in range and recombine to it; the others have none |
| Ext2Index.LocateNumber | kernel/fs/ext2fs/ext2.c:253-275 | every place is found from its number, so the numbering is one-to-one |
| Ext2Index.TruePlaceNumber | kernel/fs/ext2fs/ext2.c:252-268 | for blocks of any size the place computed without wrap-around has that number |
| Ext2Index.NothingWraps | kernel/fs/ext2fs/ext2.c:245-268 | with blocks of at most 4096 bytes no 32-bit product wraps around |
| Ext2Index.LevelsRightIff | kernel/fs/ext2fs/ext2.c:245-268 | the 32-bit thresholds are right exactly for block sizes up to 4096 |
| Ext2.DirectOffsetIff | kernel/fs/ext2fs/ext2.c:252-254 | a direct block is found at the address the inode records exactly if that is below 4 GiB |
| Ext2.SingleIndirectIff | kernel/fs/ext2fs/ext2.c:176-196 | where no product wraps around, a singly indirect block is read at the address the table on disk records for it exactly if the partition starts at a multiple of 4 GiB: the start is added twice |
| Ext2.DoubleOffsetIs | kernel/fs/ext2fs/ext2.c:198-215 | where no sum wraps around, the three words read for a doubly indirect block: from the singly indirect pointer, without the start of the partition on the way, at entry numbers in place of byte offsets |
| Ext2.TripleOffsetIs | kernel/fs/ext2fs/ext2.c:219-238 | the same for a triply indirect block, on top of that |
| Ext2.RecordedByTables | kernel/fs/ext2fs/ext2.c:252-282 | what the inode records for those blocks: one word of each table on the way |
| Ext2.OtherPointersUnused | kernel/fs/ext2fs/ext2.c:198-238 | the doubly and triply indirect pointers of an inode are never used; both levels start from the singly indirect one, and add entry numbers where bytes are meant |
| Ext2.InodePlace | kernel/fs/ext2fs/ext2.c:10-24 | an inode number is the record with its index in the table of its group, exactly if that table starts below 4 GiB |
| Ext2.DecodeRecord | kernel/fs/ext2fs/ext2.c:108-113 | decoding an inode record gives the inode back, whatever the fields not read hold |
| LittleEndian.LeastFirst | kernel/fs/ext2fs/ext2.c:108-113 | words are read least significant byte first |
| Ext2.StoredIsRead | kernel/fs/ext2fs/ext2.c:10-113 | the inode read is the one stored under its number |
| Ext2.TypeBits | kernel/fs/ext2fs/ext2.c:122-123 | the test for a directory holds of the types 4 to 7 and 12 to 15, the test for a file of 8 and above |
| Ext2.EncodedAt | kernel/fs/ext2fs/ext2.c:159-160 | entry after entry, the offsets iterated over are those at which the entries start |
| Ext2.DecodeEntry | kernel/fs/ext2fs/ext2.c:159-166 | the fields read at such an offset are those of the entry |
| Ext2Dir.Dir.constructor | kernel/fs/ext2fs/ext2.c:130-151 | the first block is in the buffer, and bp_index is what the memory held: the iterator stands at the first entry of the blocks that are read from there on |
| Ext2Dir.BlocksSkipped | kernel/fs/ext2fs/ext2.c:130-151 | with any 32-bit value left in bp_index, and no block found behind the last one: the blocks gone through, and that they hold the entries of the directory exactly if the value is 0, or there is one block and the value is not 2^32 - 1; that decides the listing if every entry is used, and it does not matter if the first block holds an unused one |
| Ext2.NoBlock | kernel/fs/ext2fs/ext2.c:245-282 | where no block is found: at a direct pointer whose 32-bit address is 0, and at every number past the last |
| Ext2.RecordedBlocks | kernel/fs/ext2fs/ext2.c:252-254 | up to eleven blocks that the inode records, all below 4 GiB, are the blocks the iterator reads from bp_index 0 |
| Ext2Dir.OpenDir | kernel/fs/ext2fs/ext2.c:119-151 | null exactly if the inode is no directory |
| Ext2Dir.Dir.MakeDirent | kernel/fs/ext2fs/ext2.c:153-172 | the entry is described in full and the iterator moves past it |
| Ext2Dir.Dir.Refill | kernel/fs/ext2fs/ext2.c:295-309 | the next block is read exactly if there is one |
| Ext2Dir.Dir.ReadDir | kernel/fs/ext2fs/ext2.c:284-312 | the next entry in disk order, across blocks; null exactly at the end or at an entry without inode |
| Ext2Dir.List | kernel/fs/ext2fs/ext2.c:284-312 | iterating to null lists every entry once, in disk order, up to the first without an inode |
| Ext2Dir.NothingDropped | kernel/fs/ext2fs/ext2.c:290-291 | every used entry is listed exactly if none follows an unused one, and every entry exactly if all are used |
| Ext2Populate.Populate | kernel/fs/vfs.c:270-299 | the walk ends, and below the given node, and nowhere else, there is a node for every entry listed, that is up to the first without an inode, but `.` and `..`, with name, type and inode, in disk order; it is a directory exactly if the entry has type 2, and then so on down the tree |
| Ext2Populate.TypeValues | kernel/fs/ext2fs/ext2.c:381-400 | the types of entries and nodes by their numbers: exactly 2 becomes a directory, 1 |
| Ext2Populate.MountExt2 | kernel/fs/vfs.c:301-307 | the same for a whole partition, from inode 2 |
| Ext2Populate.RecordedTree | kernel/fs/vfs.c:301-307 | the inodes and blocks recorded on the partition from a number on are the tree that the walk from it finds |
| Ext2Populate.PathsFindInodes | kernel/fs/vfs.c:219-299 | below a mounted tree, resolving a path in the namespace finds a node with the inode the path has on disk through listed entries, and none exactly if it leads nowhere there |
| Ext2File.ReadRange | kernel/fs/ext2fs/ext2.c:335-378 | the buffer after the read: only the part of the range in its first block is read, and a NUL is stored at the index of the file's size if the range goes on; the count is that asked for unless a hole is met |
| Ext2File.ReadFile | kernel/fs/ext2fs/ext2.c:321-378 | for the inode stored under the number: refused exactly on size, type and length; otherwise as above, and in a range inside the file whose first block the code locates, the bytes of that block, as the inode records them, arrive and the others stay |
| Ext2File.NulStored | kernel/fs/ext2fs/ext2.c:343-376 | the NUL at the index of the file's size is stored exactly if the range reaches the end of its first block |
| Ext2File.HoleIff | kernel/fs/ext2fs/ext2.c:360-363 | among the direct blocks the read stops at a pointer whose 32-bit address is 0 |
| Ext2File.ByteOfBlock | kernel/fs/ext2fs/ext2.c:335-378 | a byte of the file is the byte at its place in the block recorded for it, and zero in a hole |
| Ext2File.FirstBlockArrives | kernel/fs/ext2fs/ext2.c:353-378 | the bytes read from a located first block are those of the file as the inode and its tables record them |
| Ext2File.DirectLocatedIff | kernel/fs/ext2fs/ext2.c:252-254 | a direct block is located exactly if it is no hole and starts below 4 GiB |
| Ext2File.SingleLocatedIff | kernel/fs/ext2fs/ext2.c:176-196 | a singly indirect one, where no product wraps around, exactly if it is no hole and the partition starts at a multiple of 4 GiB |
| Ext2File.OtherLevelsNotFound | kernel/fs/ext2fs/ext2.c:198-238 | of two inodes that differ in the doubly and triply indirect pointers only and record different blocks for a number, at most one has it located |
| Ext2File.InFirstIsAll | kernel/fs/ext2fs/ext2.c:343-347 | that part is the whole range exactly if its last byte is in the same block, the block boundary included |
| Ext2File.RightForEveryBufferIff | kernel/fs/ext2fs/ext2.c:343-378 | so a range inside the file whose first block is located arrives right whatever the buffer held before exactly if its last byte is in the block of its first |
| Pipe.RingBuffer.constructor | kernel/fs/pipe.c:8-18 | indices are zero and valid_data_size is what the allocator left |
| Pipe.RingBuffer.ReadByte | kernel/fs/pipe.c:20-31 | one byte is taken, on 8-bit indices |
| Pipe.RingBuffer.WriteByte | kernel/fs/pipe.c:33-43 | one byte is put, the count clamped to the size |
| Pipe.RingBuffer.Write | kernel/fs/pipe.c:57-66 | the queue gains all bytes, if they fit |
| Pipe.RingBuffer.Read | kernel/fs/pipe.c:45-55 | the bytes read are the front of the queue |
| Pipe.SoundIndices | kernel/fs/pipe.c:20-43 | write_index is (read_index + valid_data_size) modulo the capacity, which is the size or 256 |
| Pipe.PutAppends | kernel/fs/pipe.c:33-43 | below capacity a write appends to the queue, 8-bit wrap included |
| Pipe.DropRemovesFirst | kernel/fs/pipe.c:20-31 | a read removes the first |
| Pipe.RunIsFifo | kernel/fs/pipe.c:20-43 | in every interleaving that fits, queued then written is read then queued: nothing is lost, repeated or reordered |
| Pipe.OverflowIsReadNext | kernel/fs/pipe.c:33-43 | on a full ring the byte written is the next one read, in place of the oldest |
| Pipe.OverflowQueue | kernel/fs/pipe.c:20-43 | on a full ring of at most 256 bytes, up to a whole ring's worth of writes end up at the front of what is read next, before the younger of the bytes they did not replace |
| Pipe.OverflowLargeRing | kernel/fs/pipe.c:20-43 | in a larger ring the count passes the 256 slots, and the byte written is read first and once more at the end |
| Pipe.PendingIsRead | kernel/fs/pipe.c:20-31 | a read takes the first of those bytes, whether the indices agree or not |
| Pipe.PendingOfSound | kernel/fs/pipe.c:20-31 | while the indices agree they are the queue |
| Pipe.MadeIsFifoIff | kernel/fs/pipe.c:8-43 | a new ring is a FIFO in every run that fits if and only if valid_data_size happened to be 0 |
| Tar.GetSize | kernel/fs/initrd/initrd.c:72-78 | the octal number of the field modulo 2^32, whatever the eleven bytes |
| Tar.OctalHead | kernel/fs/initrd/initrd.c:74-75 | the sum of weighted digits is the positional value |
| Tar.OctalRoundTrip | kernel/fs/initrd/initrd.c:72-78 | a number written in octal digits is read back |
| Tar.Parse | kernel/fs/initrd/initrd.c:80-106 | every member is visited once, in order, with its name, type, body address and size; the walk stops at the empty name, returns the number of members, and writes nothing but each header's own address into it |
| Tar.MemberLayout | kernel/fs/initrd/initrd.c:80-106 | the layout of a member by its byte offsets: size field, type, body and the next header |
| Tar.NameLayout | kernel/fs/initrd/initrd.c:90-92 | the name of a node starts two bytes into the header and ends at a NUL |
| Tar.StampedIsArchive | kernel/fs/initrd/initrd.c:100 | with those writes the memory still holds the same archive |
| Tar.SameVisits | kernel/fs/initrd/initrd.c:80-106 | so a second walk visits the same |
| Tar.InitrdRead | kernel/fs/initrd/initrd.c:42-50 | the bytes copied and their number |
| Tar.ReadIsCutIff | kernel/fs/initrd/initrd.c:44-47 | a read is cut at the end of the file exactly if offset + size does not wrap around, and from the end on it is empty |
| Tar.ReadOfMember | kernel/fs/initrd/initrd.c:48 | a read inside a visited member is that slice of its body |

## Left out

- Pmm.FrameAllocator.PmmInit: the bitmap is given its full width, because the source sizes it in bytes where it means words; memory-map entries have the size field 20, so both loops step alike; the sum of the available regions is below 4 GiB.
- Pmm: a memory-map entry has no `len_hi`, which the source does not read; the bump allocator `pmalloc` is taken as an allocator that succeeds.
- Paging.Mmu.PgMapPages: what the loop does past 1024 pages is stated by `MapPastTable` for the frame after the table only.
- Paging: flags are the low 12 bits of a word; TLB invalidation, CR3 loads and the page-fault handler are not modelled. Table frames are reached at their physical address, as if they were identity-mapped. Frame addresses are those of `pg_*` arguments, so `pg_init` appears only through the calls it makes.
- Heap.Heap.FreeAsWritten: a null dereference is an outcome of its own, although page 0 is mapped; merged sizes are unbounded sums, which differ from the 32-bit ones only after an address that is not live has been freed.
- Heap.Heap.FreeRepaired, Heap.Heap.ForgetRepaired, Scheduler.Kernel.TerminateRepaired: repairs of the source, not the source.
- HeapSpec.RunTiles: requests of 0 bytes are outside the run theorem, because they break the invariant (`AllocKeepsIff`, `ZeroBytesBreakOrder`).
- Heap: the `usr` field, `krealloc` and heap expansion.
- Vfs: node names and printed paths are text values, while `strtok`, `strcpy` and the resolver's copy of the path work on 256-byte buffers; paths have fewer than 256 characters. `vfs_make_node`, `vfs_free_node`, `vfs_show_tree` and the file operation pointers are not modelled.
- Vfs.Tree.AbsPathTo: names are non-empty, slash-free and neither "." nor "..", as the printed path means nothing otherwise.
- Tmpfs.Filesystem.Create: the byte before an empty path is a parameter; the byte copied past the NUL of the file name, and the read and write pointers of the new file.
- Numerals.ParseInt: sums that overflow an `int`, which C leaves undefined.
- Scheduler.Kernel.TerminateAsWritten: stated on the linked lists where it returns; that it returns nowhere else is `Termination.EndsIff`, on the lists as values, where the moves it makes on the way are those of `MoveToTerminated` and `MoveWithinTerminated`.
- Scheduler.Kernel.Schedule: stated for a current task that is in the live list; `ScheduleAfterExit` is the tick after the current task has terminated itself, while no task has ended in state TS_FIN, which the source never sets.
- Scheduler: `tasks_count` stays 0 in the source, so its test in `mt_schedule` is omitted; `mt_switch_task` is the assignment to `cur_task`; stacks, page directories and file descriptors of a task are left out, and so is `task_destroy`. The cleaner task that empties the terminated list is not modelled.
- Pids: pids are those of the live list; the counter is 32 bits wide, far above every value it takes here.
- Ata.ReadB: sector transfers are a copy from the disk; the 28-bit block number, the port handshakes and the 32-bit size argument of `memcpy` are not modelled.
- Ext2.BlockOffset: the result is a function of inode and disk. The blocks of a directory are those at the offsets it gives; `RecordedBlocks` ties up to eleven direct ones to the inode, and for the singly indirect level `SingleIndirectIff` says when they are the recorded ones.
- Ext2Dir.Dir.constructor: `bp_index` is a parameter, and `Ext2Populate` takes it as 0, which is what the source's `memset` was meant to give.
- Ext2Dir.BlocksSkipped: an initial value from which the code finds a block behind the last one, such as a number of the indirect levels; what it reads there is no block of the directory.
- Ext2Populate.Populate: permissions, sizes and read pointers of the new nodes; a directory entry whose inode is no directory, on which the source dereferences null; hard links that make the tree cyclic.
- Ext2File.ReadFile: what the buffer holds when a hole is met on the way. The buffer reaches past the file's size where the source stores a NUL at that index.
- Ext2: group descriptors are a function; the superblock, its checks and `ext2_init` are not modelled.
- Pipe.RingBuffer.ReadByte: waiting for a byte; the state machine of runs has the read enabled instead. A ring of size 0, on which the source divides by zero.
- Tar.Parse: the nodes that `vfs_make_node` builds; a visit records what they are given. The name ends before the field `offset`, byte 160 of the header, as it does in the ustar format. An archive whose headers are not followed by a body of the stated size, as for links.
- Spinlocks, terminal, keyboard and other drivers, interrupt and descriptor tables, the shell, system calls, the user-space library, and the binary tree and list modules.
