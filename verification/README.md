# LevOS5: memory, scheduling, files and messages, modelled and proved in Dafny

This project models the parts of the LevOS5 kernel in which the hard reasoning sits and proves what
they are meant to guarantee. `dafny verify dfyconfig.toml` checks everything.

**The heap (mm/malloc.c).** `LibAlloc.Heap` is liballoc statement by statement. Major and minor headers
are records addressed by pointer (address 0 is null), list links are addresses, the four static
variables and the counters are fields, memory is the 4 GiB byte sequence. `HeapLayout` is the shape the
headers stand for: runs of pages, each with its blocks in address order and, between them, gaps. Every
placement case of malloc puts the new header at the low end of a gap. `HeapSteps` says what malloc, free
and realloc do to that shape and proves the laws; `HeapLinks` and `HeapState` tie the shape to the
doubly linked headers, the counters, the best-bet hint and the alignment bytes; `HeapRuns` speaks about
whole runs, `HeapHint` about the hint in them. The page hook is a parameter: `page` is the answer `liballoc_alloc` gives if malloc asks,
0 for failure, and it must be a run inside the address space that overlaps no run still held.
`KernelHeap` discharges that for x86, down to the bitmap, and `KernelHeapRuns` runs the two together.

**Pages (lib/bitmap.c, arch/x86/paging.c, mm/phymem.c).** `Bitmap` keeps the probe of `get_bitmap` as it
is written (the byte is tested against the bit number, not against the bit) and says exactly when the
search is right all the same. `KernelPages` is the x86 page hook, `Phymem` the physical allocator,
`Paging` the page tables, judged by the page walk of the Intel SDM, volume 3A, section 4.3.

**Scheduler (kernel/scheduler.c).** `Scheduler.State` is the process table; `RoundRobin` holds the
fairness laws over all runs of switches, and `SchedulerRuns` shows that any interleaving of the
scheduler's operations is such a run. **ext2 (fs/ext2).** `Ext2File` reads a whole file, `Ext2Inode`
reads, writes and locates inodes. **Mounts (fs/vfs.c, lib/string.c).** `Vfs`. **Messages
(kernel/dbus.c, kernel/mutex.c).** `Dbus` is a step relation over any number of senders; every listener
slot a send looks at is a step of its own, and spawning a stub may fail. **Terminal
(tty/tty.c, mm/memcpy.c).** `Tty`.

Inputs the model takes as parameters: answers of malloc inside other parts, of the page hook, of file
system probes, and the contents of disk blocks. Sizes and addresses are unbounded integers; where the
32-bit width matters it is written out or stated as a bound.

## Where the code and its comments or intent differ

The model follows the code.

- `l_bestBet` is commented as the major with the most free memory. It is null or a listed major, and malloc
  moves it only to a roomier one. `HeapHint.RunRoomiestIff` says exactly which steps keep the comment true:
  malloc from the hint can leave it behind another run, a run obtained in CASE 1 is never compared, one
  obtained in CASE 5 is compared before it serves the request, freeing the last block of the hinted run
  makes the hint null, and free compares as signed ints. `HeapHint.HintCommentFails` is a run from the empty
  heap in which the comment fails twice.
- `get_bitmap` reads bit 8k as clear always and never sees bits 3 to 7 of a byte. `Bitmap.SafeIffMarked`
  is the exact condition under which every request of two or more pages still gets free pages; one page
  always means page 0 (`Bitmap.OnePageIsZero`), so two single-page requests collide
  (`Phymem.SinglePagesCollide`). Freeing can leave a map that is not filled from the front: then a request
  of nine pages gets one in use (`Phymem.NinePages`), and `Phymem.WrittenTracksIff` is the exact condition.
  The kernel heap asks for 16 pages or more and never clears a bit, so it is safe as written.
- CASE 4.1 of malloc neither clears the block nor records it; `LibAlloc.Heap.Malloc` says so exactly.
- `scheduler_add_process` returns the pid, or 0 on failure, the other way round from its comment.
- `tty_generic_read` compares with `<=`; `Tty.Terminal.GenericRead` says when that takes a byte too many,
  and `Tty.OneTooMany` is a run in which it does.
- `SIZE_OF_SINGLY` overflows from 64 KiB blocks on: `Ext2File.SinglySpanIff`. Files without a doubly indirect
  part are still read right there; the doubly indirect part is put elsewhere (`Ext2File.DoublyStartIff`).
- A dbus send does not look whether its stub could be created. The hand-off works in a run exactly if no
  send meets a harmful match after its stub and none ends its loop without one (`Dbus.RunIntactIff`); for a
  loop nothing interrupts, exactly if one stub was spawned and its listener was the last match
  (`Dbus.OneStubIff`). With one matching listener and a full process table the call never returns
  (`Dbus.FullTableNeverReturns`).
- `__find_mount` never ends for some relative paths: `Vfs.NeverEnds`.

## Model

| member | source | states |
|---|---|---|
| HeapLayout.GapWithinFree | mm/malloc.c:382-396 | no gap of a run is wider than size minus usage |
| HeapLayout.PagesLeast | mm/malloc.c:242-255 | the page count holds request and headers, is at least 16, and is the least such |
| HeapSteps.UsageFilterSafe | mm/malloc.c:393-424 | a run the usage counter rules out holds no gap for the request, so CASE 1 never skips a fit |
| HeapSteps.LiveBlocksApart | mm/malloc.c:109-132 | two different live blocks, headers included, share no byte, in one run or across runs |
| HeapSteps.FitFromFirst | mm/malloc.c:380-626 | the scan from a run on returns the first fitting gap in list and address order, or none exists |
| HeapSteps.SearchComplete | mm/malloc.c:365-642 | starting at the hinted run and restarting once, the search fails exactly when no front, inner or tail gap of any run fits |
| HeapSteps.SearchOrder | mm/malloc.c:365-626 | the gap taken is the lowest of the first run with one, from the start on, and only then from the root |
| HeapSteps.MallocEffect | mm/malloc.c:431-590 | one block more, 32 bytes larger than asked for, directly behind what lies below it; every other block is one there was |
| HeapSteps.FreeEffect | mm/malloc.c:729-755 | exactly the one block goes |
| HeapSteps.NullIff | mm/malloc.c:417-419 | malloc returns null exactly when nothing fits anywhere and the page hook fails |
| HeapSteps.InsertedWf | mm/malloc.c:431-590 | a block placed in a fitting gap keeps runs and blocks ordered, disjoint and contained, and raises the in-use total by its size only |
| HeapSteps.RemovedWf | mm/malloc.c:729-755 | removing a block keeps the layout well formed and lowers both totals exactly, the run going with its last block |
| HeapSteps.FreeUndoesInsert | mm/malloc.c:464-590 | freeing a block just placed in a gap gives back the layout there was |
| HeapSteps.FreeUndoesGrow | mm/malloc.c:602-621 | freeing a block for which a run was obtained gives back the layout there was |
| HeapSteps.FreeAllEmpties | mm/malloc.c:729-755 | freeing all live blocks in any order leaves no run and zero totals |
| HeapLinks.LinkedOk | mm/malloc.c:474-573 | linking a header into a gap leaves every doubly linked minor list consistent |
| HeapLinks.UnlinkedOk | mm/malloc.c:736-741 | unlinking a header leaves every doubly linked minor list consistent |
| HeapLinks.SplicedOk | mm/malloc.c:748-751 | taking a run out leaves the doubly linked list of majors consistent |
| HeapState.LivePointers | mm/malloc.c:65-91 | every live pointer is the first 16-aligned address 40 bytes or more above its header, the byte 16 below it is the distance back, its requested bytes lie in its own block, UNALIGN leads back to its own intact header, and no two live blocks meet or share a pointer |
| HeapState.BarePointer | mm/malloc.c:83-91 | which header a pointer leads to for every value of the byte 16 below it |
| HeapState.OverrunByte | mm/malloc.c:680-684 | a possible overrun is counted exactly if the lowest byte is that of the magic number |
| HeapState.PlacedConsistent | mm/malloc.c:428-590 | a placement keeps both lists, usage, counters, hint and every alignment byte right |
| HeapState.NextRun | mm/malloc.c:404-415 | moving on or restarting loses no gap the whole search would find; at the end of the second pass there is none |
| HeapState.PayloadWritten | mm/malloc.c:448-457 | stores into the requested bytes of one block disturb neither the allocator nor any other block |
| HeapState.MallocKeepsBytes | mm/malloc.c:293-642 | malloc changes no byte of any block there was |
| HeapState.BytesKept | mm/malloc.c:293-886 | the same, byte by byte |
| HeapState.FreshPayload | mm/malloc.c:448-589 | a new block is zero if it is first in its run or another lies above it; behind the last of others only the stamp was written |
| LibAlloc.Heap.constructor | mm/malloc.c:135-141 | the heap starts empty with null root, null hint and zero counters |
| LibAlloc.Heap.Deliver | mm/malloc.c:67-80 | ALIGN: the pointer, its stamp, and nothing else changed but, if asked, the cleared payload |
| LibAlloc.Heap.AllocateNewPage | mm/malloc.c:237-287 | page count for a request, at least 16; the new major header; on failure only the warning counter |
| LibAlloc.Heap.Grow | mm/malloc.c:417-421 | a new run is chained at the end, or nothing changes if the hook fails |
| LibAlloc.Heap.ChooseStart | mm/malloc.c:365-378 | the search starts at the best bet exactly when its free space exceeds the request by a header, else at the root, and from there it will still find what there is |
| LibAlloc.Heap.NoteBest | mm/malloc.c:382-390 | the hint moves to the run at hand exactly if that is roomier |
| LibAlloc.Heap.LinkFirst | mm/malloc.c:431-445 | CASE 2 produces the linked headers of a first block |
| LibAlloc.Heap.LinkFront | mm/malloc.c:467-485 | CASE 3 produces the linked headers of a block in front |
| LibAlloc.Heap.LinkTail | mm/malloc.c:512-534 | CASE 4.1 produces the linked headers of a block behind the last |
| LibAlloc.Heap.LinkInner | mm/malloc.c:551-575 | CASE 4.2 produces the linked headers of a block between two |
| LibAlloc.Heap.ScanMinors | mm/malloc.c:505-594 | finds the block behind which the first fitting gap lies, exactly if there is one |
| LibAlloc.Heap.Advance | mm/malloc.c:396-421 | next run, one restart from the root, or one growth; each makes progress |
| LibAlloc.Heap.SearchRuns | mm/malloc.c:380-626 | the loop terminates, asks for pages at most once, and ends where the whole search ends |
| LibAlloc.Heap.Malloc | mm/malloc.c:293-642 | new layout, pointer, the exact hint, counters and memory; pages asked for exactly when nothing fits; payload cleared except behind a last block |
| LibAlloc.Heap.Unlink | mm/malloc.c:729-741 | the header dies, its neighbours are joined, usage and in-use drop by its size |
| LibAlloc.Heap.ReleaseRun | mm/malloc.c:746-755 | an empty run leaves the list, root, hint and total and goes back to the hook |
| LibAlloc.Heap.RaiseHint | mm/malloc.c:756-766 | the freed run becomes the hint exactly if it is roomier as a signed int |
| LibAlloc.Heap.Free | mm/malloc.c:652-775 | null, dead and live pointers: a live block alone is removed, anything else changes counters only |
| LibAlloc.Heap.Memcpy | mm/malloc.c:167-190 | words then bytes: the target holds the source bytes, nothing else changes, if target is below or apart |
| LibAlloc.Heap.Shrink | mm/malloc.c:869-876 | only the recorded request changes |
| LibAlloc.Heap.Move | mm/malloc.c:880-885 | the requested bytes arrive in the new block, every other live byte stays, the old block is freed |
| LibAlloc.Heap.Realloc | mm/malloc.c:797-886 | all five outcomes, with layout, pointer, hint and page requests; no byte of any other live block changes, and a moved or new block holds what it should |
| HeapRuns.RunsStayGood | mm/malloc.c:293-775 | every state of every run of malloc, free and realloc is well formed with a null or listed hint |
| HeapRuns.MallocThenFree | mm/malloc.c:293-755 | malloc then free restores the layout and returns exactly a run obtained for it |
| HeapSteps.RunningBest | mm/malloc.c:382-390 | comparing runs in order leaves the old hint or the first of the roomiest runs compared, roomier than it; none compared is roomier |
| HeapHint.HintAfterMalloc | mm/malloc.c:365-449 | the hint after any malloc: the old one or a roomier run, none visited roomier, and a new run exactly if CASE 5 or a first call obtained it and it is roomiest |
| HeapHint.MallocRoomiestIff | mm/malloc.c:365-449 | a malloc, served, growing in CASE 1 or CASE 5, or failing, keeps the hint the roomiest run if and only if its condition on the state before holds |
| HeapHint.FreeRoomiestIff | mm/malloc.c:744-766 | a free keeps the hint the roomiest run if and only if it does not drop a hinted run while others have room, and the signed comparison can be trusted |
| HeapHint.RunRoomiestIff | mm/malloc.c:136 | in any run the comment on the hint is true throughout if and only if every step meets its condition |
| HeapHint.HintCommentFails | mm/malloc.c:136 | a run of five calls from the empty heap in which the comment is false after the third and the fifth |
| Bitmap.SetBitmap | lib/bitmap.c:6-8 | sets the one bit |
| Bitmap.UnsetBitmap | lib/bitmap.c:10-12 | clears the one bit |
| Bitmap.FindVacant | lib/bitmap.c:20-33 | the least start with that many clear probes in a row |
| Bitmap.BitmapFindZero | lib/bitmap.c:18-40 | the least such start, and the bitmap with that run set; 0 for no pages |
| Bitmap.SetRunBits | lib/bitmap.c:34-35 | exactly the bits of the run become set |
| Bitmap.ProbeExactIffZero | lib/bitmap.c:14-16 | the written probe agrees with the bits of a byte only if the byte is zero |
| Bitmap.WrittenProbeSees | lib/bitmap.c:14-16 | which of the bits 0 to 2 of a byte the written probe sees for each bit number |
| Bitmap.MarkedStart | lib/bitmap.c:18-40 | on a bitmap filled from the front, two or more pages start at the first zero byte |
| Bitmap.SafeIffMarked | lib/bitmap.c:14-40 | every request of two or more pages gets free pages if and only if the used bytes are a prefix, each with bit 0 set |
| Bitmap.OnePageIsZero | lib/bitmap.c:14-40 | a request of one page always gets page 0 |
| KernelPages.MmAllocPages | arch/x86/paging.c:124-127 | the address of the least vacant run and the bitmap after it |
| KernelPages.MmFreePages | arch/x86/paging.c:129-137 | returns 0 and leaves the bitmap alone |
| KernelPages.GrantMarked | arch/x86/paging.c:124-127 | where a request lands, and that the bitmap stays filled from the front |
| KernelPages.DisjointIffNoLateSingle | arch/x86/paging.c:124-137 | all runs handed out are pairwise disjoint if and only if no request after the first is for one page |
| KernelPages.StartsOnFirstZeroByte | lib/bitmap.c:18-40 | in every sequence of requests, each run of two or more pages starts on the first byte of the map that is still zero |
| KernelHeap.HookKept | arch/x86/paging.c:124-137 | the x86 page hook keeps the promise liballoc relies on |
| KernelHeap.KernelHeapSafe | mm/malloc.c:50-64 | in every run of the kernel heap all live blocks are disjoint and inside the 4 MiB window |
| KernelHeapRuns.Malloc | mm/malloc.c:50-53 | liballoc over mm_alloc_pages on the map itself: not null, and one step of the kernel heap |
| KernelHeapRuns.Realloc | mm/malloc.c:797-886 | realloc over the map is a path of at most two steps of the kernel heap |
| KernelHeapRuns.Session | mm/malloc.c:293-886 | any calls in any order, up to one not allowed, make a run of the kernel heap, so all live blocks stay disjoint and inside the window |
| Phymem.AllocTracks | mm/phymem.c:65-73 | allocating free pages keeps the bitmap the disjoint union of the live ranges |
| Phymem.FreeTracks | mm/phymem.c:78-87 | giving a range back keeps the bitmap the disjoint union of the live ranges |
| Phymem.TracksIffFree | mm/phymem.c:65-73 | an allocation keeps the bitmap the disjoint union of the live ranges if and only if the pages it takes were free |
| Phymem.WrittenTracksIff | mm/phymem.c:65-73 | as written, every request of two or more pages does so if and only if the used bytes are a prefix of the map, each with bit 0 set |
| Phymem.NinePagesCollide | mm/phymem.c:65-87 | as written, after two ranges of two pages and a free of the first, nine pages start at page 0 although page 8 is in use |
| Phymem.NinePages | mm/phymem.c:35-87 | the same as a run of the allocator from its start |
| Phymem.UndoIffFree | mm/phymem.c:92-111 | freeing with the allocated size undoes an allocation exactly if the pages were free |
| Phymem.SinglePagesCollide | mm/phymem.c:65-73 | as written, two single pages in a row are the same page |
| Phymem.Allocator.InitLevelTwo | mm/phymem.c:35-58 | panics out of order; otherwise an empty bitmap with a bit for every page and at most eight to spare |
| Phymem.Allocator.AllocPages | mm/phymem.c:65-73 | panic before initialisation; else least vacant run, bitmap and live ranges |
| Phymem.Allocator.FreePages | mm/phymem.c:78-87 | panic before initialisation; else exactly that range is cleared |
| Phymem.Allocator.Alloc | mm/phymem.c:92-100 | the pages for a size exceed it by at least a byte and at most a page |
| Phymem.Allocator.Free | mm/phymem.c:105-111 | the pages for the size are given back |
| Phymem.Allocator.AllocThenFree | mm/phymem.c:92-111 | with an exact probe, alloc and free of one size leave everything as it was |
| Paging.InitializePt | arch/x86/paging.c:23-28 | the table maps 4 MiB linearly and nothing else is written |
| Paging.LinearEntries | arch/x86/paging.c:18-28 | entry i of a table is the address of page i with present and writable set |
| Paging.PagingInit | arch/x86/paging.c:32-70 | the boot directory, word for word, and its two tables |
| Paging.BootWalk | arch/x86/paging.c:32-70 | the first 4 MiB map to themselves, the heap window behind them, nothing else is mapped |
| Paging.CreateNewPageDirectory | arch/x86/paging.c:82-107 | three windows walk as intended; stored table and returned directory are physical addresses |
| Paging.WindowsAre | arch/x86/paging.c:82-107 | where the three windows lead, address by address |
| Paging.UserWindowExactIff | arch/x86/paging.c:18-28 | the user window starts at paddr if and only if paddr is page aligned |
| RoundRobin.HopTowards | kernel/scheduler.c:403-423 | an occupied entry is never jumped over |
| RoundRobin.LowestAbove | kernel/scheduler.c:406-423 | the entry picked is the lowest in use above the cursor, or else the lowest of the table |
| RoundRobin.PickedWithinTurn | kernel/scheduler.c:403-414 | a slot that stays occupied is picked within 32 switches whatever is added or killed |
| RoundRobin.ThreadWithinTurns | kernel/scheduler.c:403-423 | every thread of a process that stays resident runs within 512 switches |
| RoundRobin.EachExactlyOnce | kernel/scheduler.c:403-414 | with an unchanged table of m residents any m switches pick each exactly once |
| Scheduler.State.CreateNewThread | kernel/scheduler.c:54-129 | fills the next thread slot or fails without effect |
| Scheduler.State.CreateNewProcess | kernel/scheduler.c:216-267 | a process with one thread and the next pid, or null |
| Scheduler.State.AddProcess | kernel/scheduler.c:356-389 | first free slot and the pid, or 0 and no change |
| Scheduler.State.IsPidRunning | kernel/scheduler.c:269-280 | true exactly if some slot holds that pid |
| Scheduler.State.KillSelf | kernel/scheduler.c:298-307 | the first slot of the current process is emptied |
| Scheduler.State.KillPid | kernel/scheduler.c:328-348 | afterwards no slot holds that pid and every other slot is as it was; 0 exactly if one was emptied |
| Scheduler.State.SelectProcess | kernel/scheduler.c:406-414 | terminates at the lowest occupied slot above the cursor, or else the lowest of the table |
| Scheduler.State.SelectThread | kernel/scheduler.c:415-423 | terminates at the lowest thread slot in use above the process's cursor, or else the lowest |
| Scheduler.State.Switch | kernel/scheduler.c:403-426 | one switch is a turn of every process in the sense of the fairness laws |
| SchedulerRuns.Session | kernel/scheduler.c:54-426 | any operations in any order, up to one not allowed, make a session of switches and steps that leave the cursors alone |
| SchedulerRuns.SessionTakesTurns | kernel/scheduler.c:403-426 | in every session the switches are consecutive turns of every process that stays in the table |
| SchedulerRuns.ProcessRuns | kernel/scheduler.c:406-414 | in every session a process that stays in the table is picked within 32 switches |
| SchedulerRuns.ThreadRuns | kernel/scheduler.c:403-423 | in every session each thread of a process that stays in the table runs within 512 switches |
| SchedulerRuns.EachRunsOnce | kernel/scheduler.c:403-414 | in every session over an unchanged table of m residents, m switches pick each exactly once |
| Ext2File.ReadBlock | fs/ext2/block.c:14-19 | one block of the buffer is filled |
| Ext2File.PointersDecode | fs/ext2/file.c:90-97 | a block that stores ids lowest byte first is read as those ids |
| Ext2File.BlockMapDecodes | fs/ext2/file.c:146-168 | the block map in terms of the ids stored on disk: 12 direct, then the singly indirect list, then list after list the doubly indirect ones |
| Ext2File.ReadSingly | fs/ext2/file.c:80-101 | the listed blocks fill the buffer in order and nothing else is written |
| Ext2File.ReadDoubly | fs/ext2/file.c:107-128 | the blocks of the inner lists fill the buffer in order and nothing else is written |
| Ext2File.DoublyEntry | fs/ext2/file.c:107-128 | the doubly indirect part has as many entries as asked for, and entry x of the doubly indirect part is entry x mod n of inner list x div n |
| Ext2File.SinglySpanIff | fs/ext2/file.c:74 | the 32-bit size of a singly indirect block is right exactly below 64 KiB blocks |
| Ext2File.DoublyStartIff | fs/ext2/file.c:165-168 | the doubly indirect part is put behind the direct and singly indirect blocks exactly below 64 KiB blocks |
| Ext2File.ReadFileFull | fs/ext2/file.c:135-170 | the buffer holds the file in logical order; hangs exactly on a direct block outside the volume |
| Ext2File.BlockPlaced | fs/ext2/file.c:135-170 | logical block k lies at bytes k*b to (k+1)*b, the rest of the buffer is untouched |
| Ext2Inode.Locate | fs/ext2/inode.c:61-79 | the seeks compute the location function |
| Ext2Inode.AddressLaw | fs/ext2/inode.c:61-79 | the place of an inode is 128 bytes for each inode of its group before it, from the block its group's descriptor names |
| Ext2Inode.WrittenBytes | fs/ext2/inode.c:90-116 | a write changes exactly the 128 bytes at that place |
| Disks.WordDecodes | fs/ext2/inode.c:66-70 | a 32-bit number stored lowest byte first is read back |
| Ext2Inode.LocationInjective | fs/ext2/inode.c:124-143 | different inodes live in different places |
| Ext2Inode.WriteThenRead | fs/ext2/inode.c:59-116 | after writing i, reading j gives the written value if i = j and the old one otherwise |
| Ext2Inode.Volume.ReadInode | fs/ext2/inode.c:59-83 | the 128 bytes at the inode's location |
| Ext2Inode.Volume.WriteInode | fs/ext2/inode.c:90-116 | exactly those bytes of exactly that block are replaced |
| Ext2Inode.Volume.GetInodeBlock | fs/ext2/inode.c:124-143 | the same location function |
| Vfs.Strlen | lib/string.c:5-10 | the number of characters before the terminator |
| Vfs.Strcmp | lib/string.c:12-19 | zero exactly for equal strings, else the difference at the first differing place |
| Vfs.StrBackspace | lib/string.c:21-35 | the string is cut behind its last separator, not counting its last character |
| Vfs.FindMount | fs/vfs.c:91-119 | the longest mount location that is the path or a proper prefix ending in a slash; 0 if none |
| Vfs.LongestMeans | fs/vfs.c:91-119 | the location found leads to the path or a slash in it, and no longer one does |
| Vfs.NeverEnds | fs/vfs.c:97-117 | a relative path without a mounted candidate never leaves the loop |
| Vfs.ResidualPath | fs/vfs.c:140-143 | location without its last character plus residual path is the full path |
| Vfs.Table.CheckMount | fs/vfs.c:20-30 | the device mounted at a location, or null |
| Vfs.Table.TryToMount | fs/vfs.c:43-89 | each return code, and locations stay distinct |
| Dbus.SlotKeepsIff | kernel/dbus.c:53-67 | one slot of the loop leaves the hand-off intact if and only if it is not a harmful match after a stub was spawned |
| Dbus.DoneKeepsIff | kernel/dbus.c:53-68 | the end of the loop leaves it intact if and only if a stub was spawned; otherwise nobody is left to unlock |
| Dbus.RunIntactIff | kernel/dbus.c:39-71 | in every interleaving the hand-off is intact throughout if and only if every step meets these conditions |
| Dbus.StubsCaptureTheirOwn | kernel/dbus.c:42-48 | in every interleaving of such steps each stub copies its own sender's message and listener |
| Dbus.ReturnsAfterCapture | kernel/dbus.c:50-71 | a send returns only after its stub has copied both and given the lock back |
| Dbus.NoStubNeverReturns | kernel/dbus.c:53-70 | after a loop that spawned no stub the lock is never given back, unless another send spawns a second stub |
| Dbus.ScanResult | kernel/dbus.c:53-67 | an uninterrupted loop spawns one stub per match that can be spawned, and leaves the globals on the last match |
| Dbus.ScanListeners | kernel/dbus.c:53-67 | exactly the matching one-shot listeners leave the table, spawned or not |
| Dbus.ServedBySlots | kernel/dbus.c:53-67 | a stub is for a listener of that code whose spawn worked, and every such listener has one |
| Dbus.LastBySlots | kernel/dbus.c:57-64 | the last match is the last listener of that code in slot order |
| Dbus.OthersLeftAlone | kernel/dbus.c:55-57 | a listener for another code gets no stub and keeps its slot |
| Dbus.OneStubIff | kernel/dbus.c:50-68 | an uninterrupted send leaves the hand-off intact if and only if exactly one stub was spawned and its listener was the last match |
| Dbus.OneMatchIff | kernel/dbus.c:57-66 | with one matching listener, intact if and only if its stub could be spawned |
| Dbus.FullTableNeverReturns | kernel/dbus.c:65-69 | with one matching listener whose stub could not be spawned, the call never returns |
| Dbus.SeveralMixUp | kernel/dbus.c:57-66 | a stub spawned for another listener than the last match copies the wrong one |
| Dbus.SentReached | kernel/dbus.c:50-68 | the state an uninterrupted send ends in is reached by steps, so the condition on it is about runs |
| Dbus.StuckRun | kernel/dbus.c:50-69 | a run from the quiet bus with one listener and a full process table, at the end of which nobody is left to unlock |
| Dbus.MixUpRun | kernel/dbus.c:42-66 | a run from the quiet bus with two listeners in which the stub of the first copies the second |
| Dbus.SpawnStub | kernel/dbus.c:65 | a stub is spawned exactly if every malloc works and the process table has a free slot |
| Tty.Memcpy | mm/memcpy.c:3-22 | the odd byte and the pairs amount to a forward byte copy |
| Tty.MoveIff | mm/memcpy.c:3-22 | the copy is a correct move of every content exactly if the target does not start inside the source |
| Tty.Terminal.PushByte | tty/tty.c:65-72 | the byte joins the end of the queue |
| Tty.Terminal.CopyOut | tty/tty.c:89-98 | how many bytes are copied, and which |
| Tty.Terminal.GenericRead | tty/tty.c:78-111 | takes the front of the queue exactly when the request stays inside it or a zero follows it |
| Tty.OneTooMany | tty/tty.c:89-105 | after a full buffer and a one-byte read, a read of the whole buffer takes one byte more than was waiting and the length wraps |
| Tty.FifoOrder | tty/tty.c:65-111 | nothing is lost, invented or reordered |
| Tty.ReadAnswers | tty/tty.c:78-111 | a one-byte read answers with the oldest byte whenever one is waiting |
| Tty.Session | kernel/syscall.c:29 | any run of non-zero pushes and one-byte reads is a FIFO queue |

## Left out

- LibAlloc.Heap.Malloc: does not model 32-bit wrap-around of request sizes; it requires that the size computations fit.
- LibAlloc.Heap.Realloc: requires that the malloc inside a growing realloc succeeds, because the source uses its result unchecked.
- LibAlloc.Heap.Free: headers overwritten since they were freed are outside the model; a pointer must lead to intact header bytes. The same holds for `Realloc`, whose live pointer is the one handed out.
- KernelPages.MmAllocPages: requires that the request fits the map; the source's search would run past its end.
- Phymem.Allocator.AllocPages: once initialised, requires a vacant run, for the same reason.
- Phymem.Allocator.Alloc: the same requirement; clearing the pages is left out.
- Phymem.Allocator.Free: requires a range handed out for that size, as FreePages does.
- Phymem.Allocator.FreePages: once initialised, requires a range that was handed out with that length, which the source does not check.
- Ext2File.ReadFileFull: from 64 KiB blocks on, files with a doubly indirect part are left out, where the part lands in the wrong place; holes and triply indirect blocks too.
- Ext2File.ReadDoubly: from 64 KiB blocks on, only a part with one inner list is covered.
- Vfs.FindMount: requires a non-empty path; `str_backspace` wraps its index on the empty one.
- Paging.CreateNewPageDirectory: says nothing about directory entries it does not write, which hold whatever malloc returned.
- Vfs.Table.TryToMount: requires a free entry, which the source does not check.
- Tty.Terminal.PushByte: requires room in the buffer, which the source does not check, and a byte other than zero, which would end every later read.
- Tty.Terminal.GenericRead: requires that the copy loop ends before it looks behind the buffer, which a request longer than the buffer need not.
- Tty.Terminal.CopyOut: the same requirement.
- KernelHeapRuns.Session: stops at a malloc or realloc for which the map has no run, even if liballoc could serve it.
- Dbus.StubsCaptureTheirOwn: switches happen only between the modelled steps, so the test and set of the mutex are one step, and so is the work on one listener slot.
- calloc, the per-process allocation table of `post_allocation`, and preemption inside malloc.
- Context switch, interrupts, descriptor tables, timers, port I/O and all device drivers.
- `replace_page`, `sys_fork`, ELF loading, and freeing of a killed process's resources.
- `ext2_read_file`, block and inode allocation, directory walks and path lookup inside ext2; the inode is given.
- Separation of physical allocator frames from kernel heap frames, which the address ranges do not give.
- procfs, dummyfs, the system call layer, console, display and network code.
