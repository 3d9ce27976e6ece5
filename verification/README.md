# helos1: memory management, scheduler and in-place algorithms, verified

A model of the hard parts of the helos1 kernel in Dafny, with proofs of what they promise. The code
that changes state is modelled as classes and methods with the source's own loops and branches; each
method is proved against a pure description of its effect, and the properties are proved about that
description.

Check it with `dafny verify dfyconfig.toml` (Dafny 4.11).

| Component | Files |
|---|---|
| Heap allocator (dlmalloc as configured here) | `Words`, `Tries`, `TrieLinks`, `BinIndex`, `BestFit`, `TreeBins`, `SmallBins`, `Binning`, `Arena`, `HeapSteps`, `HeapBytes`, `DlMalloc`, `KernelBreak` |
| Page frames | `Bitmap`, `Physical` |
| Page tables | `PageEntry`, `PageTables`, `TableNeeds`, `Paging`, `Translation` |
| Treap with father pointers | `TreapSpec`, `Treap` |
| Scheduler | `Waiting`, `SchedulerSpec`, `Scheduler` |
| Mutexes and conditions | `Sync`, `SyncRuns`, `Parking`, `Blocking` |
| Word copy, UTF-8, terminal scrolling | `Memcpy`, `Utf8`, `Screen` |

## How to read it

**Heap.** `DlMalloc.MallocState` has the fields of malloc_state; heads and feet of chunks are maps from
addresses. `Arena.Ok` is the invariant behind dlmalloc's debug checks: chunks tile the segment up to top,
each PINUSE bit tells whether the chunk before is in use, a free chunk's foot holds its size, no two free
chunks are adjacent. `Binning.Matches` says that the small lists and the tries hold exactly the free
chunks other than dv, each in the bin of its size. Both hold after every `Malloc` and `DlFree`, and
`InUse` changes by exactly the chunk handed out or given back. The tree bins are proved in three layers:
tries as values (`Tries`), one store at a time in the records (`TrieLinks`), and the pointer code
(`TreeBins`). `KernelBreak` puts the page tables under the heap: every chunk lies on mapped pages.

**Pages.** Frames hold raw 64-bit words. `PageTables.Walk` is the processor's 4-level walk (Intel SDM
volume 3A, section 4.5), with the rights of all levels combined; mapping and unmapping are stated as
changes of that walk for every virtual page. `Translation` gives the same walk in numbers, from the bits of a
byte address and of the entries to a byte address (`Translation.TranslateIsWalk`). The frame allocator marks tables and pages in the same bitmap.
`TableNeeds.Missing` counts the tables that a range lacks; mapping takes exactly that many frames.

**Treap.** `Treap.TreapTree` is the pointer structure; a ghost shape and the context of a node in it give
the tree as a value, and each operation is shown to do to that value what `TreapSpec` says.

**Scheduler.** `Scheduler.Processor` runs on that treap. `SchedulerSpec` describes the same steps on the
run queue as a map, and proves safety over all runs and the starvation bound. What one switch does is also
stated on the fields of the threads alone (`SchedulerSpec.Loaded`, `Requeued`, `Kept`).

**Mutexes and conditions.** `Parking.Kernel` has the records. The ghost set `held` collects a pair (thread,
mutex) for everyone who is let in; that it never holds two threads for one mutex is `SyncRuns.MutualExclusion`,
over all runs from a kernel without objects. `Blocking` joins this protocol to the scheduler in one kernel
(`Blocking.RunTogether`).

## Where the code and its description disagree

- Deleting a just inserted tree node restores the shape exactly when no node of greater priority passed on
  its right has the priority of the next node passed on its left (`TreapSpec.DeleteUndoesInsert`):
  insertion stops below an equal priority, deletion goes right on ties.
- `BitmapWriteOne` and `BitmapWriteZero` on an empty range at a word boundary write the words on both sides
  (`Bitmap.RangeWriteIff`).
- smp_Condition_NotifyAll returns true, not the number of threads its header promises
  (`Parking.Kernel.NotifyAll`).
- `smp_thread_Start` does not look whether its key is taken (`SchedulerSpec.StartIffFreeKey`); two starts in
  one tick with the same niceness lose a thread (`SchedulerSpec.TwoStartsCollide`).
- `__smp_Switch` leaves the processor idle exactly when no queued thread is runnable (`SchedulerSpec.IdlesIff`),
  and so beside a runnable thread exactly when the current thread was the only runnable one
  (`SchedulerSpec.IdlesBesideWorkIff`); a lone thread meets this at once (`SchedulerSpec.LoneThreadIdles`).
- `smp_thread_Sleep` does not take its caller off the processor, however long it was to sleep, exactly when there
  is a thread that could run but every such thread has a key behind the caller's (`SchedulerSpec.SleepSkippedIff`).
  A thread that was taken off comes back only when the time is over (`SchedulerSpec.SleepsThrough`).
- `__smp_Switch` returns early to a current thread that is parked, exactly when a runnable thread waits behind
  its key (`Blocking.ParkedStaysIff`). Mutexes and conditions rely on Yield not coming back before the wait was
  cleared; it does not exactly where there is no early return (`Blocking.YieldSafeIff`). smp_Mutex_Lock then
  comes back with data 0 while the mutex is held (`Blocking.LockComesBackEarly`), and two threads and a tick
  are enough for that (`Blocking.EarlyReturnHappens`).
- on_text (extlib/libvterm/state.c:224-235) gives the decoder one slot for each byte, taking that to be the most
  it can need. That is enough for all chunks exactly when no sequence was left unfinished by the chunk before
  (`Utf8.OnTextFitsIff`); after [0xC3], the chunk [0xC3, 0x41] puts out three codepoints
  (`Utf8.TwoBytesThree`). Text that is valid UTF-8 never needs more, wherever it is cut (`Utf8.TextFits`).
- The heap's address range runs over the kernel stack and the kernel's code (memory/memory.h:13-16);
  memory_AddBreak compares with the start of the heap only. A page in use there keeps its translation exactly
  when the break does not move past its start (`KernelBreak.HeapBreak.AddBreak`); with the heap grown to the
  stack, one byte more takes the stack page away (`KernelBreak.LosesTheStack`). dlmalloc moves the break at most
  to a limit given by what the client holds (`HeapBytes.BreakLimit`).
- paging_map_FreeAllocated on a range that cuts a huge page unmaps pages outside the range; it frees exactly the
  range if and only if no huge page sticks out of it (`Paging.PageMap.FreeAllocated`).
- A freed frame comes back only if its word is not yet behind the cursor of the frame allocator
  (`Physical.PhysicalMemory.FreedComesBack`).
- vterm_scroll_rect along both axes at once leaves part of the exposed strips unerased, and a scroll by
  nothing erases the rectangle (`Screen.ExactIffOneAxis`).
- The decoder replaces U+FFFE and U+FFFF, which section 3 of RFC 3629 allows (`Utf8.RoundTripIff`).
- tree_InsertNode reads `*added` even when the caller passed no pointer (util/tree.c:77); the model has
  `added` as a result.

## Preconditions that come from the source

- memory_AddBreak: no huge page in the range of the new pages, frames enough for them and for the page tables
  they lack, and the break stays below the last page of the address space.
- paging_map_Page: no huge page in the range, and a frame left for each table that the paths of the range
  lack (the allocator returns 0 when exhausted). paging_map_Page2M: the same, with no 1G page in the range.
  paging_map_PageAllocated: one frame more per page, since its loop does not end otherwise.
  paging_map_FreeAllocated: the frames of the pages it meets are in the bitmap and hold no page table, and the
  address does not wrap around behind a huge page that is cut at the end.
- The frame bitmap covers all of the conventional memory that the firmware lists.
- Scheduler: keys do not pass 2^64; a new thread's key is free and its wait record empty.
- Mutexes and conditions: timeout 0, only a thread that holds the mutex unlocks it, and Yield comes back to a
  parked thread only after its wait was cleared.
- memcpy: source and destination are disjoint and memory is a whole number of words.
- decode_utf8: the codepoints that the call puts out fit the array (`Utf8.Fits`).

## Model

| member | source | states |
|---|---|---|
| `Arena.LayoutForgetsHistory` | extlib/dlmalloc/malloc.c:3253-3284 | two valid heaps with the same base in which the client holds the same chunks have the same chunks, free sizes and top, whatever was allocated and freed before |
| `Arena.Disjoint` | extlib/dlmalloc/malloc.c:3219-3224 | chunks do not overlap |
| `Arena.Covered` | extlib/dlmalloc/malloc.c:3423-3451 | every address from a chunk up to top lies in some chunk: the chunks tile the segment |
| `Arena.PrevFree` | extlib/dlmalloc/malloc.c:3253-3263 | a clear PINUSE bit leads through prev_foot to the free chunk that ends there, and the chunk itself is in use |
| `Arena.FreeIsPinuse` | extlib/dlmalloc/malloc.c:3264-3284 | a free chunk stands after a chunk in use: no two free chunks are adjacent |
| `Arena.TakeWholeOk` | extlib/dlmalloc/malloc.c:3054-3065 | handing out a whole free chunk keeps the heap invariant, adds exactly it to what the client holds, and removes exactly it from what is free |
| `Arena.SplitOk` | extlib/dlmalloc/malloc.c:4611-4616 | splitting a free chunk keeps the heap invariant; the client gets the first part and the rest is free at its size |
| `Arena.TakeTopOk` | extlib/dlmalloc/malloc.c:4658-4663 | splitting top keeps the heap invariant and gives the client exactly the old start of top |
| `Arena.GrowOk` | extlib/dlmalloc/malloc.c:3896-3908 | init_top on the same top with more bytes keeps the heap invariant and every chunk |
| `Arena.MergeOk` | extlib/dlmalloc/malloc.c:4714-4764 | turning a run of chunks into one free chunk keeps the heap invariant, including tags, foot and non-adjacency, and removes exactly that run |
| `Arena.MergeTopOk` | extlib/dlmalloc/malloc.c:4734-4745 | merging a run into top keeps the heap invariant and removes exactly that run |
| `HeapSteps.FreedBins` | extlib/dlmalloc/malloc.c:4703-4777 | after merging a freed chunk with its free neighbours the client holds everything but that chunk, and the bins (with dv) must hold exactly the stated chunks in each of the three cases of dv |
| `HeapSteps.FreedTopBins` | extlib/dlmalloc/malloc.c:4734-4745 | the same when the freed run ends at top, with dv given up when it was part of the run |
| `HeapSteps.CutToDv` | extlib/dlmalloc/malloc.c:4604-4616 | splitting a binned chunk and making the rest dv: what the client holds, and what the bins hold once the old dv is back in them |
| `HeapSteps.CutBinned` | extlib/dlmalloc/malloc.c:4488-4495 | splitting a binned chunk and binning the rest: what the client and the bins hold |
| `HeapSteps.FirstReady` | extlib/dlmalloc/malloc.c:4176-4187 | the first pages make a valid heap in which nothing is held and nothing is free below top |
| `DlMalloc.Padded` | extlib/dlmalloc/malloc.c:2231-2236 | a request is padded to the least aligned size of at least 32 that leaves room for it and its head word; small requests are exactly those below the least large size |
| `DlMalloc.MallocState.Malloc` | extlib/dlmalloc/malloc.c:4544-4678 | for every request size: keeps the whole heap invariant and gives the client one new chunk that overlaps nothing it holds, of exactly the size needed or a whole free chunk that leaves too little for another. Which chunk: a small request gets a binned chunk of just its size if there is one, else dv if that is large enough, else a smallest binned chunk that fits; a large one a smallest free chunk that fits, dv only on a tie; otherwise the start of top. What becomes of dv in each case. The break moves only when nothing free, nor top, is large enough, by exactly the pages needed; failure only when the address range of the heap is used up |
| `DlMalloc.MallocState.MallocBinned` | extlib/dlmalloc/malloc.c:4572-4636 | the search of the bins: which binned chunk it takes, or that dv is to serve the request, or that nothing free fits; what it makes of dv |
| `DlMalloc.NewHeapServes` | extlib/dlmalloc/malloc.c:4176-4238 | a new heap serves every request that its address range has room for |
| `HeapBytes.Tiled` | extlib/dlmalloc/malloc.c:3423-3451 | the heap up to top is the held and the free chunks, and there are at most as many free ones as held ones |
| `HeapBytes.BreakBound` | extlib/dlmalloc/malloc.c:4658-4670 | when neither a free chunk nor top fits, the break is bounded by the bytes held, the number of held chunks and the request |
| `DlMalloc.MallocState.DlFree` | extlib/dlmalloc/malloc.c:4682-4789 | keeps the whole heap invariant and takes exactly the freed chunk from the client; dv is afterwards the free chunk that contains the old one, unless that became part of top; the null pointer changes nothing |
| `DlMalloc.MallocState.MallocThenFree` | extlib/dlmalloc/malloc.c:4544-4789 | freeing a chunk just allocated restores the chunks, what is free and where top starts |
| `DlMalloc.MallocState.TMallocLarge` | extlib/dlmalloc/malloc.c:4434-4502 | returns a chunk exactly when the least fitting tree chunk fits strictly better than dv; it is the best fit over everything free, and the rest of a split goes to its bin; also for sizes whose bin index is narrowed |
| `DlMalloc.MallocState.TMallocSmall` | extlib/dlmalloc/malloc.c:4505-4540 | with a non-empty tree map always serves a small request from the smallest chunk of all trees, the rest becoming dv |
| `DlMalloc.MallocState.MallocSmall` | extlib/dlmalloc/malloc.c:4575-4627 | the small-request search: a binned chunk of exactly the size whenever there is one; otherwise nothing if dv is large enough, and if not a smallest binned chunk that fits, with the rest as dv; nothing only when no binned chunk fits or dv does |
| `DlMalloc.MallocState.UseSmallBin` | extlib/dlmalloc/malloc.c:4582-4593 | a chunk of a marked small bin no more than a word too large has exactly the requested size and is handed out whole |
| `DlMalloc.MallocState.SplitSmallBin` | extlib/dlmalloc/malloc.c:4596-4620 | the next non-empty small bin serves the request with a chunk of that bin's size, its rest becoming dv if it makes a chunk |
| `DlMalloc.MallocState.ReplaceDv` | extlib/dlmalloc/malloc.c:3634-3643 | the old dv, always small here, goes to its small bin |
| `DlMalloc.MallocState.UseDv` | extlib/dlmalloc/malloc.c:4638-4656 | dv serves the request and its rest is dv, or there is no dv when the rest is too small |
| `DlMalloc.MallocState.MoreCore` | extlib/dlmalloc/malloc.c:4052-4168 | asks for exactly the pages that top lacks, or for those of the whole request at first and after a contiguous call has failed; fails exactly with the break unmoved, no room for the whole request, and contiguous calls given up |
| `DlMalloc.MallocState.ContiguousCore` | extlib/dlmalloc/malloc.c:4083-4115 | the contiguous call moves the break by what top lacks exactly when that stays below the end of the address space |
| `DlMalloc.MallocState.SysAlloc` | extlib/dlmalloc/malloc.c:4037-4243 | serves the request from the start of old or new top, the break moving by exactly the pages needed, or changes nothing and the break cannot move |
| `DlMalloc.MallocState.AddBreak` | memory/heap_break.c:10-26 | as dlmalloc sees it, the break moves by exactly the increment unless the address wraps |
| `KernelBreak.HeapBreak.AddBreak` | memory/heap_break.c:10-26 | moves the break by the increment, up or down, in 64 bits, unless that takes it below the heap, which returns -1; maps exactly the missing pages to frames that were not in use; every byte below pageBreak is then mapped for writing, and not for execution where the processor can forbid it; a page in use behind the heap keeps its translation exactly when the break does not move past its start |
| `KernelBreak.HeapIsMapped` | memory/heap_break.c:16-21 | every byte of every chunk, and of top, is on a page that is mapped for writing, and not for execution where the processor can forbid it |
| `KernelBreak.LosesTheStack` | memory/memory.h:13-16 | with the heap grown to the kernel stack, one byte more changes the translation of the stack page |
| `DlMalloc.MallocState.FreeToBin` | extlib/dlmalloc/malloc.c:4752-4777 | a freed run becomes dv or goes to the bin of its size |
| `DlMalloc.MallocState.FreeIntoTop` | extlib/dlmalloc/malloc.c:4734-4745 | a freed run next to top becomes part of top |
| `DlMalloc.MallocState.FreeIntoDv` | extlib/dlmalloc/malloc.c:4746-4751 | a freed run before dv becomes the new start of dv |
| `DlMalloc.NextSmall` | extlib/dlmalloc/malloc.c:4600-4602 | the bit tricks on the small map find the next marked bin above idx, with none between |
| `DlMalloc.Placement` | extlib/dlmalloc/malloc.c:4544-4678 | from what the bin search came to, which chunk serves a small or a large request when one fits, and that the search finds nothing exactly when nothing free fits |
| `Binning.NoneBetween` | extlib/dlmalloc/malloc.c:4596-4602 | between unmarked places of the small map there are no small chunks of those sizes |
| `Binning.Bins.InsertChunk` | extlib/dlmalloc/malloc.c:3789-3791 | adds exactly the chunk to the bins, in the bin of its size |
| `Binning.Bins.UnlinkChunk` | extlib/dlmalloc/malloc.c:3793-3795 | takes exactly the chunk out of the bins |
| `Binning.Bins.UnlinkFirst` | extlib/dlmalloc/malloc.c:3615-3630 | takes out a chunk whose size is that of the bin |
| `Binning.BestBinned` | extlib/dlmalloc/malloc.c:4482-4483 | the best fit of the trie searches is the best fit over all large binned chunks; none found means none fits |
| `Binning.NoneLarge` | extlib/dlmalloc/malloc.c:4622-4622 | an empty tree map means no large chunk is binned |
| `Binning.NoneSmall` | extlib/dlmalloc/malloc.c:4596-4596 | clear small map bits from an index on mean no small chunk of that size or more is binned |
| `TreeBins.TreeBins.InsertLarge` | extlib/dlmalloc/malloc.c:3648-3697 | the pointer code inserts the chunk into its bin as Tries.Insert does, keeping all bins linked, the map bits right and the bins disjoint |
| `TreeBins.TreeBins.UnlinkLarge` | extlib/dlmalloc/malloc.c:3716-3785 | the pointer code removes the chunk from its bin as Tries.Remove does, also when an interior node is replaced by a leaf, keeping the same invariant |
| `TreeBins.TreeBins.FindBestFit` | extlib/dlmalloc/malloc.c:4434-4480 | path walk, deepest untaken right subtree, next marked bin and leftmost descent find a smallest chunk of size at least nb over all tree bins, or there is none; from 2^40 bytes on it starts in any bin and chooses nothing |
| `TreeBins.TreeBins.FindSmallest` | extlib/dlmalloc/malloc.c:4505-4520 | finds a smallest chunk over all tree bins |
| `TreeBins.TreeBins.SearchBin` | extlib/dlmalloc/malloc.c:4440-4462 | the walk down the bin of nb ends with an exact fit, or the best so far and a subtree that holds any better fit |
| `TreeBins.TreeBins.SearchLeftmost` | extlib/dlmalloc/malloc.c:4473-4480 | the leftmost descent finds the least size of a subtree whose sizes all fit |
| `TreeBins.NextMarked` | extlib/dlmalloc/malloc.c:4463-4471 | left_bits and least_bit select the next non-empty bin, the first that may hold a fit |
| `Tries.InsertSpec` | extlib/dlmalloc/malloc.c:3648-3697 | insertion keeps a bin a bitwise trie of unique sizes with same-size rings and adds exactly the chunk |
| `Tries.RemoveSpec` | extlib/dlmalloc/malloc.c:3716-3785 | removal keeps a bin a bitwise trie and removes exactly the chunk, replacing interior nodes by a rightmost leaf |
| `BinIndex.TreeIndexSpec` | extlib/dlmalloc/malloc.c:2838-2849 | the computed index is that of the bin whose sizes share the leading bits |
| `BinIndex.BinOrder` | extlib/dlmalloc/malloc.c:2910-2912 | a bin of smaller index holds only smaller sizes |
| `BinIndex.TreeIndexOfHugeSizes` | extlib/dlmalloc/malloc.c:2838-2849 | from size 2^40 on, where the size is narrowed to 32 bits, the index is right exactly when the low 32 bits of the shifted size reach the last bin |
| `TreeBins.HugeMoved` | extlib/dlmalloc/malloc.c:4444-4461 | for a size that no chunk has, every remainder wraps around to at least the one the search starts with, and the walk still ends |
| `BinIndex.SignBit` | extlib/dlmalloc/malloc.c:2905-2907 | the sign bit of the shifted size is the bit that selects the child at each height |
| `BestFit.SearchLeft` | extlib/dlmalloc/malloc.c:4452-4460 | going left keeps the best fit among the best so far, the subtree below and the deepest right subtree passed by |
| `BestFit.LeftmostStep` | extlib/dlmalloc/malloc.c:4473-4480 | one step of the leftmost descent loses no better fit |
| `SmallBins.SmallBins.InsertSmall` | extlib/dlmalloc/malloc.c:3570-3586 | pushes the chunk to the front of the circular list of its size and sets the map bit |
| `SmallBins.SmallBins.UnlinkSmall` | extlib/dlmalloc/malloc.c:3589-3612 | removes exactly the chunk from its list; the map bit is clear exactly when the list is empty |
| `SmallBins.SmallBins.UnlinkFirst` | extlib/dlmalloc/malloc.c:3615-3630 | removes the front chunk of a list |
| `Words.LeastBitIsolates` | extlib/dlmalloc/malloc.c:2930-2930 | x & -x is the lowest set bit and nothing else |
| `Words.LeftBitsSpec` | extlib/dlmalloc/malloc.c:2933-2933 | left_bits of one bit is the mask of the higher bits |
| `Bitmap.FillBitsSpec` | memory/paging_physical.c:9-15 | the mask has exactly the bits begin to last, in all three branches |
| `Bitmap.RangeWritten` | memory/paging_physical.c:17-39 | a range write sets or clears exactly the bits in [begin, end) |
| `Bitmap.RangeWriteIff` | memory/paging_physical.c:17-39 | that holds on every bitmap exactly when the range is not an empty one at a word boundary other than 0; such a range overwrites two whole words |
| `Physical.PhysicalMemory.constructor` | memory/paging_init.c:67-102 | all frames are marked but those of the listed ranges of conventional memory; the end page is behind the last of them |
| `Physical.PhysicalMemory.WriteRange` | memory/paging_physical.c:17-39 | the loop writes the words that Bitmap.Written describes |
| `Physical.PhysicalMemory.NextFrame` | memory/paging_physical.c:85-99 | hands out a frame that was free, marks it and only it, zeroes it, or returns 0 exactly when none is left from the cursor on |
| `Physical.PhysicalMemory.AllocateFrames` | memory/paging_physical.c:82-103 | hands out as many distinct, aligned, previously free, zeroed frames as are left, at most the number asked for, and marks exactly these; asked for more, it has handed out every free frame from its cursor on and no other |
| `Physical.PhysicalMemory.AllocateFrames2M` | memory/paging_physical.c:105-128 | hands out as many 2M-aligned blocks as there are empty groups of eight words left, at most the number asked for; they were wholly free, are distinct and zeroed, and exactly they are marked |
| `Physical.PhysicalMemory.NextBlock` | memory/paging_physical.c:107-125 | hands out a block that was wholly free, or 0 exactly when no aligned group of eight empty words is left from the cursor on |
| `Physical.PhysicalMemory.FreeFrame` | memory/paging_physical.c:130-136 | clears exactly the marks of the frames; a misaligned address changes nothing; clearing no frames at a word boundary clears the two words around it |
| `Physical.PhysicalMemory.FreedComesBack` | memory/paging_physical.c:82-136 | a freed frame is handed out again exactly when its word lies from the cursor to the end |
| `Physical.LiveAdded` | memory/paging_physical.c:82-128 | a block that was unmarked is disjoint from every live block, and live blocks stay marked, aligned and pairwise disjoint |
| `Physical.LiveFreed` | memory/paging_physical.c:130-136 | freeing keeps the live blocks outside the freed run marked, aligned and disjoint |
| `Physical.FreeLiveBlock` | memory/paging_physical.c:130-136 | freeing a live block takes exactly that one from the live blocks |
| `PageEntry.EntryRoundTrip` | memory/paging_map.c:39-41 | address and flags read from an entry are those it was made of, for every page size |
| `Translation.StoredEntry` | memory/paging_map.c:39-41 | the number stored for a page: its address plus 1, plus 2 for write, 128 for a huge page and 2^63 against execution |
| `Translation.EntryNumbers` | memory/paging_internal.h:35-47 | the flags and address fields of any entry as quotients and remainders of its number, for all three address masks |
| `Translation.TranslateIsWalk` | memory/paging_map.c:14-45 | the processor's translation of every byte address, read off the bits of the address and of the entries in up to four tables, gives the walk's frame and the offset, with the rights of all levels, or a fault exactly where the walk finds nothing |
| `PageTables.Reach` | memory/paging_map.c:17-37 | the walk from the root passes through every table whose place is on the page's path |
| `PageTables.OneParent` | memory/paging_map.c:20-33 | every table but the root is referenced by exactly one entry |
| `PageTables.SetLeafView` | memory/paging_map.c:39-41 | setting or clearing an entry changes the translation of exactly the pages under it |
| `PageTables.SetLeaf` | memory/paging_map.c:69-76 | setting or clearing an entry keeps the tables a tree, without the page table it cut off |
| `PageTables.AddTableView` | memory/paging_map.c:20-33 | a blank table behind an empty entry changes no translation |
| `PageTables.AddTable` | memory/paging_map.c:20-33 | a blank table behind an empty entry keeps the tables a tree |
| `Paging.PageMap.MapPages` | memory/paging_map.c:12-48 | page k of the range goes to frame k with the asked rights, every other translation stays, and exactly as many frames are taken and marked as tables were missing on the paths of the range, each referenced by one entry |
| `Paging.PageMap.Descend` | memory/paging_map.c:20-24 | one step down makes the table if it is missing, and takes a frame exactly then |
| `TableNeeds.PathsPart` | memory/paging_map.c:16-47 | the tables that a part of the range lacks are those of the whole that its earlier parts did not make |
| `TableNeeds.PathsBound` | memory/paging_map.c:17-37 | n consecutive pages need one page table for each 512 pages touched, one directory for each 512 of those, and so on |
| `Paging.PageMap.MapPages2M` | memory/paging_map.c:50-83 | over empty entries, 2M pages and page tables alike the range is mapped as asked, other translations stay, and every replaced page table is given back to the bitmap |
| `Paging.PageMap.MapOne2M` | memory/paging_map.c:54-82 | one round: the frame of the page table that stood there loses its mark, and no other table goes |
| `Paging.PageMap.PageAllocated` | memory/paging_map.c:114-131 | every page of the range maps to its own fresh frame, which was free, is marked and holds no table; the frames taken are one for each page and one for each missing table |
| `Paging.PageMap.FreeAllocated` | memory/paging_map.c:152-194 | only loses translations; leaves nothing in the range and everything outside exactly when no huge page sticks out of the range, and then exactly the frames of the range lose their marks |
| `Paging.PageMap.FreeStep` | memory/paging_map.c:155-193 | one round unmaps the page of any size that the address lies in, frees its frames and advances by its size |
| `Paging.PageMap.AllocateThenFree` | memory/paging_map.c:114-194 | pages allocated to an unmapped range and freed again leave all translations and the bitmap as they were, but for new page tables |
| `TreapSpec.InsertKeepsTreap` | util/tree.c:72-82 | insertion keeps search and heap order and adds exactly the key |
| `TreapSpec.DeleteKeepsTreap` | util/tree.c:113-130 | deletion keeps search and heap order |
| `TreapSpec.DeleteKeys` | util/tree.c:113-130 | deletion removes exactly the given key |
| `TreapSpec.RunIsTreap` | util/tree.c:49-130 | after every sequence of insertions and deletions the tree is ordered, and holds exactly the keys and priorities that the sequence leaves |
| `TreapSpec.ShapeIsUnique` | util/tree_internal.h:57-60 | with distinct priorities the shape is determined by the (key, priority) pairs |
| `TreapSpec.ShapeForgetsHistory` | util/tree.c:72-130 | two histories that leave the same pairs, with distinct priorities, leave the same shape |
| `TreapSpec.DeleteUndoesInsert` | util/tree.c:72-130 | deleting a just inserted node restores the previous shape exactly when no node of greater priority that it passed on the right has the priority of the next node passed on the left |
| `TreapSpec.InsertPlace` | util/tree_internal.h:57-60 | after insertion the nodes above the new one are those of its search path up to the first of greater priority, equal ones included |
| `TreapSpec.TieIsNotRestored` | util/tree.c:113-119 | a tree that insertion and deletion do not restore: the new node goes between two nodes of equal priority |
| `Treap.TreapTree.InsertNode` | util/tree.c:72-82 | the pointer code keeps father and child links in agreement and turns the tree into TreapSpec.Insert of it; `added` says whether the key is new, and the node of the key is returned |
| `Treap.TreapTree.InsertNodes` | util/tree.c:49-70 | finds the key, or hangs a new leaf in its place |
| `Treap.TreapTree.Rotate` | util/tree_internal.h:40-54 | the three connections rotate the node over its father, keep all links in agreement and update the root |
| `Treap.TreapTree.Adjust` | util/tree_internal.h:57-60 | rotates up until the father's priority is not greater |
| `Treap.TreapTree.Delete` | util/tree.c:113-130 | the pointer code turns the tree into TreapSpec.Delete of it, keeps links in agreement, unlinks exactly the node, and terminates |
| `Treap.TreapTree.FindNode` | util/tree.c:89-102 | finds the node of a key, or null exactly when the key is absent |
| `Treap.TreapTree.FirstNode` | util/tree.c:133-140 | the node of the least key, null only in an empty tree |
| `Treap.TreapTree.LastNode` | util/tree.c:142-149 | the node of the greatest key, null only in an empty tree |
| `Treap.TreapTree.Next` | util/tree.c:152-164 | the node of the next greater key, null only for the greatest |
| `Treap.TreapTree.Previous` | util/tree.c:167-179 | the node of the next smaller key, null only for the least |
| `Scheduler.Processor.Switch` | smp/kthread_switch.c:33-88 | on the treap itself, and on the threads' own fields: a thread that is loaded has its sleep over and is not waiting, or its wait has run out; the processor idles exactly when no queued thread is like that; the current thread stays exactly when the first such thread has a later key than it would get |
| `Scheduler.Processor.FirstRunnable` | smp/kthread_switch.c:53-56 | the search loop finds the node of the least key whose thread is runnable |
| `Scheduler.Processor.PutBack` | smp/kthread_switch.c:68-72 | the insertion loop ends with the first free key from the priority on |
| `Scheduler.Processor.Resume` | smp/kthread_switch.c:75-85 | the thread of the found node is loaded and exactly that node leaves the treap, or the idle loop is loaded |
| `Scheduler.Processor.Start` | smp/kthread.c:63-107 | a new thread with the next number, awake and not waiting, is queued at now + nice, a free key |
| `Scheduler.Processor.Sleep` | smp/kthread.c:126-131 | only the current thread's wake-up time changes, to now plus the ticks |
| `Scheduler.Processor.Cleanup` | smp/kthread.c:19-30 | the current thread leaves, and nothing is current |
| `SchedulerSpec.RunSafe` | smp/kthread_switch.c:33-88 | in every state of every run each live thread is current or held by exactly one node of the run queue |
| `SchedulerSpec.SwitchKeepsInv` | smp/kthread_switch.c:63-85 | a switch keeps that invariant and the set of live threads |
| `SchedulerSpec.LoadsLeast` | smp/kthread_switch.c:53-85 | the loaded thread is awake and not waiting, and has the least key of all such queued threads, counting the one just re-queued |
| `SchedulerSpec.Loaded` | smp/kthread_switch.c:53-85 | in the threads' own fields: the loaded thread stood at the least key whose thread is awake and not waiting or timed out; its node is gone and the others stay |
| `SchedulerSpec.Requeued` | smp/kthread_switch.c:49-73 | the thread taken off is queued at the first free key from its niceness plus the later of its last tick and now, its last tick is now, and nothing else is new |
| `SchedulerSpec.Kept` | smp/kthread_switch.c:49-61 | the current thread goes on, nothing changed, exactly when some queued thread could be loaded and none that could has a key up to the one it would get itself |
| `SchedulerSpec.SleepsThrough` | smp/kthread.c:126-131 | over runs: a thread that slept at a tick for a number of ticks, and does not sleep again, is loaded in no state before they are over |
| `SchedulerSpec.SleepSkippedIff` | smp/kthread.c:126-131 | the exact condition under which sleeping does not take the caller off the processor |
| `SchedulerSpec.StarvationBound` | smp/kthread_switch.c:49-85 | while a thread waits runnable at a key whose time has come, there are at most as many switches as smaller keys were queued: the next one runs it |
| `SchedulerSpec.SwitchProgress` | smp/kthread_switch.c:53-85 | each switch that does not load that thread removes a smaller key and adds none |
| `SchedulerSpec.StartIffFreeKey` | smp/kthread.c:102-103 | starting a thread keeps the invariant exactly when its key is free; otherwise the thread queued there is lost |
| `SchedulerSpec.TwoStartsCollide` | smp/kthread.c:102-103 | that state is reached: the second of two starts in one tick with the same niceness leaves the first thread neither current nor queued |
| `SchedulerSpec.LoneThreadIdles` | smp/kthread_switch.c:59-79 | the one thread of a fresh system is swapped for the idle loop by every switch, and waits in the queue, runnable |
| `SchedulerSpec.IdlesIff` | smp/kthread_switch.c:59-85 | a switch leaves the processor idle exactly when every queued thread is asleep or waits without having timed out, with the current thread put back in the queue |
| `SchedulerSpec.IdlesBesideWorkIff` | smp/kthread_switch.c:59-85 | the processor idles beside a runnable thread exactly when the current thread was runnable and no queued one was |
| `Parking.Kernel.Lock` | smp/mutex.c:27-50 | takes a free mutex at once, changing no wait record; otherwise parks the thread at the end of the list with an empty record for that mutex, changing no holder |
| `Parking.Kernel.LockReturns` | smp/mutex.c:48-50 | a thread whose wait was cleared returns 1 and holds the mutex it asked for |
| `Parking.Kernel.TryLock` | smp/mutex.c:52-62 | succeeds exactly on an unlocked mutex and changes nothing otherwise |
| `Parking.Kernel.Unlock` | smp/mutex.c:64-80 | by a thread that holds the mutex: the last waiter leaves the list, gets 1 in its record and is the holder; without waiters the mutex is unlocked; nothing else changes |
| `Parking.Kernel.WaitOn` | smp/condiction.c:22-36 | parks the thread at the end of the condition's list, with an empty record for it |
| `Parking.Kernel.WaitReturns` | smp/condiction.c:36-39 | what waiting comes back with: the data in the thread's cleared record |
| `SyncRuns.HandedOver` | smp/condiction.c:36-57 | over runs: a parked thread's record is untouched until someone lets it go from the object it waits for, and then holds 1 for a mutex and the data of that notification for a condition |
| `Parking.Kernel.NotifyOne` | smp/condiction.c:41-57 | exactly when the list is not empty, its last thread leaves it with the data in its cleared record; every other record and list is unchanged |
| `Parking.Kernel.NotifyAll` | smp/condiction.c:59-77 | empties the list and gives every thread on it, and no other, the data in a cleared record; its result is their number exactly when there is at most one |
| `Parking.Kernel.constructor` | smp/kthread.c:34-61 | a kernel with the given threads, none waiting, satisfies the protocol invariant |
| `Parking.Kernel.CreateMutex` | smp/mutex.c:10-15 | a new mutex is unlocked and without waiters |
| `Parking.Kernel.CreateCondition` | smp/condiction.c:10-14 | a new condition has no threads |
| `Sync.HandOff` | smp/mutex.c:68-75 | unlocking with waiters passes the mutex to exactly one of them, with no unlocked state in between and no effect on other mutexes |
| `SyncRuns.MutualExclusion` | smp/mutex.c:27-80 | in every state of every run from a kernel without objects, a mutex is locked exactly when it is held, never by two threads, and has waiters only while locked |
| `SyncRuns.OpKeeps` | smp/mutex.c:27-80 | every operation of threads, mutexes and conditions keeps the protocol invariant |
| `Blocking.OpIsStep` | smp/internal.h:72-75 | every operation of the protocol is a step of the scheduler, keeps both invariants, and leaves the scheduler passing over exactly the parked threads |
| `Blocking.ParkedStaysIff` | smp/kthread_switch.c:53-85 | a switch never loads a parked thread; from a parked current thread it stays with it exactly when another runnable thread waits behind its key |
| `Blocking.RunTogether` | smp/kthread_switch.c:33-88 | in every state of every run of threads, scheduler, mutexes and conditions, both invariants hold and agree about who is waiting |
| `Blocking.YieldSafeIff` | smp/kthread_switch.c:59-61 | Yield never comes back to a parked thread exactly when no runnable thread waits behind the key of a parked current thread |
| `Blocking.LockComesBackEarly` | smp/mutex.c:48-50 | then Lock comes back with data 0 while the mutex is held |
| `Blocking.EarlyReturnHappens` | smp/mutex.c:27-50 | a run from the start in which a thread comes back from Lock although another holds the mutex |
| `Sync.ParkKeeps` | smp/mutex.c:36-45 | parking keeps the protocol invariant: locked exactly when held, by one thread, waiters only while locked, lists and wait records in agreement |
| `Sync.NotifyAllKeeps` | smp/condiction.c:68-73 | all and only the threads parked on that condition are released, with the data given |
| `Sync.OneObject` | smp/condiction.c:26-34 | a parked thread stands in exactly one list, exactly once |
| `Sync.ReturnOwns` | smp/mutex.c:48-50 | a thread on its way out of Lock holds the mutex and the wait data is 1 |
| `Sync.LatecomersFirst` | smp/mutex.c:68-75 | hand-off is last in, first out: any number of later lockers can pass while the older waiters stay parked |
| `Memcpy.Memory.Copy` | extlib/memcpy.c:313-342 | on disjoint regions, for every alignment and count, the destination gets the source's bytes and no other byte changes |
| `Memcpy.Memory.CopyShift` | extlib/memcpy.c:260-295 | the shifted word loops and the remaining bytes copy as the bytewise copy does |
| `Memcpy.Memory.CopyNoShift` | extlib/memcpy.c:224-257 | the aligned word loops and the remaining bytes copy as the bytewise copy does |
| `Memcpy.Memory.CopyShifted` | extlib/memcpy.c:155-180 | one shifted word is written right and the register holds the source bytes that follow |
| `Memcpy.ShiftedPiece` | extlib/memcpy.c:174-180 | two neighbouring words shifted by 8 * shift and 64 - 8 * shift give the bytes of the unaligned word between them |
| `Utf8.FillUtf8` | extlib/libvterm/utf8.h:16-38 | writing backwards gives the encoding, and nothing behind it is touched |
| `Utf8.EncodeLayout` | extlib/libvterm/utf8.h:5-38 | the encoding is the byte layout of section 3 of RFC 3629 for the codepoint's range, continued to six bytes |
| `Utf8.Decoder.Decode` | extlib/libvterm/encoding.c:27-156 | the loop has the effect of the bytes it consumed, one after the other, none of them C0 or DEL, and stops at the end, at such a byte or when the output is full; it stays inside the array, given that no byte it reaches puts out more than fits |
| `Utf8.Decoder.Take` | extlib/libvterm/encoding.c:41-154 | one byte changes the decoder and puts out codepoints as its class demands |
| `Utf8.FinishedSequence` | extlib/libvterm/encoding.c:58-105 | any lead byte with as many continuation bytes as it asks for: the payload comes out exactly when the bytes are its shortest encoding and it is a codepoint the decoder lets through, U+FFFD otherwise, so for overlong forms of every length; before it one U+FFFD for a sequence broken off |
| `Utf8.ShortestIff` | extlib/libvterm/encoding.c:71-94 | a sequence is the encoding of its payload exactly when no shorter one is |
| `Utf8.BrokenOff` | extlib/libvterm/encoding.c:44-154 | a sequence broken off anywhere leaves one U+FFFD, and the byte that did it is read as if nothing had been pending |
| `Utf8.SingleBytes` | extlib/libvterm/encoding.c:44-154 | ASCII comes out as it is; a continuation byte that nothing asks for, and 0xFE and 0xFF anywhere, give U+FFFD and change nothing |
| `Utf8.OnTextFitsIff` | extlib/libvterm/state.c:224-235 | one slot for each byte is enough for every chunk exactly when no sequence was left unfinished by the chunk before |
| `Utf8.TwoBytesThree` | extlib/libvterm/state.c:224-235 | with a sequence unfinished, a chunk of two bytes puts out three codepoints |
| `Utf8.FeedBound` | extlib/libvterm/encoding.c:35-155 | each byte puts out at most one codepoint, and an unfinished sequence one more |
| `Utf8.Decoder.DecodeText` | extlib/libvterm/encoding.c:27-156 | the encoding of scalar values, cut anywhere and decoded call by call into one slot for each byte, comes back in order and leaves nothing in the decoder |
| `Utf8.RoundTripIff` | extlib/libvterm/encoding.c:58-105 | a codepoint comes back from its encoding exactly when it is not C0, DEL, a surrogate, U+FFFE or U+FFFF |
| `Utf8.ChunkedRoundTrip` | extlib/libvterm/encoding.c:27-156 | scalar values encoded one after the other and decoded in chunks cut at any byte come back in order, with nothing left in the decoder |
| `Utf8.FeedTail` | extlib/libvterm/encoding.c:64-66 | continuation bytes rebuild the codepoint six bits at a time |
| `Screen.VTermScreen.ScrollRect` | extlib/libvterm/vterm.c:252-311 | along one axis every cell of the rectangle gets the old cell that the shift brings to it, and is erased, first character 0 in the current pen, when that one lies outside; in general, which cells are moved to, erased or left alone, on both axes and for shifts that are too long; cells outside stay |
| `Screen.ExactIffOneAxis` | extlib/libvterm/vterm.c:300-310 | the erased rectangle is exactly what the move exposed if and only if the scroll is along one axis; along both, or by nothing, it is not |
| `Screen.VTermScreen.MoveRect` | extlib/libvterm/screen.c:198-232 | row by row in the computed order every destination cell gets its source's old value |
| `Screen.VTermScreen.Erase` | extlib/libvterm/screen.c:251-271 | exactly the cells of the rectangle, sparing protected ones when selective, get first character 0 and the current pen with the size attributes of their row |
| `Screen.VTermScreen.CopyCells` | extlib/libvterm/vterm.c:313-346 | every destination cell gets its source's old value for every overlap on both axes |

## Left out

- malloc.c: mmap, mspaces, locks, footers, trimming, realloc, memalign, ialloc, bulk_free, statistics and abort paths; add_segment and prepend_alloc, which a contiguous break never reaches.
- Chunk links share memory with the client's bytes in the source. Here heads, feet, list links and tree links are separate maps keyed by address, so that a client writing past its chunk is not modelled.
- init_bins runs when the heap object is made, not in the first sys_alloc; footprint counters, least_addr, release_checks and magic are not kept.
- paging_map_Page1G, and paging_map_PageAllocated2M for more than one page, which does not advance its address. TLB flushes, the console output and the boot-time mappings.
- Sign extension of virtual addresses: pages are numbered by their low 36 bits, and ranges do not wrap.
- The data payload of tree nodes and the size field of the tree, which tree_Delete never decrements. The scheduler keeps the payload of a run-queue node by its key.
- Thread stacks, the stack pool, saved registers, tick statistics and smp_thread_Nice; smp_thread_Sleep for a negative number of ticks.
- Non-zero mutex timeouts, destruction of mutexes and conditions, smp/channel.c. Mutex, condition and wait records are values in maps keyed by address, and vectors of waiters are sequences.
- on_text's choice between decoders by the first byte of a chunk, and what it does with the codepoints.
- Heap and page tables are separate objects: that sys_alloc's AddBreak has the effect of KernelBreak's is stated by the break it moves to, and HeapIsMapped joins the two.
- Screen: the cell buffer is two-dimensional instead of a flat array with computed offsets; scrollback and damage callbacks; escape sequences.
- USTAR, VFS, devfs, FAT, graphics, fonts, input, serial and console drivers, printf, util/queue.c, util/stack.c, util/vector.c and the string routines: these would only add easy members or depend on hardware.
