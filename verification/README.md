# ESZ-OS kernel: verified model of memory, console, FAT32 and codecs

This Dafny project models the parts of the ESZ-OS kernel that carry the most state and proves what they promise over
all inputs and over all runs. `dafny verify dfyconfig.toml` checks everything.

Code that the kernel writes as loops over globals and buffers is modelled as methods over arrays and classes. Each such
method is proved equal to a specification function, or to state its result outright; the theorems are lemmas about
these functions.

| files | what they model |
|---|---|
| `Arith`, `Bitmap` | `divide_round_up` with its 64-bit wrap; the packed bitmap and its first-run search |
| `Pmm` | the physical page allocator, and the boot sequence that builds it from the memory map |
| `Paging`, `PagingRanges`, `PagingWrites` | the four-level page tables (Intel SDM Volume 3A, section 4.5) as a refinement of a flat page map |
| `Vmm`, `VmmProofs`, `VmmRelease`, `VmmRuns` | the virtual page allocator: ownership, conservation, all runs |
| `VmmCosts`, `VmmLedger`, `VmmBoot` | exactly when an allocation succeeds and what a failing one leaves; where every page is over a run; from boot to the heap |
| `KernelMemory` | paging.cpp and vmm.cpp in place, over the packed bitmaps, equal to the functions above |
| `HeapBlocks`, `Heap`, `Memory` | the heap as a block list in canonical form, and heap.cpp over bytes; word-wise fill and copy |
| `Screen`, `Terminal`, `Console` | the bounded screen buffer as a window over an unbounded log; the line editor as a zipper; the editor's line on that screen |
| `Fat32`, `FatPaths` | FAT32 layout, cluster chains (Microsoft FAT specification, section 4.1), directories and path lookup |
| `Strings`, `Numbers` | `str_split`, `str_replace`, `to_string`, `to_int` |

Results that a reader of one function body would not expect:

- `divide_round_up` is the ceiling exactly when `a + b - 1` fits in 64 bits.
- `map_page` and the page walk never change a translation except the one asked for, although they link new tables on
  the way, also when they fail halfway; and they succeed exactly when the free pages cover the missing tables.
- Over every run of `vmm_malloc_pages` and `vmm_free_pages`, failing and mistaken calls included, distinct window pages
  have distinct frames, none of which is a page table, a bitmap page or page 0.
- `vmm_malloc_pages` succeeds exactly when there is a run of unreserved pages and the free physical pages cover the
  pages of the lowest such run and the tables that they lack. Without a run nothing changes. A call that finds a run and
  fails uses up every free page and gives none back; it changes nothing exactly when no page was free before.
- The reserved window pages are those of live ranges, and the used physical pages those used at first, the page tables
  and the frames of live ranges, at every moment of exactly those runs in which each allocation finds no run of pages,
  enough free physical pages, or none. Any other allocation breaks that account at once.
- When the pages run out exactly while the last page's tables are created, vmm.cpp:34-37 reports failure but leaves the
  whole run reserved. Such a run cannot be given back: `vmm_free_pages` then clears the bits of all its pages but the
  last, and for a run of one page clears nothing. `VmmCosts.LeakExample` is a machine with one free page on which a
  request for one page ends this way.
- `vmm_free_pages` does not advance its page counter over pages that are not mapped. It clears as many bits at the start
  of the range as pages were mapped, and so leaves the bits of the range clear exactly when those behind were clear
  before. It reports success exactly when the whole range is mapped.
- `memory_copy`, which is also the kernel's `memmove` (libc.cpp:14-17), copies all contents right exactly when the target
  does not start inside the source, behind its first byte, or when it copies just one word. Nine bytes moved up by one
  go wrong.
- `malloc` splits a free block exactly when more than two headers would remain behind the new block.
- The heap's block list is determined by its live blocks alone. That malloc followed by free restores the list, that
  frees commute and that freeing everything gives back the initial block are corollaries.
- `str_replace` also replaces overlapped matches. For a replacement of another length than the pattern it agrees with
  the left-to-right replacement exactly when no matches overlap; "aaa" with "aa" to "b" gives "b" instead of "ba".
  Shorter replacements of overlapping matches can shift before the text: "aaaa" with "aa" to "". For a replacement of
  the pattern's length the two agree exactly when the replacement repeats itself at the distances of the overlaps and
  is as the pattern behind them.
- In every case, overlapping or not, `str_replace` is one pass that takes back from its output as many characters as the
  next match overlaps the last.
- `read_cluster_chain` sizes its buffer by the file size but follows the FAT. It stays inside the buffer exactly when the
  chain ends and its last cluster begins before the end of the file; a cluster linked to itself makes it run forever.
- A page is writable for the processor only if every entry on its path is. New tables are linked writable, so no path
  ever loses or gains the right to write, and `map_page` gives the requested right exactly as far as the path has it.
- `to_int` inverts `to_string` exactly for the bases 2 to 36, although `to_string` accepts larger ones.
- The kernel's directory reader looks only at the first cluster of a directory, and appends long-name pieces in the
  order in which they stand on the disk. Both are modelled as they are.

## Assumptions

- Usable memory regions are page aligned, disjoint, below 2^52 and do not contain page 0, and one of them can hold the
  bitmap (`MemoryMap.WellFormed`, `Pmm.BitmapFits`). Page 0 matters because 0 is the failure value of
  `get_or_create_next_table`.
- A walked path has no large-page entry (`!Huge?`). The window of the virtual allocator starts unmapped, and no table
  above it that exists then is linked read-only (`WindowEmpty`); every result about "writable" pages rests on that.
  Every table is marked used and has one path when the virtual allocator starts (`PageTables.Inv`).
- The window from its base to the end of the address space is at least as large as physical memory: at most
  `VmmSpec.WINDOW_PAGES` (80 TiB) physical pages are counted, since the window has one page for each.
- Addresses are unbounded naturals; the page walk only uses 48 bits of them. Frame numbers have 40 bits.
- `vmm_free_pages` is called with addresses of the window; pages outside are not its business.
- What a key produces fits on one screen line and in the buffer, as given key by key by `Terminal.KeyFits`: the edited
  input, the command that an arrow recalls, the new prompt. A command holds no NUL, a prompt no line break.
- Volumes have 512-byte sectors and end below sector 2^32. A cluster chain that is read ends, and is no longer than
  the file size asks for (`FatChains.BufferFitsIff` shows that nothing less will do). `fat32_read` writes through the
  result of `read_cluster_chain`, so the first cluster must be a data cluster.

## Model

| member | source | states |
|---|---|---|
| Arith.DivideRoundUpIsCeiling | kernel/math/math.h:5-8 | the result is the ceiling of a / b if and only if a + b - 1 does not wrap at 64 bits |
| BitRuns.FirstRunUnique | kernel/helper/bitmap/bitmap.cpp:10-32 | any search that finds a lowest clear run, and nothing only if there is none, gives the result of the specification |
| BitRuns.FirstRunIsLowest | kernel/helper/bitmap/bitmap.cpp:10-32 | the run found is clear and inside the bitmap, and any clear run of that positive length starts no lower |
| BitRuns.TakeAndReturn | kernel/helper/bitmap/bitmap.cpp:34-38 | setting a clear run costs exactly its length in free bits, and clearing it again restores every bit |
| PackedBitmap.WriteByteBit | kernel/types/bit/bit.h:5-13 | after writing bit k of a byte that bit reads the value written and the seven others read as before |
| PackedBitmap.BitWrite | kernel/types/bit/bit.h:8-11 | on packed bytes exactly the addressed bit changes |
| PackedBitmap.Bitmap.Clear | kernel/helper/bitmap/bitmap.cpp:4-8 | all bits below the count become clear |
| PackedBitmap.Bitmap.WriteBitsInRangeFrom | kernel/helper/bitmap/bitmap.cpp:34-38 | exactly the bits of the range take the given state |
| PackedBitmap.Bitmap.FindFreeRange | kernel/helper/bitmap/bitmap.cpp:10-32 | succeeds exactly when a clear run of that positive length exists, and returns the lowest start |
| PmmSpec.MallocThenFree | kernel/memory/physical/pmm/pmm.cpp:45-58 | a successful allocation is page aligned and costs exactly its pages; freeing it restores all bits |
| PmmSpec.MallocGivesLowest | kernel/memory/physical/pmm/pmm.cpp:45-58 | for any number of pages: exactly the pages of a free run are marked, no free run of that length starts lower, and it fails, changing nothing, exactly when there is none |
| PmmSpec.FreeClears | kernel/memory/physical/pmm/pmm.cpp:87-96 | exactly the bits of the pages that the bytes from the start of the address's page fill are cleared |
| PmmSpec.RunKeepsInv | kernel/memory/physical/pmm/pmm.cpp:45-96 | over every run, live ranges are disjoint, fully marked and off the pages reserved at boot, and no other page is marked |
| PmmSpec.NothingLeaks | kernel/memory/physical/pmm/pmm.cpp:45-96 | a run that has given everything back leaves the bits of boot |
| MemoryMap.UsablePagesSize | kernel/memory/physical/pmm/pmm.cpp:20-33 | the usable regions hold exactly totalUsableBytes / 4096 pages |
| MemoryMap.UsablePagesBelow | kernel/memory/physical/pmm/pmm.cpp:20-33 | every usable page lies below highestAddress / 4096, and the byte total never exceeds the highest address |
| MemoryMap.UsablePagesAre | kernel/memory/physical/pmm_bitmap/pmm_bitmap.cpp:33-41 | a page is usable exactly when all its bytes lie in one usable region |
| Pmm.GetMemoryRegions | kernel/memory/physical/pmm/pmm.cpp:20-33 | the loop computes the sum of usable lengths and the highest usable end |
| Pmm.PageAllocator.Malloc | kernel/memory/physical/pmm/pmm.cpp:45-58 | on the packed bitmap: the lowest free run, marked, and nothing else changed; failure changes nothing |
| Pmm.PageAllocator.Free | kernel/memory/physical/pmm/pmm.cpp:87-96 | exactly the bits of the range are cleared |
| Pmm.PageAllocator.PageCounts | kernel/memory/physical/pmm/pmm.cpp:68-79 | the two counters are the numbers of clear and set bits and add up to the count |
| Pmm.PageAllocator.InitBitmapData | kernel/memory/physical/pmm_bitmap/pmm_bitmap.cpp:33-41 | exactly the pages of usable regions become free |
| Pmm.FindBitmapBase | kernel/memory/physical/pmm_bitmap/pmm_bitmap.cpp:13-23 | the base of the first usable region of sufficient length |
| Pmm.FirstFitIsFirst | kernel/memory/physical/pmm_bitmap/pmm_bitmap.cpp:13-23 | that base is of the region with the lowest index that is usable and long enough, and 0 when there is none |
| Pmm.BitmapPagesAre | kernel/memory/physical/pmm_bitmap/pmm_bitmap.cpp:28-30 | the pages taken for the bitmap are exactly those that hold a byte of it |
| Pmm.OwnPagesUsable | kernel/memory/physical/pmm_bitmap/pmm_bitmap.cpp:13-30 | the pages that the bitmap takes lie inside usable regions |
| Pmm.BootCount | kernel/memory/physical/pmm_bitmap/pmm_bitmap.cpp:25-30 | page i is free exactly when usable and not one of the bitmap's own pages; the free count is the usable bytes / 4096 less these |
| Pmm.Boot | kernel/memory/physical/pmm_bitmap/pmm_bitmap.cpp:8-31 | the allocator that the boot sequence builds on packed bytes has those free pages and that free count |
| PageTables.IndexesAreDigits | kernel/memory/virtual/paging/paging.cpp:14-28 | the four indexes are the base-512 digits of the page number |
| PageTables.SamePathSamePage | kernel/memory/virtual/paging/paging.cpp:14-28 | two addresses take the same four indexes if and only if they lie in the same 48-bit page |
| PageTables.PagesOfRangeDiffer | kernel/memory/virtual/paging/paging.cpp:14-28 | distinct pages of a range of up to 2^36 pages take distinct paths |
| PageTables.LinkedInv | kernel/memory/virtual/paging/paging.cpp:62-72 | linking a cleared free frame keeps one path per table, keeps tables marked, and adds exactly one table |
| PageTables.LinkedWalk | kernel/memory/virtual/paging/paging.cpp:62-72 | linking a cleared table changes the result of no hardware walk |
| PageTables.LinkedRights | kernel/memory/virtual/paging/paging.cpp:67-68 | the new table is linked writable, so no path loses or gains the right to write |
| PageTables.WalkPreserves | kernel/memory/virtual/paging/paging.cpp:76-97 | the walk changes no translation, keeps the tree invariant, pays exactly for the new tables, and finds the lowest table of the path |
| PageTables.WalkCost | kernel/memory/virtual/paging/paging.cpp:76-97 | the walk succeeds exactly when the free pages cover the missing tables, and then uses just those; else no page is left |
| PageTables.WalkOfMapped | kernel/memory/virtual/paging/paging.cpp:76-97 | the walk of a mapped page changes nothing at all and finds the entry the processor uses |
| PageTables.MapPageRefines | kernel/memory/virtual/paging/paging.cpp:99-113 | true: exactly the page of v now goes to p, with the requested flags as far as the tables on its path allow writing; false: no translation changed, even if tables were created; the right to write of every path stays |
| PageTables.MapPageSucceeds | kernel/memory/virtual/paging/paging.cpp:99-113 | true exactly when there are as many free pages as missing tables |
| PageTables.FreePageRefines | kernel/memory/virtual/paging/paging.cpp:128-136 | exactly the page of v becomes unmapped, or nothing changes; no page is given back |
| PageWrites.MapPageWrites | kernel/memory/virtual/paging/paging.cpp:76-113 | only page tables are written, and the entries that were there keep all fields other than present, write, cache and address |
| PageWrites.FreePageWrites | kernel/memory/virtual/paging/paging.cpp:128-136 | only page tables are written |
| PageRanges.MapRoundsRefine | kernel/memory/virtual/paging/paging.cpp:115-126 | true: page i of the range goes to p + i * 4096 for all i, writable as requested and as its path allows; false: pages ran out; nothing outside the range changes |
| PageRanges.MapPagesRefines | kernel/memory/virtual/paging/paging.cpp:115-126 | by the size asked for, with n the ceiling of size / 4096: true means that page i of the range goes to frame p / 4096 + i for all i below n; false means that no page is free; nothing outside the range changes |
| PageRanges.FreeRoundsOfMapped | kernel/memory/virtual/paging/paging.cpp:138-147 | freeing a mapped range unmaps all of it and nothing else, and takes and returns no page |
| PageRanges.FreePagesRefines | kernel/memory/virtual/paging/paging.cpp:138-147 | by the size, on any range without large pages: true means that all of it is unmapped; false means that no page is free; nothing outside changes |
| PageRanges.FreePagesOfMapped | kernel/memory/virtual/paging/paging.cpp:138-147 | by the size, on a mapped range: it succeeds, unmaps exactly that range, and takes and returns no page |
| PageRanges.MapThenFree | kernel/memory/virtual/paging/paging.cpp:115-147 | mapping an unmapped range and freeing it restores the whole flat translation |
| VmmSpec.TablesKeepWindow | kernel/memory/virtual/paging/paging.cpp:58-73 | creating page tables disturbs no ownership |
| VmmSpec.MapOwned | kernel/memory/virtual/vmm/vmm.cpp:22-35 | mapping one window page to a fresh frame keeps ownership and changes that page only |
| VmmProofs.FillRoundsOutcome | kernel/memory/virtual/vmm/vmm.cpp:22-35 | the allocation loop maps every page writable to a frame that was free, paying for data and tables only, or stops with no page left |
| VmmProofs.FramesOfSize | kernel/memory/virtual/vmm/vmm.cpp:22-35 | n mapped pages use n different frames |
| VmmProofs.MallocOutcome | kernel/memory/virtual/vmm/vmm.cpp:12-39 | what a call leaves: on success the lowest unreserved range, mapped writable to new frames, and nothing else changed or spent but tables; on failure with a run found no free page; ownership in every case |
| VmmCosts.WalkTables | kernel/memory/virtual/paging/paging.cpp:76-97 | a successful walk leaves exactly the tables that were there and those on its path |
| VmmCosts.FillCost | kernel/memory/virtual/vmm/vmm.cpp:22-35 | the loop maps everything exactly when the free pages cover the pages and their missing tables, and misses only the last page exactly when they run out in its tables |
| VmmCosts.MallocSucceedsIff | kernel/memory/virtual/vmm/vmm.cpp:12-39 | success if and only if there is a run and the free pages cover it with its missing tables; on failure no page is left, nothing changed exactly when none was free, and the run stays reserved exactly when the last page's tables were short |
| VmmCosts.LeakedRunStays | kernel/memory/virtual/vmm/vmm.cpp:34-66 | a run that a failing call left reserved cannot be freed: the bits of all pages but the last are cleared, and failure is reported |
| VmmCosts.LeakExample | kernel/memory/virtual/vmm/vmm.cpp:34-66 | a concrete machine with one free page on which a request for one page fails, leaves the page reserved, and freeing it clears nothing |
| VmmRelease.FreeRound | kernel/memory/virtual/vmm/vmm.cpp:49-64 | one round either skips an unmapped page, or unmaps it, returns its frame and clears the bit of the counter |
| VmmRelease.ReleaseRoundsSafe | kernel/memory/virtual/vmm/vmm.cpp:41-66 | on any range, mapped or not, ownership is kept and the bits cleared are the first ones, as many as pages were mapped |
| VmmRelease.FreeClearsRangeIff | kernel/memory/virtual/vmm/vmm.cpp:41-66 | every page of any window range is unmapped afterwards; success is reported exactly when all were mapped; exactly the range's bits are cleared if and only if those behind the first ones, as many as pages were mapped, were clear before |
| VmmRelease.FreeOutcome | kernel/memory/virtual/vmm/vmm.cpp:41-66 | freeing a mapped range clears its bits, unmaps it and returns exactly its frames |
| VmmRelease.MallocThenFree | kernel/memory/virtual/vmm/vmm.cpp:12-66 | malloc then free restores the bits and all translations, and the free-page count up to exactly the new page tables |
| VmmRuns.Ownership | kernel/memory/virtual/vmm/vmm.cpp:12-66 | at every moment of every run, distinct mapped pages have distinct frames, marked used, and neither tables nor reserved at boot |
| VmmRuns.NewStep | kernel/memory/virtual/vmm/vmm.cpp:12-39 | an allocation keeps every live range reserved, mapped and disjoint, with its translations |
| VmmRuns.DeleteStep | kernel/memory/virtual/vmm/vmm.cpp:41-66 | freeing one live range keeps all others with their translations |
| VmmRuns.LiveRun | kernel/memory/virtual/vmm/vmm.cpp:12-66 | over every run a live range keeps its translation until its own free |
| VmmLedger.LedgerKeptIff | kernel/memory/virtual/vmm/vmm.cpp:12-66 | one call keeps the account of every page if and only if it is a free, or an allocation that finds no run of pages, enough free physical pages for the run and its tables, or no free page |
| VmmLedger.LedgerRun | kernel/memory/virtual/vmm/vmm.cpp:12-66 | at every moment of exactly the runs of such calls, the reserved pages are exactly the live ranges, and the used pages are those used at first, the new tables and the frames of live ranges |
| VmmLedger.NothingLiveOnlyTables | kernel/memory/virtual/vmm/vmm.cpp:12-66 | when such a run has freed everything, only the new page tables are missing from the free pages |
| VmmBoot.InitVmmEstablishes | kernel/memory/virtual/vmm/vmm.cpp:68-78 | after init_vmm ownership holds, with the pages of the new bitmap reserved, which are neither tables nor reserved before |
| VmmBoot.InitVmmOutcome | kernel/memory/virtual/vmm/vmm.cpp:68-78 | it fails exactly when there are no pages or no free run that holds one bit for each; else exactly the lowest such run is marked, every bit is clear and no table is touched |
| VmmBoot.VmmBitmapPagesAre | kernel/memory/virtual/vmm/vmm.cpp:72 | the pages of that bitmap are exactly those that hold a byte of it |
| VmmBoot.BootThenInit | kernel/memory/virtual/vmm/vmm.cpp:68-78 | from the memory map through both bitmaps: ownership holds with page 0 and both bitmaps' pages reserved, and the bitmaps share no page |
| VmmBoot.EmptyTreeIsReady | kernel/memory/virtual/paging/paging.cpp:58-97 | the tree invariant can be met: an empty root table, marked used, satisfies it and maps nothing |
| VmmBoot.PageZeroReserved | kernel/memory/physical/pmm_bitmap/pmm_bitmap.cpp:33-41 | page 0 is in no usable region, so it can stand for failure |
| VmmBoot.BytesNeverAlias | kernel/memory/virtual/vmm/vmm.cpp:12-66 | two bytes of live ranges with the same physical address are the same byte |
| VmmBoot.RangeStaysBacked | kernel/memory/virtual/vmm/vmm.cpp:12-66 | through every run, each byte of a live range stays mapped at the same place, writable on every level of the walk, and its bytes do not alias |
| VmmBoot.HeapIsLive | kernel/memory/heap/heap.cpp:92-106 | the range that the heap is given is live, with the full initial size |
| KernelMemory.AddressSpace.InitVmm | kernel/memory/virtual/vmm/vmm.cpp:68-78 | in place: the bitmap's pages are taken from the physical allocator and the bits cleared, or one of the two failures is reported, as specified |
| KernelMemory.AddressSpace.GetOrCreateNextTable | kernel/memory/virtual/paging/paging.cpp:58-73 | in place, on the packed bitmap and the table frames: the new state and result are those of the specification |
| KernelMemory.AddressSpace.PageWalk | kernel/memory/virtual/paging/paging.cpp:76-97 | the in-place walk refines the specification function |
| KernelMemory.AddressSpace.MapPage | kernel/memory/virtual/paging/paging.cpp:99-113 | the in-place field writes refine the specification function |
| KernelMemory.AddressSpace.MapPages | kernel/memory/virtual/paging/paging.cpp:115-126 | the in-place loop refines the specification function |
| KernelMemory.AddressSpace.FreePage | kernel/memory/virtual/paging/paging.cpp:128-136 | the in-place write refines the specification function |
| KernelMemory.AddressSpace.FreePages | kernel/memory/virtual/paging/paging.cpp:138-147 | the in-place loop refines the specification function |
| KernelMemory.AddressSpace.VmmMallocPages | kernel/memory/virtual/vmm/vmm.cpp:12-39 | over both packed bitmaps and the tables, early return included, the method refines the specification function |
| KernelMemory.AddressSpace.VmmFreePages | kernel/memory/virtual/vmm/vmm.cpp:41-66 | over both packed bitmaps and the tables, skipped pages included, the method refines the specification function |
| MemoryLoops.ClonedByte | kernel/memory/memory.cpp:8 | the multiplication yields the 64-bit word of eight copies of the byte |
| MemoryLoops.MemoryFill | kernel/memory/memory.cpp:3-20 | word loop and tail together write exactly n copies of the byte, and nothing else |
| MemoryLoops.MemoryCopy | kernel/memory/memory.cpp:26-43 | word loop and tail together, between two arrays or within one, overlapping or not, make of the target what reading and writing piece by piece makes of it, and copy exactly n bytes, and nothing else, wherever `CopyIsRightIff` allows |
| MemoryLoops.CopyIsRightIff | kernel/memory/memory.cpp:26-43 | within one array all contents are copied right if and only if the target does not start inside the source behind its first byte, or exactly one word is copied |
| MemoryLoops.OverlapExample | kernel/types/libc/libc.cpp:14-17 | nine bytes moved up by one: the last byte is wrong |
| HeapBlocks.Canonical | kernel/memory/heap/heap.cpp:29-45 | two block lists that tile the same bytes without adjacent free blocks and have the same live blocks are equal |
| HeapBlocks.LiveBounds | kernel/memory/heap/heap.cpp:9-11 | live blocks lie inside the heap and do not overlap, headers included |
| HeapBlocks.MallocOutcome | kernel/memory/heap/heap.cpp:47-83 | fails, changing nothing, exactly when every block is used or shorter than size; else in the lowest free block that is long enough one live block of exactly size bytes, with the rest as a free block right behind it, or of the whole block when at most two headers would remain; all other blocks stay as they are |
| HeapBlocks.FreeIsCoalesced | kernel/memory/heap/heap.cpp:29-45 | the two conditional merges make one free block of the freed block and all its free neighbours |
| HeapBlocks.FreeOutcome | kernel/memory/heap/heap.cpp:85-90 | free keeps the tiling and the absence of adjacent free blocks, and removes exactly that live block |
| HeapBlocks.FreePtrOutcome | kernel/memory/heap/heap.cpp:85-90 | the same for a live payload pointer |
| HeapBlocks.MallocThenFree | kernel/memory/heap/heap.cpp:47-90 | malloc then free restores the exact block list |
| HeapBlocks.FreesCommute | kernel/memory/heap/heap.cpp:85-90 | freeing two live blocks gives the same list in either order |
| HeapBlocks.RunKeeps | kernel/memory/heap/heap.cpp:47-90 | over every run the blocks tile the heap, no two free ones are adjacent, and a block stays live with its length until it is freed |
| HeapBlocks.NothingLiveIsInitial | kernel/memory/heap/heap.cpp:47-106 | any run that ends with nothing live ends with the initial block |
| HeapBlocks.FreeAll | kernel/memory/heap/heap.cpp:85-106 | freeing all live blocks in any order gives the initial block |
| HeapMemory.HeaderReadBack | kernel/memory/heap/heap.cpp:61-62 | a header written as a 63-bit length and a used bit reads back |
| HeapMemory.HeaderBits | kernel/memory/memory.h:5-8 | the used flag is the top bit of the header's last byte, and the other 63 bits are the length, low bytes first |
| HeapMemory.ChainReplace | kernel/memory/heap/heap.cpp:59-79 | rewriting headers inside a range of blocks that still span the same bytes keeps the whole chain |
| HeapMemory.PayloadWriteKeepsChain | kernel/memory/heap/heap.cpp:64-82 | writing the payload of a live block damages no header |
| HeapMemory.Heap.InitHeapAlloc | kernel/memory/heap/heap.cpp:92-106 | the header chain of the fresh region is the initial free block |
| HeapMemory.Heap.GetPrevHeapBlock | kernel/memory/heap/heap.cpp:13-27 | terminates and returns the one block that ends where the given one starts, none for the first |
| HeapMemory.Heap.FindFit | kernel/memory/heap/heap.cpp:47-57 | the pointer walk ends at the lowest free block that fits, or reports that there is none |
| HeapMemory.Heap.Malloc | kernel/memory/heap/heap.cpp:47-83 | on bytes: the chain lands on the heap's end and lists the blocks of the specification; no live payload byte changes |
| HeapMemory.Heap.Free | kernel/memory/heap/heap.cpp:85-90 | on bytes: the chain lists the blocks of the specification; no other live payload byte changes |
| OutputLog.PutItemsConcat | kernel/rendering/print/print.cpp:222-234 | printing in two calls is printing the concatenation |
| OutputLog.ItemsOfText | kernel/rendering/print/print.cpp:222-234 | a line feed breaks the line, a carriage return prints nothing, and every other character is one cell with the given colour and flag |
| OutputLog.LogOfText | kernel/rendering/print/print.cpp:222-234 | from the top left, the log of a text is the text without carriage returns, split at line feeds, each paragraph wrapped, with the cursor behind the last piece |
| OutputLog.WrapPieces | kernel/rendering/print/print.cpp:140-142 | the pieces of a paragraph give it back in order; all but the last are exactly as wide as the screen, the last is shorter |
| OutputLog.LogIsWrappedText | kernel/rendering/print/print.cpp:140-142 | from the top left, the log is the text split at line breaks, each paragraph cut into pieces of the screen's width |
| OutputLog.LogFromCursor | kernel/rendering/screenBuffer/screenBuffer.cpp:37-54 | the same from the cursor position at which a new screen buffer starts: the lines above stay empty and the first paragraph is indented |
| ScreenBuffer.WindowIsSuffix | kernel/rendering/print/print.cpp:144-180 | the stored lines are exactly the last lines of the log, as many as there are or as fit |
| ScreenBuffer.WindowShift | kernel/rendering/print/print.cpp:148-171 | moving all lines up by one in a full store keeps it the window of the log |
| ScreenBuffer.Screen.InitEmptyScreenBuffer | kernel/rendering/screenBuffer/screenBuffer.cpp:21-55 | an empty store is a window of an empty log with the cursor where it was |
| ScreenBuffer.Screen.DrawChar | kernel/rendering/print/print.cpp:28-38 | the cell at the cursor is written and the line's amount grows to cover it |
| ScreenBuffer.Screen.HandleScroll | kernel/rendering/print/print.cpp:144-180 | the store stays the window of the log, with the cursor in the rendered part and that part inside the store; the rendered part moves down by one line exactly when the cursor would leave it |
| ScreenBuffer.Screen.NewLine | kernel/rendering/print/print.cpp:182-190 | the log gains a line, the store stays its window, and the rendered part follows only as far as needed |
| ScreenBuffer.Screen.PrintChars | kernel/rendering/print/print.cpp:222-234 | the log gains the characters of the text, wrapped as `LogOfText` says, the store stays its window, and the rendered part follows only as far as the last line needs |
| LineEditing.TokenAroundCursor | kernel/shell/args.cpp:6-26 | a token that is found encloses the cursor and is bounded by spaces or the line's ends |
| LineEditing.TokenEmptyIff | kernel/shell/args.cpp:9-23 | no token is found exactly in an empty line, behind a leading space with no other before the cursor, or with the cursor behind a space and before a space or the end |
| LineEditing.LeadingSpaceExample | kernel/shell/args.cpp:9-17 | behind one leading space the token is not found, behind two it is |
| LineEditing.ReplaceTokenRewrites | kernel/terminal/terminal.cpp:115-124 | replacing the found token rewrites exactly it and leaves the cursor behind the new one |
| LineEditing.InsertUndo | kernel/terminal/terminal.cpp:140-171 | Backspace undoes typing |
| LineEditing.LeftUndo | kernel/terminal/terminal.cpp:126-138 | moving left keeps the text and is undone by moving right; deleting is undone by typing |
| LineEditing.RightUndo | kernel/terminal/terminal.cpp:126-138 | moving right keeps the text and is undone by moving left |
| LineEditing.ArrowsMove | kernel/terminal/terminal.cpp:126-138 | arrow left and right keep the text and move the cursor by one, up to its ends |
| LineEditing.TypingEdits | kernel/terminal/terminal.cpp:81-113 | a character other than NUL is inserted at the cursor, which goes behind it; Backspace removes the one before the cursor, if any |
| LineEditing.ArrowsBrowse | kernel/terminal/terminal.cpp:176-198 | from any line, arrow up shows the next older command, if any, and arrow down the next newer one or the empty line, with the cursor at the end |
| LineEditing.EnterRecords | kernel/terminal/terminal.cpp:52-79 | Enter leaves an empty line; a text that is not empty becomes the last command, and the oldest of a hundred goes |
| LineEditing.CompleteRewrites | kernel/shell/autocomplete/autocomplete.cpp:10-44 | Tab with one candidate rewrites exactly the token around the cursor, bounded by spaces or the ends, and leaves the cursor behind it; without a token it changes nothing |
| LineEditing.BrowseAndBack | kernel/terminal/terminal.cpp:176-198 | after k presses of arrow up the line is the k-th last command, or the oldest, and j presses of arrow down then lead back through the newer ones to the empty line, for all k and j |
| CommandHistory.History.AddCommand | kernel/terminal/cmd_history/cmd_history.cpp:11-22 | the history is the last hundred of all commands |
| TerminalInput.Terminal.NewTerminalInputLine | kernel/terminal/terminal.cpp:74-79 | the prompt is printed at the cursor and the empty input starts in step behind it |
| TerminalInput.Terminal.InsertCharAtCursor | kernel/terminal/terminal.cpp:81-107 | buffer, cells and both cursors stay in step and refine insertion in the zipper |
| TerminalInput.Terminal.HandleInputBufferDeletion | kernel/terminal/terminal.cpp:140-171 | the same for deletion left of the cursor |
| TerminalInput.Terminal.CursorMoveInline | kernel/terminal/terminal.cpp:126-138 | the same for moves |
| TerminalInput.Terminal.ReplaceCurrentToken | kernel/terminal/terminal.cpp:115-124 | the same for the replacement of a token |
| TerminalInput.Terminal.GetCurrTokenFromBuffer | kernel/shell/args.cpp:6-26 | on the buffer, the token of the specification |
| TerminalInput.Terminal.ClearInputOnScreen | kernel/terminal/terminal.cpp:25-44 | the cells behind the prompt are blanked and given up, and the cursor returns to it |
| TerminalInput.Terminal.HandleShowHistory | kernel/terminal/cmd_history/cmd_history.cpp:24-30 | the recalled command is the input, in step, with the cursor at its end |
| TerminalInput.Terminal.CompleteWith | kernel/shell/autocomplete/autocomplete.cpp:39-44 | a single completion rewrites exactly the token under the cursor |
| TerminalInput.Terminal.OnEnter | kernel/terminal/terminal.cpp:52-79 | a command that is not empty is the latest in the history, and an empty input is in step behind a new prompt at the column where the output ended; what stands before it is kept |
| TerminalInput.Terminal.OnKey | kernel/terminal/terminal.cpp:173-232 | every key refines its effect on the zipper and the history, and leaves the cells before the input |
| TerminalInput.Terminal.OnKeys | kernel/terminal/terminal.cpp:173-232 | every key sequence in bounds keeps editor and screen in step |
| TerminalScreen.PlainOnLine | kernel/rendering/print/print.cpp:222-234 | text without line breaks that stays on the line extends the last line of the log by its cells: the editor's printing is that of `PrintChars` |
| TerminalScreen.OutputConcat | kernel/rendering/print/print.cpp:222-242 | the texts of an output follow each other, each printed as `PrintChars` prints it |
| TerminalScreen.Console.OnKey | kernel/terminal/terminal.cpp:173-232 | after any key but Enter the last line of the screen's log is the prompt as before and the edited input, with the cursor in step; all else in the log stays |
| TerminalScreen.Console.OnEnter | kernel/terminal/terminal.cpp:52-79 | the entered line stays in the log; below it come the command's output, on a new line, and the prompt, wrapped together, with an empty input in step behind |
| FatLayout.InitIsExact | kernel/storage/filesystem/fat32/fat32.cpp:252-267 | on a volume below 2^32 sectors the 32-bit sum and product do not wrap |
| FatLayout.BootSectorReadBack | kernel/storage/filesystem/fat32/fat32.h:66-94 | the fields read are the little-endian fields at the boot sector's offsets |
| FatLayout.MountIsExact | kernel/storage/filesystem/fat32/fat32.cpp:252-267 | mounting finds the FAT and the data region where the boot sector puts them, with a usable context |
| FatLayout.ClusterArithmetic | kernel/storage/filesystem/fat32/fat32.cpp:22-24 | the 32-bit product does not wrap, and every cluster lies in the data region |
| FatLayout.ClustersDisjoint | kernel/storage/filesystem/fat32/fat32.cpp:22-24 | distinct clusters have disjoint sectors, which never meet any FAT copy |
| FatLayout.FatArithmetic | kernel/storage/filesystem/fat32/fat32.cpp:18-20 | the 32-bit product does not wrap, and the entry lies whole in a sector of the first FAT copy |
| FatChains.NextIsFatEntry | kernel/storage/filesystem/fat32/fat32.cpp:26-35 | the sector-wise lookup is the lookup in the flat array of 28-bit entries |
| FatChains.FatEntryMasks | kernel/storage/filesystem/fat32/fat32.cpp:33-34 | an entry is the 32-bit word at its place without the four top bits |
| FatChains.ChainUnique | kernel/storage/filesystem/fat32/fat32.cpp:222-233 | a first cluster determines its chain |
| FatChains.ChainIsAcyclic | kernel/storage/filesystem/fat32/fat32.cpp:222-233 | a chain that ends visits no cluster twice |
| FatChains.ChainIsBounded | kernel/storage/filesystem/fat32/fat32.cpp:222-233 | a chain has at most as many clusters as there are cluster numbers |
| FatChains.LoopEndsIff | kernel/storage/filesystem/fat32/fat32.cpp:222-233 | the loop ends if and only if an end mark comes up within that many rounds |
| FatChains.BufferFitsIff | kernel/storage/filesystem/fat32/fat32.cpp:217-233 | every round that the loop executes writes inside the allocated buffer if and only if the chain ends and its last cluster begins before the end of the file |
| FatChains.EndlessExample | kernel/storage/filesystem/fat32/fat32.cpp:222-233 | a valid volume with a cluster linked to itself: the loop never ends, and leaves the buffer whatever the file size |
| FatChains.OverflowExample | kernel/storage/filesystem/fat32/fat32.cpp:219-233 | a valid volume with a chain of two clusters and a file of one byte: the second round writes behind the buffer |
| FatChains.ContentsAt | kernel/storage/filesystem/fat32/fat32.cpp:222-233 | in the contents of a chain, cluster k stands right behind the k clusters before it |
| FatChains.ReadClusterChain | kernel/storage/filesystem/fat32/fat32.cpp:214-235 | terminates, stays in its buffer, and the buffer begins with the clusters' contents in chain order; null exactly for an invalid first cluster |
| FatChains.Fat32Read | kernel/storage/filesystem/fat32/fat32.cpp:237-241 | the file's bytes, as far as its chain goes, and a zero behind the last byte of the file |
| FatDirectory.SlotReadBack | kernel/storage/filesystem/fat32/fat32.cpp:97-99 | size, directory bit and the 32-bit cluster number from its two halves read back |
| FatDirectory.KindByBytes | kernel/storage/filesystem/fat32/fat32.cpp:43-54 | for every slot: end mark by its first byte, dot entries by their first two or three, else long-name piece, volume label or file by the attribute bits |
| FatDirectory.DecodeOfEncoded | kernel/storage/filesystem/fat32/fat32.cpp:39-104 | decoding a directory written as records of long-name pieces and a slot gives one entry per record, in order, with the pieces' text in disk order as its name, or the 8.3 name without pieces, and the fields of its slot |
| FatDirectory.TextConcat | kernel/storage/filesystem/fat32/fat32.cpp:56-66 | the pieces' texts are appended in the order of the slots |
| FatDirectory.SkippedHaveNoEffect | kernel/storage/filesystem/fat32/fat32.cpp:46-51 | dot entries and volume labels have no effect wherever they stand |
| FatDirectory.Listed | kernel/storage/filesystem/fat32/fat32.cpp:43-44 | decoding looks at exactly the slots before the first end mark |
| FatDirectory.GetEntriesInDir | kernel/storage/filesystem/fat32/fat32.cpp:39-104 | in place: never more entries than slots, no write outside the output array, and the entries of the specification |
| FatLookup.ReadDirEntries | kernel/storage/filesystem/fat32/fat32.cpp:108-115 | the entries of the directory's first cluster, none for a number that is no data cluster |
| FatLookup.SlotsJoin | kernel/storage/filesystem/fat32/fat32.cpp:41-43 | the slots, one behind the other, are the directory's bytes |
| FatLookup.DirectoryReadBack | kernel/storage/filesystem/fat32/fat32.cpp:108-115 | a first cluster that holds the slots of some records, and then nothing or an end mark, is read as the entries of those records |
| FatLookup.FirstMatchIsFirst | kernel/storage/filesystem/fat32/fat32.cpp:153-159 | the result is the entry with the lowest index that has the name, and is a directory where one is asked for; none exactly when there is none |
| FatLookup.FindIff | kernel/storage/filesystem/fat32/fat32.cpp:123-193 | on a path other than the root's an entry is found exactly when it is the first with the last part's name where directories of the earlier parts' names, each the first of its name, lead from the root cluster |
| FatLookup.FindMissing | kernel/storage/filesystem/fat32/fat32.cpp:164-169 | nothing is found when an earlier part names no directory where the parts before it lead |
| FatLookup.FindRoot | kernel/storage/filesystem/fat32/fat32.cpp:129-136 | the empty path, "/" and "//" give the root directory |
| FatLookup.ResolveAppend | kernel/storage/filesystem/fat32/fat32.cpp:145-185 | resolving a longer path is resolving its tail in the directory its head reaches |
| FatLookup.FindBelow | kernel/storage/filesystem/fat32/fat32.cpp:123-193 | below a path that is a directory, lookup goes on in that directory |
| FatLookup.ListingAgrees | kernel/storage/filesystem/fat32/fat32.cpp:195-210 | a name is found below a directory exactly as the directory's listing has it first |
| FatLookup.RootListingAgrees | kernel/storage/filesystem/fat32/fat32.cpp:129-136 | the same for the root |
| FatLookup.ListMeans | kernel/storage/filesystem/fat32/fat32.cpp:195-210 | a directory that is found is listed with all entries of its cluster, anything else with none |
| FatLookup.LeadingSlash | kernel/storage/filesystem/fat32/fat32.cpp:124-127 | a slash in front of a relative path changes nothing |
| FatLookup.EmptyPartNotFound | kernel/storage/filesystem/fat32/fat32.cpp:138-192 | without empty names on the volume, a path with an empty part, such as a trailing slash, finds nothing |
| FatLookup.FindEntry | kernel/storage/filesystem/fat32/fat32.cpp:123-193 | the loops compute the recursive first-match resolution from the root cluster |
| FatLookup.GetEntries | kernel/storage/filesystem/fat32/fat32.cpp:195-210 | the listing of the directory, or nothing |
| Splitting.SplitJoins | kernel/types/string/string.cpp:425-451 | joining the parts gives the text back, no part contains the separator, and there is one more part than separators |
| Splitting.SplitUnique | kernel/types/string/string.cpp:425-451 | the split is the only such list of parts |
| Splitting.SplitAppend | kernel/types/string/string.cpp:425-451 | splitting distributes over a separator |
| Splitting.StrSplit | kernel/types/string/string.cpp:425-451 | the two loops compute the parts and their number |
| Replacing.FindingsAreMatches | kernel/types/string/string.cpp:143-152 | the collected positions are exactly those of matches, overlapping ones included |
| Replacing.ReplaceIsGreedy | kernel/types/string/string.cpp:134-182 | without overlapping matches the shifting splices give the left-to-right replacement, and never leave the text |
| Replacing.ReplaceIsGreedyIff | kernel/types/string/string.cpp:134-182 | for a replacement of another length this holds if and only if no matches overlap |
| Replacing.OverlapExample | kernel/types/string/string.cpp:161-181 | a concrete input with overlapping matches where the results differ |
| Replacing.SameLengthAt | kernel/types/string/string.cpp:164-167 | with a replacement of the pattern's length each position shows what the last match over it writes there |
| Replacing.SameLengthIff | kernel/types/string/string.cpp:134-182 | it is then the left-to-right replacement if and only if the replacement repeats itself at each distance at which a match begins inside a taken one, up to the next match, and is as the pattern behind the taken one |
| Replacing.ReplacedInOnePass | kernel/types/string/string.cpp:134-182 | for every text, pattern and replacement whose shifted matches stay inside: one pass that copies the text up to each match, or takes back as many characters from the output as it overlaps the one before, and appends the replacement, gives the same text |
| Replacing.BeforeTextExample | kernel/types/string/string.cpp:161-181 | a concrete input whose second write would fall before the text |
| Replacing.StrReplace | kernel/types/string/string.cpp:134-182 | in place on a NUL-terminated buffer, the text of the specification |
| Numbers.UnsignedRoundTrip | kernel/types/string/string.cpp:228-266 | parsing the printed digits gives every 64-bit value back modulo 2^64, in every base from 2 to 36 |
| Numbers.SignedRoundTrip | kernel/types/string/string.cpp:268-271 | the same through the sign branch for every signed value above the minimum |
| Numbers.RoundTripsIff | kernel/types/string/string.cpp:228-266 | all values round-trip if and only if the base is from 2 to 36 |
| Numbers.ToStringMeans | kernel/types/string/string.cpp:228-266 | 0, and any number in a base below 2, is "0"; else, up to base 36, digits of the base with the number's positional value and no leading zero |
| Numbers.ToIntMeans | kernel/types/integer/integer.cpp:12-34 | the signed 64-bit number congruent modulo 2^64 to the positional value of the digits, or to its negation behind a minus sign |
| Numbers.DigitAlphabet | kernel/types/integer/integer.cpp:6-10 | digits below 36 are 0 to 9 and the letters in order, written in lower case and read in either |
| Numbers.OtherCharacter | kernel/types/integer/integer.cpp:6-10 | every other character is read as 0 |
| Numbers.DigitsAreUnique | kernel/types/string/string.cpp:233-253 | no other digits of the base without a leading zero have that value |
| Numbers.DigitsInOrder | kernel/types/string/string.cpp:245-249 | beyond the letters each digit is the character behind the one before, modulo 256 |
| Numbers.ToStringLoop | kernel/types/string/string.cpp:228-266 | counting, composing and reversing in place write the digits of the specification and a NUL |
| Numbers.ToIntLoop | kernel/types/integer/integer.cpp:12-34 | the loop on wrapping 64-bit arithmetic computes the specification |

## Left out

- VmmLedger.NothingLiveOnlyTables: speaks of the runs of `VmmLedger.LedgerRun`; in the others the code loses pages.
- BitRuns.FirstRunUnique: a run of length 0 is never found, as in the code, so an allocation of 0 bytes fails.
- VmmRuns.Ownership: runs free only addresses of the window; freeing other addresses is not modelled.
- KernelMemory.AddressSpace.VmmFreePages: the ghost parameter `fixed` only names the frames reserved at boot; the method requires ownership, without which an entry could name a frame beyond the bitmap.
- HeapBlocks.RunKeeps: frees of pointers that are not live are outside the contract of `free` and are skipped.
- ScreenBuffer.Screen.PrintChars: framebuffer pixels, fonts, redraw and the rendered cursor are not modelled; neither is `prevline`.
- TerminalScreen.Console.OnEnter: what a command prints is a parameter, and the commands themselves are not modelled; `clear`, which starts an empty screen, and output that leaves no room for the prompt on its line are excluded.
- TerminalScreen.Console.OnKey: the editor works on an array that stands for the cursor's line, loaded from the store when the cursor goes to another line and stored after each key; in the code it is that line.
- TerminalInput.Terminal.OnKey: Tab with several candidates, and the search for candidates, are not modelled; Tab with one candidate is.
- TerminalInput.Terminal.InsertCharAtCursor: the input must stay shorter than the buffer and on one screen line; the code does not check either.
- FatDirectory.DecodeOfEncoded: the text of long-name pieces and of 8.3 names is given by a decoder parameter; pieces are appended in disk order and deleted slots are not skipped, as in the code, so conformity with the long-name section of the FAT specification is not claimed. The 256-character limit of a name is not modelled.
- FatChains.Fat32Read: a file whose first cluster is not a data cluster, such as an empty file, is excluded, because the code then writes through a null pointer.
- FatLookup.FindEntry: at most 64 path parts, the size of the code's table, which it does not check.
- Replacing.StrReplace: at most 1024 matches, every intermediate text fits the buffer, and no shifted match falls before the text (`InBounds`, which `Replacing.BeforeTextExample` violates); the code checks none of these.
- Numbers.SignedRoundTrip: the minimum signed value is excluded, because its negation overflows in the code.
- Physical memory as tables is one value of 2^40 frames; caches, `invlpg` and loading CR3 have no counterpart.
- Temporary strings and buffers that the code takes from its heap are values here, and their allocation always succeeds.
- AHCI, PCI, interrupts, timers, keymaps, MBR parsing, `fat32_write`, `cd`, colours, character predicates, trimming and the String class are not part of this model.
