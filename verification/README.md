# A model of the kernel's memory stack

This project models the memory management of a 32-bit x86 kernel, layer on layer, from the page tables that the boot
code writes to the words of the kernel heap, and proves what the layers promise each other. Two smaller parts of the
kernel stand beside it: the formatting of numbers and the periodic timers.

| file | models |
|---|---|
| `Words.dfy` | 32-bit words, wrap-around, rounding |
| `Paging.dfy` | the two-level walk of 32-bit paging (Intel SDM Vol. 3A, section 4.3), `includes/awa/mm/page.h`, who owns which frame |
| `Search.dfy` | the next-fit search of `kernel/mm/pmm.c` on the plain set of free pages |
| `Pmm.dfy` | `kernel/mm/pmm.c`: the bitmap of physical pages |
| `Backing.dfy` | what it takes to back pages: frames for them and for their tables |
| `Vmm.dfy` | `kernel/mm/vmm.c`: the page-table editor |
| `PageBooks.dfy`, `PageSession.dfy` | sequences of operations of the page-table editor and the bitmap |
| `Dmm.dfy` | `kernel/mm/dmm.c`: the break |
| `HeapLayout.dfy` | the block lists that heap words encode, and what each store of `kernel/mm/kalloc.c` does to them |
| `Kalloc.dfy` | `kernel/mm/kalloc.c`: the heap, word by word in virtual memory |
| `HeapRuns.dfy` | laws of whole runs of lxmalloc and lxfree |
| `Session.dfy` | sequences of lxmalloc and lxfree calls on the heap in memory |
| `Boot.dfy` | `arch/x86/hhk.c`: the boot tables |
| `KInit.dfy` | `kernel/k_init.c`: from boot tables and memory map to a running heap |
| `Itoa.dfy`, `Sprintf.dfy` | numerals and numeric conversions |
| `Timer.dfy` | timers on the cyclic list |

## How the layers meet

Physical memory is a sequence of 2^20 frames of 1024 words. `Paging.Walk` is the walk of the MMU over it. Everything
above the boot code reads and writes memory only through that walk: the page-table editor reaches the directory and the
tables through the recursive window, and the heap reaches its headers and footers through the pages that the break has
backed. Nothing is assumed about the tables except the invariant `Paging.Owned`, which every operation keeps: the
directory maps itself, its entries are clear or name distinct tables, and every managed frame has at most one role (a
table, or the target of one entry) and none while its bit in the bitmap is clear. `managed`, a ghost set, is the pool
of frames that setup_memory handed to the allocator, extended by what unmapping gives back later.

The heap class keeps its words in virtual memory. Its ghost fields hold what those words are (`words`) and the block
list that they encode (`blocks`); `Heap.Valid` ties the three together: the words from `start` to the epilogue are
exactly the encoding of a well-formed block list, and each lies in a backed page. `Contents` is what the owners of live
blocks see. Each method says what it does to both, and that it disturbs nothing else (`HeapBreak.Undisturbed`): every
translation and every managed word outside the heap stays. `HeapRuns` reasons about the resulting steps.

Success and failure are exact. `PageSearch.Take` and `PageSearch.After` say which page the search of pmm_alloc_page
takes from a set of free pages, a cursor and a limit, and where the cursor is afterwards, failure included. On top of
that `Backing.CanBackAll` says when a range of pages can be backed: no page of it is mapped, and the search yields a
frame for each and another for each missing table. `HeapBreak.BreakMoves`, `Heap.CanGrow`, `KernelHeap.HeapComesUp` and
`KernelInit.ComesUp` carry this up to the result of lxbrk, of lxmalloc, of kalloc_init and of the whole boot; `Plenty`
gives a simple condition on the free pages that is enough for all of them. What is left over is exact as well:
`Vmm.Budget`, the tables that exist, the state of the search and the mapped pages, is a function of what it was before
(`Backing.WithPages`, `Backing.AfterFailure`, `KernelHeap.Spent`), so that no operation uses more than it needs.

`BringUp` composes the layers: on any memory content, with any memory map whose entries fit the bitmap, the chain
_hhk_init, pmm_init, setup_memory, setup_kernel_runtime ends with every invariant in force and with a valid heap exactly
when `ComesUp` holds; 303 consecutive usable pages below max_pg are enough (`EnoughMemory`).

## Domains

- Heap requests are at most 0xFFFFFFF4 bytes. Beyond that the roundings of lx_malloc_internal and lx_grow_heap wrap
  around; `RequestWraps` shows that the bound is exact. The same limit appears as `size <= 0xFFFFFFFC` at lxbrk.
- lxfree is given NULL or the address of a live payload.
- Addresses given to the page-table editor are page aligned; pages that are to be mapped lie below the recursive
  window, except where the source itself tests for it (vmm_set_mapping, vmm_unmap_page). Attributes are at most 128, as
  the source asserts, and carry the present bit, as all its callers' do.
- A frame that is mapped is outside the managed pool or allocated and idle (`Mappable`); an entry that is dropped and
  whose frame is thereby freed was the only user of that frame (`Releasable`, always true of managed frames).
- vmm_map_page is given an address with some clear entry at or above it, entries of the directory included; without one
  the source reads on past the last slot.
- Chunk marking stays inside the bitmap; the memory map is in bounds in that sense. A range that ends with the last
  group is excluded, because the source then reads and writes back the byte after the array.
- The image fits the tables that hhk.c provides: at most 768 boot pages, kernel entry index plus page count at most
  3072.
- Bit masks on words that only cut off or test low bits are written as `/` and `%`. The masks of the page bitmap are
  bit operations.
- Width and precision of a conversion are such that the padding arithmetic stays within an int: the source mixes int and
  size_t there, and wraps for a precision near INT_MAX.
- assert and assert_msg are those of a build without `__AWAOS_DEBUG__`: they evaluate their condition, which the source
  relies on for pmm_free_page and kalloc_init, and discard it. Those of lxfree are shown to hold for live pointers.

## Where the code does not do what one would expect

Each of these is stated with its exact condition, and with a concrete case.

- A request for up to 8 pages that straddles a group of eight loses its tail in pmm_mark_chunk_free and
  pmm_mark_chunk_occupied: `ChunkIsWhole`, `ChunkTailLostExample`.
- pmm_alloc_page can miss free pages: a cursor that is not a multiple of eight skips the low bits of every group it
  enters through full groups, and the search does not wrap around when its pass ends in a group that is not full.
  `SearchMisses` and `FirstSearchMisses` say exactly when; `SearchMissesExample` misses pages 2 and 8 with max_pg 16.
- pmm_alloc_page may return a page at or past max_pg, which pmm_free_page refuses to take back: `PastLimit` says exactly
  when, `PastLimitExample` returns page 13 with max_pg 12.
- setup_memory frees pages that lie outside the available memory it is told about: the base of an entry is rounded up
  and its length down, each on its own, and the high half of the base is ignored. `EntryIsHonoured` is the exact
  condition on an entry; `PageSticksOutExample` and `HighEntryExample` are entries that fail it.
- vmm_map_page reads through an absent table, and faults, exactly when its scan runs into one: `MapPage`, with
  `FullTableBeforeNone` for the states in which it does and `FullLowTable` for boot tables that are one.
- vmm_map_page overwrites a directory entry, and so turns the mapped frame into a page table, exactly when no page is
  unmapped between the address and the window: `MapPage`, `DirectoryOverwritten`, with `ScanEndsInDirectory` for the
  states in which it does. A call for the first stack page once all sixteen are backed is such a case.
- A page that vmm_alloc_pages has taken and cannot map is lost to the allocator: `AllocPages` with `LostAt` says which
  frames are lost by a failed call, `FrameIsLostExample` is a case.
- A request of more than 0xFFFFFFF4 bytes wraps around, and lxbrk is asked for nothing: `RequestWraps`,
  `RequestWrapsExample`.
- When the epilogue is the last word of its page, lxbrk asks for a page that the heap covers already, and the heap never
  grows again: `BoundaryIsCovered`, `GrowHeap`, and `GrowthEnds`, which gets there from the heap that kalloc_init leaves
  with one request of 8180 bytes.
- itoa in base 10, and with it `%u`, prints words from 2^31 on with a minus sign, `%d` prints two signs for INT_MIN:
  `ItoaIsNumeral`, `FieldParsesBack`, `SignedFieldParsesBack`, with `ItoaExample` and `IntMinExample`.
- llist_delete leaves a wrong back pointer unless the list has just one element: `Delete`, `DeleteOfTwo`.

## Model

| member | source | states |
|---|---|---|
| KernelHeap.Heap.LxMalloc | kernel/mm/kalloc.c:129-165 | first fit: when some free block is large enough the lowest one is split and the break stays; otherwise the heap grows by the rounded request and the end is split; NULL comes back if and only if the size is 0, or nothing fits and lxbrk does not move the break; a non-NULL result is 4-aligned, its payload is new, all other payloads are as before, and payloads never overlap each other or a header; the new layout is the step of a run; no translation and no managed word outside the heap changes; the payload has the requested bytes rounded up to a word; tables, page search and mapped pages stay when something fits, and are otherwise those after lxbrk backs the pages from that after the old break up to that of the new epilogue, or fails to |
| KernelHeap.Heap.FirstFitChunk | kernel/mm/kalloc.c:138-154 | the header walk stops at the first block that fits, or exactly at the epilogue when none does |
| KernelHeap.Heap.PlaceChunk | kernel/mm/kalloc.c:167-197 | the words encode the layout in which the free block is taken whole or split, and one payload is added |
| KernelHeap.Heap.Coalesce | kernel/mm/kalloc.c:199-236 | the four cases all end in an exact encoding of the merged layout; no word outside the merged block changes; the address of the merged block is returned |
| KernelHeap.Heap.LxFree | kernel/mm/kalloc.c:101-126 | exactly the freed payload disappears, the layout is that of releasing its block, the heap stays an exact encoding; NULL changes nothing; no word outside the heap changes |
| KernelHeap.Heap.FreeChunk | kernel/mm/kalloc.c:107-125 | the three header stores and the merge, on any allocated block; the two assertions of the source hold |
| KernelHeap.Heap.GrowHeap | kernel/mm/kalloc.c:239-260 | succeeds if and only if the break moves; then the old epilogue becomes a free block merged with a free last block and payloads stay; otherwise heap and break stay as they were, which is certain when the epilogue ends its page; nothing outside the heap changes; tables, page search and mapped pages are exactly those that backing the new pages, or failing to, leaves |
| KernelHeap.Heap.MoveBreak | kernel/mm/kalloc.c:245-251 | succeeds if and only if the break moves; every word up to the new epilogue is backed, the old words survive, existing translations and the words behind them stay; no further page is mapped and no further frame used |
| KernelHeap.Heap.AddBlock | kernel/mm/kalloc.c:253-259 | on the grown range the heap is valid again, with the grown layout and the old payloads |
| KernelHeap.Heap.WriteGrown | kernel/mm/kalloc.c:253-259 | the stores of the growth encode the grown layout and change no payload |
| KernelHeap.Heap.KallocInit | kernel/mm/kalloc.c:62-77 | succeeds if and only if the first page can be backed and the break can then move by 4096 and the epilogue; then the heap is prologue, one free block of 4096 bytes, epilogue, without payloads; in any case nothing outside the heap changes; the frames used are exactly those of the two pages, and of tables that were missing |
| KernelHeap.Heap.FirstPage | kernel/mm/kalloc.c:64-74 | succeeds if and only if the first page can be backed; then the words 4/1 and 0/1 encode the heap of just the prologue |
| KernelHeap.HeapComesUpMeans | kernel/mm/kalloc.c:62-77 | kalloc_init succeeds if and only if two pages from the start on can be backed and start + 4104 is below max_addr |
| KernelHeap.GrowthAtOnce | kernel/mm/dmm.c:39-71 | the heap can grow by n words if and only if the new epilogue ends below max_addr and every page after that of the break, up to that of the end of the epilogue, can be backed |
| KernelHeap.GrowthSpends | kernel/mm/dmm.c:57-69 | then exactly these pages are backed, and no others |
| KernelHeap.GrowthInTwo | kernel/mm/dmm.c:39-71 | growing twice is possible if and only if growing by the sum at once is, and leaves the same tables, page search and mapped pages, unless the epilogue ends its page in between |
| KernelHeap.Heap.SW | includes/awa/mm/dmm.h:20 | a store at the address of word k changes word k of the heap and no other, through the page tables |
| KernelHeap.Heap.LW | includes/awa/mm/dmm.h:21 | a load at the address of word k gives word k, through the page tables |
| KernelHeap.Heap.StorePayload | kernel/mm/kalloc.c:98 | a store by the owner of a live payload, such as the memset of lxcalloc, word by word: it keeps the encoding and changes that payload only, outside the heap as well as inside |
| HeapLayout.HeaderFields | includes/awa/mm/dmm.h:8-18 | size and flags come back out of a packed header, and the flag edits of the source yield the packed header they mean |
| HeapLayout.HeaderBits | includes/awa/mm/dmm.h:8-18 | size in the upper 30 bits, PREV_FREE in bit 1, ALLOCATED in bit 0 |
| HeapLayout.CoalesceEncodes | kernel/mm/kalloc.c:202-232 | one header and one footer at the outer ends make the merged list exact, 4-byte free blocks included |
| HeapLayout.MergeWellFormed | kernel/mm/kalloc.c:199-236 | after merging no two free blocks are adjacent, no block is empty, the total length is kept |
| HeapLayout.FreeStoresReady | kernel/mm/kalloc.c:121-125 | after the stores of lxfree the words are what coalesce expects, whatever the neighbours are |
| HeapLayout.FreeView | kernel/mm/kalloc.c:107-123 | what lxfree reads from header and next header, for every allocated block |
| HeapLayout.PlaceExactStores | kernel/mm/kalloc.c:176-180 | taking a block whole: new header and cleared PREV_FREE behind it give the exact encoding |
| HeapLayout.PlaceSplitStores | kernel/mm/kalloc.c:181-195 | splitting a block: the remainder is ready for coalesce, nothing beyond the old block changes |
| HeapLayout.GrowStores | kernel/mm/kalloc.c:253-259 | the words written over the old epilogue and the new epilogue are ready for coalesce |
| HeapLayout.PlaceWellFormed | kernel/mm/kalloc.c:167-197 | taking or splitting a free block keeps the shape and the total length |
| HeapLayout.ReleaseWellFormed | kernel/mm/kalloc.c:101-126 | releasing an allocated block keeps the shape and the total length |
| HeapLayout.GrowWellFormed | kernel/mm/kalloc.c:239-260 | growing keeps the shape and adds exactly the grown length |
| HeapLayout.PlaceLive | kernel/mm/kalloc.c:167-197 | whatever is written inside the old free block and the header behind it, the live payloads gain the new one and lose none |
| HeapLayout.ReleaseLive | kernel/mm/kalloc.c:101-126 | footers go into dead words only: all live payloads but the freed one keep every word |
| HeapLayout.GrowLive | kernel/mm/kalloc.c:239-260 | growing keeps every live payload |
| HeapLayout.PayloadStore | kernel/mm/kalloc.c:98 | payload words are no header and no footer: storing there, as the memset of lxcalloc does, keeps the encoding and all other payloads |
| HeapLayout.SlotBlock | kernel/mm/kalloc.c:107-109 | every live payload is the inside of one allocated block, one word behind its header |
| HeapLayout.RequestIsLargeEnough | kernel/mm/kalloc.c:141 | the rounded request holds a header and the payload with less than a word to spare |
| HeapLayout.RequestWraps | kernel/mm/kalloc.c:141-158 | the bytes asked of lxbrk cover payload, header and epilogue if and only if the request is at most 0xFFFFFFF4 |
| HeapLayout.PayloadsAreApart | kernel/mm/kalloc.c:172-195 | payloads of a heap do not overlap, and between any two there is room for the header of the later one |
| HeapLayout.SlotDeterminesBlock | kernel/mm/kalloc.c:107-109 | a payload pointer belongs to one block only |
| HeapLayout.RequestWrapsExample | kernel/mm/kalloc.c:141-158 | the smallest request beyond the bound asks lxbrk for 0 bytes |
| HeapRuns.StepWellFormed | kernel/mm/kalloc.c:101-260 | every request keeps the shape; only growth changes the total length |
| HeapRuns.RunWellFormed | kernel/mm/kalloc.c:62-260 | every run of requests keeps the shape and loses no word |
| HeapRuns.DrainedLayout | kernel/mm/kalloc.c:199-236 | a heap without allocated blocks is prologue and one free block |
| HeapRuns.DrainedRunsAgree | kernel/mm/kalloc.c:101-236 | two runs that free everything, in whatever order, and end with the same break end in the same layout |
| HeapRuns.DrainedHeap | kernel/mm/kalloc.c:101-236 | a valid heap without live payloads is prologue, one free block of brk - start - 4 bytes, epilogue |
| HeapRuns.ReleaseUndoesPlace | kernel/mm/kalloc.c:101-197 | freeing what was just placed restores the block list |
| HeapRuns.FreeUndoesMalloc | kernel/mm/kalloc.c:101-165 | whichever block lxfree finds at the pointer that lxmalloc has just returned, releasing it restores the block list when the heap did not grow |
| HeapRuns.FirstFitFrom | kernel/mm/kalloc.c:142-154 | the position found is the first that fits |
| HeapRuns.MallocMeans | kernel/mm/kalloc.c:138-195 | the first free block with n words, whichever it is, becomes an allocated one of n words, and a free one of what is left; all other blocks stay |
| HeapRuns.GrowthMeans | kernel/mm/kalloc.c:156-260 | when no free block has n words: nothing happens unless the break moves; then n words come to the end, merged with a free last block, and the first n words there are the new block |
| HeapRuns.FreeMeans | kernel/mm/kalloc.c:199-236 | the four cases of a release: the block becomes one free block with its free neighbours |
| HeapRuns.MallocIsStep | kernel/mm/kalloc.c:129-165 | first fit, growth and refusal are the step for a request with the answer of lxbrk |
| HeapRuns.FreeIsStep | kernel/mm/kalloc.c:101-126 | the release of the block at a live payload's pointer is the step for that block, and no other block is at that pointer |
| HeapSession.Session | kernel/mm/kalloc.c:80-165 | after any sequence of lxmalloc, lxfree and owners' stores the words encode the layout of the run of the requests; the payloads are the earlier ones, unchanged, and one for each pointer still live, of at least the size asked for, in which every word that its owner wrote reads as written last; nothing outside the heap has changed; a heap with nothing live is prologue, one free block, epilogue |
| HeapSession.AllocateAndGiveBack | kernel/mm/kalloc.c:80-126 | lxfree of a just-returned lxmalloc restores all payloads, and the layout when some block was large enough |
| HeapSession.GrowTwice | kernel/mm/kalloc.c:129-165 | two requests of which the first makes the heap grow: both are served if and only if the heap can grow for the first, and either some block is then large enough for the second or the heap could have grown for both at once; unless the epilogue ends its page in between |
| HeapSession.GrowthEnds | kernel/mm/kalloc.c:239-260 | from the heap that kalloc_init leaves, one growing request of 8180 bytes puts the epilogue at the end of its page, and the next request that needs growth fails |
| HeapBreak.HeapContext.Lxbrk | kernel/mm/dmm.c:39-71 | succeeds if and only if the new break stays below max_addr and every page it enters can be backed; then the break moves by the size, and exactly the pages after that of the old break, up to that of the new one, are newly mapped, each to a frame of its own; tables and page search are those after backing these pages, those of a failed vmm_alloc_pages, or, where it is not called, as before; existing translations and the words behind them stay in all cases |
| HeapBreak.HeapContext.EnterPages | kernel/mm/dmm.c:57-67 | the pages after that of the break, up to that of next, are backed, and no others, if and only if all of them can be; tables and page search afterwards are exact in both cases |
| HeapBreak.BreakStays | kernel/mm/dmm.c:53-67 | the break stays only because of the end of the range, a page mapped already, or frames that run out |
| HeapBreak.BoundaryIsCovered | kernel/mm/dmm.c:57-62 | the page after that of the break is one the heap covers already if and only if the epilogue is the last word of its page |
| HeapBreak.HeapContext.DmmInit | kernel/mm/dmm.c:23-31 | succeeds if and only if the first page of the heap can be backed; then its frame was free, and it is the only new mapping; other managed words stay |
| HeapBreak.BreakArithmetic | kernel/mm/dmm.c:50-57 | without wrap-around the pages asked for are exactly those between the old and the new break |
| HeapBreak.UndisturbedMeans | kernel/mm/kalloc.c:80-260 | what it means that a heap operation disturbs nothing: an existing translation stays, and a managed word outside the range reads as before |
| VirtualMemory.Vmm.EnsureTable | kernel/mm/vmm.c:44-54 | a missing table is taken from the free frames, registered and cleared, through the window, and no translation changes; it fails exactly when the table is absent and the bitmap search finds nothing; its directory entry has the frame that the search takes, and the flags given |
| VirtualMemory.Vmm.MapInternal | kernel/mm/vmm.c:31-69 | not forced: the map of translations gains this page, exactly when the page was unmapped and a table can be had; otherwise memory is unchanged |
| VirtualMemory.Vmm.ForceMapInternal | kernel/mm/vmm.c:31-69 | forced: the translation is replaced and the old frame released, failing exactly when a table cannot be had |
| VirtualMemory.Vmm.WriteEntry | kernel/mm/vmm.c:56-66 | the frame of the old entry is released, one translation changes, the invariant stays |
| VirtualMemory.Vmm.FillEntry | kernel/mm/vmm.c:165-169 | a clear entry is filled and only its page is translated anew |
| VirtualMemory.Vmm.ForceMapPage | kernel/mm/vmm.c:186-205 | NULL exactly for a null address or a table that cannot be had; otherwise the page maps to pa whatever it mapped to before; the page search afterwards is exact: one frame less if the table was absent, one more if a page below max_pg was mapped |
| VirtualMemory.Vmm.SetMapping | kernel/mm/vmm.c:246-259 | inserts exactly when the page is unmapped, outside the window and a table can be had; otherwise all translations stay; tables and page search afterwards are exact: only an absent table takes a frame |
| VirtualMemory.Vmm.UnmapPage | kernel/mm/vmm.c:262-288 | removes exactly this page from the map and releases its frame; the window is left alone; the frame returns to the free set unless it is page 0 or past max_pg, and nothing else does |
| VirtualMemory.Vmm.DropEntry | kernel/mm/vmm.c:280-286 | the entry is cleared, its frame freed, every other translation stays |
| VirtualMemory.Vmm.FreeTarget | kernel/mm/vmm.c:282-284 | releases the target of a present entry unless pmm_free_page refuses it |
| VirtualMemory.Vmm.Lookup | kernel/mm/vmm.c:291-314 | reads back frame and flags of what is mapped, zeros elsewhere; inside the window it reads directory entries |
| VirtualMemory.Vmm.FindHole | kernel/mm/vmm.c:152-171 | the scan reaches the first clear entry, in the directory if there is none before the window, and faults exactly when that entry's table is absent and not the one it started in |
| VirtualMemory.Vmm.MapPage | kernel/mm/vmm.c:73-183 | maps the least unmapped page at or above va, changing nothing else; page fault and NULL each have their exact condition and change nothing; when that page lies in the window, the directory entry that is overwritten |
| VirtualMemory.Vmm.AllocPage | kernel/mm/vmm.c:208-217 | succeeds if and only if the search yields a frame and the hole's table exists or is va's own and gets one too; then the least unmapped page is backed with a frame that was free and has no other use; on failure all translations stay and the frame is given back unless it is past max_pg; the search state afterwards is exact, page faults and refused frames included |
| VirtualMemory.Vmm.BackPage | kernel/mm/vmm.c:227-231 | one round of vmm_alloc_pages succeeds if and only if the page is unmapped and the search yields a frame for it and for a missing table; then the target is the frame that the search takes; on failure memory is unchanged and the frame that the search takes for the page, if any, is neither free nor in use: it is lost |
| VirtualMemory.Vmm.Rollback | kernel/mm/vmm.c:233-236 | unmapping the pages done so far restores the map of translations |
| VirtualMemory.Vmm.AllocPages | kernel/mm/vmm.c:220-243 | all or nothing: if and only if all pages can be backed one after the other, every page of the range maps to the frame that the search takes for it; otherwise every translation is as before; tables, page search and the lost frames are exact in both cases (`LostAt`) |
| VirtualMemory.Vmm.Undo | kernel/mm/vmm.c:232-238 | the failing branch restores the translations and loses exactly those frames |
| Backing.BackedPagesAreUnmapped | kernel/mm/vmm.c:56-59 | pages can be backed only if none of them is mapped |
| Backing.PlentyBacks | kernel/mm/vmm.c:226-241 | two free last pages of bitmap groups ahead of the cursor for each page are enough to back unmapped pages |
| Backing.PlentyPassesNone | kernel/k_init.c:229-231 | the same for pages backed one by one: none is passed over |
| Backing.FrameIsLostExample | kernel/mm/vmm.c:227-238 | page 5 is mapped already, frame 15 the only free one: it is taken for page 5 and lost, and nothing is free any more |
| Backing.FirstFrameIsLost | kernel/mm/vmm.c:227-238 | when the first page is mapped already, or its table is absent and no second frame is found, the call fails and the frame that the search takes is the one lost frame: it leaves the free set, and tables and mapped pages stay |
| Backing.NothingIsLost | kernel/mm/vmm.c:227-238 | when no frame is found for the first page, the call fails and the free set stays |
| Backing.LostAt | kernel/mm/vmm.c:227-238 | the call fails at page k: a frame is lost if and only if the search takes it for that page, or it is the target of a page before and not below max_pg; what is free afterwards is stated likewise |
| Backing.FailsThere | kernel/mm/vmm.c:226-231 | a range that cannot be backed has a first page at which it fails |
| Backing.BackingUses | kernel/mm/vmm.c:226-241 | conservation: n pages use n frames, and one more for each table that was missing; exactly these pages are newly mapped and their tables exist; every target was free and is not any more |
| Backing.BackedInTwo | kernel/mm/vmm.c:226-241 | backing n pages and then m more is backing n + m |
| VirtualMemory.Vmm.SW | includes/awa/mm/dmm.h:20 | a store through a backed page is seen at its own address and nowhere else, and no translation changes |
| VirtualMemory.WordsSurvive | kernel/mm/vmm.c:44-66 | table edits leave the words behind existing pages as they are |
| PageSession.Session | kernel/mm/vmm.c:208-314 | after any sequence of vmm_alloc_page, vmm_alloc_pages, vmm_unmap_page, vmm_set_mapping, pmm_alloc_page and pmm_free_page no managed frame has two roles and none with a role is free; the translations are the earlier ones and those the session made and did not remove; frames in hand have no role; only the directory and tables have changed; tables, page search, targets, the list of pages and that of frames in hand are those of the run of the calls |
| PageSession.ServeMap | kernel/mm/vmm.c:246-259 | a frame in hand becomes the target of a page, or stays in hand, as vmm_lookup then tells |
| PageBooks.BackedBooks | kernel/mm/vmm.c:208-217 | the outcome of vmm_alloc_page at an unmapped page is the step of the books |
| PageBooks.RangeBooks | kernel/mm/vmm.c:220-243 | the outcome of vmm_alloc_pages, success or failure, is the step of the books |
| PageBooks.UnmapBooks | kernel/mm/vmm.c:262-289 | the outcome of vmm_unmap_page is the step of the books |
| PageBooks.MapBooks | kernel/mm/vmm.c:246-259 | the outcome of vmm_set_mapping at an unmapped page is the step of the books |
| PageSession.StaysIdle | kernel/mm/vmm.c:44-66 | a frame that is neither free nor in use gets no role from what others map |
| Paging.AtMostOneRole | kernel/mm/vmm.c:44-54 | in every state the operations keep, two roles of a managed frame are the same role, and a frame with a role is not free |
| Paging.WindowReachesTables | includes/awa/mm/page.h:113-119 | in a self-mapped directory the walk of L2_VADDR(i) + 4j ends at word j of table i, that of L1_BASE_VADDR + 4i at word i of the directory |
| Paging.AddressFields | includes/awa/mm/page.h:23-25 | the three fields rebuild every address, and no others do |
| Paging.EntryFields | includes/awa/mm/page.h:42-49 | frame, flags and present bit come back out of an entry |
| Paging.WalkIsPte | includes/awa/mm/page.h:19-28 | the walk of any address is decided by the entry of its page |
| Paging.PteWriteMappings | kernel/mm/vmm.c:66 | writing an entry changes the map of translations at its own page only |
| Paging.OwnedAfterTable | kernel/mm/vmm.c:45-53 | creating a table keeps the ownership invariant |
| Paging.OwnedAfterMap | kernel/mm/vmm.c:66 | filling a clear entry keeps the ownership invariant |
| Paging.OwnedAfterDrop | kernel/mm/vmm.c:282-286 | clearing an entry and freeing its frame keeps the ownership invariant |
| Paging.OwnedAfterReplace | kernel/mm/vmm.c:61-66 | replacing an entry and freeing the old frame keeps the ownership invariant |
| Paging.StoreIsLocal | includes/awa/mm/dmm.h:20 | a store through a page of the pool changes no translation and no other virtual word |
| Paging.FullTableBeforeNone | kernel/mm/vmm.c:158-166 | a full table with none behind it is a state in which vmm_map_page faults |
| Paging.ScanEndsInDirectory | kernel/mm/vmm.c:158-171 | with every page up to the window mapped, the scan ends at the first clear slot of the directory |
| Paging.DirectoryOverwritten | kernel/mm/vmm.c:166-169 | an entry written there makes the words of the frame, whatever they are, the entries of 1024 pages |
| PhysicalPages.Bitmap.constructor | kernel/mm/pmm.c:104-114 | all pages occupied, max_pg and the cursor as pmm_init sets them |
| PhysicalPages.Bitmap.MarkPageFree | kernel/mm/pmm.c:42-46 | adds this page to the free set and no other |
| PhysicalPages.Bitmap.MarkPageOccupied | kernel/mm/pmm.c:49-54 | removes this page from the free set and no other |
| PhysicalPages.Bitmap.MarkChunkFree | kernel/mm/pmm.c:59-76 | the masks and whole bytes add exactly the effective pages to the free set |
| PhysicalPages.Bitmap.MarkChunkOccupied | kernel/mm/pmm.c:80-95 | the masks and whole bytes remove exactly the effective pages from the free set |
| PhysicalPages.ChunkIsWhole | kernel/mm/pmm.c:15-21 | the effective pages are the whole range if and only if it has more than 8 pages or stays in one group |
| PhysicalPages.ChunkTailLostExample | kernel/mm/pmm.c:74-75 | pages 6 to 9: the operation stops after page 7 |
| PhysicalPages.OnesBits | kernel/mm/pmm.c:65-75 | which bits the chunk mask selects, most significant first |
| PhysicalPages.PageMaskIsShift | kernel/mm/pmm.c:6-8 | the single-page mask is 0x80 shifted, and one of the chunk masks |
| PhysicalPages.GroupWrite | kernel/mm/pmm.c:65 | writing one byte changes the free set by the bits of that byte only |
| PhysicalPages.Bitmap.ScanGroup | kernel/mm/pmm.c:129-135 | takes the first free page from the cursor to the end of its group, or moves the cursor to the next group |
| PhysicalPages.Bitmap.AllocPage | kernel/mm/pmm.c:117-150 | refines the search on the set of free pages: it takes the page the search takes, only that page leaves the free set, and the cursor ends where the search says, also on failure; the wrapping search terminates |
| PageSearch.SearchEnds | kernel/mm/pmm.c:121-149 | first pass, wrap-around and second pass make up the search, with the page taken or the end of the cursor |
| PageSearch.PassSeesNothing | kernel/mm/pmm.c:124-148 | a pass sees nothing if and only if the free pages of the groups it reaches lie in one group, below the bit it is entered at or not entered |
| PageSearch.MissedByPass | kernel/mm/pmm.c:128-137 | a pass misses a free page if and only if that page is in the first open group, below the bit it is entered at |
| PageSearch.SearchMisses | kernel/mm/pmm.c:117-150 | exactly when pmm_alloc_page fails, on free set, cursor and max_pg: the free pages that the first pass reaches lie in one group, below the bit at which it is entered or not entered; and the search started at page 1 or at max_pg, or the first group that is not full is the last one, or the second pass up to the cursor is blind likewise |
| PageSearch.FirstSearchMisses | kernel/mm/pmm.c:98-150 | exactly when the search from the initial cursor finds nothing |
| PageSearch.SearchMissesExample | kernel/mm/pmm.c:117-150 | with pages 2 and 8 free, cursor 9 and max_pg 16 nothing is found, and the cursor ends at 16 |
| PageSearch.FirstSearchMissesExample | kernel/mm/pmm.c:98-150 | page 8 is missed from the initial cursor |
| PageSearch.StrandedFails | kernel/mm/pmm.c:128-136 | free pages only in the last group, below the bit at which it is entered: the search fails and leaves the cursor behind that group, whatever is free below the cursor |
| PageSearch.FirstPassTakes | kernel/mm/pmm.c:124-137 | which page the first pass takes: behind full groups the first one from the bit of the cursor on, otherwise the first one of any later group |
| PageSearch.SearchTurnsBack | kernel/mm/pmm.c:138-147 | the search turns back when its first pass is blind and has not ended in its first open group; it then does what a search from page 1 up to the cursor does |
| PageSearch.SearchTurnsBackExample | kernel/mm/pmm.c:138-147 | pages 2 and 3 are found in the second pass, from cursors 9 and 13 |
| PageSearch.FailedCursor | kernel/mm/pmm.c:124-149 | where the cursor is left by a failed search that has not turned back |
| PageSearch.PastLimit | kernel/mm/pmm.c:124-135 | the page taken lies at or past max_pg if and only if the first pass sees a page and the free pages below max_pg, from the cursor's group on, lie in one group below the cursor's bit |
| PageSearch.PastLimitExample | kernel/mm/pmm.c:124-135 | page 13 is returned with max_pg 12 |
| PageSearch.PlentyTakes | kernel/mm/pmm.c:117-150 | every pass comes across the last page of a group, so that n free ones ahead of the cursor serve n calls |
| PageSearch.UnseenLieInOneGroup | kernel/mm/pmm.c:124-148 | after a failed pass the free pages it missed lie in one group, below the bit it entered at; there are none if it entered at a group boundary |
| PageSearch.PassOpen | kernel/mm/pmm.c:128-135 | a group that is not full: the cursor is aligned afterwards, and a pass that ends there does not wrap around |
| PhysicalPages.Bitmap.FreePage | kernel/mm/pmm.c:153-163 | frees a page exactly when it is not page 0 and below max_pg |
| BootTables.HhkInit | arch/x86/hhk.c:241-255 | every word of the buffer, whatever it held before |
| BootTables.InitPage | arch/x86/hhk.c:120-200 | the linear writes, across table boundaries, leave exactly the words listed |
| BootTables.BootDirectory | arch/x86/hhk.c:122-199 | the directory names the low table, three kernel tables and itself, and is clear elsewhere |
| BootTables.BootTranslation | arch/x86/hhk.c:125-190 | the entry of every page below the window, also where the kernel's entries run into the next table |
| BootTables.BootWalk | arch/x86/hhk.c:120-200 | the walk takes low memory and boot pages to themselves, each kernel address to itself minus 0xC0000000, and faults at every other address below 0xFFC00000 |
| BootTables.BootMap | arch/x86/hhk.c:92-200 | in terms of the linker symbols: addresses in pages that begin below hhk_end are mapped to themselves, addresses from kernel_start up to the end of the page of the last kernel byte to 0xC0000000 less, and no others below 0xFFC00000 |
| BootTables.BootEntries | arch/x86/hhk.c:120-200 | the words of the directory and of the tables with their flags |
| BootTables.FitsMeans | arch/x86/hhk.c:92-113 | the requirement on the image, in terms of the linker symbols |
| BootTables.BootOwned | arch/x86/hhk.c:120-200 | the boot tables satisfy the ownership invariant, and no frame past the image has a role |
| BootTables.FullLowTable | arch/x86/hhk.c:125-141 | with 768 boot pages the low table is full with none behind it, a state in which vmm_map_page faults |
| KernelInit.SetupMemory | kernel/k_init.c:167-224 | after both passes the pool is exactly the usable pages; the VGA page is newly mapped, and nothing else, if and only if the bitmap search finds a page for its table |
| KernelInit.ReportedPages | kernel/k_init.c:170-191 | a page is freed by the first pass if and only if it is in the effective interval that the code computes for some available entry |
| KernelInit.EntryIsHonoured | kernel/k_init.c:181-186 | the pages freed for an entry lie inside it if and only if it begins below 4 GiB and rounding the base up does not push its last page past its end |
| KernelInit.PageSticksOutExample | kernel/k_init.c:181-186 | an entry from 0x800 to 0x1800 frees page 1 |
| KernelInit.HighEntryExample | kernel/k_init.c:181-186 | an entry above 4 GiB frees a page below 2 MiB |
| KernelInit.UsablePages | kernel/k_init.c:166-203 | a page is left to the allocator if and only if it is at or above the kernel end, not the VGA page, and in the interval computed for an entry of type 1; of an interval of at most 8 pages that straddles two groups of the bitmap only the first part counts |
| KernelInit.UsableIsAvailable | kernel/k_init.c:170-191 | every page left to the allocator lies inside the bytes of an entry of type 1, if all of these are honoured |
| KernelInit.ReservedEntryExample | kernel/k_init.c:179-186 | 256 KiB from 0x3C0000 on: pages 960 to 1023 are freed if the entry is available, none if it is reserved |
| KernelInit.SetupKernelRuntime | kernel/k_init.c:227-234 | every stack page that can be backed is; then the heap comes up valid and empty if and only if its frames are still found; the pool and all existing translations stay; tables, page search and mapped pages afterwards are exact |
| KernelInit.BootIsReady | kernel/k_init.c:166-234 | boot tables meet what setup_memory and kalloc_init need: no roles past the image, VGA table absent, heap start and stack unmapped |
| KernelInit.BootableMeans | arch/x86/hhk.c:92-113 | the image ends on a page boundary below 12 MiB of the higher half, with the boot code and the page tables below its physical end |
| KernelInit.BringUp | kernel/k_init.c:67-95 | the whole chain from arbitrary memory content: the pool is the usable pages of the memory map, every boot page is mapped as the boot tables did, and the heap is valid and empty if and only if the kernel comes up, a condition on image, memory size and memory map alone; tables, page search and mapped pages are those of the image, the VGA buffer, the stack and the heap |
| KernelInit.EnoughMemory | kernel/k_init.c:67-95 | 303 consecutive usable pages below max_pg are enough for the kernel to come up, whatever else is free |
| KernelInit.FewPages | kernel/k_init.c:67-95 | without two usable pages it does not come up |
| KernelInit.MaxPageMeans | kernel/k_init.c:70 | max_pg is 256 plus a quarter of mem_upper, as long as that does not wrap around; at 4 GiB it is 0 |
| Itoa.WriteDigits | libs/klibc/stdlib/itoa.c:10-15 | the digits, least significant first, and no character outside them |
| Itoa.ReverseDigits | libs/klibc/stdlib/itoa.c:17-21 | the slice reversed in place, nothing else touched |
| Itoa.UitoaInternal | libs/klibc/stdlib/itoa.c:8-27 | the numeral, its length and the terminator, for every word and every base from 2 to 36 |
| Itoa.Itoa | libs/klibc/stdlib/itoa.c:30-47 | sign and numeral, with the wrap-around of negating INT_MIN |
| Itoa.ItoaIsNumeral | libs/klibc/stdlib/itoa.c:32-38 | the text is the numeral of the word if and only if the base is not 10 or the word is below 2^31 |
| Itoa.ItoaExample | libs/klibc/stdlib/itoa.c:32-38 | the largest word comes out as -1 |
| Itoa.ParseNumeral | libs/klibc/stdlib/itoa.c:10-21 | parsing the numeral of any number in its base gives the number |
| Itoa.NumeralOfValue | libs/klibc/stdlib/itoa.c:10-21 | the numeral of the value of any canonical digit string is that string |
| Itoa.NumeralIsCanonical | libs/klibc/stdlib/itoa.c:10-21 | no leading zero, only digits of the base |
| Itoa.NumeralLength | libs/klibc/stdlib/itoa.c:10-15 | numbers below base^n take at most n digits |
| Sprintf.WriteNumber | libs/klibc/stdio/sprintf.c:138-195 | appends exactly the field to the buffer and changes nothing before it |
| Sprintf.Capitalize | libs/klibc/stdio/sprintf.c:140-146 | the digits in capitals, up to the terminator |
| Sprintf.DataFits | libs/klibc/stdio/sprintf.c:7-32 | no conversion overruns the local buffer |
| Sprintf.FieldLength | libs/klibc/stdio/sprintf.c:170-195 | the field has max(width, prefix + zeros + digits) characters, and at least precision digits |
| Sprintf.JustificationMovesBlanks | libs/klibc/stdio/sprintf.c:181-195 | without zero padding, left and right justification differ only in the side of the blanks |
| Sprintf.ZeroPadding | libs/klibc/stdio/sprintf.c:173-176 | with the 0 flag the width is filled behind the prefix and no blank is written |
| Sprintf.PrefixIs | libs/klibc/stdio/sprintf.c:149-162 | what each flag puts in front of the zeros, and that nothing else does |
| Sprintf.PlainField | libs/klibc/stdio/sprintf.c:138-195 | without width, precision and padding a field is prefix and numeral |
| Sprintf.PaddedField | libs/klibc/stdio/sprintf.c:165-195 | prefix, zeros, digits and blanks of a field, for any width and precision |
| Sprintf.SignedFieldExamples | libs/klibc/stdio/sprintf.c:149-156 | +42, a blank and 42, -42 |
| Sprintf.HexFieldExamples | libs/klibc/stdio/sprintf.c:157-162 | 0xff for %#x of 255, 0 for %#x of 0, 0x0 for %p of 0 |
| Sprintf.PaddedFieldExamples | libs/klibc/stdio/sprintf.c:165-195 | -7 in %5.3d and %05d, 7 in %-5d |
| Sprintf.CapitalFieldExample | libs/klibc/stdio/sprintf.c:140-146 | FF for %X of 255 |
| Sprintf.FieldParsesBack | libs/klibc/stdio/sprintf.c:138-192 | zeros and digits are digits of the base and denote the number if and only if the base is 16 or the number is below 2^31 |
| Sprintf.LargeDecimalsCarryASign | libs/klibc/stdio/sprintf.c:139 | in base 10 the digits begin with a minus sign if and only if the number is at least 2^31 |
| Sprintf.SignedFieldParsesBack | libs/klibc/stdio/sprintf.c:95-102 | sign and digits of a signed conversion denote the argument if and only if it is not INT_MIN |
| Sprintf.IntMinExample | libs/klibc/stdio/sprintf.c:95-102 | INT_MIN gets two signs |
| Timers.Append | includes/awa/ds/llist.h:22-43 | the cycle with the element inserted behind the head is again a doubly linked cycle |
| Timers.Delete | includes/awa/ds/llist.h:51-59 | the remaining nodes form a cycle if and only if the list had a single element |
| Timers.DeleteOfTwo | includes/awa/ds/llist.h:51-59 | after one of two elements is deleted the list is no cycle |
| Timers.Timer.Tick | kernel/timer.c:165-173 | one visit keeps the schedule, and the timer fires exactly when its counter was 1, which is then the deadline again and one less otherwise |
| Timers.TimerContext.constructor | kernel/timer.c:45-55 | the empty list is a cycle of the head |
| Timers.TimerContext.TimerRun | kernel/timer.c:140-155 | registers the timer once, behind the head, on schedule, and leaves the others alone |
| Timers.TimerContext.TimerUpdate | kernel/timer.c:158-178 | one pass visits every registered timer exactly once and keeps cycle and schedules |
| Timers.TimerContext.Ticks | kernel/timer.c:158-178 | after any run of ticks every timer has fired floor(t / d) times for the t ticks since its registration, with counter d - t mod d; a timer registered with 0 ticks has d = 2^32 |
| Timers.TimerContext.Run | kernel/timer.c:140-178 | after any mix of registrations and ticks every timer, old or new, has been visited once for each tick since it was registered, and has fired floor(visits / period) times; every new one belongs to a registration of its period |

## Left out

- TimerRun: periodic timers only, and whether lxmalloc finds room is a parameter; the nodes are objects of their own and not heap payloads.
- Delete: one-shot timers, which delete themselves during the pass over the list, are not followed over runs, because the list is broken afterwards in general.
- WriteNumber: starts from parsed flags, width and precision; the parsing of the format string is not modelled.
- ClearPage: memset of a page is one step.
- HhkInit: the bytewise clearing loop clears words; the endless loop for kernels of more than 3072 pages is outside the domain.
- AllocPage: the one of vmm.c is not followed into the window, where it would do what MapPage does there.
- UnmapPage: frames with a second user are excluded, since freeing one takes it away from that user; the source does not check.
- SetMapping: attributes without the present bit, which no caller passes, and frames of the pool that are in use already are excluded.
- MarkChunkFree: a range that ends with the last group of the bitmap is excluded, since the source then touches the byte after it.
- The TLB (cpu_invplg), access rights of entries, accessed and dirty bits: the walk reads current tables and translates only.
- Stores of bytes and half words into payloads; payloads are sequences of words.
- lxcalloc, lxsbrk, vmm_init_pd, vmm_v2p, the unmapping after initialisation, lock_reserved_memory and unlock_reserved_memory: compositions of the operations above.
- `%s`, `%c`, `%%` and truncation to max_len.
- Timer calibration, callbacks, the interrupt that calls timer_update.
- Assembly, port I/O, APIC, RTC, descriptor tables, the terminal, kprintf, ACPI tables, string helpers.
