# Memory managers and lock-free protocols of LplKernel, in Dafny

This project models the parts of LplKernel whose state has to stay consistent over every
run, and proves what they promise: the TLSF allocator, the buddy page allocator, the server
heap, two-level paging with the dynamic virtual range, the single-producer
single-consumer rings, mouse decoding, the TLB shootdown, and the chained hash map.
`dfyconfig.toml` names all files of the project.

Code that updates state is modelled as classes whose fields are the ones the code updates.
Each class keeps, in ghost fields, what its links, tags and bitmaps stand for (a sequence of
addresses, a set of blocks, a finite map), and each method is specified by what it does to
that. The laws are lemmas about those values. Where several processors or an interrupt
handler share memory, the model is a state machine whose steps are single memory accesses,
and the laws hold for every interleaving.

## How the model is organised

- `Bits`, `Counting`, `Sequences`: machine words as naturals with the bit operations written
  out, flag counts, lists of addresses.
- `TlsfMapping`, `TlsfPool`, `TlsfLists`, `Tlsf`: size classes; the pool as a tiling with its
  free lists, for every sequence of calls; the doubly linked lists and two levels of bitmap;
  and the allocator over packed header words, which refines the pool.
- `BuddyTree`, `BuddyAllocator`: aligned blocks, why a coalesced set of them is unique; the
  per-node lists, page tags and ownership map.
- `HeapSpace`, `HeapState`, `HeapLedger`, `HeapCoalesce`, `HeapSizes`, `Heap`: address ranges,
  headers and lists, the books, merging, request sizes, and `kmalloc`/`kfree`.
- `PageTables`, `FrameSupply`, `Paging`, `Vmm`: translation, frame accounting, when the frames
  suffice, the dynamic range.
- `Ring`, `ByteRing`, `Mouse`: the ring protocol, the ring as it is called, packet decoding
  with interrupts between its accesses.
- `Shootdown`, `Topology`: TLB shootdown steps, the online table.
- `HashChains`, `HashOrder`, `HashMap`: chains, the order within a bucket over insertions and
  rehashes, `kstd::unordered_map`.

## What turned out different from what one would expect

- TLSF: a granted block is guaranteed to hold the request only up to 57344 bytes. Above that
  the search is clamped to the top class and takes its first block, although the comment at
  tlsf.c:41-43 says the clamp is only reached when filing. `AllocFits` gives the exact
  condition, in terms of that block, and `ClampIsReached` shows that every larger request can
  get a block too small.
- Server heap, coalescing: the merged block touches nothing on its right, but it can touch a
  free block on its left. `AroundLeaves` says exactly when: the predecessor it joined was
  already touching its own predecessor. `LeftNeighbourStays` is an instance with three pages.
- Server heap, batch refill: when every list of the class is empty and the lowest block that
  holds a batch is 8 to 24 bytes longer than it, those bytes leave the books for good, and in no
  other case (`Kmalloc`, `Lost`). `LoseEight` reaches the case from a new heap.
- Server heap, sizes: header and rounding fit in 32 bits exactly up to 2^32 - 24 bytes
  (`TotalFits`), and exactly then a block handed out holds the request (`Kmalloc`).
- Server heap, large blocks: the page count is stored in 16 bits, so `kfree` gives back the
  count modulo 65536, all of it exactly for requests of at most 268431344 bytes
  (`PagesFitField`). One byte more is 65536 pages, none of which return (`PagesLostInField`).
- Server heap, canary: it sees the low 16 bits of the size only (`CanaryCatches`).
- Dynamic range: when `kernel_vmm_alloc_pages` runs out of frames it returns every frame, but
  the pages from the failing one on stay reserved (`AllocPages`); `LeavesReserved` is an instance.
- Dynamic range: with exactly as many frames as pages and missing tables an allocation can
  fail, because a table may leave a spare frame behind that no page can use. `EnoughExact`
  gives the exact condition for success whichever frames are handed out.
- Dynamic range: `kernel_vmm_free_pages` returns the frames exactly when the address is the
  start of a page or nothing is mapped there. From any other address the page allocator
  refuses the frames and the pages are unmapped all the same (`FreePages`); `FreeUnaligned` is
  an instance.
- Shootdown: the guarantee holds for runs without a timeout and fails after one
  (`TimeoutLeavesStale`).
- Shootdown and remapping: `paging_map_page` overwrites a present entry and invalidates only
  the local TLB. That is safe exactly when the frame stays the same or no other processor
  runs (`RemapExact`).
- Shootdown and the topology: a processor may come online at any time, and the interrupt goes
  to all others. That is safe exactly when no more processors run than acknowledgements are
  awaited (`SendExact`); `LateProcessor` is a run in which a new processor's acknowledgement
  is taken for that of one that still holds the page. With a single processor marked online,
  the interrupt is skipped, which is safe exactly when it runs alone (`AloneExact`).
- TLB flush: the processor that asks for a full flush keeps every entry of its own TLB but
  that of the last page (`FlushSparesInitiator`); all others are emptied (`FlushEmptiesOthers`).
- Processor table: once it is full, marking an unknown identifier below 32 changes the flag of
  the processor in the slot of that number (`MarkOnline`); `MarksAnother` is an instance.
- Hash map: the header comment describes iteration as bucket-then-insertion. Of two keys in a
  bucket, the one inserted later comes first exactly when the number of rehashes since its
  insertion is even (`MeetingOrder`); `TwoOrders` and `TwoKeys` are instances of both cases.

## Model

| member | source | states |
|---|---|---|
| `TlsfMapping.InsertBounds` | kernel/kernel/memory/tlsf.c:173-194 | a size is filed in the two-level class whose bracket contains it; sizes of 65536 and more are clamped to class (15, 3) |
| `TlsfMapping.ClassBounds` | kernel/kernel/memory/tlsf.c:173-194 | the bracket of a class by its flat index, both ends, and the two indices recovered from it |
| `TlsfMapping.ClassMono` | kernel/kernel/memory/tlsf.c:173-194 | larger blocks are never filed lower |
| `TlsfMapping.SearchIsSound` | kernel/kernel/memory/tlsf.c:197-205 | up to 57344 bytes every block filed at or above the searched class is large enough |
| `TlsfMapping.SearchIsComplete` | kernel/kernel/memory/tlsf.c:197-205 | every block of at least the rounded-up size is filed at or above the searched class |
| `TlsfMapping.SearchIsClamped` | kernel/kernel/memory/tlsf.c:181-205 | above 57344 the search is always for the top class, whose floor is smaller than the request |
| `TlsfPool.AllocKeeps` | kernel/kernel/memory/tlsf.c:352-409 | taking or splitting a free block keeps tiling, coalescing and the exact filing of every free block |
| `TlsfPool.FreeKeeps` | kernel/kernel/memory/tlsf.c:411-456 | freeing with both merges keeps tiling, coalescing and the exact filing of every free block |
| `TlsfPool.AllocBytes` | kernel/kernel/memory/tlsf.c:381-393 | what an allocation takes off the sum of free payloads, with and without a split |
| `TlsfPool.FreeAddsBytes` | kernel/kernel/memory/tlsf.c:418-448 | a free adds its payload and one header per merge to the sum of free payloads |
| `TlsfPool.FreeUndoesAlloc` | kernel/kernel/memory/tlsf.c:352-456 | freeing the block just allocated restores tiling and lists exactly |
| `TlsfPool.AllFreeIsWhole` | kernel/kernel/memory/tlsf.c:411-456 | a valid pool with no live block is one free block over the whole range |
| `TlsfPool.GrantedAlloc` | kernel/kernel/memory/tlsf.c:352-409 | a granted request takes the first block of the first non-empty class at or above the searched one, and no lower class from there on has a block |
| `TlsfPool.GrantedCut` | kernel/kernel/memory/tlsf.c:381-399 | what is handed out is less than 24 bytes above the aligned request, and equal to it exactly when the chosen block was equal to it or at least 24 bytes larger; the rest behind an 8-byte header is then a free block |
| `TlsfPool.AllocFits` | kernel/kernel/memory/tlsf.c:352-409 | the block handed out holds the request if and only if the aligned request is at most 57344 or the block that heads the top class before the call is large enough |
| `TlsfPool.RefusedMeansNone` | kernel/kernel/memory/tlsf.c:352-377 | a request is refused exactly when it is 0, above 65535, or no free block is filed at or above the searched class |
| `TlsfPool.RunKeeps` | kernel/kernel/memory/tlsf.c:352-456 | every sequence of calls keeps every pool invariant |
| `TlsfPool.EveryRunReturns` | kernel/kernel/memory/tlsf.c:310-456 | every sequence of calls from a fresh pool is valid, and once all blocks are freed, in any order, the pool is exactly the fresh one |
| `TlsfPool.ClampIsReached` | kernel/kernel/memory/tlsf.c:181-205 | for every request above 57344 some valid pool answers with a block too small for it |
| `TlsfLists.UnlinkKeeps` | kernel/kernel/memory/tlsf.c:209-232 | unlinking one block leaves every list threaded both ways, without repetition and apart from the others |
| `TlsfLists.LinkKeeps` | kernel/kernel/memory/tlsf.c:234-248 | prepending one block does the same |
| `TlsfLists.MappedSet` | kernel/kernel/memory/tlsf.c:234-248 | after filing, each bit of both bitmaps is set exactly when its list is non-empty |
| `TlsfLists.MappedClear` | kernel/kernel/memory/tlsf.c:209-232 | after emptying a list, both bitmaps are exact again, the first level included |
| `TlsfLists.FoundHere` | kernel/kernel/memory/tlsf.c:252-274 | the masked second-level word answers with the first non-empty class at or above the searched one |
| `TlsfLists.FoundAbove` | kernel/kernel/memory/tlsf.c:252-274 | otherwise the masked first-level word picks the next populated level, and none exactly when all are empty |
| `Tlsf.PackOps` | kernel/kernel/memory/tlsf.c:139-153 | size and the two flags packed in one word never disturb each other |
| `Tlsf.PackSetSize` | kernel/kernel/memory/tlsf.c:141-141 | rewriting the size keeps both flags |
| `Tlsf.Allocator.FreeListRemove` | kernel/kernel/memory/tlsf.c:209-232 | the block leaves the list of its class; links and bitmaps agree again |
| `Tlsf.Allocator.FreeListInsert` | kernel/kernel/memory/tlsf.c:234-248 | the block becomes the head of the list of its class; links and bitmaps agree again |
| `Tlsf.Allocator.FindSuitable` | kernel/kernel/memory/tlsf.c:252-274 | the head of the first non-empty list at or above the given class, 0 exactly when there is none |
| `Tlsf.Allocator.BlockSplit` | kernel/kernel/memory/tlsf.c:278-294 | all three headers after a split, the successor's back pointer included |
| `Tlsf.Allocator.AbsorbNext` | kernel/kernel/memory/tlsf.c:296-306 | both headers after a block absorbed its successor |
| `Tlsf.Allocator.CarveBlock` | kernel/kernel/memory/tlsf.c:381-399 | headers, lists and free byte count after the chosen block is split or taken whole; `GrantedCut` says when which |
| `Tlsf.Allocator.TakeBlock` | kernel/kernel/memory/tlsf.c:379-409 | the allocator refines the pool's allocation at the chosen block and stays valid |
| `Tlsf.Allocator.MergeAround` | kernel/kernel/memory/tlsf.c:418-440 | headers and lists after absorbing a free successor and being absorbed by a free predecessor |
| `Tlsf.Allocator.ReleaseBlock` | kernel/kernel/memory/tlsf.c:418-456 | headers, lists and bytes gained after a free of a live block are those of the pool's free |
| `Tlsf.Allocator.Allocate` | kernel/kernel/memory/tlsf.c:352-409 | the call refines the pool's allocation: same outcome, same block, all views and counters in step; the pointer is 8 bytes into the chosen block, cut down to the aligned request exactly when 24 bytes or more are left over |
| `Tlsf.Allocator.Release` | kernel/kernel/memory/tlsf.c:411-456 | the call refines the pool's free; null and uninitialised calls change nothing |
| `Tlsf.Allocator.Initialize` | kernel/kernel/memory/tlsf.c:310-350 | accepted exactly when the memory can hold one block; the start is aligned upwards, the rest becomes one free block and a sentinel, with empty lists and bitmaps otherwise |
| `Tlsf.Allocator.Owns` | kernel/kernel/memory/tlsf.c:458-464 | true exactly on the bytes of the blocks that tile the pool and of the closing header |
| `TlsfPool.CoveredBy` | kernel/kernel/memory/tlsf.c:458-464 | the blocks of a tiling cover exactly the bytes of the pool: bounds and blocks decide ownership alike |
| `Tlsf.Allocator.PayloadInPool` | kernel/kernel/memory/tlsf.c:458-464 | every byte of the payload of everything handed out is owned |
| `BuddyTree.BuddyAddress` | kernel/arch/i386/cpu/pmm.c:413-434 | exclusive-or with the block size gives the sibling's base, and the smaller base is the parent's |
| `BuddyTree.CoveringBlock` | kernel/arch/i386/cpu/pmm.c:385-438 | in a coalesced set every aligned free run lies inside one block |
| `BuddyTree.BlocksAreMaximalRuns` | kernel/arch/i386/cpu/pmm.c:385-438 | the blocks of a coalesced set are exactly the maximal aligned free runs |
| `BuddyTree.CanonicalIsUnique` | kernel/arch/i386/cpu/pmm.c:385-501 | two coalesced sets with the same free pages are equal: the decomposition is a function of the free pages |
| `BuddyTree.RunExistsIffBlock` | kernel/arch/i386/cpu/pmm.c:445-482 | an aligned free run of order r exists exactly when some block of order at least r is free |
| `BuddyTree.FreeUndoesAllocate` | kernel/arch/i386/cpu/pmm.c:385-501 | a coalesced set that lost a run and got it back is the same set, however it was split and merged between |
| `BuddyAllocator.BaseAddress` | kernel/arch/i386/cpu/pmm.c:387-411 | the base address of every block passes the argument checks of a free, and names that block again; the block ends below one gigabyte |
| `BuddyAllocator.FreeArguments` | kernel/arch/i386/cpu/pmm.c:387-401 | the argument checks pass exactly for an order of at most 18 and an address below one gigabyte that is a multiple of the size of the block |
| `BuddyAllocator.PageAllocator.AllocateThenFree` | kernel/arch/i386/cpu/pmm.c:385-501 | an allocation followed by the free of its address is accepted and restores every free block, every ownership mark, the managed pages and the counters |
| `BuddyAllocator.BlocksFollowOwners` | kernel/arch/i386/cpu/pmm.c:385-501 | two valid states with the same managed and the same handed-out pages have the same free blocks |
| `BuddyAllocator.PageAllocator.AllocateTwoFreeTwo` | kernel/arch/i386/cpu/pmm.c:385-501 | two runs handed out and given back in either order leave every free block, mark and counter as it was |
| `BuddyTree.WeightCountsPages` | kernel/arch/i386/cpu/pmm.c:413-417 | the sum of 2^order over all blocks is the number of free pages |
| `BuddyTree.MergeRound` | kernel/arch/i386/cpu/pmm.c:413-434 | one merge keeps the tiling, the coalescing, the page count and the free pages |
| `BuddyTree.SplitRound` | kernel/arch/i386/cpu/pmm.c:488-496 | one split keeps the tiling, the coalescing, the page count and the free pages |
| `BuddyAllocator.PushConsistent` | kernel/arch/i386/cpu/pmm.c:215-243 | pushing a block keeps lists, page tags, ownership map and block set in agreement |
| `BuddyAllocator.TakeConsistent` | kernel/arch/i386/cpu/pmm.c:245-313 | so does taking one out of any position of its list |
| `BuddyAllocator.TagsDecide` | kernel/arch/i386/cpu/pmm.c:315-326 | the two page tags say exactly whether the sibling is a free block of that order |
| `BuddyAllocator.PageAllocator.constructor` | kernel/arch/i386/cpu/pmm.c:507-525 | nothing free, nothing handed out, all counters zero |
| `BuddyAllocator.PageAllocator.Push` | kernel/arch/i386/cpu/pmm.c:215-243 | the block joins the free blocks and heads the list of its page's node and its order; its pages lose the ownership mark, no other page changes |
| `BuddyAllocator.PageAllocator.PopFromNode` | kernel/arch/i386/cpu/pmm.c:245-280 | 0 exactly when the list is empty; otherwise its head leaves the free blocks and its pages are marked owned |
| `BuddyAllocator.PageAllocator.RemoveExact` | kernel/arch/i386/cpu/pmm.c:282-313 | finds the block exactly when it is on that list, and removes only it |
| `BuddyAllocator.PageAllocator.RangeIsOwned` | kernel/arch/i386/cpu/pmm.c:328-340 | true exactly when every page of the range is handed out |
| `BuddyAllocator.PageAllocator.CheckFree` | kernel/arch/i386/cpu/pmm.c:385-411 | a free is accepted exactly when order, alignment and range are right and all its pages are handed out; each refusal is counted under its kind |
| `BuddyAllocator.PageAllocator.TryMerge` | kernel/arch/i386/cpu/pmm.c:413-434 | merges exactly when the sibling is a free block of the same order, on whichever node's list it sits |
| `BuddyAllocator.PageAllocator.Coalesce` | kernel/arch/i386/cpu/pmm.c:413-438 | the freed pages join the free pages, fully coalesced, and the page count grows by 2^order |
| `BuddyAllocator.PageAllocator.InsertOrder` | kernel/arch/i386/cpu/pmm.c:385-438 | a refused free changes nothing but the refusal counters; an accepted one adds exactly its pages and keeps every invariant; outside population the set of managed pages stays the same, so each is always free or handed out and never both |
| `BuddyAllocator.PageAllocator.FindSlot` | kernel/arch/i386/cpu/pmm.c:445-482 | finds a non-empty list of sufficient order exactly when one exists on any node: the nearest node in cyclic order from the local one, and there the smallest order |
| `BuddyAllocator.PageAllocator.ListsByNode` | kernel/arch/i386/cpu/pmm.c:215-243 | the list of a node and an order holds exactly the bases of the free blocks of that order whose page the node map gives to the node, pages of unknown nodes counting to node 0 |
| `BuddyAllocator.PageAllocator.Split` | kernel/arch/i386/cpu/pmm.c:488-496 | splits down to the requested order, giving back every right half, and keeps every invariant |
| `BuddyAllocator.PageAllocator.RemoveOrder` | kernel/arch/i386/cpu/pmm.c:445-501 | 0 exactly when no aligned free run of that order exists on any node; otherwise an aligned run that was free and meets nothing handed out, now owned, cut from the head of the smallest sufficient list of the nearest node: the local node if it has a large enough block, else the first after it in cyclic order, by the map from pages to nodes; nothing else moves |
| `HeapSizes.TotalFits` | kernel/kernel/memory/heap.c:365-367 | payload and total are the request rounded up to 8 with and without the 16-byte header exactly for requests up to 2^32 - 24; above that the total is below the request |
| `HeapSizes.PageCountIs` | kernel/kernel/memory/heap.c:413-416 | the page count is the least that covers the total, and 0 exactly when the rounding wraps |
| `HeapSizes.WrappedTotal` | kernel/kernel/memory/heap.c:365-367 | what payload and total become in each of the three wrapping ranges above 2^32 - 24 |
| `HeapSizes.PagesFitField` | kernel/kernel/memory/heap.c:413-430 | the 16-bit field holds the page count exactly below 65536 pages, that is for requests of at most 268431344 bytes |
| `HeapSizes.PagesLostInField` | kernel/kernel/memory/heap.c:413-430 | the smallest request beyond: 65536 pages, stored as 0 |
| `HeapSizes.ClassFor` | kernel/kernel/memory/heap.c:443-450 | the chosen class is the smallest that holds the payload |
| `HeapSizes.ClassesDouble` | kernel/kernel/memory/heap.c:63-63 | class c holds 2^(c + 3) bytes |
| `HeapSizes.CanaryTells` | kernel/kernel/memory/heap.c:378-378 | the low 16 bits of the size can be read back from the canary, which depends on nothing else |
| `HeapState.AddFreeSound` | kernel/kernel/memory/heap.c:161-185 | linking a block in address order keeps headers, free list and class lists in agreement |
| `HeapState.TakeFreeSound` | kernel/kernel/memory/heap.c:530-536 | unlinking a block keeps them in agreement and leaves a gap of its size |
| `HeapState.MergeSound` | kernel/kernel/memory/heap.c:187-201 | fusing two touching list neighbours keeps them in agreement |
| `HeapState.PopClassSound` | kernel/kernel/memory/heap.c:458-484 | handing out the head of a class list keeps them in agreement |
| `HeapState.PushClassSound` | kernel/kernel/memory/heap.c:571-584 | putting a block on a class list keeps them in agreement |
| `HeapState.FlagsTell` | kernel/kernel/memory/heap.c:633-747 | the flag tests of `kfree` tell free, large and size-class blocks apart |
| `HeapLedger.BooksAdd` | kernel/kernel/memory/heap.c:557-591 | blocks cut per class, large blocks out and bytes accounted for, after a block appears |
| `HeapLedger.BooksFuse` | kernel/kernel/memory/heap.c:187-201 | merging two free blocks leaves all three counts alone |
| `HeapCoalesce.SettleKeeps` | kernel/kernel/memory/heap.c:203-210 | absorbing successors ends at a block that touches none, and keeps everything before it and every other role |
| `HeapCoalesce.AroundLeaves` | kernel/kernel/memory/heap.c:203-227 | after coalescing the merged block touches nothing on its right, and its left neighbour exactly when the predecessor it joined already touched its own |
| `HeapCoalesce.AroundCovers` | kernel/kernel/memory/heap.c:203-227 | coalescing changes no covered byte |
| `HeapCoalesce.LeftNeighbourStays` | kernel/kernel/memory/heap.c:203-227 | freeing the third of three adjacent pages, the first two of which are free and unmerged, leaves the merged block touching the first |
| `HeapCoalesce.AroundLedger` | kernel/kernel/memory/heap.c:203-227 | coalescing keeps the books balanced and the unused pages apart |
| `Heap.KernelHeap.constructor` | kernel/kernel/memory/heap.c:333-354 | empty lists, zero counters, no block, no page taken |
| `Heap.KernelHeap.NeverOverlap` | kernel/kernel/memory/heap.c:161-753 | in every valid state live, free-list and size-class blocks are pairwise disjoint |
| `Heap.KernelHeap.ClassBalance` | kernel/kernel/memory/heap.c:107-157 | per domain and class: free counter equals list length, and list length plus live blocks is four times the successful refills |
| `Heap.KernelHeap.BytesBalance` | kernel/kernel/memory/heap.c:229-247 | every byte taken from the page allocator is in a block, but for at most 24 bytes per batch |
| `Heap.KernelHeap.AddFreeBlock` | kernel/kernel/memory/heap.c:161-185 | the block enters the list at its address rank; length and byte counters follow |
| `Heap.KernelHeap.MergeAdjacent` | kernel/kernel/memory/heap.c:187-201 | merges exactly when the block and its list successor touch |
| `Heap.KernelHeap.CoalesceAround` | kernel/kernel/memory/heap.c:203-227 | the whole list after both merge loops; bytes unchanged |
| `Heap.KernelHeap.GrowSmallPool` | kernel/kernel/memory/heap.c:229-247 | succeeds exactly when a page is left, and adds it as one free block |
| `Heap.KernelHeap.Scan` | kernel/kernel/memory/heap.c:512-518 | the first block of the list that is large enough, and none exactly when no block is |
| `Heap.KernelHeap.FindFit` | kernel/kernel/memory/heap.c:507-528 | the lowest-address block that is large enough, growing only when none is; ends with none exactly when no block fits and a page would be too small or is not left |
| `Heap.KernelHeap.TakeFit` | kernel/kernel/memory/heap.c:530-536 | the block leaves list and counters; its bytes are a gap apart from every block and page |
| `Heap.KernelHeap.SplitTail` | kernel/kernel/memory/heap.c:538-550 | a tail of at least 32 bytes goes back to the list, a shorter one stays with the block |
| `Heap.KernelHeap.CutPieces` | kernel/kernel/memory/heap.c:566-585 | exactly three further blocks of the class, on the local list in address order from last to first |
| `Heap.KernelHeap.CutBatch` | kernel/kernel/memory/heap.c:557-591 | one live and three waiting blocks; what is left behind the fourth is lost, and how much |
| `Heap.KernelHeap.PopClass` | kernel/kernel/memory/heap.c:458-484 | the head of a class list becomes a live block that remembers its class and owner |
| `Heap.KernelHeap.FindRemote` | kernel/kernel/memory/heap.c:107-157 | another domain with a waiting block is found exactly when there is one, a domain of the same node before any other and the lowest first |
| `Heap.KernelHeap.GiveLarge` | kernel/kernel/memory/heap.c:413-435 | the pages of the virtual memory manager become one live block, counted |
| `Heap.KernelHeap.FromClass` | kernel/kernel/memory/heap.c:443-505 | a waiting block is handed out whenever there is one and nothing else moves: the head of the local list, else of the list of the nearest other domain; otherwise the lowest fit or a page is cut into a batch of four; fails exactly with all lists empty, no page left and no fit |
| `Heap.KernelHeap.FromLists` | kernel/kernel/memory/heap.c:443-505 | a request that a size class holds gets a block of that class: the head of the local list, else of the nearest other one, else the first of a batch whose other three wait on the local list; and which bytes leave the books |
| `Heap.KernelHeap.FromSpace` | kernel/kernel/memory/heap.c:507-591 | a larger request that no large block answers gets the lowest fit, cut down, or nothing exactly when none fits and a page would be too small or is not left |
| `Heap.KernelHeap.Kmalloc` | kernel/kernel/memory/heap.c:356-618 | the result is a new live block, all other live blocks are untouched, and it holds the request exactly up to 2^32 - 24 bytes; which block it is (head of the local class list, else of the nearest other, else the first of a batch of four; for a payload above 1024 bytes a range of pages; the lowest fit), what remains of it and which pages are taken; null only with no page left and no block large enough, for a block of its own exactly when none fits and a page would be too small or is not left; how many bytes leave the books |
| `Heap.KernelHeap.LoseEight` | kernel/kernel/memory/heap.c:557-591 | from a new heap of one page, requests of 3976 and 8 bytes lose 8 bytes |
| `Heap.KernelHeap.ReturnPlain` | kernel/kernel/memory/heap.c:749-752 | the block joins the free list and is coalesced; exactly its bytes are added |
| `Heap.KernelHeap.ReturnPiece` | kernel/kernel/memory/heap.c:727-747 | a size-class block goes home to the list it was cut for, whoever frees it |
| `Heap.KernelHeap.ReturnLarge` | kernel/kernel/memory/heap.c:717-724 | the large block is gone and its page count modulo 65536 is given back |
| `Heap.KernelHeap.Kfree` | kernel/kernel/memory/heap.c:620-753 | a live block is retired and only it: a size-class block to the front of its own list, a large one to the virtual memory manager, any other merged into the free list; a tracked block is refused exactly when it is not live, a refusal changes nothing but the counters, and counts as a double free exactly when magic number and canary are in place |
| `Heap.PiecesSplit` | kernel/kernel/memory/heap.c:557-591 | blocks waiting plus blocks out are the blocks ever cut for the list |
| `Heap.FreedCovers` | kernel/kernel/memory/heap.c:749-752 | freeing adds exactly the block's bytes to the free ones, whatever merges |
| `Heap.HeaderTells` | kernel/kernel/memory/heap.c:620-747 | a header is accepted by `kfree` exactly when its block is live, and its fields name the block's kind, class and owner |
| `Heap.CanaryCatches` | kernel/kernel/memory/heap.c:627-627 | overwriting the size of an accepted header is noticed exactly when its low 16 bits change |
| `PageTables.IndicesSplitPage` | kernel/arch/i386/cpu/paging.c:230-231 | directory and table index are the address divided by 4 MiB and the page number modulo 1024, the two halves of the page number |
| `PageTables.WalkInstall` | kernel/arch/i386/cpu/paging.c:161-174 | writing one table entry changes the translation of one page |
| `PageTables.WalkCreate` | kernel/arch/i386/cpu/paging.c:110-130 | a new zeroed table changes no translation |
| `PageTables.WalkDrop` | kernel/arch/i386/cpu/paging.c:276-296 | dropping an empty table changes no translation |
| `PageTables.InUseWalk` | kernel/arch/i386/cpu/paging.c:198-207 | a table has an entry in use exactly when some page of its 4 MiB translates |
| `PageTables.FramesCreate` | kernel/arch/i386/cpu/paging.c:110-130 | a frame that becomes a table stays accounted for, once |
| `PageTables.FramesDrop` | kernel/arch/i386/cpu/paging.c:276-296 | a table's frame that goes back stays accounted for, once |
| `PageTables.OursCount` | kernel/arch/i386/cpu/paging.c:66-87 | free frames, run-time tables and the spare frame add up |
| `Paging.AddressSpace.constructor` | kernel/arch/i386/cpu/paging.c:213-220 | translation as set up at boot, no run-time table |
| `Paging.AddressSpace.AllocateTableFrame` | kernel/arch/i386/cpu/paging.c:66-87 | fails exactly with no spare and no free frame; otherwise one frame leaves the pool, a pair leaving one as spare |
| `Paging.AddressSpace.CreateTable` | kernel/arch/i386/cpu/paging.c:110-130 | the slot gets a table of its own or nothing changes; no translation changes, the owned count follows |
| `Paging.AddressSpace.MapPage` | kernel/arch/i386/cpu/paging.c:222-252 | lookup, frame and flags, is updated at one page and nowhere else, to absent when the flags given say so; fails exactly when a table is missing and no frame is left |
| `Paging.AddressSpace.MapFresh` | kernel/kernel/memory/vmm.c:110-131 | a page gets a frame of its own exactly when there is one for it and one for the table it may need, and its directory entry the same flags, no other entry changing; otherwise the frame goes back and no lookup changes |
| `Paging.AddressSpace.FreeFrame` | kernel/arch/i386/cpu/pmm.c:385-411 | a frame comes back exactly when the address freed is its start |
| `Paging.AddressSpace.UnmapPage` | kernel/arch/i386/cpu/paging.c:254-300 | lookup is removed at one page and nowhere else; the table goes back and its directory entry is cleared exactly when it was made at run time and no other page of it translates |
| `Paging.AddressSpace.GetPhysical` | kernel/arch/i386/cpu/paging.c:302-323 | succeeds exactly on mapped pages, with frame and offset |
| `Paging.AddressSpace.TableEmpty` | kernel/arch/i386/cpu/paging.c:198-207 | true exactly when no entry is present |
| `Vmm.Range.FindRun` | kernel/kernel/memory/vmm.c:43-64 | the lowest free run of the requested length, and none exactly when none exists: skipping past a used page misses no run |
| `Vmm.Range.ReservePages` | kernel/kernel/memory/vmm.c:38-75 | fails exactly for a bad count or no free run, changing nothing; otherwise reserves exactly the lowest run |
| `Vmm.Range.ReserveAt` | kernel/kernel/memory/vmm.c:77-98 | reserves exactly the given pages, and succeeds exactly when they lie in the range and are all unused, also when the end wraps past 2^32 |
| `Vmm.FramesConserved` | kernel/kernel/memory/vmm.c:100-160 | free frames, mapped frames, run-time tables, the spare and the frames lost add up to all managed frames |
| `Vmm.Manager.Conserved` | kernel/kernel/memory/vmm.c:100-160 | that sum is constant in every valid state, after success and after failure; `AllocPages` and aligned calls of `FreePages` lose none |
| `Vmm.Manager.MapOne` | kernel/kernel/memory/vmm.c:108-133 | one page is mapped to a frame of its own, or everything is as before; it works exactly when there is a frame for the page and one for the table it may need; as after every operation, the directory entry of each mapped page is there and allows writing |
| `Vmm.Manager.MapRun` | kernel/kernel/memory/vmm.c:108-133 | pages are mapped in order until one fails; all are whenever the frames suffice whichever are handed out, and only when there is a frame for each page and each missing table |
| `Vmm.Manager.FreeOne` | kernel/kernel/memory/vmm.c:149-159 | one page is unmapped and unreserved; its frame comes back exactly when the address is the start of the page |
| `FrameSupply.EnoughExact` | kernel/arch/i386/cpu/paging.c:66-87 | the frames suffice whichever the page allocator hands out exactly when there is one more than pages and missing tables, or just as many and the tables and the spare come out even, the last page makes the last table, or there are too few free pairs |
| `FrameSupply.EnoughStep` | kernel/kernel/memory/vmm.c:108-133 | one page and its table leave enough for the rest of the run |
| `FrameSupply.ShortStep` | kernel/kernel/memory/vmm.c:108-133 | without enough frames the next page can be served so that there are still too few |
| `Vmm.Manager.AllocPages` | kernel/kernel/memory/vmm.c:100-136 | maps the lowest free run to distinct frames, writable in table and directory, under the same conditions on the frames; on failure nothing stays mapped and exactly the pages from the failing one on stay reserved |
| `Vmm.Manager.RunsShort` | kernel/kernel/memory/vmm.c:100-136 | with fewer frames at hand than pages wanted, a page that was unused is reserved afterwards and not mapped |
| `Vmm.LeavesReserved` | kernel/kernel/memory/vmm.c:100-136 | an instance from boot: one frame, a table in place, two pages wanted |
| `Vmm.Manager.FreePages` | kernel/kernel/memory/vmm.c:138-160 | unmaps and unreserves exactly the given pages; their frames come back exactly when the address is the start of a page, and are otherwise lost, which costs nothing exactly when none was mapped; addresses outside the range change nothing |
| `Vmm.Manager.FreeUnaligned` | kernel/kernel/memory/vmm.c:149-159 | allocating a page and freeing it through any other address in it loses one frame |
| `RingProtocol.BehindIs` | kernel/kernel/dialogue/dialogue_channel.c:41-44 | the 32-bit difference of the indices is the number of bytes pending, however often they wrapped |
| `RingProtocol.WriteMissesPending` | kernel/kernel/dialogue/dialogue_channel.c:50-51 | the slot about to be written holds no byte yet to be read |
| `RingProtocol.StepSafe` | kernel/kernel/dialogue/dialogue_channel.c:39-71 | every single access of either side keeps the ring invariant |
| `RingProtocol.EveryRunSafe` | kernel/kernel/dialogue/dialogue_channel.c:39-71 | every interleaving of accesses keeps it |
| `RingProtocol.FifoFromReset` | kernel/arch/i386/drivers/keyboard.c:40-75 | in every run bytes taken are a prefix of bytes accepted, at most the capacity is pending, and the indices tell how many |
| `RingProtocol.DropMeansFull` | kernel/kernel/dialogue/dialogue_channel.c:41-48 | a byte is dropped exactly when the ring was full as the producer saw the tail |
| `RingProtocol.NothingUncounted` | kernel/kernel/dialogue/dialogue_channel.c:39-53 | every completed push was accepted or counted as dropped |
| `RingProtocol.PushRun` | kernel/kernel/dialogue/dialogue_channel.c:39-53 | an uninterrupted push appends, or drops exactly when full |
| `RingProtocol.PopRun` | kernel/kernel/dialogue/dialogue_channel.c:61-71 | an uninterrupted pop yields the oldest byte, or nothing exactly when empty |
| `ByteRing.Ring.constructor` | kernel/kernel/dialogue/dialogue_channel.c:73-80 | an empty ring, wherever the indices start |
| `ByteRing.Ring.Push` | kernel/kernel/dialogue/dialogue_channel.c:39-53 | the call is a run of the protocol; contents grow by the byte, or the drop count by one |
| `ByteRing.Ring.Pop` | kernel/kernel/dialogue/dialogue_channel.c:61-71 | the call is a run of the protocol; the first byte of the contents leaves |
| `ByteRing.Ring.Peek` | kernel/arch/i386/drivers/ps2_mouse.c:160-168 | the byte at an offset, exactly when there is one |
| `ByteRing.Ring.Pending` | kernel/kernel/dialogue/dialogue_channel.c:103-111 | the number of bytes waiting, at most the capacity |
| `Mouse.EveryByteCounted` | kernel/arch/i386/drivers/ps2_mouse.c:213-263 | every byte of every stream is in a packet, thrown away, or waiting, and at most two wait behind a header |
| `Mouse.ParseInParts` | kernel/arch/i386/drivers/ps2_mouse.c:213-263 | where a stream is cut makes no difference to the packets and the bytes thrown away |
| `Mouse.DecodeDigits` | kernel/arch/i386/drivers/ps2_mouse.c:245-261 | for every first byte, digit by digit: an axis with its overflow digit set reads as 0, otherwise as the byte or the byte minus 256 by its sign digit, the buttons are the three low digits in every case, and digit 3 alone makes a header |
| `Mouse.DecodeEncode` | kernel/arch/i386/drivers/ps2_mouse.c:245-261 | decoding undoes encoding of nine-bit signed motion and buttons |
| `Mouse.EncodeDecode` | kernel/arch/i386/drivers/ps2_mouse.c:245-261 | encoding undoes decoding of every packet without overflow; `DecodeDigits` covers the others |
| `Mouse.ParseEncode` | kernel/arch/i386/drivers/ps2_mouse.c:213-263 | a stream of well-formed packets reads back as itself with no resynchronisation |
| `Mouse.ParseAfterJunk` | kernel/arch/i386/drivers/ps2_mouse.c:229-236 | bytes that cannot start a packet in front of it cost one resynchronisation each and no packet |
| `Mouse.ParseReports` | kernel/arch/i386/drivers/ps2_mouse.c:213-263 | any sequence of reports, overflows included, is read as one packet each with the meaning of its digits, after one resynchronisation for each stray byte in front |
| `Mouse.Driver.Interrupt` | kernel/arch/i386/drivers/ps2_mouse.c:116-143 | the byte enters the ring exactly when the status says so and there is room; otherwise nothing or the drop count changes |
| `Mouse.Driver.TryPopPacket` | kernel/arch/i386/drivers/ps2_mouse.c:213-263 | called without an interrupt in between: delivered packets, resynchronisations and waiting bytes are always what all accepted bytes mean; a packet comes out exactly when one is complete, and it is the first in the waiting bytes |
| `Mouse.TurnKeeps` | kernel/arch/i386/drivers/ps2_mouse.c:160-263 | one access by the interrupt handler or by the decoding loop keeps what was taken equal to what was delivered and thrown away |
| `Mouse.EveryPollingInStep` | kernel/arch/i386/drivers/ps2_mouse.c:116-263 | so does every interleaving of both |
| `Mouse.PollingDelivers` | kernel/arch/i386/drivers/ps2_mouse.c:116-263 | from reset, in every interleaving, the packets delivered with those in the waiting bytes are the packets of all bytes accepted, and every byte taken is accounted for |
| `Mouse.GivesUpWhenNone` | kernel/arch/i386/drivers/ps2_mouse.c:226-239 | the loop gives up exactly when the bytes accepted by then hold no packet beyond those delivered |
| `Mouse.PollingProgress` | kernel/arch/i386/drivers/ps2_mouse.c:160-263 | from every state of the decoding loop, with the handler interrupting anywhere, the first packet in the waiting bytes is delivered by exactly the access that is due, four for each stray byte and eight for the packet, and nothing before it |
| `Mouse.PollsEnough` | kernel/arch/i386/drivers/ps2_mouse.c:160-263 | four polls for each waiting byte, of which there are at most 256, deliver it |
| `Shootdown.SignalCount` | kernel/arch/i386/cpu/apic_ipi.c:178-181 | as many processors are called for as run besides the sender |
| `Shootdown.StepKeeps` | kernel/arch/i386/cpu/apic_ipi.c:49-61 | every single orderly access without a timeout keeps the invariant: at least as many acknowledgements are awaited as handlers owe, and who is past its invalidation translates only as the tables say; `FlushEmptiesOthers` has what a full flush does beyond that |
| `Shootdown.EveryRunCoherent` | kernel/arch/i386/cpu/apic_ipi.c:168-200 | every interleaving of orderly accesses without a timeout keeps it, with processors starting, coming online and going offline at any time |
| `Shootdown.NoStaleTranslation` | kernel/arch/i386/cpu/apic_ipi.c:168-200 | between shootdowns no running processor translates a page to a frame other than the one the tables give it |
| `Shootdown.UnmapReachesAll` | kernel/arch/i386/cpu/paging.c:254-300 | over every orderly run from an unmapping that returns without a timeout and does not map the page again, no running processor translates the page afterwards |
| `Shootdown.StartCoherent` | kernel/arch/i386/cpu/apic_ipi.c:45-47 | the invariant holds at the start |
| `Shootdown.StableRunMatched` | kernel/arch/i386/cpu/apic_ipi.c:168-200 | when the topology stands still during shootdowns, every run without a timeout keeps the pending count equal to the handlers yet to acknowledge |
| `Shootdown.RemapExact` | kernel/arch/i386/cpu/paging.c:222-252 | overwriting an entry with only a local invalidation leaves no stale translation anywhere, whatever was loaded before, exactly when the page had no frame, keeps its frame, or no other processor runs |
| `Shootdown.AloneExact` | kernel/arch/i386/cpu/apic_ipi.c:170-176 | the shortcut for a count of one leaves no stale translation anywhere exactly when the processor runs alone |
| `Shootdown.SendExact` | kernel/arch/i386/cpu/apic_ipi.c:178-200 | every run from the interrupt on that returns without a timeout leaves a given processor without the page that is gone, exactly when no more processors run than acknowledgements are awaited |
| `Shootdown.LateStale` | kernel/arch/i386/cpu/apic_ipi.c:178-200 | otherwise some run returns without a timeout while a processor still holds the page |
| `Shootdown.LateProcessor` | kernel/arch/i386/cpu/ap_startup.c:22-32 | an instance from the start, with a processor that comes online between unmapping and the interrupt |
| `Shootdown.FlushEmptiesOthers` | kernel/arch/i386/cpu/apic_ipi.c:49-61 | over every orderly run from a full flush that returns without a timeout, each other processor that ran at the interrupt holds only translations it has loaded itself since, and none if it loaded none |
| `Shootdown.FlushSparesInitiator` | kernel/arch/i386/cpu/apic_ipi.c:199-204 | over every run of a full flush, the initiator keeps exactly the entries it had but that of the last page; the others are the subject of `FlushEmptiesOthers` |
| `Shootdown.TimeoutLeavesStale` | kernel/arch/i386/cpu/apic_ipi.c:188-196 | whenever the wait gives up on a processor that still holds the page, it holds it afterwards |
| `Shootdown.NoEarlyTimeout` | kernel/arch/i386/cpu/apic_ipi.c:184-197 | a wait that has polled fewer than 1000000 times in all does not give up |
| `Topology.Table.constructor` | kernel/arch/i386/cpu/cpu_topology.c:20-31 | no processor known, none online |
| `Topology.Table.Register` | kernel/arch/i386/cpu/cpu_topology.c:33-50 | a known identifier keeps its slot, a new one gets the next, and with a full table it is returned as its own slot |
| `Topology.Table.MarkOnline` | kernel/arch/i386/cpu/cpu_topology.c:118-130 | the online count equals the online flags; the one flag set is the identifier's own exactly when it has or can get a slot, and with a full table an unknown identifier sets the flag of another |
| `Topology.Table.UnmarkOnline` | kernel/arch/i386/cpu/cpu_topology.c:132-145 | the same for going offline |
| `Topology.MarksAnother` | kernel/arch/i386/cpu/cpu_topology.c:118-130 | identifiers 32 to 63 fill the table; marking identifier 5 marks the processor with identifier 37 |
| `HashChains.FlatOnce` | libkxx/include/kstd/unordered_map.hpp:61-67 | iteration order meets every node exactly once |
| `HashChains.CutOrder` | libkxx/include/kstd/unordered_map.hpp:193-221 | erasing one node takes one place out of the iteration order and moves no other |
| `HashChains.SpreadTurnsAround` | libkxx/include/kstd/unordered_map.hpp:266-278 | of two nodes that end in one bucket, the one iterated first before a rehash is iterated last after it |
| `HashOrder.PushAged` | libkxx/include/kstd/unordered_map.hpp:286-296 | an insertion keeps the order of every bucket as births and rehashes say |
| `HashOrder.SpreadAged` | libkxx/include/kstd/unordered_map.hpp:262-278 | so does a rehash into any finer table, with the count of rehashes one higher |
| `HashOrder.LaterMetFirst` | libkxx/include/kstd/unordered_map.hpp:61-67 | of two nodes in one bucket the later one is met first exactly when the rehashes since its insertion are even in number |
| `HashMap.ShowsSize` | libkxx/include/kstd/unordered_map.hpp:124-125 | the number of nodes is the number of keys |
| `HashMap.IndexInRange` | libkxx/include/kstd/unordered_map.hpp:242-245 | with a power of two of buckets the mask is the remainder of the hash, always a bucket |
| `HashMap.IterationVisitsAll` | libkxx/include/kstd/unordered_map.hpp:61-67 | iteration meets each key of the map exactly once and nothing else |
| `HashMap.UnorderedMap.constructor` | libkxx/include/kstd/unordered_map.hpp:78-78 | the empty map, without buckets |
| `HashMap.UnorderedMap.Walk` | libkxx/include/kstd/unordered_map.hpp:148-152 | the walk along one chain ends at the key's node, or at null exactly when the key is not in the map |
| `HashMap.UnorderedMap.Rehash` | libkxx/include/kstd/unordered_map.hpp:262-278 | every node moves to the chain its hash selects, in iteration order, each to the front |
| `HashMap.UnorderedMap.ReserveBuckets` | libkxx/include/kstd/unordered_map.hpp:255-284 | the table only grows, to a power of two of at least 8, the map is unchanged, and a growth counts as one rehash |
| `HashMap.UnorderedMap.EnsureCapacity` | libkxx/include/kstd/unordered_map.hpp:247-253 | the bucket count is 8 at first and doubles exactly when full, so there is room for one more entry at a load of at most one |
| `HashMap.UnorderedMap.InsertNode` | libkxx/include/kstd/unordered_map.hpp:286-296 | the new node becomes the head of its chain and the map gains its key |
| `HashMap.UnorderedMap.Emplace` | libkxx/include/kstd/unordered_map.hpp:165-185 | inserts exactly when the key is absent, as the latest entry, and grows the table when full; an existing value is kept |
| `HashMap.UnorderedMap.Find` | libkxx/include/kstd/unordered_map.hpp:144-153 | the key's node with its value, null exactly when the key is absent |
| `HashMap.UnorderedMap.Erase` | libkxx/include/kstd/unordered_map.hpp:201-221 | removes exactly the key; returns 1 exactly when it was there |
| `HashMap.UnorderedMap.Begin` | libkxx/include/kstd/unordered_map.hpp:127-136 | the first position of the iteration order, or the end |
| `HashMap.UnorderedMap.Advance` | libkxx/include/kstd/unordered_map.hpp:61-67 | the next position of the iteration order |
| `HashMap.UnorderedMap.EraseAt` | libkxx/include/kstd/unordered_map.hpp:189-199 | removes the entry at a position and returns where iteration goes on; the rest of the order is untouched |
| `HashMap.UnorderedMap.Clear` | libkxx/include/kstd/unordered_map.hpp:223-237 | every node is given back, the map is empty, the buckets stay |
| `HashMap.UnorderedMap.MeetingOrder` | libkxx/include/kstd/unordered_map.hpp:5-8 | the same law in every reachable state of the map |
| `HashMap.UnorderedMap.FirstOf` | libkxx/include/kstd/unordered_map.hpp:61-67 | iterating from the start stops at the first position that holds either of two keys |
| `HashMap.UnorderedMap.TwoOrders` | libkxx/include/kstd/unordered_map.hpp:165-185 | any two keys that collide among 16 buckets, then any seven others: iteration meets the later of the two first before the ninth insertion and the earlier one first after it |
| `HashMap.TwoKeys` | libkxx/include/kstd/unordered_map.hpp:165-185 | keys 0 and 16, then 1 to 7, do so |

## Left out

- Initialize: takes memory that ends on a multiple of 8, because block sizes are multiples of 8 and the low bits of the size word hold the flags.
- InsertOrder: while the allocator is being populated the ownership map is not consulted, so there the caller answers for the pages being new.
- FindSlot: the local node is below the node count, and the map from addresses to nodes is fixed. Discovery (numa_policy.c:48-56) raises the count above every node it records below 8; a larger one would index past the list heads.
- RemoveOrder: the same for the local node.
- AllocateThenFree: the same for the local node.
- Kmalloc: of the requests above 2^32 - 24 bytes, those that no large block answers and whose total wraps to 0 or 8 are excluded, because the block would then be cut over its own header.
- Kfree: a pointer that was neither handed out nor carries a refused header is the caller's error and excluded; the BIG flag, which no code sets, is not modelled.
- MapPage: flags for a directory entry that is there have the present bit set, because without it the table of the entry would be orphaned.
- ReserveAt: a range whose end wraps past 2^32 must meet a used page, because the code would otherwise index past its bitmap.
- FreePages: a count that runs past the end of the range is excluded for the same reason.
- MapRun: where `EnoughExact` says the frames suffice only for some choices of the page allocator, the outcome of one particular choice is not predicted, because the page allocator is a set of free frames there.
- Emplace: the address of a new node is the allocator's answer, a parameter; allocation failure, which stops the kernel, is not modelled.
- The page allocator under heap and paging is a set of free pages there, not the buddy model; the virtual memory manager's answer to the heap is a parameter.
- Heap addresses and statistics counters are unbounded; only request sizes, page counts, ring indices and the pending counter wrap as in the code.
- Poison fills, cycle counts, hit and probe statistics, watermarks and anomaly counters: they do not affect results.
- The real-time branches of the page allocator and of the heap, the slab and pool allocators, sensitive and pinned allocations: they would only add easy members.
- Interrupt masking around the class lists of the heap: calls are taken as uninterrupted.
- Pages of the dynamic range that other drivers reserve and map themselves.
- Copy, move and assignment of the hash map, `at` and `contains`: loops over, or calls of, the operations that are modelled.
- The scan-code and keyboard-layout decoding behind the keyboard ring.
- Weak memory ordering: steps of the ring, of the mouse decoding and of the shootdown are sequentially consistent; two shootdowns at once are excluded.
- The real-time counted ring, port and device drivers, boot-time discovery and the C++ libraries other than the hash map.
