# malloc-lab allocators in Dafny

This project models the three dynamic storage allocators of malloc-lab. All three implement
`mm_init`, `mm_malloc`, `mm_free` and `mm_realloc` inside one arena that only grows
(`mem_sbrk`). They share the boundary-tag block layout:

- each block carries a header word and a footer word, `PACK(size, alloc)`;
- the heap runs from an alignment pad, through a prologue block, to an epilogue header of size 0.

The three allocators:

- `sdfs.c` is an implicit-list allocator with 4-byte words and 8-byte alignment. Its `find_fit`
  is next fit: it resumes after `last_fitp`, the block where the previous search stopped, and
  wraps around to `heap_listp`. Coalescing happens immediately on free. It is modelled in module
  `Implicit`, class `ImplicitHeap`.
- `mm.c` and `mm_seg.c` are segregated-free-list allocators with 8-byte words and 16-byte
  alignment. Every free block sits on one of ten doubly linked lists, chosen by its size class.
  Each free block keeps `PRED` and `SUCC` in its first two payload words. `insert_node` pushes at
  the head; `remove_node` unlinks.
  - `mm.c` searches its lists best fit, returning early on an exact fit.
  - `mm_seg.c` searches first fit and uses other class bounds.
  - They also differ in how `coalesce` reads the neighbours' allocated bits and in how
    `remove_node` reads the links.

  Both are modelled in module `Segregated`, class `SegHeap`, with a `Variant` (`BestFit` for
  `mm.c`, `FirstFit` for `mm_seg.c`) that selects the differing code.

Memory is a map from byte address to word (`Memlib.Arena`). Addresses are offsets from
`mem_heap_lo`; `NULL` is 0. Each allocator class mirrors the C program's state:

- the arena;
- `heap_listp` and `last_fitp`, or the array of list heads;
- ghost fields that state what the words mean:
  - `blocks`, the sequence of regular blocks between prologue and epilogue;
  - `free`, the abstract free lists;
  - `rover`, the index of `last_fitp`'s block.

`Valid()` ties the words to these ghost fields. `Allocated()` maps every live payload pointer to
its block size. Every public operation keeps `Valid()` and states its effect on `Allocated()`:

- `Grants`: a new block of at least the adjusted size, nothing else changed;
- `Resizes`: the block stays in place and is grown or shrunk;
- `Moves`: the old block is released and a new one granted.

The segregated allocators' `find_fit` is proved equal to a specification function (`Fit.FindFit`).
That function is itself characterised by lemmas:

- it returns `NULL` exactly when no free block is large enough;
- `mm.c`'s choice is a best fit within its list;
- `mm_seg.c`'s choice is the first fit in the lowest class that holds any fit.

Module layout:

- `Block`: the tag macros and the request rounding.
- `Layout` and `Chain`: blocks laid out in memory, and the pointer macros on such a layout.
- `Memlib`: the arena.
- `FreeMap`: the free blocks by payload.
- `SizeClass`: `find_size_class`.
- `FreeLists`: the list operations on values.
- `Fit`: the search specification.
- `Implicit` and `Segregated`: the allocators.
- `Finding`: `sdfs.c` as written, for the findings below.

## Model

| member | source | states |
|---|---|---|
| Block.Pack | malloc_lab_docker/malloc-lab/sdfs.c:31 | the tag's low bit is set exactly when the block is allocated; a free tag is the size itself, and for an even size the tag is the size plus the allocated bit |
| Block.GetSize | malloc_lab_docker/malloc-lab/sdfs.c:38 | masking the low bits gives the largest multiple of the alignment (8 here, 16 in mm.c) not above the word |
| Block.GetAlloc | malloc_lab_docker/malloc-lab/sdfs.c:39 | the allocated bit is read as true exactly when the word is odd |
| Block.PackRoundTrip | malloc_lab_docker/malloc-lab/mm.c:20-32 | GET_SIZE and GET_ALLOC of PACK(size, alloc) give back size and alloc for every aligned size |
| Block.AdjustSize | malloc_lab_docker/malloc-lab/mm.c:308-313 | the adjusted request is aligned, at least the minimum block, leaves room for the request plus header and footer, and for requests above DSIZE wastes less than one more alignment unit |
| Block.Max | malloc_lab_docker/malloc-lab/mm.c:17 | MAX is one of its arguments and at least both |
| Block.ExtendBytes | malloc_lab_docker/malloc-lab/mm.c:200 | extend_heap's byte count (an odd word count rounded up) is a multiple of two words, at least the words asked for and less than two words more |
| SizeClass.MmSizeClass | malloc_lab_docker/malloc-lab/mm.c:90-101 | the class is one of the ten, and the size lies above the previous class's bound and at most at its own (bounds 32 to 8192) |
| SizeClass.SegSizeClass | malloc_lab_docker/malloc-lab/mm_seg.c:72-83 | the same with mm_seg.c's bounds (9 to 2048) |
| SizeClass.SizeClassUnique | malloc_lab_docker/malloc-lab/mm.c:90-101 | the class returned is the only class whose bounds bracket the size |
| SizeClass.SizeClassMonotone | malloc_lab_docker/malloc-lab/mm_seg.c:72-83 | a larger size never falls in a lower class |
| SizeClass.SegRequestClass | malloc_lab_docker/malloc-lab/mm_seg.c:72-83 | every adjusted request (at least 32 bytes) falls in class 2 or above, so mm_seg.c's find_fit never scans the two smallest lists |
| SizeClass.SizeClassOf | malloc_lab_docker/malloc-lab/mm.c:90-101 | find_size_class of either variant: one of the ten classes, and the size lies above the previous class's bound and at most at its own (mm_seg.c:72-83 for the first-fit bounds) |
| Memlib.Arena.Put | malloc_lab_docker/malloc-lab/mm.c:26 | PUT changes exactly the one word written and not the break |
| Memlib.Arena.HeapHi | malloc_lab_docker/malloc-lab/mm_seg.c:136 | mem_heap_hi is the last byte below the break |
| Memlib.Arena.Sbrk | malloc_lab_docker/malloc-lab/mm.c:201 | mem_sbrk fails exactly when the increment would pass the arena's maximum; on success it returns the old break and moves it; it never changes a word |
| Chain.BlockAt | malloc_lab_docker/malloc-lab/mm.c:35-38 | on a heap in shape, the header and the footer of every block hold its tag and the next block's header follows the footer |
| Chain.NextBlkpAt | malloc_lab_docker/malloc-lab/sdfs.c:43-46 | NEXT_BLKP of block i's payload is block i+1's payload (the epilogue after the last), and FTRP is block i's last word |
| Chain.PrevBlkpAt | malloc_lab_docker/malloc-lab/sdfs.c:48 | PREV_BLKP of block i's payload is block i-1's payload, or the prologue's for the first block |
| Chain.NeighbourFlags | malloc_lab_docker/malloc-lab/mm.c:158-159 | the allocated bits coalesce reads (the previous footer or header, the next header) say exactly whether each neighbour is allocated |
| Chain.CoalesceSizes | malloc_lab_docker/malloc-lab/mm.c:160-162 | the sizes coalesce reads through HDRP and FTRP are the sizes of the block and of its neighbours |
| Layout.MergedSize | malloc_lab_docker/malloc-lab/mm.c:164-188 | the merged block's size is the block's plus that of each free neighbour, in all four cases |
| Layout.CoalescedSum | malloc_lab_docker/malloc-lab/mm.c:156-191 | coalescing keeps the total size of the blocks |
| Layout.CoalescedAlloc | malloc_lab_docker/malloc-lab/mm.c:156-191 | coalescing leaves every allocated block where it was |
| Layout.Freed | malloc_lab_docker/malloc-lab/mm.c:334-337 | freeing block i clears its allocated bit, keeps its size, and changes no other block |
| Layout.Absorbed | malloc_lab_docker/malloc-lab/mm.c:359-363 | the in-place growth makes block i and block i+1 one allocated block of their summed size, keeps the blocks before and after, and keeps the total size |
| Chain.PlacedFacts | malloc_lab_docker/malloc-lab/sdfs.c:180-200 | place keeps the total size and the blocks before i; block i becomes allocated with at least asize bytes; a free remainder is split off exactly when at least the minimum block is left over |
| Chain.LiveSplit | malloc_lab_docker/malloc-lab/mm.c:282-289 | splitting a free block grants its first asize bytes and changes no other allocation |
| Chain.LiveOne | malloc_lab_docker/malloc-lab/mm.c:334-337 | retagging one block as free or allocated removes or adds exactly that allocation |
| Chain.LiveAbsorb | malloc_lab_docker/malloc-lab/mm.c:359-363 | absorbing the free next block into an allocated one grows that allocation and changes no other |
| Chain.PayloadAligned | malloc_lab_docker/malloc-lab/mm.c:53 | every payload pointer is a multiple of the alignment |
| Chain.MergedRoverPtr | malloc_lab_docker/malloc-lab/sdfs.c:278-303 | after a merge, the corrected last_fitp points at the merged block when it pointed into the merged run, and at the same block otherwise |
| Chain.GrantThenRelease | malloc_lab_docker/malloc-lab/mm.c:368-377 | mm_malloc's grant followed by mm_free of the old pointer is a move from the old block to the new one |
| FreeMap.VacantAt | malloc_lab_docker/malloc-lab/mm.c:330-339 | a block's payload is among the free blocks exactly when the block is free, with its size |
| FreeMap.VacantRetag | malloc_lab_docker/malloc-lab/mm.c:334-337 | retagging one block adds it to or drops it from the free blocks and changes no other |
| FreeMap.VacantAppend | malloc_lab_docker/malloc-lab/mm.c:204-206 | the block extend_heap adds at the old break is the one new free block |
| FreeLists.Push | malloc_lab_docker/malloc-lab/mm.c:130-138 | insert_node makes bp the head of its class's list and leaves the other lists alone |
| FreeLists.Unlink | malloc_lab_docker/malloc-lab/mm.c:141-153 | remove_node drops the node from its list, keeping the order of the rest, and leaves the other lists alone |
| FreeLists.PushThenUnlink | malloc_lab_docker/malloc-lab/mm.c:130-153 | removing the node just inserted gives back the lists as they were |
| FreeLists.MembersPush | malloc_lab_docker/malloc-lab/mm.c:130-138 | after insert_node the listed blocks are the old ones plus bp |
| FreeLists.MembersUnlink | malloc_lab_docker/malloc-lab/mm.c:141-153 | after remove_node the listed blocks are the old ones minus the node |
| FreeLists.PushLists | malloc_lab_docker/malloc-lab/mm.c:130-138 | insert_node's four writes (bp's SUCC and PRED, the old head's PRED, the head) keep every list filed by class, free of duplicates and chained through PRED/SUCC |
| FreeLists.UnlinkLists | malloc_lab_docker/malloc-lab/mm.c:141-153 | remove_node's writes (the predecessor's SUCC or the head, the successor's PRED) keep the lists well formed without the node |
| FreeLists.Locate | malloc_lab_docker/malloc-lab/mm.c:142 | every listed block is on the list of its own size class and is an aligned, non-NULL payload |
| FreeLists.NodeUnique | malloc_lab_docker/malloc-lab/mm.c:141-153 | a block stands at one position of one list only |
| FreeLists.NoLists | malloc_lab_docker/malloc-lab/mm.c:226-227 | mm_init starts from ten empty lists |
| FreeLists.LoneNode | malloc_lab_docker/malloc-lab/mm.c:229-233 | with one free block, it is alone on the list of its class and every other list is empty |
| FreeLists.Filter | malloc_lab_docker/malloc-lab/mm.c:141-153 | a list with the nodes of a set taken off: a node stays exactly when it was on the list and is not in the set, and the list gets no longer |
| FreeLists.Sift | malloc_lab_docker/malloc-lab/mm.c:141-153 | the same on every class list, keeping the number of lists |
| FreeLists.SiftNone | malloc_lab_docker/malloc-lab/mm.c:141-153 | taking off nodes that are on no list changes nothing |
| FreeLists.SiftUnlink | malloc_lab_docker/malloc-lab/mm.c:141-153 | remove_node of a listed node is the lists with that one node taken off, the rest in order |
| FreeLists.SiftTwice | malloc_lab_docker/malloc-lab/mm.c:181-188 | two removals in a row (coalesce case 4) take off the union of the two nodes |
| FreeLists.SiftSame | malloc_lab_docker/malloc-lab/mm.c:164-188 | two sets that agree on the listed nodes take off the same nodes |
| FreeLists.MembersSift | malloc_lab_docker/malloc-lab/mm.c:141-153 | after taking off a set, the listed blocks are the old ones minus that set |
| Fit.FirstFrom | malloc_lab_docker/malloc-lab/mm_seg.c:214-219 | the first node at or after i whose block holds asize bytes; -1 exactly when none does |
| Fit.BestFrom | malloc_lab_docker/malloc-lab/mm.c:258-270 | a node that fits with the least size of all nodes that fit, the earliest of those; -1 exactly when none fits |
| Fit.BestUpTo | malloc_lab_docker/malloc-lab/mm.c:258-269 | the same over the first n nodes: the candidate best_bp after n steps |
| Fit.BestStep | malloc_lab_docker/malloc-lab/mm.c:259-266 | one step of the loop: a fitting node strictly smaller than the candidate replaces it |
| Fit.BestForward | malloc_lab_docker/malloc-lab/mm.c:258-271 | the candidate after the whole list is the best fit |
| Fit.ExactBest | malloc_lab_docker/malloc-lab/mm.c:261-262 | returning at the first exact fit gives the same node as finishing the scan |
| Fit.BestUnique | malloc_lab_docker/malloc-lab/mm.c:258-270 | any node with the best-fit properties is the one the scan returns |
| Fit.Pick | malloc_lab_docker/malloc-lab/mm.c:254-271 | the node picked from one list (best fit in mm.c, first fit in mm_seg.c:214-219) fits, and none is picked exactly when no node on the list fits |
| Fit.Search | malloc_lab_docker/malloc-lab/mm.c:253-273 | the class-by-class search from class c returns NULL or a free block of at least asize bytes |
| Fit.SearchNone | malloc_lab_docker/malloc-lab/mm.c:253-273 | the class-by-class search returns NULL exactly when no node on lists c and above fits |
| Fit.SearchHit | malloc_lab_docker/malloc-lab/mm.c:253-272 | a search that succeeds returns the node picked from the first list, from c on, that holds a fit |
| Fit.FitClass | malloc_lab_docker/malloc-lab/mm.c:253 | a free block large enough for asize is in a class no lower than asize's, so starting the search there misses nothing |
| Fit.FindFitFound | malloc_lab_docker/malloc-lab/mm.c:252-274 | find_fit returns NULL exactly when no free block anywhere holds asize bytes, and otherwise a free block that does |
| Fit.BestFitChoice | malloc_lab_docker/malloc-lab/mm.c:252-274 | mm.c returns a best fit of its list, in its own class, no larger than any fitting block of a class up to its own |
| Fit.FirstFitChoice | malloc_lab_docker/malloc-lab/mm_seg.c:212-222 | mm_seg.c returns the first fit of its list, in the lowest class that holds any fitting block |
| Implicit.ScanFrom | malloc_lab_docker/malloc-lab/sdfs.c:149-156 | the first fitting block in the range; -1 exactly when no block in the range fits |
| Implicit.NextFit | malloc_lab_docker/malloc-lab/sdfs.c:144-169 | next fit's choice: -1, or a block other than last_fitp's own that is free and holds asize bytes |
| Implicit.NextFitSpec | malloc_lab_docker/malloc-lab/sdfs.c:144-169 | the two loops together find a free block that fits, other than last_fitp's own; the first such after last_fitp, or else the first from the start; none exactly when no block but last_fitp's fits |
| Implicit.PlaceRoverPtr | malloc_lab_docker/malloc-lab/sdfs.c:184-193 | a split keeps last_fitp pointing at the same block |
| Implicit.CoalesceRover | malloc_lab_docker/malloc-lab/sdfs.c:272-305 | last_fitp as corrected after coalesce: unchanged without a merge, unchanged when it lies before the merged run, and always a block index of the coalesced heap or -1 |
| Implicit.PlaceRover | malloc_lab_docker/malloc-lab/sdfs.c:184-193 | last_fitp after place: the same block, one index on when the split block lies before it, and in range of the placed heap |
| Implicit.Extension | malloc_lab_docker/malloc-lab/sdfs.c:236-237 | the block mm_malloc appends when nothing fits is free, aligned and holds the request |
| Implicit.FitAt | malloc_lab_docker/malloc-lab/sdfs.c:151 | the header test in find_fit holds exactly when the block is free and large enough; NEXT_BLKP steps to the next block |
| Implicit.EndAt | malloc_lab_docker/malloc-lab/sdfs.c:149 | the loop test GET_SIZE > 0 fails exactly at the epilogue |
| Implicit.ImplicitHeap.MergeNext | malloc_lab_docker/malloc-lab/sdfs.c:283-288 | coalesce case 2: the two writes merge the block with the free next block |
| Implicit.ImplicitHeap.MergePrev | malloc_lab_docker/malloc-lab/sdfs.c:289-295 | coalesce case 3: the writes merge the block into the free previous block, which is returned |
| Implicit.ImplicitHeap.MergeBoth | malloc_lab_docker/malloc-lab/sdfs.c:296-303 | coalesce case 4: the writes merge all three blocks into the previous one, which is returned |
| Implicit.ImplicitHeap.Coalesce | malloc_lab_docker/malloc-lab/sdfs.c:272-305 | coalesce merges the freed block with its free neighbours, keeps the heap valid and every allocation, and returns the merged block; last_fitp as corrected (Findings) |
| Implicit.ImplicitHeap.PlaceSplit | malloc_lab_docker/malloc-lab/sdfs.c:184-193 | the four writes split the block into an allocated block of asize bytes and a free remainder, granting only that allocation |
| Implicit.ImplicitHeap.Retag | malloc_lab_docker/malloc-lab/sdfs.c:194-199 | writing the block's own size with a new allocated bit adds or removes exactly that allocation |
| Implicit.ImplicitHeap.Place | malloc_lab_docker/malloc-lab/sdfs.c:180-200 | place allocates the block, split or whole, keeps the heap valid and grants exactly that block |
| Implicit.ImplicitHeap.ExtendHeap | malloc_lab_docker/malloc-lab/sdfs.c:113-129 | extend_heap fails, changing nothing, exactly when the arena cannot grow by the rounded size; otherwise it appends a free block, coalesces it with a free last block and returns the merged block, keeping every allocation |
| Implicit.ImplicitHeap.MmInit | malloc_lab_docker/malloc-lab/sdfs.c:76-100 | mm_init succeeds exactly when the arena holds the prologue, epilogue and one chunk, leaving one free block of CHUNKSIZE bytes and no allocation, with last_fitp on that block (coalesce case 1 sets it) |
| Implicit.ImplicitHeap.NextFitScan | malloc_lab_docker/malloc-lab/sdfs.c:144-169 | the two loops return the block next fit chooses, or NULL |
| Implicit.ImplicitHeap.FindFit | malloc_lab_docker/malloc-lab/sdfs.c:144-169 | find_fit returns the next-fit block and moves last_fitp to it, or returns NULL and leaves last_fitp |
| Implicit.ImplicitHeap.PlaceFit | malloc_lab_docker/malloc-lab/sdfs.c:228-232 | placing the found block grants a new aligned block of at least asize bytes, leaves the blocks as Placed describes, and sets last_fitp to it |
| Implicit.ImplicitHeap.ExtendPlace | malloc_lab_docker/malloc-lab/sdfs.c:236-243 | growing by MAX(asize, CHUNKSIZE) fails exactly when the arena cannot grow, changing nothing; otherwise the new block, coalesced with a free last block, is placed and becomes last_fitp |
| Implicit.ImplicitHeap.MmMalloc | malloc_lab_docker/malloc-lab/sdfs.c:212-244 | mm_malloc returns NULL exactly for size 0 or when no block fits and the arena cannot grow, and then changes nothing; a next-fit block is placed and becomes last_fitp; otherwise the heap is extended, coalesced and the merged block placed; either way the blocks and last_fitp are Malloced and MallocRover |
| Implicit.ImplicitHeap.MmFree | malloc_lab_docker/malloc-lab/sdfs.c:254-261 | mm_free releases exactly that allocation; the blocks become the freed block coalesced with its free neighbours, and last_fitp is corrected for the merge |
| Implicit.ImplicitHeap.GrowWrites | malloc_lab_docker/malloc-lab/sdfs.c:351-353 | the two writes of the summed size merge the allocated block with the free next block |
| Implicit.ImplicitHeap.Absorb | malloc_lab_docker/malloc-lab/sdfs.c:348-353 | the block absorbs the free next block in place and that allocation grows; the blocks are exactly Absorbed; last_fitp as corrected (Findings) |
| Implicit.ImplicitHeap.GrowInPlace | malloc_lab_docker/malloc-lab/sdfs.c:348-356 | growing into the next block and then placing resizes the allocation in place to at least the new size; the blocks are the absorbed heap placed at the block, last_fitp follows the merge and the split |
| Implicit.ImplicitHeap.ReallocMove | malloc_lab_docker/malloc-lab/sdfs.c:360-369 | on success the block moves to the next-fit block (or to a block of the grown heap), copying the smaller of the old payload and the request, and the blocks and last_fitp are those mm_malloc leaves, then freed and coalesced at ptr; NULL exactly when no block fits and the arena cannot grow, and then nothing changes |
| Implicit.ImplicitHeap.ReallocBlock | malloc_lab_docker/malloc-lab/sdfs.c:329-369 | a request that fits the block is placed in it; a free next block that suffices is absorbed and placed in; otherwise the block moves to the next-fit block, with the blocks and last_fitp of mm_malloc then mm_free; NULL exactly when none of these applies and the arena cannot grow, with nothing changed |
| Implicit.ImplicitHeap.MmRealloc | malloc_lab_docker/malloc-lab/sdfs.c:318-370 | mm_realloc is mm_malloc for NULL (same NULL condition, blocks and last_fitp), mm_free with its coalesced blocks for size 0, and otherwise ReallocBlock: shrink, grow in place, move (mm_malloc then mm_free on the blocks), or NULL exactly when nothing fits and the arena cannot grow |
| Segregated.NodeSize | malloc_lab_docker/malloc-lab/mm.c:131 | a free block's header holds its size, so the class insert_node and remove_node compute is that of the block |
| Segregated.PushHeap | malloc_lab_docker/malloc-lab/mm.c:130-138 | insert_node on a free block that is off the lists puts it back on the list of its class and keeps the heap invariant |
| Segregated.UnlinkHeap | malloc_lab_docker/malloc-lab/mm.c:141-153 | the PRED and SUCC words of a listed block are its neighbours on its list, and remove_node's writes keep the invariant with the block off the lists |
| Segregated.SegFlags | malloc_lab_docker/malloc-lab/mm_seg.c:135-136 | the bounds-checked allocated bits in mm_seg.c's coalesce say exactly whether each neighbour is allocated |
| Segregated.MergedHeap | malloc_lab_docker/malloc-lab/mm.c:164-188 | after a run of blocks is rewritten as one block, the lists still hold every other free block, with only the merged block (if free) off them |
| Segregated.JoinWrites | malloc_lab_docker/malloc-lab/mm.c:168-188 | the merge writes of cases 2 to 4 leave the heap with the merged block as the only free block off the lists |
| Segregated.MergeSift | malloc_lab_docker/malloc-lab/mm.c:164-188 | taking off the merged run's free blocks other than the freed one is taking off the free neighbours of each case: none, next, previous or both |
| Segregated.Extension | malloc_lab_docker/malloc-lab/mm.c:320-321 | the block mm_malloc appends when no free block fits is free, aligned and holds the request |
| Segregated.MallocLists | malloc_lab_docker/malloc-lab/mm.c:298-327 | the lists after a successful mm_malloc are still ten lists |
| Segregated.AbsorbHeap | malloc_lab_docker/malloc-lab/mm.c:359-363 | absorbing the unlinked next block keeps the invariant and grows only that allocation |
| Segregated.SplitHeap | malloc_lab_docker/malloc-lab/mm.c:282-288 | after a split only the remainder is a free block off the lists |
| Segregated.AppendHeap | malloc_lab_docker/malloc-lab/mm.c:204-206 | the block extend_heap appends is the one free block not yet on a list |
| Segregated.EmptyHeap | malloc_lab_docker/malloc-lab/mm.c:219-227 | the prologue and epilogue with ten NULL heads form a valid heap without blocks |
| Segregated.InitBlocks | malloc_lab_docker/malloc-lab/mm.c:229-233 | the two extensions in mm_init (CHUNKSIZE bytes, then 4 words) coalesce into one free block of CHUNKSIZE + 32 bytes |
| Segregated.InitLists | malloc_lab_docker/malloc-lab/mm.c:229-235 | after mm_init that one block is alone on the list of its class, and nothing is allocated |
| Segregated.ListAt | malloc_lab_docker/malloc-lab/mm.c:254 | on a valid heap each head names the first node of its list and following SUCC from it visits the list in order, reading each node's size from its header |
| Segregated.WalkStep | malloc_lab_docker/malloc-lab/mm.c:259-268 | at each node of the walk the header gives its size and SUCC gives the next node, NULL after the last |
| Segregated.ScanFirst | malloc_lab_docker/malloc-lab/mm_seg.c:214-219 | the SUCC walk returns the first node of the list that fits, or NULL |
| Segregated.ScanBest | malloc_lab_docker/malloc-lab/mm.c:254-271 | the SUCC walk with best_bp and best_size returns the list's best fit (an exact fit at once), or NULL |
| Segregated.SegHeap.SetTags | malloc_lab_docker/malloc-lab/mm.c:171-172 | PUT at HDRP, then at FTRP as the new header places it, and nothing else |
| Segregated.SegHeap.InsertNode | malloc_lab_docker/malloc-lab/mm.c:130-138 | insert_node pushes bp on the list of its size class, changing no block |
| Segregated.SegHeap.RemoveNode | malloc_lab_docker/malloc-lab/mm.c:141-153 | remove_node (both variants) unlinks bp from the list of its size class, changing no block; the lists are the old ones with bp taken off |
| Segregated.SegHeap.JoinNext | malloc_lab_docker/malloc-lab/mm.c:168-173 | coalesce case 2: the next block comes off its list and the two blocks become one |
| Segregated.SegHeap.PrevTags | malloc_lab_docker/malloc-lab/mm.c:177-178 | case 3's writes merge the block into the previous one |
| Segregated.SegHeap.JoinPrev | malloc_lab_docker/malloc-lab/mm.c:174-180 | coalesce case 3: the previous block comes off its list and absorbs the block |
| Segregated.SegHeap.BothTags | malloc_lab_docker/malloc-lab/mm.c:185-186 | case 4's writes merge the three blocks into the previous one |
| Segregated.SegHeap.JoinBoth | malloc_lab_docker/malloc-lab/mm.c:181-188 | coalesce case 4: both neighbours come off their lists and all three become one block |
| Segregated.SegHeap.BothRest | malloc_lab_docker/malloc-lab/mm.c:184-188 | case 4 after both removals: the writes and the merged block's start |
| Segregated.SegHeap.Merge | malloc_lab_docker/malloc-lab/mm.c:158-188 | coalesce reads the neighbour flags (mm_seg.c:135-136 in the first-fit variant), merges the block with its free neighbours, and takes exactly those neighbours off the lists |
| Segregated.SegHeap.Coalesce | malloc_lab_docker/malloc-lab/mm.c:156-191 | coalesce merges the freed block with its free neighbours, keeping every allocation; the lists lose the neighbours and gain the merged block at the head of its class |
| Segregated.SegHeap.GrowTags | malloc_lab_docker/malloc-lab/mm.c:204-206 | the new block's header over the old epilogue, its footer, and the new epilogue |
| Segregated.SegHeap.ExtendHeap | malloc_lab_docker/malloc-lab/mm.c:195-208 | extend_heap fails, changing nothing, exactly when the arena cannot grow; otherwise it appends a free block, coalesces it and puts the merged block at the head of its class, the lists otherwise as before |
| Segregated.SegHeap.Prologue | malloc_lab_docker/malloc-lab/mm.c:214-227 | the pad, prologue and epilogue words and ten NULL heads, when the arena has room for them |
| Segregated.SegHeap.SmallBlock | malloc_lab_docker/malloc-lab/mm.c:232-233 | the second extension by 4 words merges into the first chunk |
| Segregated.SegHeap.MmInit | malloc_lab_docker/malloc-lab/mm.c:211-236 | mm_init succeeds exactly when the arena holds prologue, epilogue, a chunk and 4 more words; it leaves one free block of CHUNKSIZE + 32 bytes, alone on its class's list, and no allocation |
| Segregated.SegHeap.FindFit | malloc_lab_docker/malloc-lab/mm.c:252-274 | the class-by-class loop returns exactly the specified fit (best fit in mm.c, first fit in mm_seg.c, mm_seg.c:212-222) |
| Segregated.SegHeap.ScanList | malloc_lab_docker/malloc-lab/mm.c:254-271 | the walk of one class list (best fit in mm.c, first fit in mm_seg.c:214-219) returns the node Pick chooses, or NULL when none fits |
| Segregated.SegHeap.PlaceSplit | malloc_lab_docker/malloc-lab/mm.c:283-288 | the four writes split the block into an allocated block of asize bytes and a free remainder |
| Segregated.SegHeap.Retag | malloc_lab_docker/malloc-lab/mm.c:292-293 | writing the block's own size with a new allocated bit adds or removes exactly that allocation |
| Segregated.SegHeap.PlaceWhole | malloc_lab_docker/malloc-lab/mm.c:291-294 | too small a remainder: the whole block is allocated and the lists are those with bp taken off |
| Segregated.SegHeap.PlaceRest | malloc_lab_docker/malloc-lab/mm.c:282-290 | a split whose remainder goes at the head of its class's list, the lists otherwise those with bp taken off |
| Segregated.SegHeap.Place | malloc_lab_docker/malloc-lab/mm.c:278-295 | place takes the block off its list and allocates it, split or whole, granting exactly that block; the lists are bp taken off plus a remainder of at least 2*DSIZE bytes pushed on its class |
| Segregated.SegHeap.PlaceFit | malloc_lab_docker/malloc-lab/mm.c:315-317 | placing the found block grants a new aligned block of at least asize bytes, with the blocks and lists that place describes |
| Segregated.SegHeap.ExtendPlace | malloc_lab_docker/malloc-lab/mm.c:320-326 | growing by MAX(asize, CHUNKSIZE) fails exactly when the arena cannot grow, changing nothing; otherwise the new block is coalesced, relisted and placed |
| Segregated.SegHeap.MmMalloc | malloc_lab_docker/malloc-lab/mm.c:298-327 | mm_malloc returns NULL exactly for size 0 or when no free block is large enough and the arena cannot grow, and then changes nothing; otherwise it places the request in the block find_fit returns, or in the block the extension yields; either way the blocks and lists are Malloced and MallocLists |
| Segregated.SegHeap.Release | malloc_lab_docker/malloc-lab/mm.c:334-337 | the two writes mark the block free, leaving the blocks Freed describes, and remove exactly that allocation |
| Segregated.SegHeap.MmFree | malloc_lab_docker/malloc-lab/mm.c:330-339 | mm_free of NULL changes nothing; otherwise it releases exactly that allocation, and the blocks and lists are those of the freed block coalesced and relisted |
| Segregated.SegHeap.AbsorbWrites | malloc_lab_docker/malloc-lab/mm.c:362-363 | the two writes of the summed size make one allocated block of the block and the next |
| Segregated.SegHeap.AbsorbRest | malloc_lab_docker/malloc-lab/mm.c:361-363 | after remove_node the size is read again from the header and the block absorbs the next one |
| Segregated.SegHeap.Absorb | malloc_lab_docker/malloc-lab/mm.c:358-364 | realloc's in-place growth: the next block comes off its list and the allocation grows by it; the blocks are exactly Absorbed |
| Segregated.SegHeap.ReallocMove | malloc_lab_docker/malloc-lab/mm.c:368-377 | on success the block moves to the block find_fit returns (or one from the grown heap), copying the smaller of the old payload and the request, and the blocks and lists are those mm_malloc leaves, then freed, coalesced and relisted at ptr; NULL exactly when no free block fits and the arena cannot grow, and then nothing changes |
| Segregated.SegHeap.ReallocBlock | malloc_lab_docker/malloc-lab/mm.c:352-377 | a request that fits is returned as is with nothing changed; a free next block that suffices is absorbed; otherwise the block moves to the find_fit block, with the blocks and lists of mm_malloc then mm_free; NULL exactly when none of these applies and the arena cannot grow, with nothing changed |
| Segregated.SegHeap.MmRealloc | malloc_lab_docker/malloc-lab/mm.c:343-377 | mm_realloc is mm_malloc for NULL (same NULL condition, blocks and lists), mm_free with its coalesced blocks and relisted lists for size 0, and otherwise ReallocBlock: keep, grow in place, move (mm_malloc then mm_free on blocks and lists), or NULL exactly when nothing fits and the arena cannot grow |
| Finding.CoalesceAsWritten | malloc_lab_docker/malloc-lab/sdfs.c:272-305 | coalesce as written: only case 1 sets last_fitp, and then to bp with the words unchanged |
| Finding.FreeAsWritten | malloc_lab_docker/malloc-lab/sdfs.c:254-261 | mm_free as written leaves last_fitp or sets it to the freed pointer |
| Finding.ScanToEnd | malloc_lab_docker/malloc-lab/sdfs.c:149-156 | the first loop, walking the words: a returned block lies after the start and passes the header test |
| Finding.ScanToStop | malloc_lab_docker/malloc-lab/sdfs.c:160-167 | the wrap-around loop: a returned block lies below last_fitp and passes the header test |
| Finding.FindFitAsWritten | malloc_lab_docker/malloc-lab/sdfs.c:144-169 | find_fit on the words: a returned block passes the test and becomes last_fitp; NULL changes nothing |
| Finding.PlaceAsWritten | malloc_lab_docker/malloc-lab/sdfs.c:180-200 | place on the words marks the header allocated |
| Finding.MallocAsWritten | malloc_lab_docker/malloc-lab/sdfs.c:212-232 | mm_malloc's find_fit path on the words: a returned block is marked allocated and becomes last_fitp |
| Finding.InPlaceAsWritten | malloc_lab_docker/malloc-lab/sdfs.c:348-354 | the in-place growth on the words leaves a header that holds the new size |
| Finding.ReallocInPlaceAsWritten | malloc_lab_docker/malloc-lab/sdfs.c:318-356 | mm_realloc's in-place paths on the words leave last_fitp where it was |
| Finding.StaleRoverOverlaps | malloc_lab_docker/malloc-lab/sdfs.c:278-303 | the counterexample of the first finding |
| Finding.StaleRoverMisses | malloc_lab_docker/malloc-lab/sdfs.c:348-356 | the counterexample of the second finding |

## Left out

- `memlib.c` is not part of this model. The arena is modelled by its interface only: `mem_sbrk`
  fails when the break would pass a fixed maximum, and `mem_heap_lo` is address 0.
- The contents of payloads are not modelled. `memcpy` and `memmove` in `mm_realloc` appear only as
  the number of bytes copied, returned as `copy`.
- `size_t` and `unsigned int` wrap-around are not modelled; integers are unbounded. The segregated
  heap assumes an arena smaller than `(size_t)-1`, the sentinel `best_size` starts from in
  `mm.c`. A request so large that `asize` would wrap in C is computed without wrapping.
- Implicit.ImplicitHeap.ExtendHeap: requires at least 4 words. Every caller in `sdfs.c` passes
  `CHUNKSIZE/WSIZE` or `MAX(asize, CHUNKSIZE)/WSIZE`.
- Segregated.SegHeap.ExtendHeap: requires at least 4 words. The smallest call in `mm.c` and
  `mm_seg.c` is `extend_heap(4)`.
- Implicit.ImplicitHeap.MmFree: requires a live pointer. `sdfs.c`'s `mm_free` has no NULL check
  and would read the word before address 0, so its behaviour for NULL is undefined.
- mm_free and mm_realloc of a pointer that is not live (a double free, or a pointer into a block)
  are excluded by the preconditions, since the C code reads arbitrary words then.
- Implicit.ImplicitHeap.Coalesce and Implicit.ImplicitHeap.Absorb move `last_fitp` to the merged
  block when it pointed into the merged run. The C code does not; see Findings. The code as
  written is modelled in `Finding`.
- Implicit.ImplicitHeap.MmFree: its `last_fitp` is the corrected one, through coalesce (`FreedRover`, `CoalesceRover`),
  not the stale pointer `sdfs.c` leaves.
- Implicit.ImplicitHeap.ExtendHeap: its `last_fitp` is the corrected one, through coalesce of the appended block,
  not the stale pointer `sdfs.c` leaves.
- Implicit.ImplicitHeap.ExtendPlace: runs the corrected coalesce through ExtendHeap, but then sets
  `last_fitp` to the placed block as `sdfs.c` does, so its final `last_fitp` agrees with the C code.
- Implicit.ImplicitHeap.MmMalloc: runs the corrected coalesce through ExtendHeap, but then sets
  `last_fitp` to the placed block as `sdfs.c` does, so its final `last_fitp` agrees with the C code.
- Implicit.ImplicitHeap.MmInit: its `last_fitp` comes from the corrected coalesce, through its
  extend_heap call; on the single new block, which has no free neighbour, it agrees with `sdfs.c`.
- Implicit.ImplicitHeap.GrowInPlace: its `last_fitp` is the corrected one, through Absorb (`MergedRover`),
  not the stale pointer `sdfs.c` leaves.
- Implicit.ImplicitHeap.ReallocMove: its `last_fitp` is the corrected one, through MmMalloc and MmFree,
  not the stale pointer `sdfs.c` leaves.
- Implicit.ImplicitHeap.ReallocBlock: its `last_fitp` is the corrected one, through GrowInPlace and ReallocMove,
  not the stale pointer `sdfs.c` leaves.
- Implicit.ImplicitHeap.MmRealloc: its `last_fitp` is the corrected one, through MmMalloc, MmFree and ReallocBlock,
  not the stale pointer `sdfs.c` leaves.
- The `team` record in `mm.h`, `ALIGN` and `SIZE_T_SIZE` are not modelled; none of the
  allocators uses them. The commented-out sorted `insert_node` and `find_fit` variants are not
  modelled either.
- The casts between pointers and words (`unsigned long` or `unsigned int` stores of addresses)
  are not modelled: a word holds any natural number.

## Findings

| source | as written | input that shows it | evidently intended | confidence | as-written member | corrected member |
|---|---|---|---|---|---|---|
| malloc_lab_docker/malloc-lab/sdfs.c:283-303 | coalesce cases 2 to 4 merge blocks without moving `last_fitp`, which can be left inside the merged free block | blocks 16 free, 16 allocated (payload 32), 16 free with `last_fitp` at its payload 48, 16 allocated (payload 64), 32 free; `mm_free(32)`, then `mm_free(64)` give one free block of 96 bytes with `last_fitp` still at 48; then `mm_malloc(8)` returns 64 from a stale header inside that block, and `mm_malloc(88)` returns 16, whose block covers 64 | `last_fitp` points at a block start; after a merge that swallows it, it points at the merged block | not executed | Finding.StaleRoverOverlaps | Implicit.ImplicitHeap.Coalesce |
| malloc_lab_docker/malloc-lab/sdfs.c:348-356 | the in-place growth of `mm_realloc` absorbs the next block without moving `last_fitp`, which can be left inside the allocated block | an allocated block of 16 bytes (payload 16) followed by a free block of 32 with `last_fitp` at its payload 32; `mm_realloc(16, 16)` grows to 48 bytes and splits off a free 24-byte block at 40; then `find_fit(16)` steps from the stale header at 32 to the epilogue, wraps around below 32 and returns NULL although the block at 40 fits | after absorbing `last_fitp`'s block, `last_fitp` points at the grown block | not executed | Finding.StaleRoverMisses | Implicit.ImplicitHeap.Absorb |
