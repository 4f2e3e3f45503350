# A verified model of a heap allocator and four small libraries

The repository holds a boundary-tag heap allocator with an explicit free list
(`project0x03/prj3-malloc`), the driver that replays traces against it, a K-best
timing sampler, the Rio buffered-I/O package, and a small shell. This project
models that code in Dafny and proves what it is meant to do.

    dafny verify dfyconfig.toml

## The allocator

The allocator is modelled on three levels.

* **Bytes and words.** `Memory.dfy` is the flat region of `memlib.c`: an array of
  bytes with a bounded break, read and written as little-endian words or as single
  bytes. `Words.dfy` writes out the tag and rounding macros over 32-bit unsigned
  words, masks included. Addresses are offsets from an 8-aligned base; 0 is NULL.
* **Operations.** `Allocator.dfy` is `mm.c`: a class whose methods do the same word
  reads and writes in the same branches. Longer C functions are cut into one method
  per branch (`Coalesce` calls `CoalesceNext`, `CoalescePrev` or `CoalesceBoth`).
* **Meaning.** `HeapModel.dfy` has the abstract heap: a row of blocks that tiles
  the region after the prologue, and the list of free blocks. `HeapOps.dfy` says
  what each operation does to it. `Layout.dfy` says how such a heap lies in memory
  (`Shape`): both tags of every block, prologue, epilogue, and the links inside
  free payloads. Every method of the allocator keeps `Shape` and moves the abstract
  heap exactly as `HeapOps` says; every method also says which payload bytes it
  leaves alone (`Kept`).

On that the properties are proved: `HeapProofs.dfy` (the tiling, and that the
sorted list holds exactly the free blocks), `HeapLive.dfy` (what happens to the
set of live blocks), `HeapExact.dfy` (which blocks there are after each operation,
and at which address, written out with the sizes of the source; `Allocator` promises
this too), `HeapRuns.dfy` (everything that holds in every state a legal run of calls
can reach), `HeapPairs.dfy` (how far coalescing goes), `Walks.dfy`
(the same facts read off memory by walking headers and following links).

`Ranges.dfy`, `Trace.dfy`, `Usage.dfy` and `Driver.dfy` are the client:
`eval_mm_valid` and `eval_mm_util` run over the allocator for any well-formed trace.
The theorem is `Driver.EvalValid`: the method runs the range list, the fill and the
comparison loop on the bytes of the heap, and its verdict is that of the model in
`Trace.dfy`, which has no way to report a misaligned payload, one outside the heap,
or an overlap. Such a trace passes, or stops at a NULL for which no free block was
large enough and the region had no room, or at a resize of an id whose low byte is
128 or more. The lemmas of `Trace.dfy` about verdicts are facts about that model.

## What was found in the code

* `mm_realloc` can leave two neighbouring free blocks: it inserts the remainder of
  a shrunk block without `coalesce` (mm.c:205-215). `PairReachable` is a run of two
  calls that does so, `StepPairs` shows that a call adds such a pair exactly when it
  is a shrink that splits right before a free block, and `FullyCoalesced` that runs
  of `mm_malloc` and `mm_free` alone never have one.
* `add_range` says it checks that payloads do not overlap, but misses a new range
  strictly around an old one (mdriver.c:412-413). An accepted range overlaps a
  recorded one if and only if it has one strictly inside (`AcceptedOverlap`;
  `OverlapAccepted` is such an input). Disjointness of payloads is therefore derived
  from the heap itself.
* `eval_mm_valid` compares a plain `char`, which is signed, with `index & 0xFF`
  (mdriver.c:671). It reports lost data for a resize of an id if and only if the low
  byte of the id is 128 or more, although the data is there (`Driver.CheckData`).
  `LostDataReported` is a trace of two operations that ends so.
* The masked rounding wraps for sizes within 15 of 2^32; `AdjHoldsPayload` is the
  exact condition under which the adjusted size still holds the request, and
  `AdjWraps` the least size that does not, for which it is 0.

## The smaller libraries

* `Fcyc.dfy`: the K-best sampler. After any samples its array holds, in order, the
  smallest of them, so `fcyc` returns the minimum.
* `Rio.dfy`: the buffered reader over a kernel that may shorten or interrupt any
  read. Any interleaving of `rio_readnb` and `rio_readlineb` is shown to hand out
  the stream consecutively, independent of what the kernel did.
* `Sio.dfy`: `sio_ltoa`, with the round trip through base b.
* `Shell.dfy`: the in-place tokenizer and the bounded history.

## Model

| member | source | states |
|---|---|---|
| Words.AndMask | project0x03/prj3-malloc/mm.c:66 | The mask ~0x7 clears the low three bits of a 32-bit word and nothing else. |
| Words.PackRoundTrip | project0x03/prj3-malloc/mm.c:59-67 | For sizes that are multiples of 8, GET_SIZE and GET_ALLOC undo PACK. |
| Words.AlignLeast | project0x03/prj3-malloc/mm.c:52 | Without a wrap ALIGN is the least multiple of 8 not below its argument. |
| Words.AdjHoldsPayload | project0x03/prj3-malloc/mm.c:133 | The adjusted size holds the request and both tags if and only if size + 15 does not wrap. |
| Words.AdjWraps | project0x03/prj3-malloc/mm.c:133 | The adjusted size of 0xFFFFFFF1 is 0. |
| Words.AdjAgree | project0x03/prj3-malloc/mm.c:195-199 | For every size of at least 1 the two-branch adjusted size of mm_realloc is the one of mm_malloc; without a wrap it is a multiple of 8, at least 16, and between size + 8 and size + 15. |
| MemLib.Memory.constructor | project0x03/prj3-malloc/memlib.c:25-35 | A fresh region has its break at the start. |
| MemLib.Memory.ResetBrk | project0x03/prj3-malloc/memlib.c:48-51 | The break goes back to the start; nothing else changes. |
| MemLib.Memory.Sbrk | project0x03/prj3-malloc/memlib.c:58-69 | Succeeds if and only if the increment is not negative as an int and the new break stays within the region; returns the old break; a refusal changes nothing. |
| MemLib.Memory.Get | project0x03/prj3-malloc/mm.c:62 | Reads the little-endian word at an aligned address. |
| MemLib.Memory.Put | project0x03/prj3-malloc/mm.c:63 | Updates that word in the word view and changes no byte outside its four. |
| MemLib.Memory.Copy | project0x03/prj3-malloc/mm.c:253 | memcpy of ranges that do not overlap: the target holds the source bytes, all other bytes and words stay. |
| MemLib.Memory.Fill | project0x03/prj3-malloc/mdriver.c:637 | memset: the range holds the byte, all other bytes and words stay. |
| HeapModel.InsertedSorted | project0x03/prj3-malloc/mm.c:349-393 | Inserting behind the smaller nodes keeps the list sorted by size and free of repeats. |
| HeapModel.InsertedMembers | project0x03/prj3-malloc/mm.c:349-393 | Insertion adds that node and keeps every other, as a multiset. |
| HeapModel.RemovedSorted | project0x03/prj3-malloc/mm.c:395-420 | Deletion keeps the list sorted and free of repeats. |
| HeapModel.RemovedMembers | project0x03/prj3-malloc/mm.c:395-420 | Deletion takes away that node and keeps every other, as a multiset. |
| HeapModel.RemoveInserted | project0x03/prj3-malloc/mm.c:349-420 | Deleting a node just inserted gives back the same list. |
| HeapProofs.CoalescedGood | project0x03/prj3-malloc/mm.c:281-318 | All four cases keep the tiling and the agreement of list and free blocks; the break stays. |
| HeapProofs.CoalescedFree | project0x03/prj3-malloc/mm.c:281-318 | The returned block is free, covers the given one, and is at the index the model says. |
| HeapProofs.PlacedGood | project0x03/prj3-malloc/mm.c:320-347 | Placing whole, low or high keeps tiling and list. |
| HeapProofs.GrownGood | project0x03/prj3-malloc/mm.c:263-279 | Extending keeps tiling and list, moves the break by the size, and returns a free block at least that large. |
| HeapProofs.InitialGood | project0x03/prj3-malloc/mm.c:105-122 | The initial heap is well formed: 80 bytes with one free block of 64 at address 16. |
| HeapProofs.SpotGood | project0x03/prj3-malloc/mm.c:139-161 | The block found or made is free and large enough, in a well-formed heap. |
| HeapProofs.MallocGood | project0x03/prj3-malloc/mm.c:128-164 | mm_malloc keeps tiling and list, on success and on failure. |
| HeapProofs.FreedGood | project0x03/prj3-malloc/mm.c:169-177 | mm_free keeps tiling and list. |
| HeapProofs.ShrunkGood | project0x03/prj3-malloc/mm.c:203-217 | A shrinking mm_realloc, with or without a split, keeps tiling and list. |
| HeapProofs.AbsorbedGood | project0x03/prj3-malloc/mm.c:222-246 | An mm_realloc growing into the next block, with or without a split, keeps tiling and list. |
| HeapLive.CoalescedLive | project0x03/prj3-malloc/mm.c:281-318 | coalesce leaves exactly the same live blocks. |
| HeapLive.GrownLive | project0x03/prj3-malloc/mm.c:263-279 | extend_heap leaves exactly the same live blocks. |
| HeapLive.PlacedLive | project0x03/prj3-malloc/mm.c:320-347 | place adds one live block: the whole block when at most 16 bytes would be left, else the adjusted size, at the high end from 100 bytes on and at the low end below that. |
| HeapLive.MallocLive | project0x03/prj3-malloc/mm.c:128-164 | mm_malloc returns NULL and changes nothing, or adds one live block at the returned address, within 16 bytes of the adjusted size. |
| HeapLive.FreedLive | project0x03/prj3-malloc/mm.c:169-177 | mm_free removes one live block and no other. |
| HeapLive.ShrunkLive | project0x03/prj3-malloc/mm.c:203-217 | Shrinking replaces one live block by one at the same address: the adjusted size after a split, else the old size. |
| HeapLive.AbsorbedLive | project0x03/prj3-malloc/mm.c:222-246 | Growing in place replaces one live block by one at the same address: the adjusted size after a split, else both blocks. |
| HeapExact.CoalescedExactly | project0x03/prj3-malloc/mm.c:281-318 | The returned block reaches from the start of a free block before to the end of a free block after; the blocks outside it are the same as before. |
| HeapExact.FreedExactly | project0x03/prj3-malloc/mm.c:169-177 | The same for a live block that is freed. |
| HeapExact.GrownExactly | project0x03/prj3-malloc/mm.c:263-279 | The returned block ends at the new break and starts at a free last block, else at the old break; all other blocks stay. |
| HeapExact.PlacedExactly | project0x03/prj3-malloc/mm.c:320-347 | With at most 16 bytes to spare the whole block is live; else a request of 89 bytes or more gets the last bytes and the rest keeps its address, a smaller one gets the first bytes and the rest keeps its end; all other blocks stay. |
| HeapExact.SpotExactly | project0x03/prj3-malloc/mm.c:139-161 | A smallest free block that is large enough, in the heap as it is; else, if the break plus the larger of the adjusted size and 4096 stays within 20 MB, the block at the extended end. |
| HeapExact.MallocExactly | project0x03/prj3-malloc/mm.c:128-164 | The whole effect of mm_malloc on break, blocks and result. |
| HeapExact.ReallocExactly | project0x03/prj3-malloc/mm.c:195-260 | With room in its own bytes, or in those and a free next block's, the block stays at its address with the break unchanged, and 16 bytes or more left over become a free block; else the result is not that address, and is NULL or the result of mm_malloc with the old block freed. |
| Layout.TagPacked | project0x03/prj3-malloc/mm.c:59-67 | The tag word of a block is what PACK writes, and size and allocation bit are read back from it. |
| Layout.Retag | project0x03/prj3-malloc/mm.c:290-314 | Writing new tags for a run of unlisted blocks gives the layout of the heap with the run replaced. |
| Layout.InsertShape | project0x03/prj3-malloc/mm.c:359-391 | The link writes of insert_node give the layout of the heap with the node in the list. |
| Layout.DeleteShape | project0x03/prj3-malloc/mm.c:399-418 | The link writes of delete_node give the layout of the heap without the node in the list. |
| Layout.ExtendShape | project0x03/prj3-malloc/mm.c:271-274 | The tags and the new epilogue of extend_heap give the layout of the heap with one more block. |
| Layout.InitShape | project0x03/prj3-malloc/mm.c:113-116 | The four words mm_init writes are the layout of the empty heap. |
| Layout.ClientShape | project0x03/prj3-malloc/mdriver.c:637 | A client that writes inside a live payload does not disturb the layout. |
| Mm.Allocator.FindPosition | project0x03/prj3-malloc/mm.c:350-357 | The search loop stops between the last smaller node and the first node not smaller. |
| Mm.Allocator.LinkNode | project0x03/prj3-malloc/mm.c:359-391 | In all four positions the four link words and the list head are set, and no other word or byte. |
| Mm.Allocator.InsertNode | project0x03/prj3-malloc/mm.c:349-393 | The list becomes the list with the node inserted; no live payload byte changes. |
| Mm.Allocator.UnlinkNode | project0x03/prj3-malloc/mm.c:399-418 | In all four positions the neighbours are linked to each other, the head moves when needed, and no other word changes. |
| Mm.Allocator.DeleteNode | project0x03/prj3-malloc/mm.c:395-420 | The list becomes the list without the node; no live payload byte changes. |
| Mm.Allocator.NextBlkp | project0x03/prj3-malloc/mm.c:75 | NEXT_BLKP of a block is the next block of the tiling, and the break after the last. |
| Mm.Allocator.PrevBlkp | project0x03/prj3-malloc/mm.c:76 | PREV_BLKP of a block is the block before it, and the prologue before the first. |
| Mm.Allocator.PrevAlloc | project0x03/prj3-malloc/mm.c:282 | The footer before a block says whether the block before is free; the prologue counts as allocated. |
| Mm.Allocator.NextAlloc | project0x03/prj3-malloc/mm.c:283 | The header after a block says whether the block after is free; the epilogue counts as allocated. |
| Mm.Allocator.CoalesceNext | project0x03/prj3-malloc/mm.c:290-296 | Case 2: both blocks leave the list and come back as one; live payloads stay. |
| Mm.Allocator.TagPrev | project0x03/prj3-malloc/mm.c:302-304 | The footer found through the old header and the header found through the footer before it are the two tags of the merged block; no other word or byte changes. |
| Mm.Allocator.TagBoth | project0x03/prj3-malloc/mm.c:311-313 | The same in case 4, with the footer found through the old header of the next block. |
| Mm.Allocator.CoalescePrev | project0x03/prj3-malloc/mm.c:298-305 | Case 3, and the result is the block before. |
| Mm.Allocator.CoalesceBoth | project0x03/prj3-malloc/mm.c:306-314 | Case 4: three blocks leave the list and come back as one. |
| Mm.Allocator.Coalesce | project0x03/prj3-malloc/mm.c:281-318 | Keeps memory valid, does to the heap what the model says, returns the merged block, changes no live payload byte. |
| Mm.Allocator.PlaceHigh | project0x03/prj3-malloc/mm.c:330-338 | The low part stays free and listed, the high part becomes live and is returned. |
| Mm.Allocator.PlaceLow | project0x03/prj3-malloc/mm.c:339-346 | The low part becomes live, the high part is free and listed. |
| Mm.Allocator.PlaceWhole | project0x03/prj3-malloc/mm.c:326-329 | The whole block becomes live. |
| Mm.Allocator.Place | project0x03/prj3-malloc/mm.c:320-347 | Keeps memory valid, places as the model says, returns the high end if more than 16 bytes are to spare and the size is 100 or more, else the block's own address; changes no live payload byte. |
| Mm.Allocator.ExtendHeap | project0x03/prj3-malloc/mm.c:263-279 | Extends and coalesces if mem_sbrk grants it, else returns NULL with memory, list and break untouched. |
| Mm.Allocator.Init | project0x03/prj3-malloc/mm.c:105-122 | On a reset region: returns 0, and memory represents the initial heap. |
| Mm.Allocator.BestFit | project0x03/prj3-malloc/mm.c:139-153 | The loop with its early exit ends and finds the first listed block that is large enough, or NULL when there is none. |
| Mm.Allocator.Malloc | project0x03/prj3-malloc/mm.c:128-164 | Keeps memory valid and has the effect written out in HeapExact: nothing without room, else a smallest fitting free block, or the extended end of the heap, carved; changes no live payload byte; a NULL result leaves everything untouched. |
| Mm.Allocator.Free | project0x03/prj3-malloc/mm.c:169-177 | Keeps memory valid, joins the block with its free neighbours into one free block and leaves every other block alone; changes no byte of any other live payload. |
| Mm.Allocator.Shrink | project0x03/prj3-malloc/mm.c:203-217 | The shrinking path: the payload that remains and all other live payloads keep their bytes. |
| Mm.Allocator.TryAbsorb | project0x03/prj3-malloc/mm.c:218-246 | The growing path is taken if and only if the block and a free next block together have the adjusted size; the old payload and all others keep their bytes. |
| Mm.Allocator.CurFits | project0x03/prj3-malloc/mm.c:253 | On the moving path the old payload is no longer than the request, so all of it is copied. |
| Mm.Allocator.Move | project0x03/prj3-malloc/mm.c:247-259 | The moving path: the new payload starts with the whole old payload; a NULL result leaves everything untouched. |
| Mm.Allocator.Resize | project0x03/prj3-malloc/mm.c:195-260 | On every path the first min(size, old payload) bytes are at the returned address and no other live payload changes. |
| Mm.Allocator.Realloc | project0x03/prj3-malloc/mm.c:182-261 | The whole function: NULL is mm_malloc, size 0 is mm_free, else the address is kept if and only if the block, or it and a free next block, have the adjusted size, with the effect written out in HeapExact; bytes as for Resize; a NULL result for want of memory leaves everything untouched. |
| HeapRuns.StepInv | project0x03/prj3-malloc/mm.c:128-261 | Every legal call keeps the well-formed heap, the match of live blocks and requests, and the size bounds. |
| HeapRuns.ReachableHeap | project0x03/prj3-malloc/mm.c:105-420 | In every reachable state: the blocks tile the heap; live payloads are 8-aligned, inside and disjoint; each block is within 16 bytes of its adjusted request; the list is the free blocks, sorted, each once. |
| HeapRuns.BestFitSpot | project0x03/prj3-malloc/mm.c:139-161 | The block chosen is a smallest among the free blocks that are large enough; only when there is none is the heap extended, by the larger of the adjusted size and 4096. |
| HeapRuns.MallocNull | project0x03/prj3-malloc/mm.c:130-159 | mm_malloc returns NULL if and only if the size is 0, or no free block reaches the adjusted size and the break plus the larger of that and 4096 passes 20 MB. |
| HeapRuns.ReallocNullWhen | project0x03/prj3-malloc/mm.c:201-251 | mm_realloc to a positive size returns NULL if and only if the block with a free next block is smaller than the adjusted size and there is no room for a new one. |
| HeapRuns.Conservation | project0x03/prj3-malloc/mm.c:263-347 | The sizes of the regular blocks sum to the heap size minus 16; a call adds to the sum the larger of the adjusted size and 4096 when it misses and there is room, else nothing. |
| HeapRuns.BreakMonotone | project0x03/prj3-malloc/memlib.c:58-69 | Over any legal run the break never moves back and never passes the end of the region. |
| HeapRuns.NullUnchanged | project0x03/prj3-malloc/mm.c:156-159 | An allocation or resize that returns NULL leaves heap, list and requests as they were. |
| HeapPairs.CoalescedPairs | project0x03/prj3-malloc/mm.c:281-318 | coalesce removes exactly the free pairs its block was in. |
| HeapPairs.FreedPairs | project0x03/prj3-malloc/mm.c:169-177 | mm_free leaves the number of free pairs as it was. |
| HeapPairs.PlacedPairs | project0x03/prj3-malloc/mm.c:320-347 | place never adds a free pair. |
| HeapPairs.ShrunkPairs | project0x03/prj3-malloc/mm.c:203-217 | A shrink adds one free pair if it splits before a free block, else none. |
| HeapPairs.AbsorbedPairs | project0x03/prj3-malloc/mm.c:222-246 | Growing in place never adds a free pair. |
| HeapPairs.StepPairs | project0x03/prj3-malloc/mm.c:128-261 | A call raises the number of free pairs if and only if it is a shrink that splits right before a free block, and then by one. |
| HeapPairs.PairsBound | project0x03/prj3-malloc/mm.c:203-216 | Over any legal run there are at most as many free pairs as such shrinks. |
| HeapPairs.FullyCoalesced | project0x03/prj3-malloc/mm.c:169-177 | A run of mm_malloc and mm_free alone leaves no two neighbouring free blocks. |
| HeapPairs.PairReachable | project0x03/prj3-malloc/mm.c:205-215 | mm_malloc(24) and a resize to 8 leave two neighbouring free blocks. |
| Walks.ShapeWalkable | project0x03/prj3-malloc/mm.c:71-76 | Walking NEXT_BLKP from the prologue meets every block in order and ends at the epilogue at the break; header equals footer, sizes are multiples of 8 and at least 16, PREV_BLKP inverts NEXT_BLKP. |
| Walks.ShapeThreaded | project0x03/prj3-malloc/mm.c:82-87 | Following next links from the head is finite and without repeats, prev inverts next, both ends are NULL, sizes do not decrease. |
| Walks.IndexAgreement | project0x03/prj3-malloc/mm.c:281-420 | The nodes of the list are exactly the blocks that the header walk finds free. |
| Walks.RunCalls | project0x03/prj3-malloc/mm.c:105-261 | Running the real operations for any legal sequence of calls yields the heap of the run, and in memory the two indexes agree. |
| Ranges.TouchesOrInside | project0x03/prj3-malloc/mdriver.c:412-413 | Two ranges overlap if and only if the test sees it or the old range is strictly inside the new one. |
| Ranges.DisjointAccepted | project0x03/prj3-malloc/mdriver.c:381-433 | An aligned range inside the heap that overlaps no recorded one is accepted. |
| Ranges.JudgeMeans | project0x03/prj3-malloc/mdriver.c:381-433 | Misaligned exactly when the address is not a multiple of 8, outside exactly when it is and the range leaves the heap, overlapping exactly when neither holds and an end of it lies in a recorded range. |
| Ranges.AcceptedOverlap | project0x03/prj3-malloc/mdriver.c:381-433 | A range that add_range accepts overlaps a recorded one if and only if some recorded one lies strictly inside it. |
| Ranges.OverlapAccepted | project0x03/prj3-malloc/mdriver.c:410-420 | 64 bytes at 16 are accepted although 8 bytes at 32 are recorded. |
| Ranges.RangeList.Add | project0x03/prj3-malloc/mdriver.c:381-433 | Gives the verdict of the three checks in order; an accepted range comes first in the list, a rejected one changes nothing. |
| Ranges.RangeList.Clashes | project0x03/prj3-malloc/mdriver.c:410-420 | The walk finds a clash if and only if some recorded range passes the test. |
| Ranges.RangeList.Remove | project0x03/prj3-malloc/mdriver.c:438-455 | Takes the first range starting at the address out of the list, in place, and no other. |
| Ranges.RangeList.Clear | project0x03/prj3-malloc/mdriver.c:460-471 | Frees every record once, in the order of the list, and leaves the list empty. |
| Ranges.WithoutMembers | project0x03/prj3-malloc/mdriver.c:438-455 | With distinct starting addresses, removal removes that range and nothing else. |
| Trace.ReqApart | project0x03/prj3-malloc/mm.c:320-347 | Requested bytes of two live payloads lie at least 8 bytes apart. |
| Trace.Accepted | project0x03/prj3-malloc/mdriver.c:629 | add_range accepts every live payload against the ranges of other live payloads. |
| Trace.AllocSpans | project0x03/prj3-malloc/mdriver.c:615-642 | After an allocation the new range is accepted and the ranges are live payloads again. |
| Trace.ReallocSpans | project0x03/prj3-malloc/mdriver.c:654-659 | The same for a resize, once the old range is removed. |
| Trace.AllocData | project0x03/prj3-malloc/mdriver.c:615-642 | After an allocation and the fill every live payload holds the low byte of its id. |
| Trace.ReallocData | project0x03/prj3-malloc/mdriver.c:644-683 | The same after a resize and the refill. |
| Trace.FreeData | project0x03/prj3-malloc/mdriver.c:685-691 | The same after a free. |
| Trace.ComparedData | project0x03/prj3-malloc/mdriver.c:661-677 | Every byte compared after a resize is the low byte of the id. |
| Trace.PlayOutcome | project0x03/prj3-malloc/mdriver.c:615-691 | The verdict of every operation, from the heap it finds: NULL exactly when there is no room for it, lost data exactly for a low byte of 128 or more, else passed. |
| Trace.PlaySound | project0x03/prj3-malloc/mdriver.c:606-699 | In the trace model every operation before the last one reached passes, and the one it stops at has the verdict its heap calls for: no room for an allocation, no way to resize, or a resize whose id has a low byte of 128 or more. |
| Trace.NeverRejected | project0x03/prj3-malloc/mdriver.c:585-700 | In the trace model a well-formed trace without such ids passes or stops at a NULL; `Driver.EvalValid` carries this to the code. |
| Trace.PassesUnless | project0x03/prj3-malloc/mdriver.c:585-700 | In the trace model a trace with such a resize does not pass, and one without passes or stops at a NULL. |
| Trace.HighByteRejected | project0x03/prj3-malloc/mdriver.c:669-676 | In the trace model a well-formed trace with such a resize never passes. |
| Trace.LostDataReported | project0x03/prj3-malloc/mdriver.c:669-676 | Allocating 24 bytes for id 128 and resizing them to 8 ends with lost data reported at the resize. |
| Driver.Driver.Alloc | project0x03/prj3-malloc/mdriver.c:615-642 | The case gives the verdict of the trace model and keeps heap, tables, ranges and data in step. |
| Driver.Driver.Compare | project0x03/prj3-malloc/mdriver.c:669-677 | The loop succeeds if and only if every byte, read as a signed char, equals the id's low byte. |
| Driver.HighByteMeans | project0x03/prj3-malloc/mdriver.c:671 | A low byte of 128 or more is one that changes when read as a signed char. |
| Driver.Driver.CheckData | project0x03/prj3-malloc/mdriver.c:661-677 | The check reports lost data if and only if the id's low byte is 128 or more. |
| Driver.Driver.Realloc | project0x03/prj3-malloc/mdriver.c:644-683 | As Alloc, for a resize. |
| Driver.Driver.Free | project0x03/prj3-malloc/mdriver.c:685-691 | As Alloc, for a free, which always passes. |
| Driver.Driver.Reset | project0x03/prj3-malloc/mdriver.c:595-604 | The start of a trace: an initial heap, no live ids, no ranges. |
| Driver.Driver.EvalValid | project0x03/prj3-malloc/mdriver.c:585-700 | For every well-formed trace the driver over the allocator gives the verdict of the trace model, at the same operation: it passes, or stops where there is no room or at a resize of an id whose low byte is 128 or more; with such a resize it never passes. Heap region and range list are ready for the next trace. |
| Usage.RoomBound | project0x03/prj3-malloc/mdriver.c:791 | The live requests plus 8 bytes each are at most the heap size minus 16. |
| Usage.OpTotal | project0x03/prj3-malloc/mdriver.c:733-784 | How each operation changes the sum of the live requests. |
| Usage.MeasureBound | project0x03/prj3-malloc/mdriver.c:713-792 | The highest sum over a trace is at most the final heap size minus 16. |
| Driver.Driver.UtilAlloc | project0x03/prj3-malloc/mdriver.c:733-750 | total_size stays the sum of the live requests over an allocation. |
| Driver.Driver.UtilRealloc | project0x03/prj3-malloc/mdriver.c:752-771 | The same over a resize. |
| Driver.Driver.UtilFree | project0x03/prj3-malloc/mdriver.c:773-784 | The same over a free. |
| Driver.Driver.EvalUtil | project0x03/prj3-malloc/mdriver.c:713-792 | The result is the highest sum of live requests divided by the final heap size, and is between 0 and 1; it fails exactly when an allocation or resize returns NULL. |
| Fcyc.KBestIsBest | project0x03/prj3-malloc/fcyc.c:67-88 | The k best hold, sorted, min(n, k) of the samples as a multiset, and every sample left out is no smaller. |
| Fcyc.KBestFirst | project0x03/prj3-malloc/fcyc.c:160 | The first value is a sample and no sample is smaller. |
| Fcyc.Sampler.Init | project0x03/prj3-malloc/fcyc.c:50-62 | Starts with no samples. |
| Fcyc.Sampler.SiftDown | project0x03/prj3-malloc/fcyc.c:81-87 | The swapping loop puts the new value behind everything not above it; values after its start stay. |
| Fcyc.Sampler.AddSample | project0x03/prj3-malloc/fcyc.c:67-88 | The array holds the k best of all samples so far. |
| Fcyc.Sampler.HasConverged | project0x03/prj3-malloc/fcyc.c:93-98 | True if and only if there are kbest samples and the last kept value exceeds the first by at most epsilon times the first. |
| Fcyc.Sampler.Measure | project0x03/prj3-malloc/fcyc.c:129-168 | Returns the least of the samples taken; takes at least one and at most max(1, maxsamples), stops at the first point where it may, and below the limit only when the kbest-th smallest sample exceeds the least by at most epsilon times the least. |
| Rio.Reader.constructor | Project0x02/task_1/csapp.c:823-828 | An initialised reader has the whole stream before it. |
| Rio.Reader.Refill | Project0x02/task_1/csapp.c:795-806 | The refill loop loses no byte; 0 only at the end of the stream, -1 only on a hard error. |
| Rio.Reader.Read | Project0x02/task_1/csapp.c:791-816 | Hands over the next bytes, at most n, and takes exactly those from what is pending. |
| Rio.Reader.ReadN | Project0x02/task_1/csapp.c:835-850 | Hands over the next min(n, remaining) bytes; on a hard error -1, with the bytes already taken in the buffer. |
| Rio.Reader.ReadLine | Project0x02/task_1/csapp.c:857-879 | Hands over the bytes up to the first newline, maxlen - 1 bytes or the end, then a NUL; at the end of the stream 0 with the buffer unchanged. |
| Rio.LineEnds | Project0x02/task_1/csapp.c:862-876 | A line request stops at the first newline, after maxlen - 1 bytes or at the end, and nowhere else. |
| Rio.AnswerMeans | Project0x02/task_1/csapp.c:835-879 | A request for n bytes gets min(n, remaining); a line request gets fewer than maxlen bytes, with a newline at most at the end, and all of maxlen - 1 or all that remain unless it ends in one. |
| Rio.ServeConsecutive | Project0x02/task_1/csapp.c:835-879 | Answers are consecutive bytes of the stream, each determined by the number of bytes before it and its limit. |
| Rio.Session | Project0x02/task_1/csapp.c:791-879 | Over any kernel without hard errors any interleaving of requests gets those answers, and answers and rest make up the stream. |
| Rio.WriteN | Project0x02/task_1/csapp.c:761-778 | Writes all n bytes in order despite short and interrupted writes; on a hard error -1 and a proper prefix. |
| Sio.NumeralRoundTrip | Project0x02/task_1/csapp.c:232-241 | Reading the numeral in base b gives the number back, and there is no leading zero. |
| Sio.NumeralDigits | Project0x02/task_1/csapp.c:237 | Every character of the numeral is a digit of the base: '0' to '9', then 'a' on, with its value below the base. |
| Sio.Ltoa | Project0x02/task_1/csapp.c:232-241 | Writes the numeral of v in base b, made of digits of that base, and a NUL. |
| Sio.Reverse | Project0x02/task_1/csapp.c:220-229 | Reverses the string before the NUL in place and nothing after it. |
| Shell.SplitRender | Project0x01/phase3/myshell.c:305-316 | Splitting gives back the words of a line, whatever runs of spaces stand before, between and after them. |
| Shell.SplitCovers | Project0x01/phase3/myshell.c:305-316 | Every line is its words with such runs of spaces: splitting loses nothing else. |
| Shell.WordsOnly | Project0x01/phase3/myshell.c:308-316 | The words of a line are not empty and hold no space. |
| Shell.ParseRoundTrip | Project0x01/phase3/myshell.c:298-327 | A typed line gives its words, without a last one that starts with '&', which sets the result. |
| Shell.BlankLine | Project0x01/phase3/myshell.c:319-320 | A line of any number of spaces and a newline has no words and the result true. |
| Shell.BackgroundWhen | Project0x01/phase3/myshell.c:319-326 | The result is true if and only if there are no words or the last one starts with '&'. |
| Shell.Split | Project0x01/phase3/myshell.c:305-316 | The loop leaves in argv pointers to the words of the line, each NUL-terminated inside the buffer. |
| Shell.ParseLine | Project0x01/phase3/myshell.c:298-327 | The in-place parser gives the words and the result of the model, and argv ends with NULL. |
| Shell.SaveStep | Project0x01/phase3/myshell.c:330-351 | One more line, on the last MAXHISTORY lines of the collapsed input: no change, one more, or a shift. |
| Shell.History.Save | Project0x01/phase3/myshell.c:330-351 | The array always holds the last min(MAXHISTORY, m) of the m input lines left after dropping each line equal to the one before. |
| Shell.History.Shift | Project0x01/phase3/myshell.c:338-340 | The loop moves every line one place down. |

## Left out

- Mm.Allocator.Malloc: requests for which size + 15 wraps 2^32 are outside its precondition; `Words.AdjHoldsPayload` says what goes wrong there.
- Mm.Allocator.Move: the same sizes are left out.
- Mm.Allocator.Resize: the same sizes are left out.
- Mm.Allocator.Realloc: the same sizes are left out.
- HeapProofs.MallocGood: the same sizes are left out.
- HeapLive.MallocLive: the same sizes are left out.
- Mm.Allocator.Free: NULL and pointers that are not live are outside its precondition, as the C code reads a header there without a check.
- Mm.Allocator.Init: asks for a reset region, as both driver functions provide; its two error returns cannot happen then.
- MemLib.Memory.Sbrk: the region always has the 20 MB of config.h, and the C addition of a pointer and the increment is taken not to overflow.
- Fcyc.Sampler.Measure: times are real numbers rather than doubles; clearing the cache, timer compensation and freeing the array at the end are not modelled.
- Rio.Kernel.Read: the kernel follows a finite list of events, so it cannot interrupt for ever; bytes are characters, and the 64-bit to int conversion of a huge count is not modelled.
- Rio.Reader.ReadLine: the buffer holds at least one byte even for maxlen 0, since the code writes a NUL then.
- Sio.Ltoa: v is not negative and the base is between 2 and 36; the C loop has no meaning for other inputs.
- Shell.Split: lines with MAXARGS words or more are left out, as argv has no room for them and the C code does not check.
- Shell.ParseLine: the line is not empty and has fewer than MAXARGS words; the C code checks neither.
- Shell.History.Save: lines are strings of any length, and the history file is not written.
- Driver.Driver.EvalValid: error messages are reduced to the verdict and the operation; trace files are sequences of operations.
- Driver.Driver.EvalUtil: the ratio is a real number, and a call of app_error is the result `ok == false`; the sum of the requests is an unbounded integer.
- The eval_*_speed and eval_libc_* functions, printing, option parsing and read_trace: timing, text and foreign calls.
- The shell's processes, pipes, signals, job table and recall of history: system calls and state the code does not keep consistent.
- The socket, thread and address wrappers of csapp.c and the network programs: thin calls into libraries.
- The other copies of csapp.c and of the shell: they repeat the code modelled here.
