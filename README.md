# A verified model of a segregated-fits allocator

This project models `src/my_alloc.c`, a `malloc`/`free` replacement built on `sbrk`:

- **Heap layout.** The heap is a run of blocks from the break found at start-up up to `heap_end`. Every block starts with a two-word header:
  - a size word, whose bit 0 says the block is allocated;
  - a link word, whose bit 0 says the block ends its free list.
- **Buckets.** Free blocks are kept in 60 singly linked lists (`size_class_arr`). A block is filed by the highest set bit of its size.
- **`my_alloc`:**
  - sets the heap up on the first call;
  - coalesces the whole heap when it holds at least 50 blocks of which at least one in eight is free;
  - takes the first fitting block of the request's bucket, or splits the head of the first non-empty higher bucket;
  - failing both, grows the heap by one block.
- **`my_free`:** pushes the block back on its bucket.

The model is in six modules:

- **`HeaderCodec`** (`codec.dfy`): the header words and their flag bits, as functions on 64-bit words. It also holds the request-size rounding and the payload/header pointer conversions.
- **`SizeClass`** (`size_class.dfy`): the bucket index. The scan of `get_size_class_index` is modelled as written (`ScanClassIndex`) and proved to compute the highest set bit (`SizeClassIndex`).
- **`BlockLayout`** (`layout.dfy`): the heap seen as a sequence of `(size, allocated)` blocks. `Coalesce` is one pass of `coalesce_heap` as a function on that sequence, with its properties.
- **`HeapModel`** (`heap.dfy`): the memory as a map from address to header, and the invariants:
  - the blocks tile `[base, heap_end)` exactly;
  - every bucket is a well-formed list of distinct free blocks of its class.

  Each routine's header writes are proved to preserve these invariants.
- **`CoalesceWalk`** (`walk.dfy`): where the walk of `coalesce_heap` stands after each block, and why each kind of iteration keeps that true.
- **`Allocator`** (`allocator.dfy`): the allocator as a class.
  - Its fields are the globals: heap base, heap end, the bucket array (an `array`), the two counters, and the memory.
  - Every routine is a method that updates them.
  - Ghost fields `blocks` and `lists` hold the abstract heap and the abstract buckets. `Valid()` ties them to the memory.
  - `Live()` maps each allocated block to its size. `my_alloc` and `my_free` are specified against it.
  - `heap_init` does not reset the two counters. The ghost fields `staleTotal` and `staleFree` record what the counters held when it ran, so `Valid()` can state each counter exactly.

Two properties carry the main promises.

- **`my_alloc`** returns:
  - a 16-aligned payload address whose block was not allocated before;
  - a block holding at least `size + 16` bytes;
  - a block that overlaps no other allocated block.

  The other allocations keep their addresses and sizes.
- **`my_free`** removes exactly that block from `Live()`.

All routines preserve the layout and bucket invariants.

## Model

| member | source | states |
|---|---|---|
| HeaderCodec.GetBlockSize | src/my_alloc.c:40-43 | the size bits are a multiple of 16 that differs from the size word only in its four flag bits |
| HeaderCodec.GetNextBlockPtr | src/my_alloc.c:53-56 | the link address is a multiple of 16 that differs from the link word only in its four flag bits |
| HeaderCodec.SetBlockAllocated | src/my_alloc.c:63-66 | the block reads as allocated, its size is unchanged, only bit 0 of the size word moves, the link word is untouched |
| HeaderCodec.SetBlockFree | src/my_alloc.c:68-71 | the block reads as free, its size is unchanged, only bit 0 of the size word moves, the link word is untouched |
| HeaderCodec.SetBlockListEnd | src/my_alloc.c:73-76 | the block reads as a list end, its link address is unchanged, the size word is untouched |
| HeaderCodec.UnsetBlockListEnd | src/my_alloc.c:78-81 | the block no longer reads as a list end, its link address is unchanged, the size word is untouched |
| HeaderCodec.SetBlockSize | src/my_alloc.c:83-86 | the size read back is the size bits of the argument; the four flag bits, the allocated flag and the link word are kept |
| HeaderCodec.SetNextBlockPtr | src/my_alloc.c:88-91 | the link read back is the address bits of the argument; the four flag bits, the list-end flag and the size word are kept |
| HeaderCodec.BlockSizeRoundTrip | src/my_alloc.c:83-86 | writing an aligned size and reading it back gives that size |
| HeaderCodec.NextBlockPtrRoundTrip | src/my_alloc.c:88-91 | writing an aligned address in the link word and reading it back gives that address |
| HeaderCodec.SetOwnSizeIsIdentity | src/my_alloc.c:83-86 | re-setting a header's own size leaves the header unchanged |
| HeaderCodec.GetAlignedSize | src/my_alloc.c:102-112 | for requests up to 2^64 - 32, the result is the smallest multiple of 16 that is at least request + 16, and equals request + 16 exactly when that is aligned |
| HeaderCodec.AlignedSizeWraps | src/my_alloc.c:102-112 | the size_t additions wrap: the largest request maps to 16, and 2^64 - 17 maps to 0 |
| HeaderCodec.PayloadRoundTrip | src/my_alloc.c:115-124 | get_block_ptr undoes get_return_ptr, and get_return_ptr undoes get_block_ptr, so my_free finds the block my_alloc handed out |
| HeaderCodec.ListSuccessor | src/my_alloc.c:151-155 | NULL exactly when the list-end flag is set, otherwise the link address |
| HeaderCodec.PushLinkAsWritten | src/my_alloc.c:175-189 | the header insert_block leaves, as written (link copied from the old head, flag bits of the old link word kept); the size word is unchanged |
| HeaderCodec.PushLinkAsWrittenKeepsStaleEnd | src/my_alloc.c:182-188 | as written, the pushed block ends its list when the bucket was empty or when its link word already carried a list-end flag |
| HeaderCodec.StaleEndTruncatesBucket | src/my_alloc.c:182-188 | a former list tail pushed on a non-empty bucket still reads as a list end |
| HeaderCodec.PushLink | src/my_alloc.c:175-189 | the corrected push: a list end exactly when the bucket was empty, otherwise a link to the old head; the size word is unchanged |
| SizeClass.ClassScanFindsHighestBit | src/my_alloc.c:131-137 | from any iteration on, the scan ends on the highest set bit still ahead of it, or keeps its last find when none is left |
| SizeClass.ScanComputesSizeClass | src/my_alloc.c:126-140 | get_size_class_index as written returns the position of the highest set bit of size / 8 |
| SizeClass.SizeClassBounds | src/my_alloc.c:13 | a size of class r lies in [2^(r+3), 2^(r+4)); sizes below 16 are in class 0; no class exceeds 60 |
| SizeClass.SizeClassInRange | src/my_alloc.c:21 | the class index is below SIZE_CLASS_COUNT exactly when the size is below 2^63 |
| SizeClass.SizeClassMonotone | src/my_alloc.c:126-140 | a larger size never has a smaller class |
| SizeClass.HigherClassIsLarger | src/my_alloc.c:266-274 | every block of a strictly higher bucket is strictly larger than the request, so get_block can take any one of them |
| BlockLayout.CoalescePreservesTotalSize | src/my_alloc.c:296-316 | a coalescing pass neither creates nor loses a byte of the heap |
| BlockLayout.CoalesceLeavesNoAdjacentFree | src/my_alloc.c:281-285 | after a pass, no two adjacent blocks are both free |
| BlockLayout.CoalesceCountsMerges | src/my_alloc.c:313 | the pass removes exactly one block per adjacent pair of free blocks |
| BlockLayout.CoalescePreservesLiveBlocks | src/my_alloc.c:296-316 | allocated blocks keep their offsets and sizes, and no free block becomes allocated |
| BlockLayout.CoalesceLast | src/my_alloc.c:296-316 | the pass never lengthens the heap, and the last block keeps its allocated flag |
| BlockLayout.FlagStep | src/my_alloc.c:300-315 | one more block visited: an allocated block clears the run and the unlisted_block flag; a free block lengthens the run by one and sets the flag when the run was already started, otherwise keeps it |
| BlockLayout.UnlistedFlagMeansMerged | src/my_alloc.c:294-316 | the unlisted_block flag is set at the end of the walk exactly when the heap ends in a run of at least two free blocks |
| BlockLayout.LoneTrailingFreeBlockLeftOut | src/my_alloc.c:318-320 | for the heap [allocated 32, free 48] the flag is clear although the pass ends on a free block, the only block of its run |
| BlockLayout.WalkAdvance | src/my_alloc.c:296-299 | one more iteration of the walk absorbs the next original block into the coalesced prefix |
| HeapModel.BlockHasClass | src/my_alloc.c:3-5 | every block of a tiled heap is 16-aligned, holds at least a header, lies below heap_end and has a class below 60 |
| HeapModel.LiveDisjoint | src/my_alloc.c:370-397 | two allocated blocks of a tiled heap do not overlap |
| HeapModel.LiveAvoidsOthers | src/my_alloc.c:370-397 | an allocated block overlaps no other allocated block |
| HeapModel.InsertKeepsHeap | src/my_alloc.c:175-189 | pushing a block on its bucket keeps the tiling and the buckets; the block joins the listed set and the count |
| HeapModel.RemoveKeepsHeap | src/my_alloc.c:147-170 | unlinking node i keeps the tiling and the buckets, and the node's successor is the one the list names |
| HeapModel.SplitKeepsHeap | src/my_alloc.c:197-219 | carving a free unlisted block in two keeps the tiling and the buckets |
| HeapModel.MergeKeepsHeap | src/my_alloc.c:227-234 | fusing two adjacent free unlisted blocks keeps the tiling, the buckets and the allocated blocks |
| HeapModel.AppendKeepsHeap | src/my_alloc.c:326-343 | a block written at heap_end extends the tiling, is free and unlisted, and allocates nothing |
| HeapModel.AllocateKeepsHeap | src/my_alloc.c:394 | marking an unlisted block allocated keeps the invariants and adds exactly that block to the allocated map |
| HeapModel.AllocatedIsUnlisted | src/my_alloc.c:399-406 | an allocated block is in no bucket, so my_free may push it |
| CoalesceWalk.VisitedCurrent | src/my_alloc.c:296-299 | before heap_end the walk stands on an untouched original block, and the next block starts where it ends |
| CoalesceWalk.AppendAdvance | src/my_alloc.c:300-311 | an iteration at a block that does not join the previous one keeps the walk state; the block becomes pending exactly when free |
| CoalesceWalk.MergeAdvance | src/my_alloc.c:313-315 | merging into the pending block keeps the walk state and uses up one adjacent free pair |
| Allocator.FirstFit | src/my_alloc.c:251-264 | the index of the first node that fits: every earlier node is too small, and the node at that index, if any, fits |
| Allocator.FirstNonEmpty | src/my_alloc.c:266-269 | every bucket between d and the result is empty, and the result, if below 60, is not |
| Allocator.Allocator.constructor | src/my_alloc.c:23-38 | the static initial state: NULL heap base, empty heap, all buckets NULL, both counters 0, invariants hold |
| Allocator.Allocator.InsertBlock | src/my_alloc.c:175-189 | the block is marked free and becomes the head of bucket c with the old list behind it; the counter goes up by one; it leaves the allocated map |
| Allocator.Allocator.RemoveBlock | src/my_alloc.c:147-170 | node i leaves bucket c and the others keep their order; the head moves on only when i is 0; the counter goes down by one; no allocation changes |
| Allocator.Allocator.SplitBlock | src/my_alloc.c:197-219 | with less than 24 spare bytes nothing changes; otherwise the block keeps req bytes and the rest becomes a new block pushed on its bucket, only the two headers change, and both counters go up by one |
| Allocator.Allocator.SplitOff | src/my_alloc.c:206-218 | the splitting branch: the heap gains the block at b + req with the rest of the bytes, filed in the bucket of its size |
| Allocator.Allocator.CarveBlock | src/my_alloc.c:206-213 | the two size writes: the heap gains a block at b + req, free in effect and unlisted, and no allocation changes |
| Allocator.Allocator.MergeBlocks | src/my_alloc.c:227-234 | the lower block absorbs the upper one: the layout fuses the two entries, the total count drops by one, the lists and the allocations are unchanged |
| Allocator.Allocator.FindFit | src/my_alloc.c:251-264 | reports found exactly when the bucket holds a fitting node, and then stops at the first one, with its predecessor |
| Allocator.Allocator.FindNonEmpty | src/my_alloc.c:266-269 | returns the first non-empty bucket from d on, and that bucket's head |
| Allocator.Allocator.GetBlock | src/my_alloc.c:240-279 | NULL exactly when the bucket of req is empty, or has no fit and no higher bucket is non-empty, and then nothing changes; the first fit k is unlinked from its bucket (only its own and its predecessor's link words change, the free count drops by one, the heap keeps its blocks); otherwise the head of the first non-empty higher bucket is unlinked and, with at least 24 spare bytes, cut to exactly req bytes with the rest filed as a new free block (both counters as in split_block); the block returned is free, unlisted and large enough |
| Allocator.Allocator.TakeNode | src/my_alloc.c:252-255 | node k of bucket c leaves the bucket and only the link words of it and its predecessor change; the free count drops by one; the block is free, unlisted and still large enough |
| Allocator.Allocator.TakeFromHigher | src/my_alloc.c:266-278 | NULL with nothing changed when every bucket above c is empty; otherwise the head of the first non-empty one, unlinked and split as split_block does |
| Allocator.Allocator.TakeHead | src/my_alloc.c:268-274 | the head of bucket e is unlinked; with less than 24 spare bytes only its link word changes, otherwise it keeps exactly req bytes and the rest becomes a new free block at b + req filed at the head of its bucket; the free count is back where it was and the total count goes up by one |
| Allocator.HeadTakenBySteps | src/my_alloc.c:270-272 | remove_block of the head followed by split_block gives the state get_block promises for the higher-bucket path |
| Allocator.Allocator.ClearBuckets | src/my_alloc.c:287-289 | every entry of size_class_arr is NULL |
| Allocator.Allocator.EmptyAllBuckets | src/my_alloc.c:287-291 | no block is listed and the free count is zero; the heap is unchanged |
| Allocator.Allocator.FileRun | src/my_alloc.c:301-303 | the pending free block joins its bucket, so every visited free block is listed; the layout and the allocations are unchanged |
| Allocator.Allocator.MergeRun | src/my_alloc.c:313-315 | the free block after the pending one is absorbed into it; the layout takes one more coalescing step |
| Allocator.Allocator.CloseStep | src/my_alloc.c:300-307 | an allocated block ends the pending run: the run is filed, the run length and the unlisted_block flag are reset, and the walk state moves one block on |
| Allocator.Allocator.StartStep | src/my_alloc.c:308-310 | a free block after an allocated one becomes prev_block, starts a run of length one with the flag kept, and the walk state moves one block on |
| Allocator.Allocator.MergeStep | src/my_alloc.c:313-315 | a free block after the pending one is merged into it, the flag is set, the walk state moves one block on, and the total count drops by the one free pair used up |
| Allocator.Allocator.FileLastRun | src/my_alloc.c:318-320 | as written: the pending block is filed only when the flag is set, so every free block is listed except a last block that is the only free block of its run |
| Allocator.Allocator.FilePendingRun | src/my_alloc.c:318-320 | the intended end of the pass: the pending block at the end of the walk, if any, is filed, so every free block is listed |
| Allocator.Allocator.WalkHeap | src/my_alloc.c:293-316 | the loop leaves the heap coalesced; the block count drops by the number of adjacent free pairs; unlisted_block ends set exactly as UnlistedFlag of the original blocks and prev_block is set exactly when they end free; the allocations are unchanged |
| Allocator.Allocator.CoalesceHeap | src/my_alloc.c:285-321 | the new layout is Coalesce of the old; the total count drops by the free pairs merged; the buckets hold every free block except the last block when the old heap ended in exactly one free block, and the free count is their number; no allocation changes |
| Allocator.Allocator.AllocNewBlock | src/my_alloc.c:326-343 | succeeds exactly when sbrk grants the bytes and the heap stays below 2^63; the new free unlisted block of that size sits at the old heap end; heap_end and the total count go up |
| Allocator.Allocator.AppendBlock | src/my_alloc.c:336-342 | the granted branch: heap_end moves up by size and the heap gains a free, unlisted block of that size at the old end |
| Allocator.Allocator.HeapInit | src/my_alloc.c:348-365 | succeeds exactly when sbrk(0) does; then the heap is empty at the break and every bucket is NULL; on failure the base becomes (void *) -1 and nothing else changes |
| Allocator.Allocator.ResetHeap | src/my_alloc.c:356-364 | the heap is empty at the break, with no allocation, no listed block and every bucket NULL |
| Allocator.Allocator.MarkAllocated | src/my_alloc.c:394 | the block becomes allocated with its size unchanged and joins the allocated map |
| Allocator.Allocator.PrepareHeap | src/my_alloc.c:374-382 | fails only when the first heap_init fails, and a first call that succeeds leaves an empty heap at the break with every bucket NULL; on an initialised heap, under the 50-block and one-in-eight condition the heap is coalesced as coalesce_heap promises, and otherwise memory, blocks, buckets and counters are unchanged; no allocation changes |
| Allocator.Allocator.TakeBlock | src/my_alloc.c:384-394 | an aligned block of at least req bytes that was not allocated becomes allocated; without one, no allocation changes and sbrk refused |
| Allocator.Allocator.ServeRequest | src/my_alloc.c:384-396 | the part of my_alloc after the set-up: an aligned payload of a block not allocated before, holding at least size + 16 bytes and overlapping no other allocated block; NULL only when sbrk refuses, with no allocation changed |
| Allocator.Allocator.MyAlloc | src/my_alloc.c:370-397 | the result is an aligned payload of a block not allocated before, holding at least size + 16 bytes and overlapping no other allocated block; NULL changes no allocation and, for requests up to 2^63 - 32, happens only when the first heap_init or the sbrk call fails |
| Allocator.Allocator.MyFree | src/my_alloc.c:399-406 | exactly that block leaves the allocated map and becomes the head of the bucket of its size; the free count goes up by one |

## Left out

- The system break is not modelled as a call to `sbrk`:
  - `heap_init` takes what `sbrk(0)` returned as the parameter `brk` (None for a failure).
  - `alloc_new_block` takes the answer of `sbrk(size)` as the parameter `grant`.
  - The break is assumed to be 16-aligned and moved by no one else.
  - A break that would pass 2^63 is refused like a failed `sbrk`.
- Memory never written reads as a zero header, and payload bytes are not modelled at all.
- `heap_size` is written but never read, so it is not modelled.
- `INI_HEAP_SIZE` is never used, so it is not modelled.
- The two counters are unbounded: `++`/`--` on `size_t` do not wrap in the model.
  - The shift in the coalescing condition does wrap modulo 2^64, as in the source.
- After a failed `heap_init`, later calls carry on from address 0 as the source does. Writes at low addresses are not treated as faults.
- Allocator.Allocator.MyFree requires a payload address of a live allocation. The source does not check this: a double free, a foreign pointer or `my_free(NULL)` is undefined there.
- `get_size_class_index` is modelled as written by `SizeClass.ScanClassIndex`. The routines use `SizeClassIndex`, which is proved equal to it.
- Some routines are split into several methods so that each proof stays small. The pieces are:
  - `get_block`: FindFit, TakeNode, FindNonEmpty, TakeFromHigher, TakeHead;
  - `split_block`: SplitOff, CarveBlock;
  - `coalesce_heap`: EmptyAllBuckets, WalkHeap, the three Step methods, FileRun, MergeRun, FileLastRun (FilePendingRun is the corrected end of the pass, which FileLastRun runs only when the flag is set);
  - `alloc_new_block`: AppendBlock;
  - `heap_init`: ResetHeap;
  - `my_alloc`: PrepareHeap, ServeRequest, TakeBlock, MarkAllocated.

  Their order of header writes follows the source, but intermediate states between two writes inside one routine are not exposed.
- `get_next_block_ptr_seq` (`src/my_alloc.c:96-99`) is written inline as `cur + size`.
- The class pushes with the corrected `HeaderCodec.PushLink`, which clears a list-end flag left in the link word from an earlier list. `insert_block` as written (`HeaderCodec.PushLinkAsWritten`) keeps that flag. The source's bucket then ends at the pushed block, and the blocks behind it stay free but drop out of the bucket (first row of Findings). The as-written push is modelled and its effect proved only at header level. Every bucket contract on the lines that follow describes the corrected program.
- Allocator.Allocator.InsertBlock: the new bucket `[b] + old bucket` holds only when b carries no stale list-end flag.
- Allocator.Allocator.SplitBlock: the remainder's bucket gains it in front of the old list only when the remainder header carries no stale flag.
- Allocator.Allocator.SplitOff: the same for the remainder pushed here.
- Allocator.Allocator.FileRun: "every visited free block is listed" holds only when the filed block carries no stale flag.
- Allocator.Allocator.CloseStep: the walk state lists every filed run only under the corrected push.
- Allocator.Allocator.WalkHeap: the same for the whole loop.
- Allocator.Allocator.FileLastRun: the block filed when the flag is set is pushed by the corrected push.
- Allocator.Allocator.FilePendingRun: likewise.
- Allocator.Allocator.CoalesceHeap: the listed set and the free count are those of the corrected push; in the source a stale flag can also cut blocks that were filed earlier in the pass out of their bucket while the free count still includes them.
- Allocator.Allocator.PrepareHeap: inherits the CoalesceHeap listing.
- Allocator.Allocator.GetBlock: the remainder of a split is pushed by the corrected push.
- Allocator.Allocator.TakeFromHigher: likewise.
- Allocator.Allocator.TakeHead: likewise.
- Allocator.Allocator.MyFree: the freed block is pushed by the corrected push.
- HeapModel.InsertKeepsHeap: proved for the corrected push only.

## Findings

| source | as written | input that shows it | evidently intended | confidence | as-written member | corrected member |
|---|---|---|---|---|---|---|
| src/my_alloc.c:182-188 | insert_block sets the list-end flag when the bucket is empty and never clears it otherwise | allocate A, X, B, Y of one class, free B, then A: the bucket is A then B, and B carries the list-end flag. The next coalesce_heap empties the buckets without touching link words, files A (bucket empty, flag set), then pushes B on top: B still reads as the list end, so the bucket is [B] and A is out of every bucket while free_block_count is 2 | the pushed block ends its list exactly when the bucket was empty | high (proved on the model; not executed) | HeaderCodec.StaleEndTruncatesBucket | HeaderCodec.PushLink |
| src/my_alloc.c:318-320 | after the walk, prev_block is filed only when unlisted_block is 1, that is, only when the last run of free blocks merged (modelled as written by Allocator.Allocator.FileLastRun) | a heap that ends in [allocated 32, free 48]: the trailing free block is pending but not filed, so it stays out of every bucket until a later coalesce_heap walks past it with another block behind it | file prev_block whenever it is not NULL | high (proved on the model; not executed) | BlockLayout.LoneTrailingFreeBlockLeftOut | Allocator.Allocator.FilePendingRun |
| src/my_alloc.c:102-112 | get_aligned_size adds in size_t without a bound, and my_alloc uses the result unchecked | size 2^64 - 1 gives a 16-byte block; size 2^63 gives an aligned size with bit 63 set, whose class index 60 reads past size_class_arr | refuse (return NULL for) a request whose aligned size has no bucket | high (proved on the model; not executed) | HeaderCodec.AlignedSizeWraps | Allocator.Allocator.MyAlloc |
