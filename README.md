# MyMalloc in Dafny

A model of `MyMalloc.c`, a single-threaded first-fit allocator that carves blocks out of a
fixed 10240-byte array `rawData`. Each block is a 20-byte header (`BLOCK_SIZE`) followed by
its data region. The headers form a doubly linked chain in address order, from
`firstBlock` to the break `pBreak`. The allocator offers `my_malloc`, `my_calloc`,
`my_realloc` and `my_free`. Below them sit the break primitives `my_brk`/`my_sbrk`, the
chain operations `findBlock`, `extendBlock`, `splitBlock` and `mergeBlock`, `copyBlock`,
and the helpers `align4`, `getBlock` and `validAddr`.

Pointers are byte offsets into the arena.

- **Layout** (`layout.dfy`):
  - the constants (`MEM_SIZE`, `BLOCK_SIZE`, `BLOCK_SPLIT`) and a block header as a value
    (offset, data size, free flag);
  - the heap as the chain plus the break;
  - the invariant `WellFormed`: the blocks tile `[0, brk)` end to end, every size is a
    multiple of 4, and `brk <= MEM_SIZE`.

  A block's `pre`/`next` are its neighbours in the sequence, and `firstBlock` is NULL
  exactly when the chain is empty.
- **Chain** (`chain.dfy`): first fit, `getBlock`/`validAddr`, growth at the break,
  splitting and merging. Each is a function from the old chain to the new one.
- **Policy** (`policy.dfy`): `my_malloc`, `my_free` and `my_realloc` as functions of the
  heap value, with the lemmas about them. These include:
  - well-formedness is preserved;
  - no two neighbouring free blocks after malloc and free;
  - what malloc returns and when it fails;
  - free keeps every other live block and releases the freed address;
  - the three branches of realloc.
- **MyMalloc** (`allocator.dfy`): class `Allocator`, the allocator as the source runs it.
  - Its fields are the break, the chain, and the arena bytes as an `array<byte>`.
  - One method per C function updates them in place.
  - Each method's `ensures` ties its result and new state to the Policy/Chain functions.
  - Loops (`findBlock`, `copyBlock`, the zeroing in `my_calloc`) are `while` loops with
    invariants.
- **Findings** (`findings.dfy`): the source's defects as written, each next to the
  corrected behaviour that the rest of the model uses.

Where the C code departs from its evident intent, the model follows the intent, and each
such point is a row under "## Findings":
- the `findBlock` guard;
- `my_free`'s merge test;
- the address `my_realloc` frees;
- the `copyBlock` stride;
- the missing NULL tests in `splitBlock`, in `mergeBlock` and in the first-allocation
  path of `my_malloc`;
- `size_t` wrap-around in `align4`, in the request `extendBlock` makes and in `my_calloc`.

`my_malloc` and `my_free` never leave two neighbouring free blocks behind
(`Policy.MallocWellFormed`, `Policy.FreeCoalesced`), but `my_realloc`'s in-place shrink
can (`Policy.ReallocShrinkLeavesNeighbouringFree`). The model follows the code there.

## Model

| member | source | states |
|---|---|---|
| Layout.Align4 | MyMalloc.c:130-136 | the result is a multiple of 4, at least x and less than x + 4, i.e. the smallest multiple of 4 not below x |
| Layout.Align4Aligned | MyMalloc.c:132-133 | a multiple of 4 is returned unchanged |
| Layout.Ordered | MyMalloc.c:9-17 | in a tiled chain every later block starts at or after the end of an earlier one |
| Layout.InArena | MyMalloc.c:5-7 | every block of a well-formed heap ends at or before the break, which is within rawData |
| Layout.DataUnique | MyMalloc.c:160-166 | two blocks of a tiled chain with the same data address (magic pointer) are the same block |
| Chain.FirstFit | MyMalloc.c:56-70 | a found block is free and large enough and no earlier block is; none found means no block fits |
| Chain.GetBlock | MyMalloc.c:143-151 | the block found has its data at the address; none found means no block does |
| Chain.ValidAddr | MyMalloc.c:160-168 | accepted exactly when 0 < a < brk and a is the data address of a block of the chain |
| Chain.SetFree | MyMalloc.c:216 | block i keeps its offset and size and gets the requested free flag; every other block is unchanged |
| Chain.SetFreeWellFormed | MyMalloc.c:216 | changing a free flag keeps the heap well formed |
| Chain.Extend | MyMalloc.c:78-101 | the old blocks are kept, a used block of `size` bytes starts at the old break and the break advances by 20 + size |
| Chain.ExtendWellFormed | MyMalloc.c:78-101 | growth that fits the arena keeps the heap well formed |
| Chain.Split | MyMalloc.c:108-122 | block i keeps its header and flag with `size` bytes; a free block starts right after it and ends where block i ended; all other blocks are kept in order |
| Chain.SplitWellFormed | MyMalloc.c:108-122 | splitting keeps the tiling, sizes aligned and the break |
| Chain.Merge | MyMalloc.c:174-183 | block i now ends where its successor ended, keeps its offset and flag, and the successor leaves the chain, the rest kept |
| Chain.MergeWellFormed | MyMalloc.c:174-183 | the successor starts where block i ends, and merging keeps the heap well formed |
| Chain.MergeUndoesSplit | MyMalloc.c:108-122 | merging the remainder of a split back restores the original chain |
| Policy.Grow | MyMalloc.c:78-101 | extendBlock after the last block: a new used block of s bytes at the break and its data address when 20 + s more bytes fit the arena, otherwise NULL and the heap unchanged |
| Policy.Malloc | MyMalloc.c:203-234 | my_malloc: align the size to 4; on an empty chain grow at the break; otherwise mark the first fit used, split first when its slack reaches BLOCK_SIZE + BLOCK_SPLIT, and return its data address; grow at the break when nothing fits |
| Policy.UseKeepsCoalesced | MyMalloc.c:212-216 | handing out a free block, split or not, creates no two neighbouring free blocks |
| Policy.MallocWellFormed | MyMalloc.c:203-234 | my_malloc keeps the heap well formed and keeps a coalesced chain coalesced |
| Policy.MallocResult | MyMalloc.c:203-234 | NULL exactly when no free block fits and the arena cannot grow, and then nothing changes; otherwise the address is the data of a used block of at least align4(size) bytes inside the arena, different from every block that could not serve the request |
| Policy.MallocReuse | MyMalloc.c:208-217 | reusing the first fit returns its address, keeps the break, and splits exactly when the slack reaches BLOCK_SIZE + BLOCK_SPLIT |
| Policy.MallocKeeps | MyMalloc.c:203-234 | every block other than the one handed out is still in the chain, unchanged |
| Policy.MallocFails | MyMalloc.c:220-230 | a NULL result leaves the heap as it was |
| Policy.MallocElsewhere | MyMalloc.c:208-223 | a block too small for the request is never the one handed out for it |
| Policy.FreeAt | MyMalloc.c:318-327 | my_free of a block that is not the last: mark it free, merge a free successor into it, then merge it into a free predecessor |
| Policy.Free | MyMalloc.c:303-329 | my_free: an invalid address changes nothing; the last block is dropped and the break retracted to its header; any other block is freed by Policy.FreeAt |
| Policy.FreeNext | MyMalloc.c:308-322 | marking block i free and merging a free successor fuses block i with that successor into one free block, the rest kept |
| Policy.FreeWellFormed | MyMalloc.c:303-329 | my_free keeps the heap well formed |
| Policy.FreeShape | MyMalloc.c:318-327 | freeing a non-last block fuses it with whichever neighbours are free into one free block, every other block kept in order |
| Policy.FusedMergeLeft | MyMalloc.c:325-326 | merging into a free predecessor widens the fused range by one block |
| Policy.FusedCoalesced | MyMalloc.c:318-327 | a fusion whose outer neighbours are used keeps a coalesced chain coalesced |
| Policy.FusedKeeps | MyMalloc.c:318-327 | a fusion keeps every block outside the fused range |
| Policy.FusedReleases | MyMalloc.c:318-327 | after a fusion over block i, a block whose data starts where block i's did is free |
| Policy.FreeAtCoalesced | MyMalloc.c:318-327 | freeing a non-last block keeps a coalesced chain coalesced |
| Policy.FreeCoalesced | MyMalloc.c:303-329 | my_free never leaves two neighbouring free blocks behind |
| Policy.FreeReleases | MyMalloc.c:303-329 | after my_free of a valid address the break has not grown and no used block has its data there |
| Policy.FreeAtReleases | MyMalloc.c:318-327 | after freeing a non-last block, a block with its data address is free |
| Policy.FreeAtKeepsLive | MyMalloc.c:318-327 | freeing a non-last block keeps every other used block |
| Policy.FreeKeepsLive | MyMalloc.c:303-329 | my_free keeps every used block with another data address, unchanged |
| Policy.FreeTwice | MyMalloc.c:305-327 | freeing an already free, non-last block of a coalesced chain changes nothing |
| Policy.FreeTail | MyMalloc.c:309-317 | freeing the last block drops it, retracts the break by 20 + its size, and empties the chain exactly when it was also the first block |
| Policy.FreeThenReuse | MyMalloc.c:203-234 | for three used n-byte blocks A, B, C (any n that is a multiple of 4 and fits the arena), freeing B then A fuses them into one free block, and a request of 2n + 20 is served at A's address without moving the break |
| Policy.FreeMiddleStep | MyMalloc.c:318-327 | for any n as above, freeing the middle one of three used n-byte blocks only marks it free |
| Policy.FreeFirstStep | MyMalloc.c:318-327 | for any n as above, freeing the first block before a free n-byte one fuses the two into one free block of 2n + 20 bytes |
| Policy.ReuseFusedStep | MyMalloc.c:208-217 | for any n as above, a free first block of exactly 2n + 20 bytes is handed out in place for that request |
| Policy.CanAbsorb | MyMalloc.c:278 | block k has a free successor and the two together, with the successor's header, hold at least s bytes |
| Policy.Relocate | MyMalloc.c:286-296 | my_malloc of s bytes and, when it succeeds, my_free of the old data address in the heap my_malloc left; NULL leaves the heap unchanged |
| Policy.Realloc | MyMalloc.c:256-301 | my_realloc: NULL behaves as my_malloc; an invalid address gives NULL; a block already holding align4(newSize) bytes stays and is cut by Policy.ShrinkInPlace; a block whose free successor makes up the difference absorbs it first; otherwise Policy.Relocate |
| Policy.ShrinkInPlace | MyMalloc.c:268-274 | the block keeps its offset and flag; its size becomes exactly the request when at least BLOCK_SPLIT bytes would be spare and stays as it was otherwise |
| Policy.ShrinkInPlaceKeeps | MyMalloc.c:268-274 | the blocks before it are kept; a cut inserts one free block from the block's new end to its old end and keeps every later block; no cut leaves the chain unchanged |
| Policy.ReallocWellFormed | MyMalloc.c:256-301 | my_realloc keeps the heap well formed |
| Policy.ReallocInPlace | MyMalloc.c:266-274 | a block that already holds align4(newSize) bytes stays at the same address, cut to the request exactly when at least BLOCK_SPLIT bytes would be spare |
| Policy.ReallocAbsorbs | MyMalloc.c:276-284 | a block whose free successor makes up the difference absorbs it and stays at the same address with at least align4(newSize) bytes |
| Policy.RelocateResult | MyMalloc.c:286-296 | on success the new address is a different used block of at least the request and the old address no longer names a used block; on failure nothing changes |
| Policy.MoveCopies | MyMalloc.c:288-292 | after my_malloc the new block and the old one are distinct, the old one is unchanged and the new one can hold its bytes |
| Policy.ReallocMoves | MyMalloc.c:286-296 | when neither in-place branch applies, my_realloc returns what my_malloc(align4(newSize)) returns and frees the old block in the heap my_malloc left, or changes nothing on NULL |
| Policy.ReallocShrinkLeavesNeighbouringFree | MyMalloc.c:268-273 | an in-place shrink can leave two neighbouring free blocks |
| Policy.DataSize | MyMalloc.c:197 | the size of the block whose data starts at the address |
| MyMalloc.Allocator.constructor | MyMalloc.c:5-20 | an empty chain (firstBlock NULL) with the break at the start of the arena |
| MyMalloc.Allocator.Brk | MyMalloc.c:27-35 | the break is set and 0 returned exactly when the address is within the arena; otherwise -1 and no change |
| MyMalloc.Allocator.Sbrk | MyMalloc.c:43-53 | when the break plus the increment fits, the old break is returned and the break advances by the increment; otherwise the -1 sentinel and no change |
| MyMalloc.Allocator.FindBlock | MyMalloc.c:56-70 | the walk returns the first fit and the last block passed over |
| MyMalloc.Allocator.ExtendBlock | MyMalloc.c:78-101 | on success a new used block of the requested size is linked after the tail at the old break; on failure NULL and no change |
| MyMalloc.Allocator.SplitBlock | MyMalloc.c:108-122 | the chain becomes the split chain, the heap stays well formed |
| MyMalloc.Allocator.MergeBlock | MyMalloc.c:174-183 | the chain becomes the merged chain, the heap stays well formed |
| MyMalloc.Allocator.CopyBlock | MyMalloc.c:190-199 | the first src.size bytes of des's data equal src's bytes before the call; no other byte changes |
| MyMalloc.Allocator.CopyBytes | MyMalloc.c:197-198 | the copy loop: the target range equals the old source range and nothing else changes |
| MyMalloc.Allocator.Malloc | MyMalloc.c:203-234 | the new state and result are those of Policy.Malloc, and a coalesced chain stays coalesced |
| MyMalloc.Allocator.Reuse | MyMalloc.c:212-216 | reusing block k gives Policy.Malloc's state and returns block k's data address |
| MyMalloc.Allocator.Calloc | MyMalloc.c:235-247 | my_malloc(number * size) with its first align4(number * size) bytes zero and no other byte changed; an overflowing product fails |
| MyMalloc.Allocator.Zero | MyMalloc.c:242-244 | the zeroing loop clears exactly the range |
| MyMalloc.Allocator.Free | MyMalloc.c:303-329 | the new state is Policy.Free's |
| MyMalloc.Allocator.FreeAndMerge | MyMalloc.c:318-327 | the chain becomes Policy.FreeAt's |
| MyMalloc.Allocator.Realloc | MyMalloc.c:256-301 | the new state and result are Policy.Realloc's; when the block moves, the old block's bytes come first in the new one and no byte outside that range changes; otherwise no byte changes |
| MyMalloc.Allocator.Resize | MyMalloc.c:266-284 | the in-place branches give Policy.Realloc's state and return the same address |
| MyMalloc.Allocator.Move | MyMalloc.c:286-296 | the moving branch gives Policy.Realloc's state and result; the old address's data size, as my_realloc's caller sees it, is copied to a different address and no other byte changes |
| MyMalloc.Allocator.Relocate | MyMalloc.c:286-296 | my_malloc, the copy and my_free of the old block give Policy.Realloc's state and result; block k's bytes are copied to a different address and no other byte changes |
| MyMalloc.Allocator.Copy | MyMalloc.c:288-292 | my_malloc then copyBlock: Policy.Malloc's state and result, with the old block's bytes at the start of the new one and no other byte changed |
| Findings.FindBlockAsWritten | MyMalloc.c:61-70 | as written the walk returns a block of the chain whatever the request (always the first) |
| Findings.FindBlockAsWrittenIgnoresFit | MyMalloc.c:64 | as written, a first block that cannot serve the request is handed out and differs from the first fit |
| Findings.FindBlockAsWrittenExample | MyMalloc.c:64 | a used 8-byte block is returned for an 8-byte request |
| Findings.MergeFaults | MyMalloc.c:180-182 | mergeBlock as written writes `tt->pre` through NULL exactly when the block merged away is the last one |
| Findings.FreeAtAsWritten | MyMalloc.c:318-327 | as written, my_free faults in mergeBlock exactly when the successor of the freed block is used and is the last block; otherwise the chain loses at most two blocks |
| Findings.FreeAsWrittenFaults | MyMalloc.c:180-182 | freeing the first of two used blocks faults as written |
| Findings.FreeAsWrittenSwallowsLive | MyMalloc.c:321-322 | as written, freeing a block whose predecessor is used or absent, before a used block that is not the last one, merges that used block away: the chain is one shorter, the freed block ends where the used one ended, and the used block is gone |
| Findings.FreeAsWrittenExample | MyMalloc.c:321-322 | freeing the first of three used blocks fuses it with the second as written, while the corrected free only marks it free |
| Findings.FreeIntoFreeTail | MyMalloc.c:180-182 | from three used blocks, free(48) then free(76) leave a free last block; free(20) then merges into it, where mergeBlock as written faults, while the corrected free gives one well-formed free block |
| Findings.AbsorbIntoFreeTail | MyMalloc.c:278-280 | a used 8-byte block before a free 8-byte last block: realloc(20, 16) takes the absorbing branch, where mergeBlock as written faults; the corrected realloc returns the same address with one used 36-byte block |
| Findings.RelocateAsWritten | MyMalloc.c:288-296 | returns what my_malloc returns |
| Findings.HeaderAddrValid | MyMalloc.c:294 | a header address passes validAddr exactly when the previous block has size 0 |
| Findings.RelocateAsWrittenLeaks | MyMalloc.c:294 | as written the old block stays used after a move; the corrected step frees it |
| Findings.CopyWritesAsWritten | MyMalloc.c:194-198 | copyBlock as written writes byte j of the data exactly when it lies in the word at byte 16m for some m with 4m below the size |
| Findings.CopyAsWrittenExample | MyMalloc.c:194-198 | for 8 bytes, byte 16 is written and byte 4 is not |
| Findings.CopyAsWrittenMisses | MyMalloc.c:194-198 | for any size above 4, bytes 4 to 7 are skipped and a word at or past the end is written |
| Findings.Align4AsWritten | MyMalloc.c:130-136 | the 32-bit result is a multiple of 4 |
| Findings.Align4AsWrittenWraps | MyMalloc.c:135 | 0xFFFFFFFF rounds to 0 in 32 bits; the corrected align4 exceeds the arena and malloc fails |
| Findings.CallocRequestAsWritten | MyMalloc.c:239 | the size_t product is at most SIZE_MAX |
| Findings.CallocAsWrittenWraps | MyMalloc.c:239-242 | 0x10000 * 0x10000 wraps to 0 and my_malloc(0) succeeds |
| Findings.FirstGrowFaults | MyMalloc.c:227-230 | the first-allocation path as written dereferences NULL exactly when the chain is empty and extendBlock cannot fit the aligned request |
| Findings.FirstGrowFaultsExample | MyMalloc.c:227-230 | a first request of MEM_SIZE bytes reaches the NULL dereference; the corrected malloc returns NULL with nothing changed |
| Findings.ExtendRequestAsWritten | MyMalloc.c:83 | the 32-bit `BLOCK_SIZE + size` is at most SIZE_MAX and equals the true sum when that fits |
| Findings.ExtendAsWrittenWraps | MyMalloc.c:83 | for an aligned size from 0xFFFFFFEC up, the request to my_sbrk wraps below BLOCK_SIZE, while the corrected my_malloc returns NULL with nothing changed |
| Findings.ExtendAsWrittenWrapsExample | MyMalloc.c:83 | my_malloc(0xFFFFFFEC) on a fresh arena asks my_sbrk for 0 bytes as written; the corrected my_malloc fails |
| Findings.SplitFaults | MyMalloc.c:117 | splitBlock as written writes `b->next->pre` through NULL exactly when it splits the last block |
| Findings.ShrinkSplitsLastBlock | MyMalloc.c:117 | shrinking the only block splits the last block, which faults as written; the corrected split leaves a well-formed chain |

## Left out

- The header bytes are not stored in the arena array. A block's offset, size and flag
  live in the chain; `mem` holds the data bytes. Writes through a data pointer therefore
  cannot corrupt a header, and the `pre`/`next`/`magicPtr` fields are implied by the
  order of the chain.
- Chain.ValidAddr: the magic-pointer test of `validAddr` reads whatever lies 20 bytes
  before the address. The model accepts an address exactly when it is the data address
  of a block of the chain, the case where that test is meaningful. An arbitrary address
  whose bytes happen to look like a header is not modelled. In particular `mergeBlock`
  never clears the header of the block it absorbs, so its magic pointer still matches.
  In the source, `validAddr` then accepts the data address of a block that was merged
  away, and a second `my_free` of it reruns MyMalloc.c:307-326 on the stale `pre`/`next`
  fields; that can merge a live successor away. The model treats that second free as a
  no-op.
- MyMalloc.Allocator.CopyBlock: the copy is bytewise over `src->size` bytes rather than in
  4-byte words. The sizes are multiples of 4, so this is the same data.
- `size_t` arithmetic is unbounded in the model. Three expressions wrap in the source:
  `align4` of a size within 3 of 0xFFFFFFFF, the product in `my_calloc`, and
  `BLOCK_SIZE + size` in `extendBlock` for a size from 0xFFFFFFEC up. The model computes
  the true value and fails the request instead (see "## Findings").
- MyMalloc.Allocator.Sbrk: the test `pBreak + increment <= rawData + MEM_SIZE` is taken
  on unbounded integers. In C the sum of the break and an increment near SIZE_MAX lies
  outside the array and on a 32-bit address space wraps, so such a request could pass the
  test and move the break backwards. Whether it does depends on where `rawData` is
  placed in memory, which the model does not know.
- Policy.ReallocWellFormed: `my_realloc` is not proved to keep a coalesced chain
  coalesced, because it does not (Policy.ReallocShrinkLeavesNeighbouringFree).
- Policy.FreeTwice: a second free is proved a no-op only for a block that is not the last
  one, in a chain with no two neighbouring free blocks. A free last block does arise: from
  three used 8-byte blocks, free(48) then free(76) hands the tail back but leaves its free
  predecessor as the last block (Findings.FreeIntoFreeTail). A second free of a free last
  block hands it back to the arena, which the model follows.
- Thread safety and reentrancy are outside the design and not modelled.

## Findings

| source | as written | input that shows it | evidently intended | confidence | as-written member | corrected member |
|---|---|---|---|---|---|---|
| MyMalloc.c:64 | `while(!b && ...)` stops at once for any non-NULL `firstBlock`, so findBlock returns the first block whatever its state | a chain with one used 8-byte block and a request of 8 | walk to the first free block with size >= the request | not executed | Findings.FindBlockAsWrittenIgnoresFit | Chain.FirstFit |
| MyMalloc.c:321 | my_free merges the successor when it is NOT free | blocks (0, 8 used), (28, 8 used), (56, 8 used), break 84; free(20) | merge the successor when it is free | not executed | Findings.FreeAsWrittenSwallowsLive | Policy.FreeKeepsLive |
| MyMalloc.c:294 | my_realloc passes the header `b` to my_free, which validAddr rejects, so the old block leaks | one used 4-byte block at 0, break 24; realloc(20, 8) | free `b->data` | not executed | Findings.RelocateAsWrittenLeaks | Policy.RelocateResult |
| MyMalloc.c:194-198 | `size_t*` indexed with a byte stride copies every fourth word and writes past the size | a block of 8 bytes: byte 16 written, byte 4 not | copy `src->size` bytes | not executed | Findings.CopyAsWrittenMisses | MyMalloc.Allocator.CopyBlock |
| MyMalloc.c:135 | `((x >> 2) + 1) << 2` wraps in 32 bits | my_malloc(0xFFFFFFFF) gets size 0 | fail the request | not executed | Findings.Align4AsWrittenWraps | Policy.MallocResult |
| MyMalloc.c:239 | `number*size` wraps in `size_t` | my_calloc(0x10000, 0x10000) allocates 0 bytes | fail on overflow | not executed | Findings.CallocAsWrittenWraps | MyMalloc.Allocator.Calloc |
| MyMalloc.c:228-229 | `b->pre = NULL` is written before `b` is tested for NULL | a first my_malloc(10240) on a fresh arena | return NULL when growth fails | not executed | Findings.FirstGrowFaultsExample | Policy.MallocFails |
| MyMalloc.c:117 | splitBlock writes `b->next->pre` with no NULL test | one used 1024-byte block, break 1044; realloc(20, 4) | relink only an existing successor | not executed | Findings.ShrinkSplitsLastBlock | Chain.SplitWellFormed |
| MyMalloc.c:180-182 | mergeBlock writes `tt->pre` with no NULL test, so merging into the last block writes through NULL; the corrected my_free reaches it when the freed block's successor is a free last block, and so does my_realloc's absorbing branch (MyMalloc.c:278-280) when the absorbed block is last (Findings.AbsorbIntoFreeTail) | blocks (0, 8 used), (28, 8 used), (56, 8 used), break 84; free(48), free(76), free(20) | relink only an existing successor | not executed | Findings.FreeIntoFreeTail | Chain.MergeWellFormed |
| MyMalloc.c:83 | `BLOCK_SIZE + size` wraps in `size_t`, so my_sbrk is asked for fewer than 20 bytes and a block claiming the full size is handed out at the break | my_malloc(0xFFFFFFEC) on a fresh arena | fail the request | not executed | Findings.ExtendAsWrittenWraps | Policy.MallocResult |
