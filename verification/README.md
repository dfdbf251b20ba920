# dmm: an explicit free-list allocator, modelled in Dafny

This project models `dmm.c`, a heap allocator over one fixed arena. The arena
is divided into blocks. Each block starts with a header (`metadata_t`) that
holds the payload size and two list links. The free blocks form a doubly
linked list, threaded through those headers in ascending address order, with
the global `freelist` pointing at the first one.

- `dmalloc` rounds the request up with `ALIGN` and adds a header. It finds the
  first free block that fits (`search`) and carves the request out of it
  (`allocate_with_split`). When the rest has room for a header, a new free
  block takes the carved block's place in the list.
- `dfree` splices the block back in at its place by address. Then `coalesce`
  merges it with a list neighbour that is also its neighbour in memory, on
  either side.

The model has two modules.

- `Blocks` (`blocks.dfy`) is the free list as a value: a sequence of
  `Block(addr, size)`. It has one specification function per step:
  - `FirstFit` for `search`;
  - `Carve` and `Taken` for `allocate_with_split`;
  - `Place` and `Insert` for the insertion part of `dfree`;
  - `Merge` for `coalesce`.

  Beside them are lemmas saying which arena invariants each step keeps
  (`Layout`: ordered, inside the arena, no overlaps; `Coalesced`: no two list
  neighbours touch in memory) and which bytes each step frees or takes
  (`Covers`).
- `Dmm` (`dmm.dfy`) is the allocator itself, as the class `Allocator`.
  Pointers are arena offsets, with `Null` = -1. The headers are a map
  `hdr` from offset to `Header(size, next, prev)`, and `head` is `freelist`.
  Each method follows its C function statement by statement, except for the
  re-initialisation listed under "Left out". It updates `hdr` and `head` in
  place and is proved against the `Blocks` function for its step. The ghost
  fields `Free` (the free list in list order) and `Allocated` (blocks handed
  out) are the abstract view. `Heap` ties the two views together:
  - the headers thread exactly `Free`, `next` and `prev` included;
  - allocated blocks have null links;
  - every block lies in the arena and no two blocks overlap.

  `Sound()` is `Heap` plus alignment: the header size and every header
  offset and payload size are multiples of the alignment. `Valid()`, the
  invariant between public operations, is `Sound()` plus a coalesced list.

The header size `METADATA_T_ALIGNED`, the alignment of `ALIGN` and
`MAX_HEAP_SIZE` come from `dmm.h`, which is not part of this model. They are
parameters of the constructor, which requires the header size to be a
multiple of the alignment, as the name `METADATA_T_ALIGNED` says it is.

## Model

| member | source | states |
|---|---|---|
| Blocks.FirstFit | dmm.c:84-103 | The first-fit index: -1 exactly when no block's payload holds the request; otherwise that block fits and every block before it in list order is too small. |
| Blocks.Taken | dmm.c:35-80 | The block handed to the caller starts at the target's header, has at least `req - H` payload bytes and ends no later than the target. On a split its size is exactly `req - H` (dmm.c:61), as `TakenNoRefit` states. |
| Dmm.Allocator.Search | dmm.c:84-103 | The walk from `freelist` along `next` returns the first fitting block in list order (`FirstFit`), or Null when the list is empty or nothing fits; it changes nothing. |
| Blocks.Carve | dmm.c:35-80 | The free list after `allocate_with_split`: without a split the list is one entry shorter; on a split it keeps its length and the entry at the target's index is the remainder, which starts where the taken block ends and ends `H` bytes short of the target's end. |
| Blocks.CarveLayout | dmm.c:33-82 | Carving keeps the list ordered, coalesced and inside the arena with no overlaps, the taken block now allocated. The caller gets at least `req - H` payload bytes at the target's address. A split remainder starts where the taken block ends and ends `H` bytes short of the original end. |
| Blocks.CarveCovers | dmm.c:35-63 | The bytes a carve removes from the free list are exactly the taken block's footprint plus, on a split, the last `H` bytes of the original block. |
| Blocks.CarveOrphans | dmm.c:37-38 | On a split, the last byte of the original block was free before the carve. Afterwards it is neither free nor inside any allocated block, the taken one included. |
| Blocks.CarveAligned | dmm.c:33-82 | With an aligned header size and request, carving keeps every free and allocated block's offset and size multiples of the alignment. |
| Dmm.SplitThreads | dmm.c:40-58 | Writing the remainder header with the target's links, and pointing the predecessor's `next` (or the head) and the successor's `prev` at it, threads the list with the remainder in the target's place. |
| Dmm.UnlinkThreads | dmm.c:64-79 | Moving the head or the predecessor's `next` past the target, and the successor's `prev` back to the predecessor, threads the list without the target. |
| Dmm.CarveState | dmm.c:33-82 | The headers and head after either branch of `allocate_with_split` represent `Carve` of the free list, with the taken block allocated, and the result stays coalesced. |
| Dmm.Allocator.AllocateWithSplit | dmm.c:32-82 | The free list becomes `Carve` of the old one and the taken block joins the allocated ones. The target's header holds the taken size and null links, and the invariant, alignment included, is kept. The request must be aligned, as the comment at dmm.c:32 demands. |
| Dmm.Align | dmm.c:116 | `ALIGN` from `dmm.h` (used at dmm.c:116): the result is a multiple of the alignment at or above `n` and less than one quantum above it, that is, the least such multiple. |
| Dmm.Allocator.Dmalloc | dmm.c:105-129 | With request `ALIGN(n) + H`: no fit gives Null with nothing changed. Otherwise the first fitting block is carved and its payload address returned; that block is newly allocated and its recorded size is at least `ALIGN(n)`, hence at least `n`. A returned pointer is a multiple of the alignment. |
| Blocks.TakenNoRefit | dmm.c:95 | The fit test compares the request `ALIGN(n) + H` (dmm.c:116) with a payload size. A block taken on a split has a payload exactly `H` bytes short of that request, so once it is back in the list, and unless a merge enlarges it, it is not the first fit for the same request. |
| Blocks.Place | dmm.c:201-206 | The index where the insertion cursor stops: every entry before it is at or below the address, and the entry at it, if any, is above. |
| Blocks.InsertShape | dmm.c:196-226 | What `Insert` computes: the list one entry longer, the block at index `Place`, the entries before it unchanged and those after it shifted by one. |
| Blocks.PlaceIs | dmm.c:201-206 | The insertion point is the unique index with every entry before it at or below the address and the entry at it, if any, above. |
| Blocks.InsertLayout | dmm.c:195-227 | Splicing an allocated block in at its place keeps the list ordered and every block in the arena without overlaps. The block is now free, the list gains exactly that block, and it is coalesced except on either side of it. |
| Blocks.InsertCovers | dmm.c:195-227 | Insertion frees exactly the footprint of the inserted block. |
| Blocks.InsertAligned | dmm.c:195-227 | Moving an allocated block to the free list keeps every block aligned. |
| Dmm.InsertThreads | dmm.c:196-226 | Pointing the new header at its list neighbours, and them at it (or the head at it), threads the list with the block inserted. |
| Dmm.LinkOnly | dmm.c:196-199 | Into an empty list, the freed block becomes the head with null links, and the headers represent the one-block list. |
| Dmm.LinkBefore | dmm.c:208-215 | Inserting before a block that has a predecessor represents `Insert` of the free list. |
| Dmm.LinkFront | dmm.c:216-221 | Inserting before the head makes the freed block the head and represents `Insert` of the free list. |
| Dmm.LinkBack | dmm.c:222-226 | Appending after the tail represents `Insert` of the free list. |
| Dmm.InsertState | dmm.c:195-227 | Any header update that links the block at its `Place` represents `Insert` of the free list, with the block no longer allocated. |
| Dmm.Allocator.InsertFree | dmm.c:195-227 | The freed header lands at index `Place`, and the free list becomes `Insert` of the old one. The state stays sound, and the list is coalesced except around the new entry. |
| Dmm.HeadNull | dmm.c:88-90 | `freelist` is Null exactly when the free list is empty. |
| Blocks.NeedsMerge | dmm.c:132-148 | With the list coalesced except around the new entry, it is coalesced exactly when neither `SuccAdjacent` (the successor starts where the entry ends) nor `PredAdjacent` (the entry starts where the predecessor ends) holds, so these tests decide whether `coalesce` has anything to merge. |
| Blocks.Merge | dmm.c:150-188 | Coalescing removes one list entry per memory-adjacent list neighbour; `MergeSplice` gives the entry that absorbs them. |
| Blocks.MergeLayout | dmm.c:131-189 | Coalescing around the newly inserted entry keeps the list ordered, in the arena and free of overlaps, and makes it coalesced everywhere. |
| Blocks.MergeCovers | dmm.c:153-188 | Coalescing neither frees nor takes a byte. |
| Blocks.MergeAligned | dmm.c:153-188 | With an aligned header size, a merged block's size, which absorbs a header and a neighbour's payload, stays a multiple of the alignment. |
| Blocks.MergeSplice | dmm.c:150-188 | A merge replaces the run of entries it fuses with one block that spans it from the first entry's header to the last entry's end. |
| Dmm.FuseThreads | dmm.c:153-188 | Giving the absorbing header the fused size and the run's outer `next`, and pointing the next entry's `prev` back at it, threads the merged list. |
| Dmm.MergeNext | dmm.c:153-163 | Case 2 of `coalesce` (successor only) leaves headers that represent `Merge` of the free list, which is coalesced. |
| Dmm.MergePrev | dmm.c:164-175 | Case 3 of `coalesce` (predecessor only) leaves headers that represent `Merge` of the free list, which is coalesced. |
| Dmm.MergeBoth | dmm.c:176-188 | Case 4 of `coalesce` (both sides) leaves headers that represent `Merge` of the free list, which is coalesced. |
| Dmm.Allocator.Coalesce | dmm.c:131-189 | The address tests in `coalesce` detect exactly the memory-adjacent list neighbours. The free list becomes `Merge` of the old one, the full invariant is restored, and with no adjacent neighbour nothing changes. |
| Dmm.Allocator.Dfree | dmm.c:191-230 | The freed block leaves the allocated set; the free list becomes the merge around its insertion point; the free bytes grow by exactly its footprint. |
| Dmm.Allocator.constructor | dmm.c:235-255 | After setup, the arena is `ALIGN(MAX_HEAP_SIZE)` bytes. One free block at offset 0 spans it all but its header, with null links, and it is the whole list; the full invariant, alignment included, holds. |

## Left out

- The `mmap` call and its failure path, with `perror` (dmm.c:243-249): the arena is given to the constructor, which cannot fail.
- `print_freelist`, the `DEBUG` macros and their calls (dmm.c:229, 253, 258-287): diagnostic output only.
- Dmm.Allocator.Dmalloc: when the free list is empty it returns Null, as a failed search does. The source instead calls `dmalloc_init` again and maps a fresh region (dmm.c:107-111), which a single-arena model cannot represent.
- Dmm.Allocator.Dmalloc: the fit test is modelled as written. `search` compares the request including the header, `ALIGN(n) + H` (dmm.c:116), against `block->size`, which excludes it (dmm.c:95). A fitting block therefore needs `H` bytes of slack beyond the request. A block handed out on a split and freed again does not fit the same `dmalloc(n)` unless a merge has enlarged it, so it is not reused for an equal request. `TakenNoRefit` states this; no reuse property is claimed.
- Caller misuse is excluded by preconditions:
  - `dfree` of a pointer that is not the payload of an allocated block (a double free, a foreign pointer);
  - `numbytes == 0` (the assert at dmm.c:113);
  - a request below the header size (the assert at dmm.c:85-86).
- `size_t` wrap-around and the `(int)` casts (dmm.c:35, 38) are not modelled. Sizes are unbounded integers, and `req <= size` holds wherever `allocate_with_split` is called.
- The bytes of payloads are not modelled; only headers are.
- Byte conservation: the split writes the remainder's size as `size - req - H` (dmm.c:38). The remainder therefore ends `H` bytes before the original block did, and those bytes belong to no block from then on. The model follows the code. So the free and allocated footprints do not always add up to the arena, and a byte-conservation property is not proved. `CarveCovers` and `CarveOrphans` state the loss exactly.
