# memory-manager in Dafny

A model of the first-fit arena allocator in `memory_manager.c`, with proofs about it.

`mem_init` obtains one arena of `memory_size` bytes. The allocator records the
occupied byte ranges of the arena as a singly linked list of `MemoryBlock {start,
end, next}` nodes headed by `memory_head`. Each range `[start, end)` excludes its
end, and the list is kept in address order.

- `mem_alloc` does a leftmost first-fit search. It checks the gap before the head,
  then the gap after each block, up to the next block or the arena end, and
  splices a new node in where the request fits.
- `mem_free` unlinks the node whose start equals the handle.
- `mem_resize` frees the block and allocates the new size. On success it copies
  the contents when the block moved. On failure it allocates the old size again.
- `mem_deinit` releases everything.

The project has five modules:

- `Wrappers` (wrappers.dfy) holds `Option`. `None` is a NULL pointer and
  `Some(o)` is a pointer at byte offset `o` of the arena.
- `BlockList` (block_list.dfy) models the block list as a sequence of `Block`s
  in list order. It defines:
  - the ordering invariant;
  - the gaps between blocks;
  - the two list searches, `FirstFit` (the gap search of `mem_alloc`) and
    `FindStart` (the search by start of `mem_free` and `mem_resize`);
  - splicing and unlinking;
  - the lemmas that relate gaps to free byte ranges.
- `Arena` (arena.dfy) models the globals `memory` (as `hasArena`, whether it is
  non-NULL), `memory_size` and the list as one value, `State`. It gives each
  public operation as a function from a state to the next state and the returned
  pointer. It also defines `MoveBytes`, the byte copy of `mem_resize`.
- `ArenaProperties` (arena_properties.dfy) proves what the operations promise:
  - the list stays ordered, disjoint and inside the arena;
  - allocation returns the least free offset and fails only when no range is free;
  - freeing undoes an allocation;
  - resize behaves as free followed by allocation, with its fallback.
- `MemoryManager` (memory_manager.dfy) has the class `Allocator`, which keeps the
  globals as fields and the arena bytes as an `array<bv8>`. Its methods walk the
  list with the loops of the C code. Each method is proved to move the object to
  the state the matching `Arena` function gives, so every lemma of
  `ArenaProperties` applies to the object.

Some behaviours of the code that a reader might not expect:

- `mem_alloc(0)` returns the arena base and creates no block.
- `mem_resize` never grows or shrinks a block in place. It always frees and then
  allocates, so a block can move even when it shrinks.
- After a failed resize, the old size is reserved again by first fit. That can be
  at a lower offset than before, and the bytes are not copied back.
- The only record of occupied ranges is the linked list.

## Model

| member | source | states |
|---|---|---|
| BlockList.FindStart | memory_manager.c:76-84 | When it returns an index, the block there starts at `h` and no earlier block does. When it returns NULL, no block starts at `h`. |
| BlockList.FirstFitFinds | memory_manager.c:41-61 | The gap the search returns holds `size` bytes, and every gap before it is too small. When it returns nothing, every gap, from the front gap to the tail gap, is too small. |
| BlockList.GapIsFree | memory_manager.c:51-55 | In an ordered list, the range at the start of a gap that fits overlaps no block and lies inside the arena. |
| BlockList.FreeRangeInGap | memory_manager.c:49-61 | Every free range of an ordered list lies inside one gap: the one after the blocks that end at or before it. |
| BlockList.FirstFitIsLeast | memory_manager.c:32-61 | The gap first fit finds starts at a free range of `size` bytes, and no lower offset starts one. |
| BlockList.NoFitIsNoFreeRange | memory_manager.c:49-64 | When no gap fits, no range of `size` bytes anywhere in the arena is free. |
| BlockList.FindStartUnique | memory_manager.c:78-81 | In an ordered list, the search by start finds block `i` exactly at position `i`. |
| BlockList.InsertKeepsOrder | memory_manager.c:41-59 | Splicing a block of `size > 0` bytes at the start of a gap that fits keeps the list ordered and inside the arena. It adds one node, at position `i`. |
| BlockList.RemoveKeepsOrder | memory_manager.c:86-89 | Unlinking any node keeps the list ordered and removes exactly one node. |
| BlockList.RemoveInsert | memory_manager.c:86-89 | Unlinking the node just spliced in at `i` gives back the original list. |
| BlockList.InsertThenRemove | memory_manager.c:54-89 | A block spliced at the start of a fitting gap is the one the search by its start finds, and unlinking it gives back the list before. |
| BlockList.FitThenRemove | memory_manager.c:49-89 | The same holds for the gap first fit chooses. |
| BlockList.RemovedRangeIsFree | memory_manager.c:86-91 | Once a node is unlinked, the bytes it covered are free. |
| BlockList.TotalSizeBound | memory_manager.c:32-61 | The occupied bytes of an ordered list whose blocks start at or after `lo` fit between `lo` and the arena end. |
| Arena.MoveBytes | memory_manager.c:126-127 | The `n` bytes at `dst` become the `n` bytes that were at `src`. All other bytes, and the length, are unchanged. |
| ArenaProperties.InitIsValid | memory_manager.c:12-16 | `mem_init(size)` gives an empty, valid list of capacity `size`. Before any `mem_init`, every allocation returns NULL with no change. |
| ArenaProperties.DeinitDisablesAlloc | memory_manager.c:135-145 | After `mem_deinit` the list is empty and the capacity is 0, so every later allocation of a positive size returns NULL with no change. A second `mem_deinit` changes nothing. |
| ArenaProperties.AllocKeepsValid | memory_manager.c:25-65 | Allocation keeps the list ordered, disjoint and inside the arena. |
| ArenaProperties.AllocFailsOnlyWithoutRoom | memory_manager.c:25-64 | Allocation returns NULL exactly when there is no arena, the size exceeds the capacity, or the size is positive and no range of that size is free. NULL leaves the state unchanged. Size 0 returns offset 0 with no block. |
| ArenaProperties.AllocIsLeftmostFirstFit | memory_manager.c:32-61 | A successful allocation returns a free offset, and no lower offset is free. The new list holds the block at that offset and one more node than before, with the same arena and capacity. |
| ArenaProperties.AllocKeepsOtherBlocks | memory_manager.c:32-58 | A successful allocation changes no other block. The blocks before some position `i` and those from `i` on keep their values and their order, and the new block sits between them. |
| ArenaProperties.AllocThenFree | memory_manager.c:25-92 | Freeing the pointer a successful positive allocation returned gives back the exact state before it. So the allocation moved and dropped no other block. |
| ArenaProperties.AllocsDisjoint | memory_manager.c:49-59 | Two successive successful allocations return non-overlapping ranges. |
| ArenaProperties.FreeKeepsValid | memory_manager.c:72-92 | Freeing keeps the list ordered. NULL, or a pointer at which no block starts (an interior offset included), changes nothing. |
| ArenaProperties.FreeRemovesBlock | memory_manager.c:76-91 | Freeing the start of block `i` removes exactly that block and keeps the rest in order. Its bytes become free. |
| ArenaProperties.FreeThenAlloc | memory_manager.c:115-121 | Allocating the size of a block just freed always succeeds. It lands at the old offset or lower, and exactly at the old offset when no lower range is free. |
| ArenaProperties.OccupiedWithinCapacity | memory_manager.c:25-65 | In every valid state, the occupied bytes total at most `memory_size`. |
| ArenaProperties.ResizeTrivialCases | memory_manager.c:103-113 | Size 0 frees and returns NULL. A NULL pointer behaves exactly like `mem_alloc(size)`. A pointer at which no block starts returns NULL with no change. |
| ArenaProperties.ResizeKeepsValid | memory_manager.c:102-129 | Resizing keeps the list ordered, disjoint and inside the arena, in every case. |
| ArenaProperties.ResizeMovesToFirstFit | memory_manager.c:115-128 | On success, the old block is gone and exactly one block of `size` bytes starts at the returned offset. That offset is the least one free once the old block is freed. Freeing it leaves the freed state, and the block count is unchanged. |
| ArenaProperties.ResizeFailureReallocates | memory_manager.c:119-123 | On failure, no range of the new size was free after the free. The old size is allocated again by first fit, which always succeeds, at the old offset or lower. The block count is restored. |
| ArenaProperties.ResizeFailureCanMove | memory_manager.c:119-123 | A concrete case: in a 10-byte arena holding [2, 5) and [5, 10), growing the block at 2 to 6 bytes fails, and the old 3 bytes end up at offset 0. |
| ArenaProperties.ResizeCopyInBounds | memory_manager.c:125-127 | The copied length is at most the new size. When it is positive, the block moved, and both the old and the new range of that length lie inside the arena. |
| MemoryManager.Allocator.constructor | memory_manager.c:3-5 | Before any call the globals are NULL, NULL and 0. This is a valid state. |
| MemoryManager.Allocator.Init | memory_manager.c:12-16 | The object holds a fresh arena of `size` bytes and an empty list, as `Arena.Init` says. |
| MemoryManager.Allocator.Alloc | memory_manager.c:25-65 | The empty-list case, the front-gap test and the walk over the list give the state and pointer that `Arena.Alloc` gives, so `AllocIsLeftmostFirstFit` and the other lemmas hold of it. The list stays valid and the bytes are untouched. |
| MemoryManager.Allocator.Find | memory_manager.c:76-81 | The list walk stops at the first node that starts at `h`, which is what `FindStart` finds. It stops at the list end exactly when no node starts at `h`. |
| MemoryManager.Allocator.Free | memory_manager.c:72-92 | Unlinking gives the state `Arena.Free` gives. The list stays valid. |
| MemoryManager.Allocator.Resize | memory_manager.c:102-129 | The state and pointer are those of `Arena.Resize`. When the block moved, the bytes become `MoveBytes` of the old bytes over the copied length, with both ranges inside the arena. Otherwise the bytes are unchanged. |
| MemoryManager.Allocator.Relocate | memory_manager.c:115-123 | Freeing block `i`, allocating `size` bytes and, on failure, allocating the old size again gives the state and pointer of `Arena.Resize`. |
| MemoryManager.Allocator.Move | memory_manager.c:127 | The arena bytes become `MoveBytes` of the old bytes. |
| MemoryManager.Allocator.Deinit | memory_manager.c:135-145 | Unlinking every node and zeroing `memory_size` gives the state `Arena.Deinit` gives. The arena is replaced by an empty one. |

## Left out

- linked_list.c and linked_list.h: every function is an empty stub or returns a constant, so they are not part of this model.
- Failure of the host `malloc`: it is treated as always succeeding, both for the arena (line 13) and for a new node (lines 29-30). A failed node allocation would return NULL with no change.
- Host `free` of nodes and of the arena is not modelled. Nodes are dropped from the sequence, and `mem_deinit` replaces the array with an empty one.
- The leak on re-initialisation: `mem_init` drops the old list and arena without releasing them. The model simply starts from a fresh state.
- The dangling `memory` pointer after `mem_deinit`: `hasArena` stays true. So `mem_alloc(0)` after `mem_deinit` still returns offset 0, as the code returns the released pointer.
- `mem_init(0)`: the host `malloc(0)` may return NULL, and then the code's `mem_alloc(0)` returns NULL. The model always obtains an arena, so its `mem_alloc(0)` returns offset 0.
- Handles kept across a `mem_init`: in the code, a pointer into an earlier arena never equals a start in the new one. The model identifies a pointer only by its offset, so such a handle must be given as an offset at which no block starts.
- The `memcpy` of `mem_resize` is undefined in C when the old and new ranges overlap. The model copies from a snapshot, as `memmove` would.
- Pointers are byte offsets into the arena. Pointer arithmetic and the `size_t` differences in the gap tests are natural-number arithmetic. Address-space wrap-around and `size_t` overflow of `memory + size` are not modelled.
- A handle that points outside the arena is an offset at which no block starts, which the code also treats as not found.
- Thread safety: the code uses global state without locking, and the model is sequential.
