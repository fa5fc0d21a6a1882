# Scrollback ring storage of vte-ng, modelled in Dafny

This project models the storage core behind the terminal's scrollback
history, `src/ring.c` and `src/ring.h`. It has five parts, each with the
properties its C code promises or relies on:

- **Arena** (`VtePool`) — `pool.dfy`, module `Pool`. A process-wide bump
  allocator. Its blocks are released together when the last ring goes
  (`_ring_created` / `_ring_destroyed`).
  - Blocks are byte counts plus a cursor. An allocation is a `Grant`: a block
    index, an offset and a size.
  - A ghost list of grants shows that no two allocations overlap.
- **Cell-buffer cache** (`VteCells`, `free_cells[32]`) — `cells.dfy`, module
  `Cells`.
  - A request for `len` cells gets rank `g_bit_storage (MAX (len, 80))` and
    capacity `2^rank - 1`. `Bits.BitLength` is `g_bit_storage`.
  - Released buffers wait on one stack per rank. Growing a buffer copies its
    whole old capacity.
- **Rows** (`VteRowData`) — `rows.dfy`, module `Rows`. A row is a cell buffer,
  a length and a soft-wrap flag. Insert, append, remove, fill and shrink
  change the buffer's array in place. Each is proved against a function on
  the row's contents.
- **Chunks** (`VteRingChunk`) — `chunks.dfy`, module `Chunks`.
  - A writable chunk has 64 row slots addressed by
    `(position - offset) & mask`, computed in `guint` arithmetic.
  - Compact chunks, once released, wait in a global pool of at most ten.
- **Ring** — `ring.dfy`, module `Rings`. The chunked `VteRing` runs from `tail`
  to `head`, linked both ways, with a cached `cursor`. The model covers:
  - initialisation and tear-down;
  - the cursor walk of `_vte_ring_find_chunk`;
  - `_vte_ring_index`;
  - the chain invariant that `_vte_ring_validate` checks.

`flat_ring.dfy` (module `FlatRing`) models the macros of `src/ring.h`. They
work on an older flat record with `delta`, `length`, `max`, a one-entry
cache and an array indexed by `position % max`. That record lacks the
`head`, `tail` and `cursor` fields `ring.c` uses, so the two are modelled
apart. Inside `Rings`, "the ring contains `p`" means
`tail.start <= p < head.end`.

The shared C state is kept in objects that are passed explicitly:
- `Pool.Arena` holds `current_pool` and `ring_count`;
- `Cells.CellCache` holds `free_cells`;
- `Chunks.CompactPool` holds `free_chunk_compact` and
  `num_free_chunk_compact`.

Byte sizes that depend on the C ABI come in as a `Pool.Layout` parameter:
the pointer width, `sizeof (VteCell)` and the offset of a compact chunk's
data.

Some behaviour of the code worth knowing before reading the model:
- A compact chunk is a `malloc`ed block, not an arena allocation
  (src/ring.c:356).
- `_vte_row_data_remove` with `col >= len` drops the last cell
  (src/ring.c:262-266).
- Two defects are under "## Findings". The model runs the corrected
  behaviour and keeps the code as written beside it:
  - `Rings.Ring.Fini` is the corrected tear-down. It reads each chunk's
    `prev_chunk` before releasing the chunk, through `Rings.LoadPrev`, which
    may only read a chunk that has not gone back to the system allocator.
    The loop as written at src/ring.c:433-434 is carried only by the trace
    function `Rings.FiniWalkAsWritten` and the lemmas about it.
  - `Rings.Ring.Fini` ends with `Cells.CellCache.RingDestroyed`, which empties
    the cell cache along with the arena. The code as written at
    src/ring.c:102-111 is carried only by
    `Cells.CellCache.RingDestroyedAsWritten`.

## Model

| member | source | states |
|---|---|---|
| Pool.AllocStep | src/ring.c:48-73 | a new block is opened exactly when there is none or the current one has fewer than `size` bytes left, sized `MAX (VTE_POOL_BYTES, size + header)`; the allocation sits at the old cursor of the top block, the cursor and bytes left move by `size`, older blocks are untouched |
| Pool.Arena.Alloc | src/ring.c:48-73 | the arena's blocks and the returned address are those of `AllocStep`, the new grant is recorded, and the invariant that every grant lies in the used part of its block and no two overlap is kept |
| Pool.AllocKeepsGrantsApart | src/ring.c:48-73 | the bytes handed out by one allocation lie within the block's used part and overlap none handed out before |
| Pool.SuccessiveAllocsDisjoint | src/ring.c:48-73 | two allocations in a row never overlap, whether or not the second opens a new block |
| Pool.Arena.constructor | src/ring.c:46 | the arena starts with no blocks, no allocations and no live rings |
| Pool.Arena.FreeAll | src/ring.c:75-86 | after the loop no block remains and no allocation is live; the ring count is untouched |
| Pool.Arena.RingCreated | src/ring.c:95-100 | the ring count goes up by one and nothing else changes |
| Pool.Arena.RingDestroyed | src/ring.c:102-111 | the count goes down by one; when it reaches zero every block is released, otherwise the blocks stay |
| Bits.BitLength | src/ring.c:145 | `g_bit_storage`: the number of bits of `n`, at least 1; `Bits.BitLengthBounds` proves `2^(r-1) <= n < 2^r` |
| Cells.Capacity | src/ring.c:155 | `(1 << rank) - 1` cells; `Cells.Rank` proves it is the least capacity covering the request |
| Cells.Rank | src/ring.c:145 | the rank is the least size class whose capacity `2^r - 1` covers `MAX (len, 80)` |
| Cells.RankFits | src/ring.c:145-147 | `g_assert (rank < 32)` holds exactly for requests below 2^31 cells |
| Cells.RankOf100 | src/ring.c:145-155 | 100 cells get rank 7 and capacity 127 |
| Cells.CellBuffer.constructor | src/ring.c:155-161 | a carved buffer is stamped with its rank and capacity `2^rank - 1` |
| Cells.PushFree | src/ring.c:167-174 | releasing puts the buffer at the head of its rank's list and changes no other list |
| Cells.PopFree | src/ring.c:149-153 | reuse drops the head of the rank's list and changes no other list |
| Cells.PushThenPop | src/ring.c:149-174 | the lists are stacks: the buffer released last is reused first, and popping it restores the lists |
| Cells.PopFreeOk | src/ring.c:149-153 | popping keeps every list well formed and removes exactly its head from the free set |
| Cells.PushFreeOk | src/ring.c:167-174 | pushing a buffer not yet free keeps the lists well formed and adds exactly that buffer |
| Cells.CopyCells | src/ring.c:185 | the `memcpy` copies every cell of the old buffer to the front of the new one |
| Cells.CellCache.constructor | src/ring.c:130 | the cache starts with 32 empty lists |
| Cells.CellCache.Alloc | src/ring.c:141-165 | the buffer has rank `Rank(len)` and room for `len`; it is the old head of the list when there was one, otherwise a fresh buffer carved by the arena's `AllocStep` for header plus capacity; it is live and not free |
| Cells.CellCache.Reuse | src/ring.c:149-153 | the reused buffer is the list's old head, of the requested rank, and no longer free |
| Cells.CellCache.Carve | src/ring.c:154-162 | a fresh buffer of the rank comes from one new arena allocation of its full size; the free lists are unchanged |
| Cells.CellCache.Free | src/ring.c:167-174 | the buffer joins the free set at the head of its rank's list |
| Cells.CellCache.Realloc | src/ring.c:176-193 | a buffer with room is returned as it is, with the cache and the arena untouched; otherwise the result has the rank for `len` and a higher rank than the old one, holds the old buffer's whole capacity at its front, and the old buffer is on its free list; the new buffer is the head of its list, or, when that list is empty, one the arena carves with `AllocStep` and records as a new grant and a newly issued buffer (`AllocatedFrom`); the ring count is unchanged |
| Cells.CellCache.RingDestroyedAsWritten | src/ring.c:102-111 | as written: when the last ring goes the blocks are freed but the free lists are kept, so every buffer on them lies in a released allocation |
| Cells.CellCache.RingDestroyed | src/ring.c:102-111 | corrected: the cache is emptied with the arena, so every buffer it knows of still lies in a live allocation; while other rings remain, the free lists, the issued buffers and the arena's blocks and grants are all kept |
| Cells.OneRowReleased | src/ring.c:141-174 | one ring allocating and releasing 100 cells leaves a rank-7 buffer at the head of its list |
| Cells.LastRingLeavesDanglingBuffer | src/ring.c:102-111 | as written: once that ring is destroyed, the next request for 100 cells would get that buffer, whose allocation is gone |
| Rows.Inserted | src/ring.c:237-249 | the contents with `x` at `col`, cells before `col` kept, cells from `col` on one place later |
| Rows.Removed | src/ring.c:258-267 | the cell at `col` gone when `col` is inside the row, the last cell gone otherwise, nothing gone from an empty row |
| Rows.Filled | src/ring.c:269-281 | the row padded with `x` to `n` cells, or unchanged when already that long |
| Rows.Shrunk | src/ring.c:283-287 | the row cut to at most `m` cells, a prefix of the old one |
| Rows.AppendIsInsertAtEnd | src/ring.c:251-256 | appending is inserting at the end |
| Rows.RemoveUndoesInsert | src/ring.c:237-267 | removing at `col` what was inserted there gives the row back |
| Rows.FillIdempotent | src/ring.c:269-281 | filling twice to the same width is filling once |
| Rows.FillEmpty | src/ring.c:269-281 | filling an empty row gives `n` copies of the cell |
| Rows.ShrinkIdempotent | src/ring.c:283-287 | shrinking twice is shrinking once and never lengthens |
| Rows.ShiftIn | src/ring.c:244-247 | the backward shift loop plus the store leaves the array's prefix equal to `Inserted` of the old prefix |
| Rows.PadWith | src/ring.c:276-277 | the fill loop leaves the prefix equal to `Filled` of the old cells |
| Rows.RowData.constructor | src/ring.c:312 | a row in zeroed memory has no buffer, length 0 and no soft wrap |
| Rows.RowData.Init | src/ring.c:214-220 | length 0, flag cleared, buffer kept |
| Rows.RowData.Fini | src/ring.c:222-228 | the buffer, if any, is pushed on its free list and the row drops it; the length is left |
| Rows.RowData.Ensure | src/ring.c:230-235 | a row shorter than `n` gets room for `n` cells with its contents kept; through `_vte_cells_realloc`, a buffer that already has room is kept and the cache and arena are untouched; a grown row gets a buffer of rank `Rank(n)`: the head of that free list, or, when the list is empty, a buffer the arena carves for it (src/ring.c:154-162), recorded as issued and granted; the old buffer goes on its own list; the ring count is unchanged; a row of `n` cells or more changes nothing |
| Rows.RowData.Insert | src/ring.c:237-249 | contents become `Inserted(old, col, x)`; the buffer and the cache are untouched when the buffer has room, otherwise the buffer is replaced as in `Ensure`, reused or carved by the arena, and the old one goes on its free list |
| Rows.RowData.InsertInPlace | src/ring.c:244-248 | once the buffer has room, the shift and the store make the contents `Inserted(old, col, x)` and the length grows by one; the buffer is kept |
| Rows.RowData.Append | src/ring.c:251-256 | contents become old contents plus `x`; the buffer and the cache are untouched when the buffer has room, otherwise the buffer is replaced as in `Ensure`, reused or carved by the arena, and the old one goes on its free list |
| Rows.RowData.Remove | src/ring.c:258-267 | contents become `Removed(old, col)`, buffer kept |
| Rows.RowData.Fill | src/ring.c:269-281 | contents become `Filled(old, x, n)`; a long enough row, the cache and the arena are untouched; a shorter row whose buffer has room keeps it and leaves the cache alone; otherwise the buffer is replaced as in `Ensure`, reused or carved by the arena, and the old one goes on its free list |
| Rows.RowData.Shrink | src/ring.c:283-287 | contents become `Shrunk(old, m)`, buffer kept |
| Chunks.Slot | src/ring.c:465 | the slot `(position - offset) & mask` in `guint` arithmetic never exceeds the mask |
| Chunks.WritableSlot | src/ring.c:310-311 | with mask 63 the slot is the distance from `offset` modulo 64 |
| Chunks.WritableSlotsDistinct | src/ring.c:465 | 64 consecutive positions use 64 different slots of a writable chunk |
| Chunks.Chunk.Reset | src/ring.c:295-299 | range, links, offset, mask and row array are zeroed |
| Chunks.Chunk.InitWritable | src/ring.c:304-313 | an empty writable chunk at offset 0 with mask 63 and 64 fresh, distinct, empty rows |
| Chunks.NewRows | src/ring.c:312 | the `g_malloc0` array holds `n` distinct fresh rows, each empty |
| Chunks.Chunk.FiniWritable | src/ring.c:315-326 | every row loses its buffer, the buffers held by the rows are exactly those added to the free set, and the row array is gone |
| Chunks.CompactPool.constructor | src/ring.c:343-344 | the pool of released compact chunks starts empty |
| Chunks.CompactPool.NewCompact | src/ring.c:346-366 | the pool's head is reused when there is one, otherwise a fresh chunk of the standard data size; either way the chunk is empty, compact, unlinked, with its cursor at the end of its data, and offset, mask and row array zeroed; only the popped chunk is modified, so the rest of the pool is unchanged |
| Chunks.CompactPool.FreeCompact | src/ring.c:368-382 | the chunk is pushed on the pool while it holds fewer than ten, otherwise the pool is unchanged (the chunk is freed); the chunk counts as dropped exactly when the pool was full |
| Rings.ChainedOrdered | src/ring.c:401-407 | in a contiguous chain a later chunk starts no earlier than an earlier one ends |
| Rings.ChainedCover | src/ring.c:401-407 | every position between the tail's start and the head's end lies in some chunk |
| Rings.ChainedRange | src/ring.c:401-407 | a chain holds exactly the positions from its first start to its last end |
| Rings.ChainedCoverUnique | src/ring.c:401-407 | no position lies in two chunks |
| Rings.ChainedRowCount | src/ring.c:399-407 | the rows of the chunks add up to head end minus tail start |
| Rings.FiniWalkAsWritten | src/ring.c:433-434 | the as-written walk has two accesses per compact chunk |
| Rings.AsWrittenReadsAfterRelease | src/ring.c:433-434 | as written, every release is followed at once by a read of the same chunk's `prev_chunk` |
| Rings.AsWrittenDrops | src/ring.c:368-382 | the walk frees (rather than pools) some chunk exactly when the chunks outnumber the room left in the pool |
| Rings.AsWrittenUseAfterFree | src/ring.c:433-434 | as written, tear-down touches a freed chunk exactly when the chunks outnumber the room left in the pool |
| Rings.FiniWalk | src/ring.c:433-434 | corrected walk: two accesses per chunk, `prev_chunk` read before the release |
| Rings.FiniWalkWithin | src/ring.c:433-434 | the corrected walk touches only the ring's compact chunks |
| Rings.FiniWalkSafe | src/ring.c:433-434 | the corrected walk never touches a chunk it has freed |
| Rings.FiniWalkPrepend | src/ring.c:433-434 | walking one more, older chunk appends its read and release, with the pool count reached by then |
| Rings.CountAfterRelease | src/ring.c:374-381 | one `_vte_ring_chunk_free_compact` adds one to the count while it is below ten and leaves it otherwise, so it never passes ten |
| Rings.CountAfter | src/ring.c:368-382 | the pool count after `m` releases never exceeds ten when it started within ten |
| Rings.CountAfterStep | src/ring.c:368-382 | one more release moves the count as one call of `_vte_ring_chunk_free_compact` does |
| Rings.Ring.Contains | src/ring.c:444 | the `g_assert` of `_vte_ring_find_chunk`: `tail.start <= position < head.end`; `ContainsIffHeld` proves it means some chunk holds the position |
| Rings.Ring.ContainsIffHeld | src/ring.c:444 | the ring contains a position exactly when one of its chunks holds it |
| Rings.Ring.LengthIsRowCount | src/ring.c:399 | head end minus tail start is the number of rows the chunks hold, and at most `max` |
| Rings.Ring.Init | src/ring.c:413-426 | `max` is `MAX (max_rows, 2)`; tail, cursor and head are one fresh empty writable chunk; the ring invariant holds; the ring count goes up by one |
| Rings.Ring.Linked | src/ring.c:391-408 | the conditions `_vte_ring_validate` asserts: `head.end - tail.start <= max`, `start <= end` in each chunk, and each chunk starting at its predecessor's end; it also holds what that check leaves unchecked: the forward links, no chunk twice, compact chunks behind the head, and the head's writable shape |
| Rings.Ring.Step | src/ring.c:401-407 | neighbouring chunks are linked both ways and meet without a gap |
| Rings.Ring.CompactChain | src/ring.c:433-434 | the chunks behind the head are distinct compact chunks linked back to one another, and the head links back to the newest of them |
| Rings.Ring.SpansChained | src/ring.c:401-407 | the ring invariant makes the chunks' ranges a contiguous chain |
| Rings.Ring.Walk | src/ring.c:446-449 | the backward then forward walk from the cursor stops at the one chunk holding the position |
| Rings.Ring.FindChunk | src/ring.c:441-452 | the cursor is moved to the chunk holding the position, which is the only such chunk, and returned; the ring invariant holds |
| Rings.Ring.MoveCursor | src/ring.c:446-451 | the cursor points at the chunk found and the ring invariant holds |
| Rings.Ring.Index | src/ring.c:454-466 | positions from the head's start go to the head without moving the cursor; older ones to the chunk `FindChunk` finds; the slot is `(position - offset) & mask` and lies in the chunk's row array for the head |
| Rings.Ring.Fini | src/ring.c:428-439 | corrected tear-down: every compact chunk goes to the pool or is freed, newest first, each read only while it is still live, and the accesses made are `FiniWalk`, which has no use after free; the pool count grows by the chunks it has room for, and the pool is the newest of them, oldest first, on top of what it held (`PushedNewest`); the head's rows give up their buffers and the array is released; the ring count drops by one, the last ring also empties the cache and the arena; otherwise the arena's blocks and grants and the issued buffers are kept, so a row of another live ring that was valid, and whose buffer was not the head's, stays valid |
| Rings.FiniChunks | src/ring.c:428-439 | the same, for the ring's compact chunks and its head |
| Rings.ReleaseWritable | src/ring.c:436-438 | the head's row buffers join the free set and every head row drops its buffer, then the ring count drops by one, with the cache and arena emptied for the last ring; otherwise the arena's blocks and grants and the issued buffers are kept, and the rows of other live rings stay valid; the pool is not touched |
| Rings.FreeCompactChain | src/ring.c:433-434 | corrected loop: each turn reads `prev_chunk` through `LoadPrev` (which refuses a dropped chunk) and then releases the chunk; the accesses, recorded where they happen, are `FiniWalk` of the chain, which has no use after free; every chunk is released, the pool count is as `CountAfter` says, and the pool holds the kept chunks, oldest first, on top of its old contents (`PushedNewest`) |
| Rings.ReleaseStep | src/ring.c:433-434 | one turn of the loop: the predecessor read first, then the release; the walk, the pool count, the released set and the pool contents advance by one chunk |
| Rings.LoadPrev | src/ring.c:433 | reading `chunk->prev_chunk` is allowed only while the chunk has not been handed back to the system allocator, and returns the link |
| Rings.ReleaseNewest | src/ring.c:434 | the release half of one turn: the chunk goes to the pool, the walk records whether the pool kept it, and the trace becomes `FiniWalk` of one more chunk; a kept chunk goes in front of the pool |
| Rings.PushedOneMore | src/ring.c:378-380 | pushing the next newer chunk of the chain in front keeps the pool the newest pushed chunks on top of its old contents |
| Rings.PushedNewestIsSuffix | src/ring.c:378-380 | after the walk the pool is the newest `pushed` chunks of the chain followed by exactly what it held before, so the old contents stay, below the new ones |
| Rings.FiniWalkKeeps | src/ring.c:368-382 | the walk marks a release as kept exactly for the newest chunks, as many as the pool had room for |
| Rings.PooledExactlyWhenKept | src/ring.c:368-382 | after the walk, a chunk of the chain is in the pool exactly when the walk records its release as kept |
| Rings.WalkDoneSafe | src/ring.c:433-434 | once the loop reaches the oldest chunk its trace is the whole walk, which has no use after free |
| FlatRing.CRem | src/ring.h:65 | the C remainder is smaller than the divisor in size, differs from the dividend by a multiple of the divisor, and has the dividend's sign |
| FlatRing.CRemZeroIff | src/ring.h:65 | C's remainder by a positive `max` is zero exactly when the Euclidean one is |
| FlatRing.CRemNonNegative | src/ring.h:65 | for a non-negative position and positive `max` it is the ordinary remainder |
| FlatRing.Delta | src/ring.h:46 | the record's `delta`; `ContainsIffBetween` states it |
| FlatRing.Length | src/ring.h:47 | the record's `length`; `ContainsIffBetween` states it |
| FlatRing.Next | src/ring.h:48 | `delta + length`; `ContainsIffBetween` proves it is `Delta + Length` |
| FlatRing.Max | src/ring.h:49 | the record's `max`; `ContainsIffBetween` states it |
| FlatRing.Contains | src/ring.h:43-45 | `delta <= position < delta + length`; `ContainsIffBetween` and `ContainsEnds` state what it holds |
| FlatRing.IsCached | src/ring.h:50 | whether `v` is the cached item; `SetCache` proves exactly the item set last is cached |
| FlatRing.GetCachedData | src/ring.h:51 | the cached data; `SetCache` proves it is the data set last |
| FlatRing.ContainsIffBetween | src/ring.h:43-49 | `_vte_ring_contains` holds exactly for `delta <= p < _vte_ring_next`, which is `delta + length`; the accessors return the fields |
| FlatRing.ContainsEnds | src/ring.h:43-48 | a non-empty ring holds `delta` and `next - 1` and neither `delta - 1` nor `next` |
| FlatRing.SetCache | src/ring.h:50-52 | afterwards exactly item `v` is cached with data `d`; bounds, `max` and rows are unchanged |
| FlatRing.SetCacheTwice | src/ring.h:52 | a second `set_cache` overrides the first |
| FlatRing.Slot | src/ring.h:65 | the index `position % max` with C's remainder; `SlotCases`, `SlotInRange`, `SlotPeriodic` and `StoredRowsApart` state its properties |
| FlatRing.SlotCases | src/ring.h:65 | for a non-negative position the slot is the ordinary remainder, and it is 0 exactly when `max` divides the position |
| FlatRing.Index | src/ring.h:64-65 | for a non-negative position and an array of `max` rows, the row at `position mod max`; for a negative position not divisible by `max`, nothing, because C reads before the array; for a multiple of `max`, the first row |
| FlatRing.SlotInRange | src/ring.h:64-65 | for a non-negative position the slot is in `[0, max)`, so an array of `max` rows always yields a row |
| FlatRing.SlotPeriodic | src/ring.h:64-65 | positions `max` apart share a slot |
| FlatRing.StoredRowsApart | src/ring.h:43-65 | while `length <= max` two different stored positions use different slots, for any `delta`, negative positions included |
| FlatRing.MultiplesApart | src/ring.h:65 | two different multiples of `max` are at least `max` apart, which keeps the remainders of a window of fewer than `max` positions apart |

## Left out

- Compiled-out code: the bodies of `_vte_ring_resize`, `_vte_ring_shrink`, `_vte_ring_insert_internal` and `_vte_ring_remove` sit under `#if 0`. `_vte_ring_insert_internal` returns no value, so `_vte_ring_insert` and `_vte_ring_append` have undefined results and are not modelled.
- Row migration into compact chunks, eviction of old rows, and packing rows into a compact chunk's data area: no live code does this.
- `_vte_cells_for_cell_array`, `_vte_cell_array_realloc` and `_vte_cell_array_free` only convert between a cell pointer and its buffer header. Rows hold the buffer object directly, so these wrappers are folded into `Rows.RowData.Ensure` and `Rows.RowData.Fini`.
- Addresses and byte layout:
  - A block, buffer or chunk is an object or an index, never an address.
  - The free-list link overlaid on a released buffer's cells is modelled as the buffer's place in a list.
  - What happens to the cells of a released buffer is not modelled.
- Memory obtained from `g_malloc`, `malloc` and `g_free` is not modelled. Exhaustion is not modelled either.
  - A chunk given back to the system is modelled as a member of the ghost set `released` that is not pooled.
  - A released arena block is modelled as the arena's block list becoming empty.
- Debug printing, `g_assert` messages, the `VTE_DEBUG` build of `_vte_ring_index`, and the unimplemented prototypes in `src/ring.h` are not modelled.
- Threads are not modelled: the global lists are only used from one thread.
- Pool.Arena.Alloc: `size + G_STRUCT_OFFSET (VtePool, data)` and the block size are computed without `guint` wrap-around. Cell-buffer requests stay below 2^31 cells, but the byte size is not bounded.
- Rows.RowData.Insert: requires `len + 1 < 2^31`, the request that passes `g_assert (rank < 32)`; `len + 1` is not wrapped at 2^32.
- Rows.RowData.Append: requires `len + 1 < 2^31` for the same reason; `len + 1` is not wrapped at 2^32.
- Rows.RowData.Remove: `col + 1` is not wrapped at 2^32. At `col = 0xFFFFFFFF` the C loop starts at `i = 0`, writes `cells[0xFFFFFFFF]` and shifts the whole row left from cell 0. The model drops the last cell there, as for any `col >= len`.
- Rows.RowData.Insert: this requires `col <= len`. The C code does not check this and writes `cells[col]` even past the row.
- Rows.RowData.Fini: this leaves `len` as it was, as the C code does. A row after fini therefore need not satisfy "no buffer means length 0", and `Rows.RowData.Valid` is not restated after it.
- Chunks.Chunk.Reset: the memset also clears the kind tag. Every caller writes the tag right after, so the model leaves it to them.
- Chunks.Chunk.FiniWritable: the released buffers are stated as a set joining the free set. The order in which they are pushed onto each rank's list, which is row order, is not stated; `Rings.ReleaseWritable`, `Rings.FiniChunks` and `Rings.Ring.Fini` inherit this.
- Rings.Ring.Index: the slot is stated for every chunk, but it is shown to lie inside a row array only for the writable head. Compact chunks have no row array in this model.
- Rings.Ring.FindChunk: the model moves the cursor once, at the end of the walk. C moves it at every step; no other code observes the difference.
- Positions and chunk bounds are unbounded naturals rather than `guint`. `head.end - tail.start` is not wrapped.
- FlatRing: `glong` overflow of `delta + length` is not modelled. `_vte_ring_index` with a negative position reads outside the array, which the model reports as `None`.

## Findings

| source | as written | input that shows it | evidently intended | confidence | as-written member | corrected member |
|---|---|---|---|---|---|---|
| src/ring.c:433-434 | the loop calls `_vte_ring_chunk_free_compact (chunk)` and then evaluates `chunk = chunk->prev_chunk`; when the pool already holds ten chunks, `_vte_ring_chunk_free_compact` has just `g_free`d `chunk` (src/ring.c:374-375) | a ring with one compact chunk behind its head, torn down while `num_free_chunk_compact == 10`; no code in src/ring.c builds that state, because `_vte_ring_chunk_new_compact` has no caller and nothing assigns `prev_chunk`, so the defect is latent | read `prev_chunk` before releasing the chunk | not executed | Rings.AsWrittenUseAfterFree | Rings.FreeCompactChain |
| src/ring.c:102-111 | when `ring_count` reaches 0, `_vte_pool_free_all` frees every arena block, but `free_cells` keeps the buffers carved from those blocks; the next `_vte_cells_alloc` of that rank returns one (src/ring.c:149-153) | create one ring, grow a row to 100 cells, destroy the ring; the next request for 100 cells gets a rank-7 buffer inside a freed block | clear `free_cells` together with the blocks | not executed | Cells.LastRingLeavesDanglingBuffer | Cells.CellCache.RingDestroyed |
