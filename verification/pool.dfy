/** The process-wide bump allocator (`VtePool`) that backs cell buffers, and the
    live-ring counter that decides when all of its blocks are released.
    Blocks are modelled by their byte counts and a cursor offset, not by
    addresses; a block is named by its index, oldest first. */
module Pool {

  datatype PointerWidth = Ptr32 | Ptr64

  function PointerBytes(w: PointerWidth): nat
  {
    match w
    case Ptr32 => 4
    case Ptr64 => 8
  }

  /** The sizes that depend on the C ABI: the pointer width, `sizeof (VteCell)`
      and the offset of the row storage inside a compact chunk. */
  datatype Layout = Layout(pointer: PointerWidth, cellBytes: nat, compactHeaderBytes: nat)
  {
    predicate Valid()
    {
      cellBytes >= 1 && compactHeaderBytes < PoolBytes(this)
    }
  }

  /** VTE_POOL_BYTES: one mebibyte less four pointers. */
  function PoolBytes(l: Layout): nat
  {
    1024 * 1024 - 4 * PointerBytes(l.pointer)
  }

  /** Offset of `data` in a VtePool: `next_pool`, `bytes_left` (padded to pointer
      alignment) and `cursor`. */
  function PoolHeaderBytes(l: Layout): nat
  {
    3 * PointerBytes(l.pointer)
  }

  /** One backing block: its whole size, the bytes still free and the bump
      cursor, an offset into the block's data area. */
  datatype Block = Block(allocSize: nat, bytesLeft: nat, cursor: nat)

  /** Where an allocation lives: which block, and at what offset in its data. */
  datatype Addr = Addr(block: nat, offset: nat)

  /** One allocation handed out by the arena. */
  datatype Grant = Grant(at: Addr, size: nat)

  ghost predicate ValidBlock(b: Block, l: Layout)
  {
    PoolHeaderBytes(l) <= b.allocSize && b.cursor + b.bytesLeft == b.allocSize - PoolHeaderBytes(l)
  }

  ghost predicate ValidBlocks(pools: seq<Block>, l: Layout)
  {
    forall i :: 0 <= i < |pools| ==> ValidBlock(pools[i], l)
  }

  /** Two allocations never share a byte. */
  ghost predicate Disjoint(g: Grant, h: Grant)
  {
    g.at.block != h.at.block || g.at.offset + g.size <= h.at.offset || h.at.offset + h.size <= g.at.offset
  }

  /** Every grant lies in the used part of its block, and no two overlap. */
  ghost predicate GrantsFit(pools: seq<Block>, grants: seq<Grant>)
  {
    && (forall i :: 0 <= i < |grants| ==>
          grants[i].at.block < |pools| && grants[i].at.offset + grants[i].size <= pools[grants[i].at.block].cursor)
    && (forall i, j :: 0 <= i < j < |grants| ==> Disjoint(grants[i], grants[j]))
  }

  /** The current block cannot hold `size` more bytes (or there is none). */
  predicate NeedsNewBlock(pools: seq<Block>, size: nat)
  {
    pools == [] || pools[|pools| - 1].bytesLeft < size
  }

  datatype AllocResult = AllocResult(pools: seq<Block>, at: Addr)

  /** One call of `_vte_pool_alloc (size)` on the block stack `pools`. */
  function AllocStep(pools: seq<Block>, size: nat, l: Layout): (r: AllocResult)
    requires ValidBlocks(pools, l)
    ensures ValidBlocks(r.pools, l)
    ensures |r.pools| == |pools| + (if NeedsNewBlock(pools, size) then 1 else 0)
    ensures r.pools[..|pools| - (if NeedsNewBlock(pools, size) then 0 else 1)]
            == pools[..|pools| - (if NeedsNewBlock(pools, size) then 0 else 1)]
    ensures r.at.block == |r.pools| - 1
    ensures r.at.offset == (if NeedsNewBlock(pools, size) then 0 else pools[|pools| - 1].cursor)
    ensures r.pools[r.at.block].cursor == r.at.offset + size
    ensures NeedsNewBlock(pools, size) ==>
              r.pools[r.at.block].allocSize == (if PoolBytes(l) < size + PoolHeaderBytes(l) then size + PoolHeaderBytes(l) else PoolBytes(l))
    ensures !NeedsNewBlock(pools, size) ==>
              r.pools[r.at.block].allocSize == pools[|pools| - 1].allocSize
              && r.pools[r.at.block].bytesLeft == pools[|pools| - 1].bytesLeft - size
  {
    var p := if NeedsNewBlock(pools, size) then
               var allocSize := if PoolBytes(l) < size + PoolHeaderBytes(l) then size + PoolHeaderBytes(l) else PoolBytes(l);
               pools + [Block(allocSize, allocSize - PoolHeaderBytes(l), 0)]
             else pools;
    var top := p[|p| - 1];
    AllocResult(p[|p| - 1 := Block(top.allocSize, top.bytesLeft - size, top.cursor + size)], Addr(|p| - 1, top.cursor))
  }

  /** The global pool stack (`current_pool`, newest block last here) together
      with the live-ring counter `ring_count`. */
  class Arena {
    const layout: Layout
    var pools: seq<Block>
    var ringCount: nat
    /** Every allocation made since the blocks were last released. */
    ghost var grants: seq<Grant>

    ghost predicate Valid()
      reads this
    {
      && layout.Valid()
      && ValidBlocks(pools, layout)
      && GrantsFit(pools, grants)
    }

    constructor (layout: Layout)
      requires layout.Valid()
      ensures Valid() && this.layout == layout
      ensures pools == [] && ringCount == 0 && grants == []
    {
      this.layout := layout;
      pools, ringCount, grants := [], 0, [];
    }

    /** `_vte_pool_alloc`: bump-allocate `size` bytes, opening a new block when
        the current one is missing or too small. */
    method Alloc(size: nat) returns (at: Addr)
      requires Valid()
      modifies this
      ensures Valid() && ringCount == old(ringCount)
      ensures AllocResult(pools, at) == AllocStep(old(pools), size, layout)
      ensures grants == old(grants) + [Grant(at, size)]
    {
      AllocKeepsGrantsApart(pools, grants, size, layout);
      if NeedsNewBlock(pools, size) {
        var allocSize := if PoolBytes(layout) < size + PoolHeaderBytes(layout) then size + PoolHeaderBytes(layout) else PoolBytes(layout);
        pools := pools + [Block(allocSize, allocSize - PoolHeaderBytes(layout), 0)];
      }
      var top := pools[|pools| - 1];
      at := Addr(|pools| - 1, top.cursor);
      pools := pools[|pools| - 1 := Block(top.allocSize, top.bytesLeft - size, top.cursor + size)];
      grants := grants + [Grant(at, size)];
    }

    /** `_vte_pool_free_all`: release every block, newest first. */
    method FreeAll()
      requires Valid()
      modifies this
      ensures Valid() && ringCount == old(ringCount)
      ensures pools == [] && grants == []
    {
      grants := [];
      while pools != []
        invariant Valid() && ringCount == old(ringCount) && grants == []
        decreases |pools|
      {
        pools := pools[..|pools| - 1];
      }
    }

    /** `_ring_created`. */
    method RingCreated()
      requires Valid()
      modifies this
      ensures Valid() && ringCount == old(ringCount) + 1
      ensures pools == old(pools) && grants == old(grants)
    {
      ringCount := ringCount + 1;
    }

    /** `_ring_destroyed`: the last ring to go releases all blocks. */
    method RingDestroyed()
      requires Valid() && ringCount > 0
      modifies this
      ensures Valid() && ringCount == old(ringCount) - 1
      ensures ringCount == 0 ==> pools == [] && grants == []
      ensures ringCount != 0 ==> pools == old(pools) && grants == old(grants)
    {
      ringCount := ringCount - 1;
      if ringCount == 0 {
        FreeAll();
      }
    }
  }

  /** An allocation lands past everything granted before it: the earlier
      grants keep their place and none of them meets the new one. */
  lemma AllocKeepsGrantsApart(pools: seq<Block>, grants: seq<Grant>, size: nat, l: Layout)
    requires ValidBlocks(pools, l) && GrantsFit(pools, grants)
    ensures var r := AllocStep(pools, size, l);
            GrantsFit(r.pools, grants + [Grant(r.at, size)])
  {
    var r := AllocStep(pools, size, l);
    var g := grants + [Grant(r.at, size)];
    forall i | 0 <= i < |grants|
      ensures g[i].at.block < |r.pools| && g[i].at.offset + g[i].size <= r.pools[g[i].at.block].cursor
      ensures Disjoint(g[i], g[|grants|])
    {
    }
  }

  /** Two successive allocations from the same stack never overlap, whether or
      not the second one opens a new block. */
  lemma SuccessiveAllocsDisjoint(pools: seq<Block>, s1: nat, s2: nat, l: Layout)
    requires ValidBlocks(pools, l)
    ensures var r1 := AllocStep(pools, s1, l);
            var r2 := AllocStep(r1.pools, s2, l);
            Disjoint(Grant(r1.at, s1), Grant(r2.at, s2))
  {
  }
}
