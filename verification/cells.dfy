/** VteCells: a row's cell storage, sized by rank (capacity 2^rank - 1), and the
    global per-rank cache of released buffers. Buffers are objects with their
    rank, their capacity and an array of cells; the free-list link that the C
    code overlays on the cell storage is the position in a per-rank list. */
module Cells {
  import opened Bits
  import Pool

  /** A terminal cell. Its layout is defined outside the ring; the ring only
      copies cells as whole values. */
  datatype Cell = Cell(payload: nat)

  /** Requests narrower than this many cells are rounded up to it. */
  const MinCells: nat := 80
  /** Number of size classes: `free_cells[32]`. */
  const RankCount: nat := 32
  /** Bytes in front of the cells: the two `guint32` fields rank and alloc_len. */
  const CellsHeaderBytes: nat := 8
  /** Smallest request whose rank fails `g_assert (rank < 32)`. */
  const RequestLimit: nat := 0x8000_0000

  function Max(a: nat, b: nat): nat
  {
    if a < b then b else a
  }

  /** Capacity of a buffer of rank `rank`: `(1 << rank) - 1`. */
  function Capacity(rank: nat): nat
  {
    Pow2(rank) - 1
  }

  /** Size class of a request for `len` cells: `g_bit_storage (MAX (len, 80))`.
      It is the least class whose capacity covers the (floored) request. */
  function Rank(len: nat): (r: nat)
    ensures Capacity(r) >= Max(len, MinCells)
    ensures r >= 1 && Capacity(r - 1) < Max(len, MinCells)
    ensures forall k: nat :: Capacity(k) >= Max(len, MinCells) ==> r <= k
  {
    var n := Max(len, MinCells);
    BitLengthBounds(n);
    RankLeast(n);
    BitLength(n)
  }

  lemma RankLeast(n: nat)
    requires n >= 1
    ensures forall k: nat :: Pow2(k) - 1 >= n ==> BitLength(n) <= k
  {
    forall k: nat | Pow2(k) - 1 >= n
      ensures BitLength(n) <= k
    {
      BitLengthLeast(n, k);
    }
  }

  /** The `g_assert (rank < 32)` in `_vte_cells_alloc` holds exactly for
      requests below 2^31 cells. */
  lemma RankFits(len: nat)
    ensures Rank(len) < RankCount <==> len < RequestLimit
  {
    Pow2Of31();
    if len < RequestLimit {
      BitLengthLeast(Max(len, MinCells), 31);
    } else {
      if Rank(len) < RankCount {
        Pow2Monotone(Rank(len), 31);
      }
    }
  }

  /** A request for 100 cells gets rank 7 and capacity 127. */
  lemma RankOf100()
    ensures Rank(100) == 7 && Capacity(Rank(100)) == 127
  {
    assert BitLength(100) == 7;
  }

  /** One VteCells buffer. */
  class CellBuffer {
    const rank: nat
    const allocLen: nat
    const cells: array<Cell>
    /** The arena allocation the buffer lives in. */
    ghost const grant: Pool.Grant

    ghost predicate Valid()
    {
      rank < RankCount && allocLen == Capacity(rank) && cells.Length == allocLen
    }

    constructor (rank: nat, ghost grant: Pool.Grant)
      requires rank < RankCount
      ensures Valid() && this.rank == rank && this.grant == grant && fresh(cells)
    {
      this.rank := rank;
      allocLen := Capacity(rank);
      cells := new Cell[Capacity(rank)];
      this.grant := grant;
    }
  }

  /** Push `b` on the free list of its rank; no other list changes. */
  function PushFree(lists: seq<seq<CellBuffer>>, b: CellBuffer): (r: seq<seq<CellBuffer>>)
    requires b.rank < |lists|
    ensures |r| == |lists| && r[b.rank] == [b] + lists[b.rank]
    ensures forall k :: 0 <= k < |r| && k != b.rank ==> r[k] == lists[k]
  {
    lists[b.rank := [b] + lists[b.rank]]
  }

  /** Drop the head of the free list of rank `rank` if there is one; no other
      list changes. */
  function PopFree(lists: seq<seq<CellBuffer>>, rank: nat): (r: seq<seq<CellBuffer>>)
    requires rank < |lists|
    ensures |r| == |lists|
    ensures lists[rank] != [] ==> r[rank] == lists[rank][1..]
    ensures lists[rank] == [] ==> r == lists
    ensures forall k :: 0 <= k < |r| && k != rank ==> r[k] == lists[k]
  {
    if lists[rank] == [] then lists else lists[rank := lists[rank][1..]]
  }

  /** The free lists are stacks: the buffer released last is the one reused
      first, and popping it restores the lists. */
  lemma PushThenPop(lists: seq<seq<CellBuffer>>, b: CellBuffer)
    requires b.rank < |lists|
    ensures PushFree(lists, b)[b.rank][0] == b
    ensures PopFree(PushFree(lists, b), b.rank) == lists
  {
    assert PushFree(lists, b)[b.rank][1..] == lists[b.rank];
  }

  /** Every buffer on some free list. */
  ghost function Members(lists: seq<seq<CellBuffer>>): set<CellBuffer>
  {
    set r, i | 0 <= r < |lists| && 0 <= i < |lists[r]| :: lists[r][i]
  }

  /** One list per rank; each list holds buffers of its own rank, taken from
      `issued`, none of them twice. */
  ghost predicate FreeListsOk(lists: seq<seq<CellBuffer>>, issued: set<CellBuffer>)
  {
    && |lists| == RankCount
    && (forall r, i :: 0 <= r < |lists| && 0 <= i < |lists[r]| ==> lists[r][i] in issued && lists[r][i].rank == r)
    && (forall r, i, j :: 0 <= r < |lists| && 0 <= i < j < |lists[r]| ==> lists[r][i] != lists[r][j])
  }

  /** Every buffer is well formed and owns its cell array alone. */
  ghost predicate BuffersOk(issued: set<CellBuffer>)
  {
    && (forall b :: b in issued ==> b.Valid())
    && (forall a, b :: a in issued && b in issued && a != b ==> a.cells != b.cells)
  }

  lemma MembersIssued(lists: seq<seq<CellBuffer>>, issued: set<CellBuffer>)
    requires FreeListsOk(lists, issued)
    ensures Members(lists) <= issued
  {
  }

  /** Reusing the head of a list keeps the lists well formed and takes exactly
      that buffer off them. */
  lemma PopFreeOk(lists: seq<seq<CellBuffer>>, rank: nat, issued: set<CellBuffer>)
    requires FreeListsOk(lists, issued) && rank < |lists| && lists[rank] != []
    ensures FreeListsOk(PopFree(lists, rank), issued)
    ensures Members(PopFree(lists, rank)) == Members(lists) - {lists[rank][0]}
  {
    var b, p := lists[rank][0], PopFree(lists, rank);
    forall x | x in Members(p) ensures x in Members(lists) && x != b {
      var r, i :| 0 <= r < |p| && 0 <= i < |p[r]| && p[r][i] == x;
      if r == rank {
        assert lists[r][i + 1] == x;
      } else {
        assert lists[r][i] == x;
      }
    }
    forall x | x in Members(lists) && x != b ensures x in Members(p) {
      var r, i :| 0 <= r < |lists| && 0 <= i < |lists[r]| && lists[r][i] == x;
      if r == rank {
        assert p[r][i - 1] == x;
      } else {
        assert p[r][i] == x;
      }
    }
  }

  /** Releasing a buffer that is not on a list keeps the lists well formed and
      adds exactly that buffer. */
  lemma PushFreeOk(lists: seq<seq<CellBuffer>>, b: CellBuffer, issued: set<CellBuffer>)
    requires FreeListsOk(lists, issued) && b in issued && b !in Members(lists) && b.rank < |lists|
    ensures FreeListsOk(PushFree(lists, b), issued)
    ensures Members(PushFree(lists, b)) == Members(lists) + {b}
  {
    var p := PushFree(lists, b);
    forall x | x in Members(p) ensures x in Members(lists) + {b} {
      var r, i :| 0 <= r < |p| && 0 <= i < |p[r]| && p[r][i] == x;
      if r == b.rank && i > 0 {
        assert lists[r][i - 1] == x;
      } else if r != b.rank {
        assert lists[r][i] == x;
      }
    }
    forall x | x in Members(lists) ensures x in Members(p) {
      var r, i :| 0 <= r < |lists| && 0 <= i < |lists[r]| && lists[r][i] == x;
      if r == b.rank {
        assert p[r][i + 1] == x;
      } else {
        assert p[r][i] == x;
      }
    }
    assert p[b.rank][0] == b;
  }

  /** The `memcpy` of `_vte_cells_realloc`: every cell of `src` to the front
      of the larger `dst`. */
  method CopyCells(src: array<Cell>, dst: array<Cell>)
    requires src != dst && src.Length <= dst.Length
    modifies dst
    ensures dst[..src.Length] == src[..]
  {
    for i := 0 to src.Length
      invariant dst[..i] == src[..i]
    {
      dst[i] := src[i];
    }
  }

  /** The global cache `free_cells`, with the arena it allocates from. */
  /** What `_vte_cells_alloc` did to hand out `b`, from the free lists, the
      issued buffers and the arena before (`lists`, `issued`, `pools`,
      `grants`) to the issued buffers and the arena after: when `b`'s list was
      not empty, `b` is its head and nothing else changes; otherwise `b` is
      new, and one `AllocStep` of header plus capacity carved it. */
  ghost predicate AllocatedFrom(lists: seq<seq<CellBuffer>>, issued: set<CellBuffer>, pools: seq<Pool.Block>,
                                grants: seq<Pool.Grant>, layout: Pool.Layout, b: CellBuffer,
                                issued': set<CellBuffer>, pools': seq<Pool.Block>, grants': seq<Pool.Grant>)
  {
    && b.rank < |lists|
    && (lists[b.rank] != [] ==>
          b == lists[b.rank][0] && issued' == issued && pools' == pools && grants' == grants)
    && (lists[b.rank] == [] ==>
          b !in issued && issued' == issued + {b} && grants' == grants + [b.grant]
          && Pool.ValidBlocks(pools, layout)
          && Pool.AllocResult(pools', b.grant.at)
             == Pool.AllocStep(pools, CellsHeaderBytes + b.allocLen * layout.cellBytes, layout))
  }

  class CellCache {
    const arena: Pool.Arena
    /** `free_cells[rank]`, the head of each list first. */
    var freeCells: seq<seq<CellBuffer>>
    /** Every buffer ever carved out of the arena by this cache. */
    ghost var issued: set<CellBuffer>

    ghost function FreeBuffers(): set<CellBuffer>
      reads this
    {
      Members(freeCells)
    }

    ghost function FreeArrays(): set<array<Cell>>
      reads this
    {
      set b | b in FreeBuffers() :: b.cells
    }

    /** Every buffer the cache knows of lies in an allocation the arena still
        holds. */
    ghost predicate Backed()
      reads this, arena
    {
      forall b :: b in issued ==> b.grant in arena.grants
    }

    ghost predicate Valid()
      reads this, arena
    {
      arena.Valid() && FreeListsOk(freeCells, issued) && BuffersOk(issued) && Backed()
    }

    constructor (arena: Pool.Arena)
      requires arena.Valid()
      ensures Valid() && this.arena == arena && issued == {}
      ensures forall r :: 0 <= r < |freeCells| ==> freeCells[r] == []
    {
      this.arena := arena;
      freeCells := seq(RankCount, _ => []);
      issued := {};
    }

    /** A buffer that is handed out is not also on a free list, and so is its
        cell array. */
    lemma LiveArrayNotFree(c: CellBuffer)
      requires Valid() && c in issued && c !in FreeBuffers()
      ensures c.cells !in FreeArrays()
    {
    }

    /** `_vte_cells_alloc`: reuse the head of the rank's free list, or carve
        a new buffer out of the arena. */
    method Alloc(len: nat) returns (b: CellBuffer)
      requires Valid()
      requires len < RequestLimit
      modifies this, arena
      ensures Valid() && arena.ringCount == old(arena.ringCount)
      ensures b in issued && b !in FreeBuffers() && b.rank == Rank(len) && len <= b.allocLen
      ensures freeCells == PopFree(old(freeCells), b.rank)
      ensures AllocatedFrom(old(freeCells), old(issued), old(arena.pools), old(arena.grants), arena.layout,
                            b, issued, arena.pools, arena.grants)
      ensures old(freeCells)[b.rank] == [] ==> fresh(b) && fresh(b.cells)
    {
      var rank := Rank(len);
      RankFits(len);
      if freeCells[rank] != [] {
        b := Reuse(rank);
      } else {
        b := Carve(rank);
      }
    }

    /** The first branch of `_vte_cells_alloc`: take the head of the list. */
    method Reuse(rank: nat) returns (b: CellBuffer)
      requires Valid() && rank < |freeCells| && freeCells[rank] != []
      modifies this
      ensures Valid() && b == old(freeCells)[rank][0] && b.rank == rank
      ensures b in issued && b !in FreeBuffers() && issued == old(issued)
      ensures freeCells == PopFree(old(freeCells), rank)
    {
      PopFreeOk(freeCells, rank, issued);
      b := freeCells[rank][0];
      freeCells := PopFree(freeCells, rank);
    }

    /** The second branch of `_vte_cells_alloc`: a buffer of the rank's full
        capacity, header included, from the arena. */
    method Carve(rank: nat) returns (b: CellBuffer)
      requires Valid() && rank < RankCount
      modifies this, arena
      ensures Valid() && arena.ringCount == old(arena.ringCount) && freeCells == old(freeCells)
      ensures fresh(b) && fresh(b.cells) && b.rank == rank && issued == old(issued) + {b} && b !in FreeBuffers()
      ensures arena.grants == old(arena.grants) + [b.grant]
      ensures Pool.AllocResult(arena.pools, b.grant.at)
              == Pool.AllocStep(old(arena.pools), CellsHeaderBytes + b.allocLen * arena.layout.cellBytes, arena.layout)
    {
      MembersIssued(freeCells, issued);
      var allocLen := Capacity(rank);
      var size := CellsHeaderBytes + allocLen * arena.layout.cellBytes;
      var at := arena.Alloc(size);
      b := new CellBuffer(rank, Pool.Grant(at, size));
      issued := issued + {b};
    }

    /** `_vte_cells_free`: push the buffer on its rank's free list. */
    method Free(b: CellBuffer)
      requires Valid() && b in issued && b !in FreeBuffers()
      modifies this
      ensures Valid() && issued == old(issued)
      ensures freeCells == PushFree(old(freeCells), b)
      ensures FreeBuffers() == old(FreeBuffers()) + {b}
    {
      PushFreeOk(freeCells, b, issued);
      freeCells := PushFree(freeCells, b);
    }

    /** `_vte_cells_realloc`: keep the buffer when it is large enough; otherwise
        move its whole capacity into a buffer of the right class and release it. */
    method Realloc(c: CellBuffer?, len: nat) returns (r: CellBuffer)
      requires Valid()
      requires c != null ==> c in issued && c !in FreeBuffers()
      requires (c == null || c.allocLen < len) ==> len < RequestLimit
      modifies this, arena, FreeArrays()
      ensures Valid() && arena.ringCount == old(arena.ringCount)
      ensures r in issued && r !in FreeBuffers() && len <= r.allocLen
      ensures c != null && len <= c.allocLen ==>
                r == c && unchanged(this) && unchanged(arena)
      ensures (c == null || c.allocLen < len) ==>
                r != c && r.rank == Rank(len)
                && AllocatedFrom(old(freeCells), old(issued), old(arena.pools), old(arena.grants), arena.layout,
                                 r, issued, arena.pools, arena.grants)
                && (old(freeCells)[r.rank] == [] ==> fresh(r) && fresh(r.cells))
                && (old(freeCells)[r.rank] != [] ==> r in old(FreeBuffers()))
      ensures c == null ==> freeCells == PopFree(old(freeCells), r.rank)
      ensures c != null && c.allocLen < len ==>
                c.rank < r.rank
                && r.cells[..c.allocLen] == old(c.cells[..])
                && freeCells == PushFree(PopFree(old(freeCells), r.rank), c)
    {
      if c == null || len > c.allocLen {
        if c != null {
          LiveArrayNotFree(c);
        }
        r := Alloc(len);
        if c != null {
          assert r.cells != c.cells;
          if c.rank >= r.rank {
            Pow2Monotone(r.rank, c.rank);
          }
          CopyCells(c.cells, r.cells);
          Free(c);
        }
      } else {
        r := c;
      }
    }

    /** `_ring_destroyed` as written: the arena drops every block when the last
        ring goes, but `free_cells` keeps its lists. Each buffer left on them
        then lies in an allocation the arena no longer holds. */
    method RingDestroyedAsWritten()
      requires Valid() && arena.ringCount > 0
      modifies arena
      ensures arena.ringCount == old(arena.ringCount) - 1
      ensures freeCells == old(freeCells) && issued == old(issued)
      ensures arena.ringCount == 0 ==> arena.pools == [] && forall b :: b in FreeBuffers() ==> b.grant !in arena.grants
      ensures arena.ringCount != 0 ==> Valid() && arena.pools == old(arena.pools)
    {
      arena.RingDestroyed();
    }

    /** `_ring_destroyed` with the cache emptied together with the arena: no
        buffer outlives the blocks it was carved from. */
    method RingDestroyed()
      requires Valid() && arena.ringCount > 0
      modifies this, arena
      ensures Valid() && arena.ringCount == old(arena.ringCount) - 1
      ensures arena.ringCount == 0 ==> arena.pools == [] && FreeBuffers() == {} && issued == {}
      ensures arena.ringCount != 0 ==>
                arena.pools == old(arena.pools) && arena.grants == old(arena.grants)
                && freeCells == old(freeCells) && issued == old(issued)
    {
      arena.RingDestroyed();
      if arena.ringCount == 0 {
        freeCells := seq(RankCount, _ => []);
        issued := {};
      }
    }
  }

  /** The only live ring grows one row to 100 cells and releases it again. */
  method OneRowReleased(cache: CellCache) returns (b: CellBuffer)
    requires cache.Valid() && cache.arena.ringCount == 1
    modifies cache, cache.arena
    ensures cache.Valid() && cache.arena.ringCount == 1
    ensures b.rank == Rank(100) && b.rank < |cache.freeCells| && cache.freeCells[b.rank] != [] && cache.freeCells[b.rank][0] == b
    ensures b in cache.FreeBuffers()
  {
    RankFits(100);
    b := cache.Alloc(100);
    cache.Free(b);
  }

  /** The same ring then destroyed: with the release as written, the next
      request for 100 cells would be served from a block that no longer
      exists. */
  method LastRingLeavesDanglingBuffer(cache: CellCache) returns (b: CellBuffer)
    requires cache.Valid() && cache.arena.ringCount == 1
    modifies cache, cache.arena
    ensures cache.arena.ringCount == 0 && cache.arena.pools == []
    ensures b.rank == Rank(100) && b.rank < |cache.freeCells| && cache.freeCells[b.rank] != [] && cache.freeCells[b.rank][0] == b
    ensures b.grant !in cache.arena.grants
  {
    b := OneRowReleased(cache);
    cache.RingDestroyedAsWritten();
  }
}
