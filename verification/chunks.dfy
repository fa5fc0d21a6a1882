/** VteRingChunk: a run of absolute row positions [start, end). A writable
    chunk keeps its rows in a circular array of 64 slots addressed by
    `(position - offset) & mask`; a compact chunk is one malloc'd block whose
    byte cursor moves backward from the end of its data area. Released compact
    chunks wait on a global pool of at most ten. */
module Chunks {
  import opened Bits
  import opened Cells
  import opened Rows
  import Pool

  datatype ChunkKind = Writable | Compact

  /** The mask a writable chunk is created with: 64 slots. */
  const WritableMask: nat := 63
  /** VTE_RING_CHUNK_COMPACT_MAX_FREE. */
  const CompactMaxFree: nat := 10

  /** The slot of absolute row `position` in a chunk: the `guint` difference
      `position - offset`, masked. */
  function Slot(position: int, offset: int, mask: nat): (s: nat)
    ensures s <= mask
  {
    BitAnd(Wrap32(position - offset), mask)
  }

  /** With the writable mask 63 the slot is the distance from `offset` modulo 64. */
  lemma WritableSlot(position: int, offset: int)
    ensures Slot(position, offset, WritableMask) == (position - offset) % 64
  {
    assert Pow2(6) == 64;
    BitAndLowMask(Wrap32(position - offset), 6);
    Wrap32Mod64(position - offset);
  }

  /** Any 64 consecutive positions occupy 64 different slots of a writable chunk. */
  lemma WritableSlotsDistinct(p: int, q: int, offset: int)
    requires p < q < p + 64
    ensures Slot(p, offset, WritableMask) != Slot(q, offset, WritableMask)
  {
    WritableSlot(p, offset);
    WritableSlot(q, offset);
    var a, b := p - offset, q - offset;
    if a % 64 == b % 64 {
      assert a == 64 * (a / 64) + a % 64;
      assert b == 64 * (b / 64) + b % 64;
      assert b - a == 64 * (b / 64 - a / 64);
      MulAtLeast(64, b / 64 - a / 64);
    }
  }

  class Chunk {
    var kind: ChunkKind
    var start: nat
    var end: nat
    var prev: Chunk?
    var next: Chunk?
    /** Writable chunks: the position held by slot 0, the slot mask and the rows. */
    var offset: nat
    var mask: nat
    var rows: array?<RowData>
    /** Compact chunks: size of the data area, bytes still free, and the
        cursor, an offset into the data area that moves toward 0. */
    var totalBytes: nat
    var bytesLeft: nat
    var cursor: nat

    /** Storage for a chunk record; the caller initialises it. */
    constructor ()
      ensures prev == null && next == null && rows == null
    {
      kind := Writable;
      start, end, offset, mask := 0, 0, 0, 0;
      prev, next, rows := null, null, null;
      totalBytes, bytesLeft, cursor := 0, 0, 0;
    }

    /** A writable chunk with its slot array of `mask + 1` distinct rows. */
    ghost predicate WritableShape()
      reads this, rows
    {
      && kind == Writable
      && rows != null && rows.Length == mask + 1
      && (forall i, j :: 0 <= i < j < rows.Length ==> rows[i] != rows[j])
    }

    ghost function RowObjects(): set<RowData>
      reads this, rows
      requires rows != null
    {
      set i | 0 <= i < rows.Length :: rows[i]
    }

    /** Every row can go back to the cache: each buffer is live and no two rows
        share one. */
    ghost predicate RowsReleasable(cache: CellCache)
      reads this, rows, RowObjects(), cache, cache.arena
      requires rows != null
    {
      && cache.Valid()
      && (forall i :: 0 <= i < rows.Length ==> rows[i].Valid(cache))
      && (forall i, j :: 0 <= i < j < rows.Length && rows[i].cells != null ==> rows[i].cells != rows[j].cells)
    }

    /** The buffers held by the rows. */
    ghost function RowBuffers(): set<CellBuffer>
      reads this, rows, RowObjects()
      requires rows != null
    {
      set i | 0 <= i < rows.Length && rows[i].cells != null :: rows[i].cells
    }

    /** `_vte_ring_chunk_init`: zero the common part. The kind tag is written by
        every caller right after. */
    method Reset()
      modifies this`start, this`end, this`prev, this`next, this`offset, this`mask, this`rows
      ensures start == 0 && end == 0 && prev == null && next == null
      ensures offset == 0 && mask == 0 && rows == null
    {
      start, end, offset, mask := 0, 0, 0, 0;
      prev, next, rows := null, null, null;
    }

    /** `_vte_ring_chunk_init_writable`: an empty chunk with 64 zeroed rows. */
    method InitWritable()
      modifies this
      ensures WritableShape() && fresh(rows) && fresh(RowObjects())
      ensures start == 0 && end == 0 && prev == null && next == null
      ensures offset == 0 && mask == WritableMask && rows.Length == 64
      ensures forall i :: 0 <= i < rows.Length ==> rows[i].cells == null && rows[i].len == 0 && !rows[i].softWrapped
      ensures totalBytes == old(totalBytes) && bytesLeft == old(bytesLeft) && cursor == old(cursor)
    {
      Reset();
      kind := Writable;
      offset := 0;
      mask := WritableMask;
      rows := NewRows(mask + 1);
    }

    /** `_vte_ring_chunk_fini_writable`: release every row's buffer, then the
        slot array. */
    method FiniWritable(cache: CellCache)
      requires kind == Writable && rows != null && rows.Length == mask + 1
      requires RowsReleasable(cache)
      modifies this`rows, RowObjects(), cache
      ensures rows == null && cache.Valid() && cache.issued == old(cache.issued)
      ensures forall i :: 0 <= i < old(rows).Length ==> old(rows)[i].cells == null
      ensures cache.FreeBuffers() == old(cache.FreeBuffers()) + old(RowBuffers())
    {
      var a := rows;
      ghost var released: set<CellBuffer> := {};
      for i := 0 to mask + 1
        invariant a == rows && cache.Valid() && cache.issued == old(cache.issued)
        invariant forall k :: 0 <= k < i ==> a[k].cells == null
        invariant forall k :: i <= k < a.Length ==> a[k].cells == old(a[k].cells) && a[k].Valid(cache)
        invariant released == set k | 0 <= k < i && old(a[k].cells) != null :: old(a[k].cells)
        invariant cache.FreeBuffers() == old(cache.FreeBuffers()) + released
      {
        ghost var b := a[i].cells;
        a[i].Fini(cache);
        if b != null {
          released := released + {b};
        }
        forall k | i < k < a.Length
          ensures a[k].Valid(cache)
        {
          if a[k].cells != null {
            assert a[k].cells != b;
          }
        }
      }
      assert released == old(RowBuffers());
      rows := null;
    }
  }

  /** `g_malloc0` of `n` row records: `n` distinct empty rows. */
  method NewRows(n: nat) returns (a: array<RowData>)
    requires n >= 1
    ensures fresh(a) && a.Length == n
    ensures forall i :: 0 <= i < n ==> fresh(a[i]) && a[i].cells == null && a[i].len == 0 && !a[i].softWrapped
    ensures forall i, j :: 0 <= i < j < n ==> a[i] != a[j]
  {
    var first := new RowData();
    a := new RowData[n](_ => first);
    for i := 1 to n
      invariant fresh(a[i - 1])
      invariant forall k :: 0 <= k < n ==> fresh(a[k]) && a[k].cells == null && a[k].len == 0 && !a[k].softWrapped
      invariant forall k, j :: 0 <= k < j < i ==> a[k] != a[j]
      invariant forall k :: i <= k < n ==> a[k] == first
      invariant forall k :: 0 < k < i ==> a[k] != first
    {
      a[i] := new RowData();
    }
  }

  /** Bytes of row data a fresh compact chunk can hold. */
  function CompactDataBytes(l: Pool.Layout): nat
    requires l.Valid()
  {
    Pool.PoolBytes(l) - l.compactHeaderBytes
  }

  /** The global pool of released compact chunks (`free_chunk_compact`, linked
      through `next`) and its count. */
  class CompactPool {
    const layout: Pool.Layout
    var free: seq<Chunk>
    var numFree: nat
    /** Chunks handed to `FreeCompact` and not taken out again: the pooled
        ones and those given back to the system allocator. */
    ghost var released: set<Chunk>

    ghost predicate Valid()
      reads this, free
    {
      && layout.Valid()
      && numFree == |free| <= CompactMaxFree
      && (forall i, j :: 0 <= i < j < |free| ==> free[i] != free[j])
      && (forall i :: 0 <= i < |free| ==> free[i].kind == Compact && free[i].totalBytes == CompactDataBytes(layout))
      && (forall i :: 0 <= i < |free| - 1 ==> free[i].next == free[i + 1])
      && (free != [] ==> free[|free| - 1].next == null)
      && (forall i :: 0 <= i < |free| ==> free[i] in released)
    }

    /** Chunk `c` went back to the system allocator: it was released and is
        not waiting in the pool, so its memory is no longer the ring's. */
    ghost predicate Dropped(c: Chunk)
      reads this
    {
      c in released && c !in free
    }

    constructor (layout: Pool.Layout)
      requires layout.Valid()
      ensures Valid() && this.layout == layout && free == [] && released == {}
    {
      this.layout := layout;
      free, numFree, released := [], 0, {};
    }

    /** `_vte_ring_chunk_new_compact`: reuse the head of the pool or allocate a
        fresh block; either way the chunk is empty, with its cursor at the end
        of its data area. */
    method NewCompact() returns (c: Chunk)
      requires Valid()
      modifies this, if free == [] then {} else {free[0]}
      ensures Valid() && released == old(released) - {c}
      ensures old(free) != [] ==> c == old(free)[0] && free == old(free)[1..]
      ensures old(free) == [] ==> fresh(c) && free == []
      ensures c.kind == Compact && c.start == 0 && c.end == 0 && c.prev == null && c.next == null
      ensures c.offset == 0 && c.mask == 0 && c.rows == null
      ensures c.totalBytes == CompactDataBytes(layout)
      ensures c.bytesLeft == c.totalBytes && c.cursor == c.bytesLeft
    {
      if free != [] {
        c := free[0];
        free := free[1..];
        numFree := numFree - 1;
      } else {
        c := new Chunk();
        c.totalBytes := CompactDataBytes(layout);
      }
      c.Reset();
      c.kind := Compact;
      c.bytesLeft := c.totalBytes;
      c.cursor := c.bytesLeft;
      released := released - {c};
    }

    /** `_vte_ring_chunk_free_compact`: keep the chunk for reuse while the pool
        has room, otherwise hand it back. */
    method FreeCompact(c: Chunk)
      requires Valid() && c.kind == Compact && c.totalBytes == CompactDataBytes(layout) && c !in released
      modifies this, c`next
      ensures Valid() && released == old(released) + {c}
      ensures old(numFree) < CompactMaxFree ==> free == [c] + old(free)
      ensures old(numFree) >= CompactMaxFree ==> free == old(free)
      ensures numFree == if old(numFree) < CompactMaxFree then old(numFree) + 1 else old(numFree)
      ensures Dropped(c) <==> old(numFree) >= CompactMaxFree
    {
      released := released + {c};
      if numFree >= CompactMaxFree {
        return;
      }
      c.next := if free == [] then null else free[0];
      free := [c] + free;
      numFree := numFree + 1;
    }
  }
}
