/** VteRing as the chunked implementation uses it: a chain of chunks from
    `tail` (oldest rows) to `head` (the writable chunk), linked both ways, each
    holding the rows [start, end) and starting where the one before it ends.
    A cached `cursor` chunk speeds up lookups of older rows. */
module Rings {
  import opened Cells
  import opened Chunks
  import Rows
  import Pool

  /** The rows [start, end) of one chunk. */
  datatype Span = Span(start: nat, end: nat)

  predicate Holds(s: Span, position: int)
  {
    s.start <= position < s.end
  }

  /** Spans laid end to end, oldest first: what `_vte_ring_validate` checks
      of each chunk and its predecessor. */
  ghost predicate Chained(s: seq<Span>)
  {
    && (forall i :: 0 <= i < |s| ==> s[i].start <= s[i].end)
    && (forall i, j :: 0 <= i && j == i + 1 && j < |s| ==> s[i].end == s[j].start)
  }

  /** In a chain, a later span starts no earlier than an earlier one ends. */
  lemma {:induction false} ChainedOrdered(s: seq<Span>, i: nat, j: nat)
    requires Chained(s) && i < j < |s|
    ensures s[i].end <= s[j].start
    decreases j - i
  {
    if i + 1 < j {
      ChainedOrdered(s, i + 1, j);
    }
  }

  /** Every position from the first start to the last end lies in some span. */
  lemma {:induction false} ChainedCover(s: seq<Span>, position: int)
    requires Chained(s) && s != [] && s[0].start <= position < s[|s| - 1].end
    ensures exists i :: 0 <= i < |s| && Holds(s[i], position)
  {
    if position >= s[0].end {
      var t := s[1..];
      assert Chained(t);
      ChainedCover(t, position);
      var i :| 0 <= i < |t| && Holds(t[i], position);
      assert Holds(s[i + 1], position);
    }
  }

  /** A chain holds exactly the positions from its first start to its last end. */
  lemma ChainedRange(s: seq<Span>, position: int)
    requires Chained(s) && s != []
    ensures s[0].start <= position < s[|s| - 1].end <==> exists i :: 0 <= i < |s| && Holds(s[i], position)
  {
    if s[0].start <= position < s[|s| - 1].end {
      ChainedCover(s, position);
    }
    if exists i :: 0 <= i < |s| && Holds(s[i], position) {
      var i :| 0 <= i < |s| && Holds(s[i], position);
      if i > 0 {
        ChainedOrdered(s, 0, i);
      }
      if i < |s| - 1 {
        ChainedOrdered(s, i, |s| - 1);
      }
    }
  }

  /** No position lies in two spans of a chain. */
  lemma ChainedCoverUnique(s: seq<Span>, position: int, i: nat, j: nat)
    requires Chained(s) && i < |s| && j < |s|
    requires Holds(s[i], position) && Holds(s[j], position)
    ensures i == j
  {
    if i < j {
      ChainedOrdered(s, i, j);
    } else if j < i {
      ChainedOrdered(s, j, i);
    }
  }

  /** Rows held by the spans, counted one span at a time. */
  function RowCount(s: seq<Span>): int
  {
    if s == [] then 0 else (s[0].end - s[0].start) + RowCount(s[1..])
  }

  /** The rows of a chain add up to the distance from its first start to its
      last end. */
  lemma {:induction false} ChainedRowCount(s: seq<Span>)
    requires Chained(s) && s != []
    ensures RowCount(s) == s[|s| - 1].end - s[0].start
  {
    if |s| > 1 {
      var t := s[1..];
      assert Chained(t);
      ChainedRowCount(t);
    }
  }

  /** One step of the chunk walk in `_vte_ring_fini`: reading a chunk's
      `prev_chunk`, or handing the chunk to `_vte_ring_chunk_free_compact`,
      which keeps it in the pool or frees it. */
  datatype Access = ReadPrev(c: Chunk) | Release(c: Chunk, pooled: bool)

  /** Some chunk is touched after it has been freed. */
  ghost predicate UseAfterFree(t: seq<Access>)
  {
    exists i, j :: 0 <= i < j < |t| && t[i].Release? && !t[i].pooled && t[j].c == t[i].c
  }

  /** Some chunk is freed rather than pooled. */
  ghost predicate Drops(t: seq<Access>)
  {
    exists i :: 0 <= i < |t| && t[i].Release? && !t[i].pooled
  }

  /** No chunk occurs twice in `chain`. */
  ghost predicate Distinct(chain: seq<Chunk>)
  {
    forall i, j :: 0 <= i < j < |chain| ==> chain[i] != chain[j]
  }

  /** Each chunk of `chain` points back at the one before it; the first at nothing. */
  ghost predicate BackLinked(chain: seq<Chunk>)
    reads chain`prev
  {
    && (chain != [] ==> chain[0].prev == null)
    && forall i, j :: 0 <= i && j == i + 1 && j < |chain| ==> chain[j].prev == chain[i]
  }

  /** Each chunk of `chain` points forward at the one after it; the last at nothing. */
  ghost predicate ForwardLinked(chain: seq<Chunk>)
    reads chain`next
  {
    && (chain != [] ==> chain[|chain| - 1].next == null)
    && forall i, j :: 0 <= i && j == i + 1 && j < |chain| ==> chain[i].next == chain[j]
  }

  /** The chunks' ranges are well formed and each ends where the next starts. */
  ghost predicate Contiguous(chain: seq<Chunk>)
    reads chain`start, chain`end
  {
    && (forall i :: 0 <= i < |chain| ==> chain[i].start <= chain[i].end)
    && forall i, j :: 0 <= i && j == i + 1 && j < |chain| ==> chain[i].end == chain[j].start
  }

  /** The pool count after one release. */
  function CountAfterRelease(numFree: nat): (r: nat)
    ensures numFree <= CompactMaxFree ==> r <= CompactMaxFree
    ensures numFree <= r <= numFree + 1
  {
    if numFree < CompactMaxFree then numFree + 1 else numFree
  }

  /** The walk of `_vte_ring_fini` as written over the compact chunks `chain`
      (oldest first, walked from the last): each chunk is released and then
      its `prev_chunk` is read. */
  function FiniWalkAsWritten(chain: seq<Chunk>, numFree: nat): (t: seq<Access>)
    ensures |t| == 2 * |chain|
  {
    if chain == [] then []
    else
      var c := chain[|chain| - 1];
      [Release(c, numFree < CompactMaxFree), ReadPrev(c)]
      + FiniWalkAsWritten(chain[..|chain| - 1], CountAfterRelease(numFree))
  }

  /** The walk with `prev_chunk` read before the chunk is released. */
  function FiniWalk(chain: seq<Chunk>, numFree: nat): (t: seq<Access>)
    ensures |t| == 2 * |chain|
  {
    if chain == [] then []
    else
      var c := chain[|chain| - 1];
      [ReadPrev(c), Release(c, numFree < CompactMaxFree)]
      + FiniWalk(chain[..|chain| - 1], CountAfterRelease(numFree))
  }

  /** Every release is followed at once by a read of the same chunk. */
  ghost predicate ReadAfterEachRelease(t: seq<Access>)
  {
    forall i :: 0 <= i < |t| && t[i].Release? ==> i + 1 < |t| && t[i + 1] == ReadPrev(t[i].c)
  }

  /** The walk as written reads each chunk right after releasing it. */
  lemma {:induction false} AsWrittenReadsAfterRelease(chain: seq<Chunk>, numFree: nat)
    ensures ReadAfterEachRelease(FiniWalkAsWritten(chain, numFree))
  {
    if chain != [] {
      var c, rest := chain[|chain| - 1], chain[..|chain| - 1];
      var n := CountAfterRelease(numFree);
      AsWrittenReadsAfterRelease(rest, n);
      var t, u := FiniWalkAsWritten(chain, numFree), FiniWalkAsWritten(rest, n);
      assert t == [Release(c, numFree < CompactMaxFree), ReadPrev(c)] + u;
      forall i | 2 <= i < |t| && t[i].Release?
        ensures i + 1 < |t| && t[i + 1] == ReadPrev(t[i].c)
      {
        assert t[i] == u[i - 2];
        assert i - 1 < |u| && u[i - 1] == ReadPrev(u[i - 2].c);
        assert t[i + 1] == u[i - 1];
      }
    }
  }

  /** The walk as written frees a chunk exactly when the chain is longer than
      the room left in the pool. */
  lemma {:induction false} AsWrittenDrops(chain: seq<Chunk>, numFree: nat)
    requires numFree <= CompactMaxFree
    ensures Drops(FiniWalkAsWritten(chain, numFree)) <==> numFree + |chain| > CompactMaxFree
  {
    if chain != [] {
      var c, rest := chain[|chain| - 1], chain[..|chain| - 1];
      var n := CountAfterRelease(numFree);
      AsWrittenDrops(rest, n);
      var t, u := FiniWalkAsWritten(chain, numFree), FiniWalkAsWritten(rest, n);
      assert t == [Release(c, numFree < CompactMaxFree), ReadPrev(c)] + u;
      if Drops(u) {
        var i :| 0 <= i < |u| && u[i].Release? && !u[i].pooled;
        assert t[i + 2] == u[i];
      }
      if Drops(t) && numFree < CompactMaxFree {
        var i :| 0 <= i < |t| && t[i].Release? && !t[i].pooled;
        assert u[i - 2] == t[i];
      }
      if numFree >= CompactMaxFree {
        assert t[0].Release? && !t[0].pooled;
      }
    }
  }

  /** `_vte_ring_fini` as written touches a freed chunk exactly when some
      chunk does not fit in the pool of released compact chunks. */
  lemma AsWrittenUseAfterFree(chain: seq<Chunk>, numFree: nat)
    requires numFree <= CompactMaxFree
    ensures UseAfterFree(FiniWalkAsWritten(chain, numFree)) <==> numFree + |chain| > CompactMaxFree
  {
    var t := FiniWalkAsWritten(chain, numFree);
    AsWrittenDrops(chain, numFree);
    AsWrittenReadsAfterRelease(chain, numFree);
    if Drops(t) {
      var i :| 0 <= i < |t| && t[i].Release? && !t[i].pooled;
      assert i + 1 < |t| && t[i + 1].c == t[i].c;
    }
  }

  /** Every access of a trace is to a chunk of `chain`. */
  ghost predicate Within(t: seq<Access>, chain: seq<Chunk>)
  {
    forall i :: 0 <= i < |t| ==> t[i].c in chain
  }

  /** The walk touches only the chunks it is given. */
  lemma {:induction false} FiniWalkWithin(chain: seq<Chunk>, numFree: nat)
    ensures Within(FiniWalk(chain, numFree), chain)
  {
    if chain != [] {
      var c, rest := chain[|chain| - 1], chain[..|chain| - 1];
      var n := CountAfterRelease(numFree);
      FiniWalkWithin(rest, n);
      var t, u := FiniWalk(chain, numFree), FiniWalk(rest, n);
      assert t == [ReadPrev(c), Release(c, numFree < CompactMaxFree)] + u;
      forall i | 2 <= i < |t|
        ensures t[i].c in chain
      {
        assert t[i] == u[i - 2];
        assert u[i - 2].c in rest;
        var k :| 0 <= k < |rest| && rest[k] == t[i].c;
        assert chain[k] == rest[k];
      }
    }
  }

  /** Reading `prev_chunk` first, the walk never touches a chunk it has freed. */
  lemma {:induction false} FiniWalkSafe(chain: seq<Chunk>, numFree: nat)
    requires Distinct(chain)
    ensures !UseAfterFree(FiniWalk(chain, numFree))
  {
    if chain != [] {
      var c, rest := chain[|chain| - 1], chain[..|chain| - 1];
      var n := CountAfterRelease(numFree);
      assert Distinct(rest);
      FiniWalkSafe(rest, n);
      FiniWalkWithin(rest, n);
      var t, u := FiniWalk(chain, numFree), FiniWalk(rest, n);
      assert t == [ReadPrev(c), Release(c, numFree < CompactMaxFree)] + u;
      forall i, j | 0 <= i < j < |t|
        ensures !(t[i].Release? && !t[i].pooled && t[j].c == t[i].c)
      {
        if i == 1 {
          assert t[j] == u[j - 2] && u[j - 2].c in rest;
          forall k | 0 <= k < |rest|
            ensures rest[k] != c
          {
            assert rest[k] == chain[k];
          }
        } else if i >= 2 {
          assert t[i] == u[i - 2] && t[j] == u[j - 2];
        }
      }
    }
  }

  /** The row ranges of a sequence of chunks. */
  ghost function SpansOf(cs: seq<Chunk>): (s: seq<Span>)
    reads cs
    ensures |s| == |cs| && forall i :: 0 <= i < |cs| ==> s[i] == Span(cs[i].start, cs[i].end)
  {
    seq(|cs|, i requires 0 <= i < |cs| reads cs => Span(cs[i].start, cs[i].end))
  }

  class Ring {
    var head: Chunk
    var tail: Chunk
    var cursor: Chunk
    var max: nat
    /** The chunks from `tail` to `head`, and the place of `cursor` among them. */
    ghost var chunks: seq<Chunk>
    ghost var at: nat

    ghost function Spans(): (s: seq<Span>)
      reads this`chunks, chunks
      ensures |s| == |chunks|
      ensures forall i :: 0 <= i < |s| ==> s[i] == Span(chunks[i].start, chunks[i].end)
    {
      SpansOf(chunks)
    }

    /** The ring's compact chunks, oldest first: every chunk but the head. */
    ghost function Compacts(): seq<Chunk>
      reads this
    {
      if chunks == [] then [] else chunks[..|chunks| - 1]
    }

    /** The ring invariant of `_vte_ring_validate` (no more than `max` rows,
        chunks contiguous), with the links and chunk kinds the ring relies on. */
    ghost predicate Linked()
      reads this`head, this`tail, this`max, this`chunks, chunks, head, head.rows
    {
      && |chunks| >= 1 && chunks[0] == tail && chunks[|chunks| - 1] == head
      && Distinct(chunks) && Contiguous(chunks) && ForwardLinked(chunks) && BackLinked(chunks)
      && (forall i :: 0 <= i < |chunks| - 1 ==> chunks[i].kind == Compact)
      && head.end - tail.start <= max && max >= 2
      && head.WritableShape()
    }

    /** A linked ring whose cursor is one of its chunks. */
    ghost predicate Valid()
      reads this, chunks, head, head.rows
    {
      Linked() && at < |chunks| && chunks[at] == cursor
    }

    /** Whether row `position` is held by the ring: from the start of the tail
        chunk up to the end of the head chunk. */
    predicate Contains(position: int)
      reads this, head, tail
    {
      tail.start <= position < head.end
    }

    /** A valid ring holds a position exactly when one of its chunks does. */
    lemma ContainsIffHeld(position: int)
      requires Valid()
      ensures Contains(position) <==> exists i :: 0 <= i < |chunks| && Holds(Spans()[i], position)
    {
      var s := Spans();
      SpansChained();
      assert s[0].start == tail.start && s[|s| - 1].end == head.end;
      ChainedRange(s, position);
    }

    /** The ring's length, head end minus tail start, is the number of rows its
        chunks hold, and at most `max`. */
    lemma LengthIsRowCount()
      requires Valid()
      ensures RowCount(Spans()) == head.end - tail.start <= max
    {
      SpansChained();
      ChainedRowCount(Spans());
    }

    /** `_vte_ring_init`: a ring of at least two rows whose only chunk, its
        head, is a fresh writable chunk; the ring is counted as live. */
    constructor Init(maxRows: nat, arena: Pool.Arena)
      requires arena.Valid()
      modifies arena
      ensures Valid() && fresh(head) && tail == head && cursor == head && chunks == [head]
      ensures max == Max(maxRows, 2)
      ensures head.start == 0 && head.end == 0 && head.offset == 0 && head.mask == WritableMask
      ensures fresh(head.rows) && fresh(head.RowObjects())
      ensures forall i :: 0 <= i < head.rows.Length ==> head.rows[i].cells == null && head.rows[i].len == 0
      ensures arena.Valid() && arena.ringCount == old(arena.ringCount) + 1
      ensures arena.pools == old(arena.pools) && arena.grants == old(arena.grants)
    {
      var h := new Chunk();
      head := h;
      tail := h;
      cursor := h;
      max := Max(maxRows, 2);
      chunks := [h];
      at := 0;
      new;
      h.InitWritable();
      arena.RingCreated();
    }

    /** The neighbours of the chunk at `k`: its predecessor ends where it
        starts, its successor starts where it ends. */
    lemma Step(k: nat)
      requires Linked() && k < |chunks|
      ensures k == 0 ==> chunks[k] == tail
      ensures k == |chunks| - 1 ==> chunks[k] == head
      ensures k > 0 ==> chunks[k].prev == chunks[k - 1] && chunks[k - 1].end == chunks[k].start
      ensures k < |chunks| - 1 ==> chunks[k].next == chunks[k + 1] && chunks[k].end == chunks[k + 1].start
    {
    }

    /** The chunks before the head are distinct compact chunks, each linked
        back to the one before it, and the head links back to the last. */
    lemma CompactChain()
      requires Linked()
      ensures var chain := Compacts();
              && Distinct(chain) && BackLinked(chain) && head !in chain
              && (forall i :: 0 <= i < |chain| ==> chain[i].kind == Compact)
              && head.prev == if chain == [] then null else chain[|chain| - 1]
    {
      var chain := Compacts();
      forall i | 0 <= i < |chain|
        ensures chain[i].prev == (if i == 0 then null else chain[i - 1])
      {
        Step(i);
      }
      Step(|chunks| - 1);
    }

    /** The chunks' row ranges form a chain. */
    lemma SpansChained()
      requires Linked()
      ensures Chained(Spans())
    {
    }

    /** The walk of `_vte_ring_find_chunk` from the cursor: back while the
        chunk starts after `position`, then forward while it ends at or
        before it. It stops at the one chunk that holds `position`. */
    method Walk(position: nat) returns (c: Chunk, ghost k: nat)
      requires Valid() && Contains(position)
      ensures k < |chunks| && chunks[k] == c
      ensures c.start <= position < c.end
      ensures forall i :: 0 <= i < |chunks| && Holds(Spans()[i], position) ==> chunks[i] == c
    {
      c := cursor;
      k := at;
      while position < c.start
        invariant 0 <= k < |chunks| && chunks[k] == c
        decreases k
      {
        Step(k);
        c := c.prev;
        k := k - 1;
      }
      while position >= c.end
        invariant 0 <= k < |chunks| && chunks[k] == c && c.start <= position
        decreases |chunks| - k
      {
        Step(k);
        c := c.next;
        k := k + 1;
      }
      SpansChained();
      forall i | 0 <= i < |chunks| && Holds(Spans()[i], position)
        ensures chunks[i] == c
      {
        ChainedCoverUnique(Spans(), position, i, k);
      }
    }

    /** `_vte_ring_find_chunk`: move the cursor to the chunk holding
        `position` and return it. */
    method FindChunk(position: nat) returns (c: Chunk)
      requires Valid() && Contains(position)
      modifies this`cursor, this`at
      ensures Valid() && c == cursor
      ensures c.start <= position < c.end
      ensures forall i :: 0 <= i < |chunks| && Holds(Spans()[i], position) ==> chunks[i] == c
    {
      ghost var k;
      c, k := Walk(position);
      MoveCursor(c, k);
    }

    /** Point the cursor at chunk `c`, the `k`-th of the ring. */
    method MoveCursor(c: Chunk, ghost k: nat)
      requires Valid() && k < |chunks| && chunks[k] == c
      modifies this`cursor, this`at
      ensures Valid() && cursor == c
    {
      cursor, at := c, k;
    }

    /** `_vte_ring_index`: the head chunk for any position from its start on,
        otherwise the chunk `_vte_ring_find_chunk` finds; and the slot of the
        position in that chunk's row array. */
    method Index(position: nat) returns (c: Chunk, slot: nat)
      requires Valid() && (position >= head.start || Contains(position))
      modifies this`cursor, this`at
      ensures Valid()
      ensures position >= head.start ==> c == head && cursor == old(cursor)
      ensures position < head.start ==> c == cursor && c.start <= position < c.end
      ensures slot == Slot(position, c.offset, c.mask) && slot <= c.mask
      ensures c == head ==> slot < head.rows.Length
    {
      if position >= head.start {
        c := head;
      } else {
        c := FindChunk(position);
      }
      slot := Slot(position, c.offset, c.mask);
    }

    /** `_vte_ring_fini`: hand every compact chunk, newest first, to
        `_vte_ring_chunk_free_compact`, reading each chunk's predecessor
        before it goes; then release the head's rows and the ring itself.
        The returned trace records the walk over the compact chunks. */
    method Fini(cache: CellCache, pool: CompactPool) returns (ghost trace: seq<Access>)
      requires Valid() && pool.Valid()
      requires forall i :: 0 <= i < |chunks| - 1 ==>
                 chunks[i].totalBytes == CompactDataBytes(pool.layout) && chunks[i] !in pool.released
      requires head.RowsReleasable(cache) && cache.arena.ringCount > 0
      modifies pool, Compacts()`next
      modifies head`rows, head.RowObjects(), cache, cache.arena
      ensures pool.Valid()
      ensures trace == FiniWalk(Compacts(), old(pool.numFree)) && !UseAfterFree(trace)
      ensures pool.numFree == if old(pool.numFree) + |Compacts()| < CompactMaxFree
                              then old(pool.numFree) + |Compacts()| else CompactMaxFree
      ensures forall c :: c in Compacts() ==> c in pool.released
      ensures PushedNewest(pool.free, old(pool.free), Compacts(), pool.numFree - old(pool.numFree))
      ensures head.rows == null
      ensures cache.Valid() && cache.arena.ringCount == old(cache.arena.ringCount) - 1
      ensures cache.arena.ringCount == 0 ==> cache.arena.pools == [] && cache.FreeBuffers() == {}
      ensures cache.arena.ringCount != 0 ==> cache.FreeBuffers() == old(cache.FreeBuffers()) + old(head.RowBuffers())
      ensures forall i :: 0 <= i < old(head.rows).Length ==> old(head.rows)[i].cells == null
      ensures cache.arena.ringCount != 0 ==>
                cache.arena.pools == old(cache.arena.pools) && cache.arena.grants == old(cache.arena.grants)
                && cache.issued == old(cache.issued)
      ensures cache.arena.ringCount != 0 ==> forall row: Rows.RowData ::
                old(allocated(row)) && row !in old(head.RowObjects()) && row.cells !in old(head.RowBuffers()) && old(row.Valid(cache))
                ==> row.Valid(cache)
    {
      CompactChain();
      trace := FiniChunks(pool, cache, head, Compacts());
    }
  }

  /** The body of `_vte_ring_fini` over the ring's compact chunks `chain`
      (oldest first) and its writable chunk `head`. */
  method FiniChunks(pool: CompactPool, cache: CellCache, head: Chunk, ghost chain: seq<Chunk>)
    returns (ghost trace: seq<Access>)
    requires pool.Valid() && Distinct(chain) && BackLinked(chain) && head !in chain
    requires head.prev == if chain == [] then null else chain[|chain| - 1]
    requires forall i :: 0 <= i < |chain| ==>
               chain[i].kind == Compact && chain[i].totalBytes == CompactDataBytes(pool.layout) && chain[i] !in pool.released
    requires head.WritableShape() && head.RowsReleasable(cache) && cache.arena.ringCount > 0
    modifies pool, chain`next
    modifies head`rows, head.RowObjects(), cache, cache.arena
    ensures pool.Valid()
    ensures trace == FiniWalk(chain, old(pool.numFree)) && !UseAfterFree(trace)
    ensures pool.numFree == if old(pool.numFree) + |chain| < CompactMaxFree
                            then old(pool.numFree) + |chain| else CompactMaxFree
    ensures forall c :: c in chain ==> c in pool.released
    ensures PushedNewest(pool.free, old(pool.free), chain, pool.numFree - old(pool.numFree))
    ensures head.rows == null
    ensures cache.Valid() && cache.arena.ringCount == old(cache.arena.ringCount) - 1
    ensures cache.arena.ringCount == 0 ==> cache.arena.pools == [] && cache.FreeBuffers() == {}
    ensures cache.arena.ringCount != 0 ==> cache.FreeBuffers() == old(cache.FreeBuffers()) + old(head.RowBuffers())
    ensures forall i :: 0 <= i < old(head.rows).Length ==> old(head.rows)[i].cells == null
    ensures cache.arena.ringCount != 0 ==>
              cache.arena.pools == old(cache.arena.pools) && cache.arena.grants == old(cache.arena.grants)
              && cache.issued == old(cache.issued)
    ensures cache.arena.ringCount != 0 ==> forall row: Rows.RowData ::
              old(allocated(row)) && row !in old(head.RowObjects()) && row.cells !in old(head.RowBuffers()) && old(row.Valid(cache))
              ==> row.Valid(cache)
  {
    ghost var rowBuffers, freeBuffers := head.RowBuffers(), cache.FreeBuffers();
    trace := FreeCompactChain(pool, head.prev, chain);
    assert head.RowBuffers() == rowBuffers && cache.FreeBuffers() == freeBuffers;
    ReleaseWritable(head, cache, pool);
  }

  /** The end of `_vte_ring_fini`: the writable chunk's rows give their
      buffers back to the cache, then the ring is no longer counted. */
  method ReleaseWritable(head: Chunk, cache: CellCache, ghost pool: CompactPool)
    requires head.WritableShape() && head.RowsReleasable(cache) && cache.arena.ringCount > 0
    requires pool.Valid()
    modifies head`rows, head.RowObjects(), cache, cache.arena
    ensures pool.Valid()
    ensures head.rows == null
    ensures cache.Valid() && cache.arena.ringCount == old(cache.arena.ringCount) - 1
    ensures cache.arena.ringCount == 0 ==> cache.arena.pools == [] && cache.FreeBuffers() == {}
    ensures cache.arena.ringCount != 0 ==> cache.FreeBuffers() == old(cache.FreeBuffers()) + old(head.RowBuffers())
    ensures forall i :: 0 <= i < old(head.rows).Length ==> old(head.rows)[i].cells == null
    ensures cache.arena.ringCount != 0 ==>
              cache.arena.pools == old(cache.arena.pools) && cache.arena.grants == old(cache.arena.grants)
              && cache.issued == old(cache.issued)
    ensures cache.arena.ringCount != 0 ==> forall row: Rows.RowData ::
              old(allocated(row)) && row !in old(head.RowObjects()) && row.cells !in old(head.RowBuffers()) && old(row.Valid(cache))
              ==> row.Valid(cache)
  {
    assert head !in pool.free;
    head.FiniWritable(cache);
    cache.RingDestroyed();
  }

  /** The pool count after `m` more releases from `numFree`. */
  function CountAfter(numFree: nat, m: nat): (r: nat)
    ensures numFree <= CompactMaxFree ==> r <= CompactMaxFree
  {
    if numFree >= CompactMaxFree then numFree
    else if numFree + m < CompactMaxFree then numFree + m
    else CompactMaxFree
  }

  /** One more release moves the count as `CountAfterRelease` says. */
  lemma CountAfterStep(numFree: nat, m: nat)
    ensures CountAfter(numFree, m + 1) == CountAfterRelease(CountAfter(numFree, m))
    ensures CountAfter(numFree, m + 1) == CountAfter(CountAfterRelease(numFree), m)
  {
  }

  /** The walk over `s` followed by one older chunk `x`: the accesses to `x`
      come last, with the count the pool has reached by then. */
  lemma {:induction false} FiniWalkPrepend(x: Chunk, s: seq<Chunk>, numFree: nat)
    ensures FiniWalk([x] + s, numFree)
            == FiniWalk(s, numFree) + [ReadPrev(x), Release(x, CountAfter(numFree, |s|) < CompactMaxFree)]
  {
    var t := [x] + s;
    if s == [] {
      assert t[..|t| - 1] == [];
      assert CountAfter(numFree, 0) == numFree;
    } else {
      var s' := s[..|s| - 1];
      assert t[|t| - 1] == s[|s| - 1];
      assert t[..|t| - 1] == [x] + s';
      FiniWalkPrepend(x, s', CountAfterRelease(numFree));
      CountAfterStep(numFree, |s'|);
      var head := [ReadPrev(s[|s| - 1]), Release(s[|s| - 1], numFree < CompactMaxFree)];
      var tail := [ReadPrev(x), Release(x, CountAfter(numFree, |s|) < CompactMaxFree)];
      assert (head + FiniWalk(s', CountAfterRelease(numFree))) + tail
             == head + (FiniWalk(s', CountAfterRelease(numFree)) + tail);
    }
  }

  /** Of `chain`, exactly the chunks from index `k` on are in `released`. */
  ghost predicate ReleasedFrom(released: set<Chunk>, chain: seq<Chunk>, k: nat)
  {
    && k <= |chain|
    && (forall i :: 0 <= i < k ==> chain[i] !in released)
    && (forall i :: k <= i < |chain| ==> chain[i] in released)
  }

  /** Releasing the chunk just below index `k` moves the boundary down by one. */
  lemma ReleasedFromStep(released: set<Chunk>, chain: seq<Chunk>, k: nat)
    requires Distinct(chain) && ReleasedFrom(released, chain, k) && k > 0
    ensures ReleasedFrom(released + {chain[k - 1]}, chain, k - 1)
  {
  }

  /** The pool holds the newest `pushed` chunks of `chain` on top of what it
      held before (`free0`), the oldest of them in front: the chain is
      released newest first and each push goes in front. */
  ghost predicate PushedNewest(free: seq<Chunk>, free0: seq<Chunk>, chain: seq<Chunk>, pushed: int)
    decreases |free|
  {
    if pushed == 0 then free == free0
    else 0 < pushed <= |chain| && free != [] && free[0] == chain[|chain| - pushed]
         && PushedNewest(free[1..], free0, chain, pushed - 1)
  }

  /** Pushing the next newer chunk of `chain` keeps the pool in that shape. */
  lemma PushedOneMore(free: seq<Chunk>, free0: seq<Chunk>, chain: seq<Chunk>, pushed: nat, c: Chunk)
    requires PushedNewest(free, free0, chain, pushed)
    requires pushed < |chain| && c == chain[|chain| - pushed - 1]
    ensures PushedNewest([c] + free, free0, chain, pushed + 1)
  {
    assert ([c] + free)[1..] == free;
  }

  /** The pool is the newest `pushed` chunks of `chain`, oldest first, followed
      by what it held before: the earlier contents stay, below the pushes. */
  lemma {:induction false} PushedNewestIsSuffix(free: seq<Chunk>, free0: seq<Chunk>, chain: seq<Chunk>, pushed: int)
    requires PushedNewest(free, free0, chain, pushed)
    ensures 0 <= pushed <= |chain| && free == chain[|chain| - pushed..] + free0
    decreases |free|
  {
    if pushed == 0 {
      assert chain[|chain|..] == [];
    } else {
      var from := |chain| - pushed;
      PushedNewestIsSuffix(free[1..], free0, chain, pushed - 1);
      calc {
        free;
        [free[0]] + free[1..];
        [chain[from]] + (chain[from + 1..] + free0);
        { assert chain[from..] == [chain[from]] + chain[from + 1..]; }
        chain[from..] + free0;
      }
    }
  }

  /** The walk marks a chunk's release as kept exactly when the chunk is one
      of the newest ones, as many as the pool had room for. */
  lemma {:induction false} FiniWalkKeeps(chain: seq<Chunk>, numFree: nat, i: nat)
    requires Distinct(chain) && numFree <= CompactMaxFree && i < |chain|
    ensures Release(chain[i], true) in FiniWalk(chain, numFree)
            <==> |chain| - (CountAfter(numFree, |chain|) - numFree) <= i
  {
    var c, rest := chain[|chain| - 1], chain[..|chain| - 1];
    var n := CountAfterRelease(numFree);
    var t, u := FiniWalk(chain, numFree), FiniWalk(rest, n);
    assert t == [ReadPrev(c), Release(c, numFree < CompactMaxFree)] + u;
    CountAfterStep(numFree, |rest|);
    FiniWalkWithin(rest, n);
    if i < |rest| {
      assert chain[i] == rest[i] && chain[i] != c;
      FiniWalkKeeps(rest, n, i);
    }
  }

  /** After the walk, a chunk of `chain` is in the pool exactly when the walk
      records its release as kept. */
  lemma PooledExactlyWhenKept(chain: seq<Chunk>, free0: seq<Chunk>, numFree0: nat, free: seq<Chunk>)
    requires Distinct(chain) && numFree0 <= CompactMaxFree
    requires forall c :: c in chain ==> c !in free0
    requires PushedNewest(free, free0, chain, CountAfter(numFree0, |chain|) - numFree0)
    ensures forall c :: c in chain ==> (c in free <==> Release(c, true) in FiniWalk(chain, numFree0))
  {
    var from := |chain| - (CountAfter(numFree0, |chain|) - numFree0);
    PushedNewestIsSuffix(free, free0, chain, CountAfter(numFree0, |chain|) - numFree0);
    forall c | c in chain
      ensures c in free <==> Release(c, true) in FiniWalk(chain, numFree0)
    {
      var i :| 0 <= i < |chain| && chain[i] == c;
      FiniWalkKeeps(chain, numFree0, i);
      if c in chain[from..] {
        var j :| 0 <= j < |chain[from..]| && chain[from..][j] == c;
        assert chain[from + j] == c;
      }
      if from <= i {
        assert chain[from..][i - from] == c;
      }
    }
  }

  /** The loop of `_vte_ring_fini` over the compact chunks `chain` (oldest
      first, `last` its last one): from the newest back to the oldest, read
      the chunk's predecessor, then hand the chunk to
      `_vte_ring_chunk_free_compact`. Every chunk ends up pooled or freed. */
  method FreeCompactChain(pool: CompactPool, last: Chunk?, ghost chain: seq<Chunk>) returns (ghost trace: seq<Access>)
    requires pool.Valid() && Distinct(chain)
    requires last == if chain == [] then null else chain[|chain| - 1]
    requires forall i :: 0 <= i < |chain| ==>
               chain[i].kind == Compact && chain[i].totalBytes == CompactDataBytes(pool.layout) && chain[i] !in pool.released
    requires BackLinked(chain)
    modifies pool, chain`next
    ensures pool.Valid()
    ensures trace == FiniWalk(chain, old(pool.numFree)) && !UseAfterFree(trace)
    ensures pool.numFree == if old(pool.numFree) + |chain| < CompactMaxFree
                            then old(pool.numFree) + |chain| else CompactMaxFree
    ensures forall c :: c in chain ==> c in pool.released
    ensures PushedNewest(pool.free, old(pool.free), chain, pool.numFree - old(pool.numFree))
  {
    ghost var n0, free0 := pool.numFree, pool.free;
    ghost var k := |chain|;
    var c := last;
    trace := [];
    assert ReleasedFrom(pool.released, chain, k);
    while c != null
      invariant 0 <= k <= |chain|
      invariant c == if k == 0 then null else chain[k - 1]
      invariant trace == FiniWalk(chain[k..], n0)
      invariant pool.Valid() && pool.numFree == CountAfter(n0, |chain| - k)
      invariant ReleasedFrom(pool.released, chain, k)
      invariant PushedNewest(pool.free, free0, chain, pool.numFree - n0)
      decreases k
    {
      c, trace := ReleaseStep(pool, c, chain, k, n0, free0, trace);
      k := k - 1;
    }
    assert free0 == old(pool.free) && n0 == old(pool.numFree);
    WalkDoneSafe(chain, n0, trace);
  }

  /** One turn of the loop in `FreeCompactChain` on chunk `c`, the `k`-th of
      `chain`: read its predecessor first, then release it. */
  method ReleaseStep(pool: CompactPool, c: Chunk, ghost chain: seq<Chunk>, ghost k: nat, ghost n0: nat,
                     ghost free0: seq<Chunk>, ghost trace: seq<Access>) returns (p: Chunk?, ghost trace': seq<Access>)
    requires 0 < k <= |chain| && c == chain[k - 1] && Distinct(chain) && BackLinked(chain)
    requires pool.Valid() && pool.numFree == CountAfter(n0, |chain| - k)
    requires c.kind == Compact && c.totalBytes == CompactDataBytes(pool.layout)
    requires trace == FiniWalk(chain[k..], n0)
    requires ReleasedFrom(pool.released, chain, k)
    requires PushedNewest(pool.free, free0, chain, pool.numFree - n0)
    modifies pool, c`next
    ensures p == if k == 1 then null else chain[k - 2]
    ensures trace' == FiniWalk(chain[k - 1..], n0)
    ensures pool.Valid() && pool.numFree == CountAfter(n0, |chain| - (k - 1))
    ensures ReleasedFrom(pool.released, chain, k - 1)
    ensures PushedNewest(pool.free, free0, chain, pool.numFree - n0)
  {
    p := LoadPrev(pool, c);
    trace' := ReleaseNewest(pool, c, chain, k, n0, free0, trace + [ReadPrev(c)]);
  }

  /** Once the walk has reached the oldest chunk, its trace is the whole walk,
      and that walk never touches a chunk it has freed. */
  lemma WalkDoneSafe(chain: seq<Chunk>, numFree: nat, trace: seq<Access>)
    requires Distinct(chain) && trace == FiniWalk(chain[0..], numFree)
    ensures trace == FiniWalk(chain, numFree) && !UseAfterFree(trace)
  {
    assert chain[0..] == chain;
    FiniWalkSafe(chain, numFree);
  }

  /** Read `c->prev_chunk`. The chunk must still be the ring's memory: not
      yet released, or released into the pool but not handed back to the
      system allocator. */
  method LoadPrev(pool: CompactPool, c: Chunk) returns (p: Chunk?)
    requires !pool.Dropped(c)
    ensures p == c.prev
  {
    p := c.prev;
  }

  /** The second half of one turn of the loop in `FreeCompactChain`: chunk
      `k - 1` of `chain`, whose predecessor has just been read, goes to the
      pool, and the walk records whether the pool kept it. */
  method ReleaseNewest(pool: CompactPool, c: Chunk, ghost chain: seq<Chunk>, ghost k: nat, ghost n0: nat,
                       ghost free0: seq<Chunk>, ghost trace: seq<Access>) returns (ghost trace': seq<Access>)
    requires 0 < k <= |chain| && c == chain[k - 1] && Distinct(chain)
    requires pool.Valid() && pool.numFree == CountAfter(n0, |chain| - k)
    requires c.kind == Compact && c.totalBytes == CompactDataBytes(pool.layout)
    requires ReleasedFrom(pool.released, chain, k)
    requires trace == FiniWalk(chain[k..], n0) + [ReadPrev(c)]
    requires PushedNewest(pool.free, free0, chain, pool.numFree - n0)
    modifies pool, c`next
    ensures pool.Valid() && pool.numFree == CountAfter(n0, |chain| - (k - 1))
    ensures ReleasedFrom(pool.released, chain, k - 1)
    ensures trace' == FiniWalk(chain[k - 1..], n0)
    ensures PushedNewest(pool.free, free0, chain, pool.numFree - n0)
  {
    ReleasedFromStep(pool.released, chain, k);
    ghost var pushed := pool.numFree - n0;
    pool.FreeCompact(c);
    if !pool.Dropped(c) {
      assert pushed == |chain| - k;
      PushedOneMore(old(pool.free), free0, chain, pushed, c);
    }
    trace' := trace + [Release(c, !pool.Dropped(c))];
    ReleaseExtendsWalk(chain, k, n0, trace, !pool.Dropped(c));
    CountAfterStep(n0, |chain| - k);
  }

  /** Reading chunk `k - 1`'s link and then releasing it, kept or not as the
      count reached so far says, extends the walk over `chain[k..]` to the
      walk over `chain[k - 1..]`. */
  lemma ReleaseExtendsWalk(chain: seq<Chunk>, k: nat, n0: nat, trace: seq<Access>, pooled: bool)
    requires 0 < k <= |chain| && trace == FiniWalk(chain[k..], n0) + [ReadPrev(chain[k - 1])]
    requires pooled == (CountAfter(n0, |chain| - k) < CompactMaxFree)
    ensures trace + [Release(chain[k - 1], pooled)] == FiniWalk(chain[k - 1..], n0)
  {
    var c := chain[k - 1];
    FiniWalkPrepend(c, chain[k..], n0);
    assert chain[k - 1..] == [c] + chain[k..];
    assert trace + [Release(c, pooled)] == FiniWalk(chain[k..], n0) + [ReadPrev(c), Release(c, pooled)];
  }
}
