/** VteRowData: one terminal line, a cell buffer with an explicit length and a
    soft-wrap flag. The editing operations shift cells in place in the row's
    buffer and grow the buffer through the cell cache. */
module Rows {
  import opened Cells

  /** The cells of `s` with `x` placed at `col` and the rest moved up by one. */
  function Inserted(s: seq<Cell>, col: nat, x: Cell): (r: seq<Cell>)
    requires col <= |s|
    ensures |r| == |s| + 1 && r[col] == x
    ensures forall i :: 0 <= i < col ==> r[i] == s[i]
    ensures forall i :: col < i <= |s| ==> r[i] == s[i - 1]
  {
    s[..col] + [x] + s[col..]
  }

  /** What `_vte_row_data_remove (col)` leaves: the cell at `col` gone when `col`
      is inside the row; the last cell gone when it is not; nothing gone from an
      empty row. */
  function Removed(s: seq<Cell>, col: nat): (r: seq<Cell>)
    ensures |r| == if s == [] then 0 else |s| - 1
    ensures forall i :: 0 <= i < |r| && i < col ==> r[i] == s[i]
    ensures forall i :: col <= i < |r| ==> r[i] == s[i + 1]
  {
    if s == [] then s
    else if col < |s| then s[..col] + s[col + 1..]
    else s[..|s| - 1]
  }

  /** The row padded with copies of `x` up to `n` cells; a row already that long
      is left alone. */
  function Filled(s: seq<Cell>, x: Cell, n: nat): (r: seq<Cell>)
    ensures |r| == if |s| < n then n else |s|
    ensures r[..|s|] == s
    ensures forall i :: |s| <= i < |r| ==> r[i] == x
  {
    if |s| < n then s + seq(n - |s|, _ => x) else s
  }

  /** The row cut to at most `m` cells. */
  function Shrunk(s: seq<Cell>, m: nat): (r: seq<Cell>)
    ensures |r| == if m < |s| then m else |s|
    ensures r == s[..|r|]
  {
    if m < |s| then s[..m] else s
  }

  /** Appending is inserting at the end of the row. */
  lemma AppendIsInsertAtEnd(s: seq<Cell>, x: Cell)
    ensures Inserted(s, |s|, x) == s + [x]
  {
  }

  /** Removing what was just inserted gives back the row. */
  lemma RemoveUndoesInsert(s: seq<Cell>, col: nat, x: Cell)
    requires col <= |s|
    ensures Removed(Inserted(s, col, x), col) == s
  {
    var t := Inserted(s, col, x);
    assert t[..col] + t[col + 1..] == s;
  }

  /** Filling twice to the same width is filling once. */
  lemma FillIdempotent(s: seq<Cell>, x: Cell, n: nat)
    ensures Filled(Filled(s, x, n), x, n) == Filled(s, x, n)
  {
  }

  /** Filling an empty row gives `n` copies of the cell. */
  lemma FillEmpty(x: Cell, n: nat)
    ensures Filled([], x, n) == seq(n, _ => x)
  {
  }

  /** Shrinking never lengthens a row and is idempotent. */
  lemma ShrinkIdempotent(s: seq<Cell>, m: nat)
    ensures Shrunk(Shrunk(s, m), m) == Shrunk(s, m)
    ensures |Shrunk(s, m)| <= |s|
  {
  }

  /** The cell move of `_vte_row_data_insert`: the first `n` cells of `a`
      with `x` placed at `col` and the cells from `col` on moved one right. */
  method ShiftIn(a: array<Cell>, col: nat, n: nat, x: Cell)
    requires col <= n < a.Length
    modifies a
    ensures a[..n + 1] == Inserted(old(a[..n]), col, x)
  {
    ghost var s := a[..n];
    var i := n;
    while i > col
      invariant col <= i <= n
      invariant forall k :: 0 <= k < i ==> a[k] == s[k]
      invariant forall k :: i < k <= n ==> a[k] == s[k - 1]
      decreases i
    {
      a[i] := a[i - 1];
      i := i - 1;
    }
    a[col] := x;
    assert a[..n + 1] == Inserted(s, col, x);
  }

  /** The cell writes of `_vte_row_data_fill`: copies of `x` from `from` up
      to `n`, the cells before `from` kept. */
  method PadWith(a: array<Cell>, from: nat, n: nat, x: Cell)
    requires from <= n <= a.Length
    modifies a
    ensures a[..n] == Filled(old(a[..from]), x, n)
  {
    ghost var s := a[..from];
    for i := from to n
      invariant forall k :: 0 <= k < from ==> a[k] == s[k]
      invariant forall k :: from <= k < i ==> a[k] == x
    {
      a[i] := x;
    }
    assert a[..n] == Filled(s, x, n);
  }

  class RowData {
    var cells: CellBuffer?
    var len: nat
    var softWrapped: bool

    /** The state of a row record in zero-filled memory. */
    constructor ()
      ensures cells == null && len == 0 && !softWrapped
    {
      cells, len, softWrapped := null, 0, false;
    }

    /** Length fits the buffer; no buffer means no cells. */
    ghost predicate Wellformed()
      reads this
    {
      (cells == null ==> len == 0) && (cells != null ==> cells.Valid() && len <= cells.allocLen)
    }

    /** Well formed, and the buffer is one the cache handed out and has not
        taken back. */
    ghost predicate Valid(cache: CellCache)
      reads this, cache, cache.arena
    {
      && Wellformed()
      && cache.Valid()
      && (cells != null ==> cells in cache.issued && cells !in cache.FreeBuffers())
    }

    /** The cell array the row writes into, if any. */
    ghost function CellArray(): set<array<Cell>>
      reads this
    {
      if cells == null then {} else {cells.cells}
    }

    ghost function Contents(): seq<Cell>
      reads this, cells, CellArray()
      requires Wellformed()
    {
      if cells == null then [] else cells.cells[..len]
    }

    /** `_vte_row_data_init`: reset length and flag; the buffer is kept. */
    method Init()
      modifies this`len, this`softWrapped
      ensures len == 0 && !softWrapped
    {
      len := 0;
      softWrapped := false;
    }

    /** `_vte_row_data_fini`: give the buffer back to the cache. The length is
        left as it was. */
    method Fini(cache: CellCache)
      requires Valid(cache)
      modifies this`cells, cache
      ensures cells == null && len == old(len)
      ensures cache.Valid() && cache.issued == old(cache.issued)
      ensures old(cells) == null ==> cache.freeCells == old(cache.freeCells)
      ensures old(cells) != null ==>
                cache.freeCells == PushFree(old(cache.freeCells), old(cells))
                && cache.FreeBuffers() == old(cache.FreeBuffers()) + {old(cells)}
    {
      if cells != null {
        cache.Free(cells);
      }
      cells := null;
    }

    /** `_vte_row_data_ensure`: make room for `n` cells when the row is
        shorter than that, keeping the cells it has. */
    method Ensure(n: nat, cache: CellCache)
      requires Valid(cache)
      requires len < n ==> n < RequestLimit
      modifies this`cells, cache, cache.arena, cache.FreeArrays()
      ensures Valid(cache) && len == old(len) && softWrapped == old(softWrapped)
      ensures Contents() == old(Contents())
      ensures old(len) < n ==> cells != null && n <= cells.allocLen
      ensures old(len) >= n ==> cells == old(cells) && unchanged(cache) && unchanged(cache.arena)
      ensures old(len) < n && old(cells) != null && n <= old(cells).allocLen ==>
                cells == old(cells) && unchanged(cache) && unchanged(cache.arena)
      ensures cache.arena.ringCount == old(cache.arena.ringCount)
      ensures old(len) < n && (old(cells) == null || old(cells).allocLen < n) ==>
                AllocatedFrom(old(cache.freeCells), old(cache.issued), old(cache.arena.pools), old(cache.arena.grants),
                              cache.arena.layout, cells, cache.issued, cache.arena.pools, cache.arena.grants)
      ensures old(len) < n && old(cells) == null ==>
                cells.rank == Rank(n) && cache.freeCells == PopFree(old(cache.freeCells), cells.rank)
      ensures old(len) < n && old(cells) != null && old(cells).allocLen < n ==>
                cells.rank == Rank(n) && old(cells).rank < cells.rank
                && cache.freeCells == PushFree(PopFree(old(cache.freeCells), cells.rank), old(cells))
      ensures cells != old(cells) ==> cells.cells in old(cache.FreeArrays()) || fresh(cells.cells)
    {
      if len < n {
        ghost var s := Contents();
        if cells != null {
          cache.LiveArrayNotFree(cells);
        }
        cells := cache.Realloc(cells, n);
        if old(cells) != null && cells != old(cells) {
          assert cells.cells[..len] == cells.cells[..old(cells).allocLen][..len];
        }
      }
    }

    /** `_vte_row_data_insert`: put `x` at column `col`, moving the cells from
        `col` on one place right. */
    method Insert(col: nat, x: Cell, cache: CellCache)
      requires Valid(cache) && col <= len && len + 1 < RequestLimit
      modifies this`cells, this`len, cache, cache.arena, cache.FreeArrays(), CellArray()
      ensures Valid(cache) && softWrapped == old(softWrapped)
      ensures Contents() == Inserted(old(Contents()), col, x)
      ensures old(cells) != null && old(len) < old(cells).allocLen ==>
                cells == old(cells) && unchanged(cache) && unchanged(cache.arena)
      ensures cache.arena.ringCount == old(cache.arena.ringCount)
      ensures old(cells) == null || old(cells).allocLen <= old(len) ==>
                AllocatedFrom(old(cache.freeCells), old(cache.issued), old(cache.arena.pools), old(cache.arena.grants),
                              cache.arena.layout, cells, cache.issued, cache.arena.pools, cache.arena.grants)
      ensures old(cells) == null ==>
                cells.rank == Rank(old(len) + 1) && cache.freeCells == PopFree(old(cache.freeCells), cells.rank)
      ensures old(cells) != null && old(cells).allocLen <= old(len) ==>
                cells.rank == Rank(old(len) + 1) && old(cells).rank < cells.rank
                && cache.freeCells == PushFree(PopFree(old(cache.freeCells), cells.rank), old(cells))
    {
      Ensure(len + 1, cache);
      InsertInPlace(col, x);
    }

    /** The body of `_vte_row_data_insert` once the buffer has room: shift and
        store in the buffer's array, then count the new cell. */
    method InsertInPlace(col: nat, x: Cell)
      requires Wellformed() && cells != null && col <= len < cells.allocLen
      modifies this`len, CellArray()
      ensures Wellformed() && cells == old(cells) && len == old(len) + 1
      ensures Contents() == Inserted(old(Contents()), col, x)
    {
      ShiftIn(cells.cells, col, len, x);
      len := len + 1;
    }

    /** `_vte_row_data_append`: put `x` after the last cell. */
    method Append(x: Cell, cache: CellCache)
      requires Valid(cache) && len + 1 < RequestLimit
      modifies this`cells, this`len, cache, cache.arena, cache.FreeArrays(), CellArray()
      ensures Valid(cache) && softWrapped == old(softWrapped)
      ensures Contents() == old(Contents()) + [x]
      ensures old(cells) != null && old(len) < old(cells).allocLen ==>
                cells == old(cells) && unchanged(cache) && unchanged(cache.arena)
      ensures cache.arena.ringCount == old(cache.arena.ringCount)
      ensures old(cells) == null || old(cells).allocLen <= old(len) ==>
                AllocatedFrom(old(cache.freeCells), old(cache.issued), old(cache.arena.pools), old(cache.arena.grants),
                              cache.arena.layout, cells, cache.issued, cache.arena.pools, cache.arena.grants)
      ensures old(cells) == null ==>
                cells.rank == Rank(old(len) + 1) && cache.freeCells == PopFree(old(cache.freeCells), cells.rank)
      ensures old(cells) != null && old(cells).allocLen <= old(len) ==>
                cells.rank == Rank(old(len) + 1) && old(cells).rank < cells.rank
                && cache.freeCells == PushFree(PopFree(old(cache.freeCells), cells.rank), old(cells))
    {
      ghost var s := Contents();
      Ensure(len + 1, cache);
      cells.cells[len] := x;
      len := len + 1;
      assert Contents() == s + [x];
    }

    /** `_vte_row_data_remove`: move the cells after `col` one place left and
        drop one from the length, if there is one to drop. */
    method Remove(col: nat)
      requires Wellformed()
      modifies this`len, CellArray()
      ensures Wellformed() && cells == old(cells) && softWrapped == old(softWrapped)
      ensures Contents() == Removed(old(Contents()), col)
    {
      ghost var s := Contents();
      var i := col + 1;
      while i < len
        modifies CellArray()
        invariant col + 1 <= i && (col < len ==> i <= len)
        invariant forall k :: 0 <= k < col && k < len ==> cells.cells[k] == s[k]
        invariant forall k :: col <= k < i - 1 && k < len ==> cells.cells[k] == s[k + 1]
        invariant forall k :: i - 1 <= k < len ==> cells.cells[k] == s[k]
        decreases len - i
      {
        cells.cells[i - 1] := cells.cells[i];
        i := i + 1;
      }
      if len > 0 {
        len := len - 1;
      }
      assert Contents() == Removed(s, col);
    }

    /** `_vte_row_data_fill`: pad the row with copies of `x` up to `n` cells. */
    method Fill(x: Cell, n: nat, cache: CellCache)
      requires Valid(cache)
      requires len < n ==> n < RequestLimit
      modifies this`cells, this`len, cache, cache.arena, cache.FreeArrays(), CellArray()
      ensures Valid(cache) && softWrapped == old(softWrapped)
      ensures Contents() == Filled(old(Contents()), x, n)
      ensures old(len) >= n ==> cells == old(cells) && len == old(len) && unchanged(cache) && unchanged(cache.arena)
      ensures old(len) < n && old(cells) != null && n <= old(cells).allocLen ==>
                cells == old(cells) && unchanged(cache) && unchanged(cache.arena)
      ensures cache.arena.ringCount == old(cache.arena.ringCount)
      ensures old(len) < n && (old(cells) == null || old(cells).allocLen < n) ==>
                AllocatedFrom(old(cache.freeCells), old(cache.issued), old(cache.arena.pools), old(cache.arena.grants),
                              cache.arena.layout, cells, cache.issued, cache.arena.pools, cache.arena.grants)
      ensures old(len) < n && old(cells) == null ==>
                cells.rank == Rank(n) && cache.freeCells == PopFree(old(cache.freeCells), cells.rank)
      ensures old(len) < n && old(cells) != null && old(cells).allocLen < n ==>
                cells.rank == Rank(n) && old(cells).rank < cells.rank
                && cache.freeCells == PushFree(PopFree(old(cache.freeCells), cells.rank), old(cells))
    {
      if len < n {
        Ensure(n, cache);
        PadWith(cells.cells, len, n, x);
        len := n;
      }
    }

    /** `_vte_row_data_shrink`: cut the row to `m` cells; the buffer and its
        capacity stay. */
    method Shrink(m: nat)
      requires Wellformed()
      modifies this`len
      ensures Wellformed() && cells == old(cells)
      ensures Contents() == Shrunk(old(Contents()), m)
    {
      if m < len {
        len := m;
      }
    }
  }
}
