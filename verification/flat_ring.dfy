/** The flat-array ring that the header still describes: rows `delta` up to
    `delta + length` (exclusive) live in a circular array of `max` slots,
    addressed by `position % max`, with a one-entry cache beside it. Every
    operation is a macro over the record's fields, so the record is a value
    here and the operations are functions on it. */
module FlatRing {
  import opened Bits

  /** `glong` remainder: C rounds the quotient toward zero, so the remainder
      carries the sign of the dividend. */
  function CRem(a: int, b: int): (r: int)
    requires b != 0
    ensures (if r < 0 then -r else r) < (if b < 0 then -b else b)
    ensures (a - r) % (if b < 0 then -b else b) == 0
    ensures a >= 0 ==> r >= 0
    ensures a < 0 ==> r <= 0
  {
    var n := if b < 0 then -b else b;
    var m, q := (if a < 0 then -a else a) % n, (if a < 0 then -a else a) / n;
    ModUnique(a - (if a < 0 then -m else m), n, if a < 0 then -q else q, 0);
    if a < 0 then -m else m
  }

  /** For a non-negative dividend and positive divisor, C's remainder is the
      ordinary one. */
  lemma CRemNonNegative(a: int, b: int)
    requires a >= 0 && b > 0
    ensures CRem(a, b) == a % b
  {
  }

  /** C's remainder by a positive divisor is zero exactly when the Euclidean
      one is. */
  lemma CRemZeroIff(a: int, b: int)
    requires b > 0
    ensures CRem(a, b) == 0 <==> a % b == 0
  {
    var r := CRem(a, b);
    if a % b == 0 && r != 0 {
      var k := a / b - (a - r) / b;
      assert r == b * k;
      MulAtLeast(b, k);
    }
  }

  /** The record `VteRing` of the header; `T` stands for the row pointers. */
  datatype Ring<T> = Ring(delta: int, length: int, max: int, cachedItem: int, cachedData: T, rows: seq<T>)

  /** `_vte_ring_delta`. */
  function Delta<T>(r: Ring<T>): int
  {
    r.delta
  }

  /** `_vte_ring_length`. */
  function Length<T>(r: Ring<T>): int
  {
    r.length
  }

  /** `_vte_ring_next`: the first position past the stored rows. */
  function Next<T>(r: Ring<T>): int
  {
    r.delta + r.length
  }

  /** `_vte_ring_max`. */
  function Max<T>(r: Ring<T>): int
  {
    r.max
  }

  /** `_vte_ring_contains`. */
  predicate Contains<T>(r: Ring<T>, position: int)
  {
    position >= r.delta && position < r.delta + r.length
  }

  /** A position is stored exactly when it lies between the first stored row
      and the next free one; the accessors hand back the record's fields. */
  lemma ContainsIffBetween<T>(r: Ring<T>, position: int)
    ensures Contains(r, position) <==> Delta(r) <= position < Next(r)
    ensures Next(r) == Delta(r) + Length(r)
    ensures Delta(r) == r.delta && Length(r) == r.length && Max(r) == r.max
  {
  }

  /** A ring with a positive length holds its first and last rows and
      nothing on either side of them. */
  lemma ContainsEnds<T>(r: Ring<T>)
    requires r.length > 0
    ensures Contains(r, Delta(r)) && Contains(r, Next(r) - 1)
    ensures !Contains(r, Delta(r) - 1) && !Contains(r, Next(r))
  {
  }

  /** `_vte_ring_is_cached`. */
  predicate IsCached<T>(r: Ring<T>, v: int)
  {
    r.cachedItem == v
  }

  /** `_vte_ring_get_cached_data`. */
  function GetCachedData<T>(r: Ring<T>): T
  {
    r.cachedData
  }

  /** `_vte_ring_set_cache`: remember `data` for item `v`; the rows and the
      bounds are left alone. */
  function SetCache<T>(r: Ring<T>, v: int, data: T): (r': Ring<T>)
    ensures IsCached(r', v) && GetCachedData(r') == data
    ensures forall w :: IsCached(r', w) <==> w == v
    ensures r'.delta == r.delta && r'.length == r.length && r'.max == r.max && r'.rows == r.rows
    ensures forall p :: Contains(r', p) <==> Contains(r, p)
  {
    r.(cachedItem := v, cachedData := data)
  }

  /** Setting the cache again replaces what was set before. */
  lemma SetCacheTwice<T>(r: Ring<T>, v: int, d: T, w: int, e: T)
    ensures SetCache(SetCache(r, v, d), w, e) == SetCache(r, w, e)
  {
  }

  /** The slot the non-debug `_vte_ring_index` reads for `position`. */
  function Slot<T>(r: Ring<T>, position: int): int
    requires r.max != 0
  {
    CRem(position, r.max)
  }

  /** `_vte_ring_index` without `VTE_DEBUG`: the pointer in the slot, or
      `None` when the slot lies outside the array (a read out of bounds in C,
      which a negative position reaches). */
  function Index<T>(r: Ring<T>, position: int): (row: Option<T>)
    requires r.max != 0
    ensures r.max > 0 && position >= 0 && |r.rows| == r.max ==> row == Some(r.rows[position % r.max])
    ensures r.max > 0 && position < 0 && position % r.max != 0 ==> row == None
    ensures r.max > 0 && position % r.max == 0 && r.rows != [] ==> row == Some(r.rows[0])
  {
    SlotCases(r, position);
    var s := Slot(r, position);
    if 0 <= s < |r.rows| then Some(r.rows[s]) else None
  }

  datatype Option<T> = None | Some(value: T)

  /** The slot of a non-negative position is its ordinary remainder, and a
      slot is 0 exactly when `max` divides the position. */
  lemma SlotCases<T>(r: Ring<T>, position: int)
    requires r.max != 0
    ensures r.max > 0 && position >= 0 ==> Slot(r, position) == position % r.max
    ensures r.max > 0 ==> (Slot(r, position) == 0 <==> position % r.max == 0)
  {
    if r.max > 0 {
      CRemZeroIff(position, r.max);
      if position >= 0 {
        CRemNonNegative(position, r.max);
      }
    }
  }

  /** The slot of a non-negative position is a valid index below `max`, so a
      ring whose array has `max` entries always finds a row there. */
  lemma SlotInRange<T>(r: Ring<T>, position: int)
    requires r.max > 0 && position >= 0
    ensures 0 <= Slot(r, position) < r.max
    ensures |r.rows| == r.max ==> Index(r, position) == Some(r.rows[Slot(r, position)])
  {
  }

  /** Positions `max` apart share a slot: the array is reused cyclically. */
  lemma SlotPeriodic<T>(r: Ring<T>, position: int)
    requires r.max > 0 && position >= 0
    ensures Slot(r, position + r.max) == Slot(r, position)
  {
    CRemNonNegative(position, r.max);
    CRemNonNegative(position + r.max, r.max);
    var q := position / r.max;
    assert position + r.max == r.max * (q + 1) + position % r.max;
    ModUnique(position + r.max, r.max, q + 1, position % r.max);
  }

  /** While a ring holds no more rows than it has slots, two different stored
      rows never share a slot, negative positions included. */
  lemma StoredRowsApart<T>(r: Ring<T>, p: int, q: int)
    requires r.max > 0 && r.length <= r.max
    requires Contains(r, p) && Contains(r, q) && p != q
    ensures Slot(r, p) != Slot(r, q)
  {
    var a, b := if p < q then p else q, if p < q then q else p;
    var sa, sb := CRem(a, r.max), CRem(b, r.max);
    if sa == sb {
      MultiplesApart(a - sa, b - sb, r.max);
    }
  }

  /** Two different multiples of `d` are at least `d` apart. */
  lemma MultiplesApart(x: int, y: int, d: int)
    requires d >= 1 && x % d == 0 && y % d == 0 && x < y
    ensures y - x >= d
  {
    var kx, ky := x / d, y / d;
    assert x == d * kx && y == d * ky;
    assert y - x == d * (ky - kx);
    MulAtLeast(d, ky - kx);
  }
}
