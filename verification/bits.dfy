/** Integer helpers shared by the storage model: powers of two, the bit length
    used for size classes, bitwise AND on naturals, and unsigned 32-bit
    wrap-around (the C code computes with `guint`). */
module Bits {

  /** The C `guint` range. */
  const U32Modulus: nat := 0x1_0000_0000

  type U32 = x: int | 0 <= x < 0x1_0000_0000

  function Pow2(k: nat): (r: nat)
    ensures r >= 1
  {
    if k == 0 then 1 else 2 * Pow2(k - 1)
  }

  lemma {:induction false} Pow2Monotone(j: nat, k: nat)
    requires j <= k
    ensures Pow2(j) <= Pow2(k)
  {
    if j < k {
      Pow2Monotone(j, k - 1);
    }
  }

  lemma {:induction false} Pow2Add(a: nat, b: nat)
    ensures Pow2(a + b) == Pow2(a) * Pow2(b)
  {
    if a > 0 {
      Pow2Add(a - 1, b);
      assert Pow2(a + b) == 2 * Pow2(a - 1 + b);
    }
  }

  /** 2^31, the first power of two beyond a signed 32-bit value. */
  lemma Pow2Of31()
    ensures Pow2(31) == 0x8000_0000
  {
    assert Pow2(10) == 1024 && Pow2(11) == 2048;
    Pow2Add(10, 10);
    Pow2Add(20, 11);
  }

  /** Number of binary digits needed to write `n`, and 1 for 0: the value of
      glib's `g_bit_storage`. */
  function BitLength(n: nat): (r: nat)
    ensures r >= 1
  {
    if n <= 1 then 1 else 1 + BitLength(n / 2)
  }

  /** `n` has exactly `BitLength(n)` significant bits. */
  lemma {:induction false} BitLengthBounds(n: nat)
    requires n >= 1
    ensures Pow2(BitLength(n) - 1) <= n < Pow2(BitLength(n))
  {
    if n > 1 {
      BitLengthBounds(n / 2);
      var b := BitLength(n / 2);
      assert BitLength(n) == b + 1;
      assert Pow2(b + 1) == 2 * Pow2(b);
    }
  }

  /** No smaller power of two exceeds `n`. */
  lemma BitLengthLeast(n: nat, k: nat)
    requires n >= 1 && n < Pow2(k)
    ensures BitLength(n) <= k
  {
    BitLengthBounds(n);
    if k < BitLength(n) {
      Pow2Monotone(k, BitLength(n) - 1);
    }
  }

  /** Bitwise AND of two naturals, bit by bit from the least significant one. */
  function BitAnd(a: nat, b: nat): (r: nat)
    ensures r <= a && r <= b
    decreases a
  {
    if a == 0 || b == 0 then 0
    else 2 * BitAnd(a / 2, b / 2) + (if a % 2 == 1 && b % 2 == 1 then 1 else 0)
  }

  /** Splitting off the lowest bit of a remainder modulo `2 * p`. */
  lemma ModDouble(x: nat, p: nat)
    requires p >= 1
    ensures x % (2 * p) == 2 * ((x / 2) % p) + x % 2
  {
    var q, s := (x / 2) / p, (x / 2) % p;
    assert x / 2 == p * q + s;
    assert x == (2 * p) * q + (2 * s + x % 2);
    ModUnique(x, 2 * p, q, 2 * s + x % 2);
  }

  /** Quotient and remainder are determined by the division equation. */
  lemma ModUnique(x: int, d: int, q: int, r: int)
    requires d >= 1 && 0 <= r < d && x == d * q + r
    ensures x % d == r && x / d == q
  {
    var q', r' := x / d, x % d;
    assert d * q' + r' == d * q + r;
    assert d * (q' - q) == r - r';
    if q' != q {
      MulAtLeast(d, q' - q);
    }
  }

  /** A non-zero multiple of `d` is at least `d` in size. */
  lemma {:induction false} MulAtLeast(d: int, k: int)
    requires d >= 1 && k != 0
    ensures d * k >= d || d * k <= -d
    decreases if k > 0 then k else -k
  {
    if k > 1 {
      MulAtLeast(d, k - 1);
      assert d * k == d * (k - 1) + d;
    } else if k < -1 {
      MulAtLeast(d, k + 1);
      assert d * k == d * (k + 1) - d;
    }
  }

  /** Masking with `2^k - 1` keeps the remainder modulo `2^k`. */
  lemma {:induction false} BitAndLowMask(x: nat, k: nat)
    ensures BitAnd(x, Pow2(k) - 1) == x % Pow2(k)
  {
    if k == 0 {
    } else if x == 0 {
    } else {
      var p := Pow2(k - 1);
      assert Pow2(k) - 1 == 2 * (p - 1) + 1;
      assert (Pow2(k) - 1) / 2 == p - 1;
      assert (Pow2(k) - 1) % 2 == 1;
      BitAndLowMask(x / 2, k - 1);
      ModDouble(x, p);
    }
  }

  /** The unsigned 32-bit value of an integer expression (C `guint` arithmetic). */
  function Wrap32(x: int): (r: U32)
    ensures (r - x) % U32Modulus == 0
  {
    x % U32Modulus
  }

  /** Reducing modulo 2^32 first does not change a remainder modulo 64. */
  lemma Wrap32Mod64(x: int)
    ensures Wrap32(x) % 64 == x % 64
  {
    var q := x / U32Modulus;
    assert x == U32Modulus * q + Wrap32(x);
    var m := Wrap32(x) / 64;
    assert Wrap32(x) == 64 * m + Wrap32(x) % 64;
    assert x == 64 * (0x400_0000 * q + m) + Wrap32(x) % 64;
    ModUnique(x, 64, 0x400_0000 * q + m, Wrap32(x) % 64);
  }
}
