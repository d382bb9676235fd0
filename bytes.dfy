/** Byte-level vocabulary of the safepoint table format: little-endian fields
    of a chosen width, the width chosen for a value, and the bit operations
    the builder applies to slot bitmaps and register masks. */
module Bytes {

  /** One byte of the emitted stream. */
  type byte = x: int | 0 <= x < 256

  function Pow2(n: nat): (p: nat)
    ensures p >= 1
  {
    if n == 0 then 1 else 2 * Pow2(n - 1)
  }

  /** Register masks have 31 usable bits. */
  lemma Pow2Of31()
    ensures Pow2(31) == 0x8000_0000
  {
    assert Pow2(8) == 0x100;
    assert Pow2(16) == 0x1_0000;
    assert Pow2(24) == 0x100_0000;
  }

  /** The number of distinct values a field of k bytes holds. */
  function Pow256(k: nat): (p: nat)
    ensures p >= 1
  {
    if k == 0 then 1 else 256 * Pow256(k - 1)
  }

  lemma Pow256Values()
    ensures Pow256(1) == 0x100 && Pow256(2) == 0x1_0000
    ensures Pow256(3) == 0x100_0000 && Pow256(4) == 0x1_0000_0000
  {
  }

  /** The width, in bytes, that the table gives a field whose largest value
      is `v` (value_to_bytes): the least k in 0..4 with v < 256^k for every
      value that fits 32 bits, and 4 for anything larger. */
  function ValueToBytes(v: int): (k: nat)
    requires 0 <= v
    ensures k <= 4
    ensures v < Pow256(4) ==> v < Pow256(k)
    ensures k > 0 ==> Pow256(k - 1) <= v
  {
    Pow256Values();
    if v == 0 then 0
    else if v <= 0xff then 1
    else if v <= 0xffff then 2
    else if v <= 0xff_ffff then 3
    else 4
  }

  /** The `bytes` bytes that emit_bytes writes for `value`: least significant
      byte first, each byte being what is left after the previous shifts. */
  function EncodeLE(value: nat, bytes: nat): (s: seq<byte>)
    ensures |s| == bytes
  {
    if bytes == 0 then [] else [value % 256] + EncodeLE(value / 256, bytes - 1)
  }

  /** Bit r of x, counting from the least significant bit. */
  predicate BitSet(x: nat, r: nat)
  {
    if r == 0 then x % 2 == 1 else BitSet(x / 2, r - 1)
  }

  /** x | (1 << r) */
  function SetBit(x: nat, r: nat): nat
  {
    if r == 0 then (if x % 2 == 1 then x else x + 1)
    else 2 * SetBit(x / 2, r - 1) + x % 2
  }

  /** a | b on non-negative integers. */
  function BitOr(a: nat, b: nat): nat
    decreases a + b
  {
    if a == 0 && b == 0 then 0
    else 2 * BitOr(a / 2, b / 2) + (if a % 2 == 1 || b % 2 == 1 then 1 else 0)
  }

  lemma {:induction false} NoBitOfZero(r: nat)
    ensures !BitSet(0, r)
  {
    if r > 0 {
      NoBitOfZero(r - 1);
    }
  }

  /** Setting bit r of an n-bit value sets exactly that bit and stays within n bits. */
  lemma {:induction false} SetBitExactly(x: nat, r: nat, r2: nat, n: nat)
    requires x < Pow2(n) && r < n
    ensures SetBit(x, r) < Pow2(n)
    ensures BitSet(SetBit(x, r), r2) <==> BitSet(x, r2) || r == r2
  {
    if r == 0 {
      if r2 > 0 {
        assert SetBit(x, r) / 2 == x / 2;
      }
    } else {
      SetBitExactly(x / 2, r - 1, if r2 == 0 then 0 else r2 - 1, n - 1);
      var y := SetBit(x / 2, r - 1);
      assert SetBit(x, r) == 2 * y + x % 2;
      assert SetBit(x, r) / 2 == y && SetBit(x, r) % 2 == x % 2;
    }
  }

  /** The bytes of a slot bitmap stay bytes when a bit is set. */
  lemma SetBitInByte(x: byte, r: nat, r2: nat)
    requires r < 8
    ensures SetBit(x, r) < 256
    ensures BitSet(SetBit(x, r), r2) <==> BitSet(x, r2) || r == r2
  {
    assert Pow2(8) == 256;
    SetBitExactly(x, r, r2, 8);
  }

  /** The union of two n-bit masks is an n-bit mask containing both. */
  lemma {:induction false} BitOrBounds(a: nat, b: nat, n: nat)
    requires a < Pow2(n) && b < Pow2(n)
    ensures a <= BitOr(a, b) && b <= BitOr(a, b) < Pow2(n)
    decreases a + b
  {
    if a != 0 || b != 0 {
      BitOrBounds(a / 2, b / 2, n - 1);
    }
  }

  /** A bit of a | b is set exactly when it is set in a or in b. */
  lemma {:induction false} BitOrBits(a: nat, b: nat, r: nat)
    ensures BitSet(BitOr(a, b), r) <==> BitSet(a, r) || BitSet(b, r)
  {
    if a == 0 && b == 0 {
      NoBitOfZero(r);
    } else if r > 0 {
      var c := BitOr(a, b);
      assert c / 2 == BitOr(a / 2, b / 2);
      assert BitSet(c, r) == BitSet(c / 2, r - 1);
      assert BitSet(a, r) == BitSet(a / 2, r - 1) && BitSet(b, r) == BitSet(b / 2, r - 1);
      BitOrBits(a / 2, b / 2, r - 1);
    }
  }

  /** Two numbers below 2^w with the same w bits are equal. */
  lemma {:induction false} SameBits(x: nat, y: nat, w: nat)
    requires x < Pow2(w) && y < Pow2(w)
    requires forall r :: 0 <= r < w ==> (BitSet(x, r) <==> BitSet(y, r))
    ensures x == y
  {
    if w > 0 {
      assert BitSet(x, 0) <==> BitSet(y, 0);
      forall r | 0 <= r < w - 1
        ensures BitSet(x / 2, r) <==> BitSet(y / 2, r)
      {
        assert BitSet(x, r + 1) <==> BitSet(y, r + 1);
      }
      SameBits(x / 2, y / 2, w - 1);
    }
  }
}
