/** The bitmap allocators of pages.c: one bit per frame, scanned from the lowest. */
module Bitmap {
  import opened PhysicalMemory

  const FULL_BYTE := 0xff

  /** `1u << i` for the eight bits of a byte. */
  function Mask(i: nat): bv8
    requires i < 8
  {
    if i == 0 then 1 else if i == 1 then 2 else if i == 2 then 4 else if i == 3 then 8
    else if i == 4 then 16 else if i == 5 then 32 else if i == 6 then 64 else 128
  }

  predicate IsSet(b: bv8, i: nat)
    requires i < 8
  {
    b & Mask(i) != 0
  }

  function PowerOfTwo(i: nat): (p: nat)
    ensures p > 0
  {
    if i == 0 then 1 else 2 * PowerOfTwo(i - 1)
  }

  lemma LowestBit(b: bv8)
    ensures IsSet(b, 0) <==> b as int % 2 == 1
  {
  }

  lemma ShiftedByte(b: bv8)
    ensures (b >> 1) as int == b as int / 2
  {
    assert b as int == 2 * ((b >> 1) as int) + ((b & 1) as int);
  }

  lemma ShiftedBit(b: bv8, i: nat)
    requires 0 < i < 8
    ensures IsSet(b, i) <==> IsSet(b >> 1, i - 1)
  {
  }

  lemma NotHalved(n: nat)
    ensures n / PowerOfTwo(0) == n
  {
  }

  lemma HalvedTwice(n: nat, i: nat)
    requires 0 < i < 8
    ensures n / PowerOfTwo(i) == n / 2 / PowerOfTwo(i - 1)
  {
    var p := PowerOfTwo(i - 1);
    var q, r := n / 2 / p, n / 2 % p;
    assert n == 2 * (q * p + r) + n % 2;
    assert n == q * (2 * p) + (2 * r + n % 2);
    DivisionIs(n, 2 * p, q, 2 * r + n % 2);
  }

  lemma DivisionIs(n: nat, d: nat, q: nat, r: nat)
    requires d > 0 && n == q * d + r && r < d
    ensures n / d == q
  {
    Multiples(n / d - q, d);
    assert (n / d - q) * d == r - n % d;
  }

  lemma Multiples(k: int, d: nat)
    ensures k >= 1 ==> k * d >= d
    ensures k <= -1 ==> k * d + d <= 0
  {
  }

  /** Bit i is the one that stands for 2^i in the number that a byte is. */
  lemma {:induction false} BitOfByte(b: bv8, i: nat)
    requires i < 8
    ensures IsSet(b, i) <==> b as int / PowerOfTwo(i) % 2 == 1
  {
    hide IsSet, PowerOfTwo;
    if i == 0 {
      LowestBit(b);
      NotHalved(b as int);
    } else {
      ShiftedBit(b, i);
      ShiftedByte(b);
      HalvedTwice(b as int, i);
      BitOfByte(b >> 1, i - 1);
    }
  }

  lemma SetOneBit(b: bv8, i: nat, j: nat)
    requires i < 8 && j < 8
    ensures IsSet(b | Mask(i), j) <==> i == j || IsSet(b, j)
  {
  }

  lemma FullByte(b: bv8)
    ensures b == 0xff <==> forall i: nat :: i < 8 ==> IsSet(b, i)
  {
    if forall i: nat :: i < 8 ==> IsSet(b, i) {
      assert IsSet(b, 0) && IsSet(b, 1) && IsSet(b, 2) && IsSet(b, 3);
      assert IsSet(b, 4) && IsSet(b, 5) && IsSet(b, 6) && IsSet(b, 7);
    }
  }

  /** The first clear bit of a byte, or 0xff when all are set. */
  method GetFreeBit(search: bv8) returns (bit: nat)
    ensures bit == FULL_BYTE <==> forall i: nat :: i < 8 ==> IsSet(search, i)
    ensures bit != FULL_BYTE ==> bit < 8 && !IsSet(search, bit) && forall i: nat :: i < bit ==> IsSet(search, i)
  {
    FullByte(search);
    if search == 0xff { return FULL_BYTE; }
    for i := 0 to 8
      invariant forall k: nat :: k < i ==> IsSet(search, k)
    {
      if search & Mask(i) == 0 { return i; }
    }
    assert false;
  }

  /** Bit `k` of a pool stands for frame `base + k`. */
  predicate FrameUsed(pool: seq<bv8>, base: nat, f: Frame) {
    base <= f < base + 8 * |pool| && IsSet(pool[(f - base) / 8], (f - base) % 8)
  }

  ghost function Used(pool: seq<bv8>, base: nat): set<Frame> {
    set f: Frame | FrameUsed(pool, base, f)
  }

  lemma SetBitSetsFrame(pool: seq<bv8>, base: nat, i: nat, bit: nat, f: Frame)
    requires i < |pool| && bit < 8
    ensures FrameUsed(pool[i := pool[i] | Mask(bit)], base, f) <==> FrameUsed(pool, base, f) || f == base + i * 8 + bit
  {
    if base <= f < base + 8 * |pool| {
      var q, r := (f - base) / 8, (f - base) % 8;
      assert f == base + q * 8 + r;
      if q == i {
        SetOneBit(pool[i], bit, r);
      }
    }
  }

  lemma SetBitAddsFrame(pool: seq<bv8>, base: nat, i: nat, bit: nat)
    requires base + 8 * |pool| <= 0x10_0000 && i < |pool| && bit < 8
    ensures Used(pool[i := pool[i] | Mask(bit)], base) == Used(pool, base) + {base + i * 8 + bit}
  {
    forall f: Frame
      ensures FrameUsed(pool[i := pool[i] | Mask(bit)], base, f) <==>
              FrameUsed(pool, base, f) || f == base + i * 8 + bit
    {
      SetBitSetsFrame(pool, base, i, bit, f);
    }
  }

  lemma ByteScanned(pool: seq<bv8>, base: nat, i: nat, bit: nat)
    requires base + 8 * |pool| <= 0x10_0000 && i < |pool| && bit <= 8
    requires forall k: nat :: k < bit ==> IsSet(pool[i], k)
    ensures forall f: Frame :: base + 8 * i <= f < base + 8 * i + bit ==> f in Used(pool, base)
  {
  }

  lemma LowestIs(used: set<Frame>, lo: int, hi: int, r: Frame)
    requires 0 < lo <= hi <= 0x10_0000
    requires forall n: Frame :: lo <= n < r ==> n in used
    requires lo <= r < hi && r !in used
    ensures LowestFree(used, lo, hi) == r
  {
  }

  /** The bit found by the scan is the lowest clear one, and setting it marks its frame. */
  lemma LowestTaken(bits: seq<bv8>, base: nat, i: nat, bit: nat, f: Frame)
    requires 0 < base && base + 8 * |bits| <= 0x10_0000 && i < |bits| && bit < 8 && f == base + i * 8 + bit
    requires forall n: Frame :: base <= n < base + 8 * i ==> n in Used(bits, base)
    requires !IsSet(bits[i], bit) && forall k: nat :: k < bit ==> IsSet(bits[i], k)
    ensures f == LowestFree(Used(bits, base), base, base + 8 * |bits|)
    ensures Used(bits[i := bits[i] | Mask(bit)], base) == Used(bits, base) + {f}
  {
    ByteScanned(bits, base, i, bit);
    assert !FrameUsed(bits, base, f) by { assert (f - base) / 8 == i; }
    LowestIs(Used(bits, base), base, base + 8 * |bits|, f);
    SetBitAddsFrame(bits, base, i, bit);
  }

  lemma ClearedIsUnused(pool: seq<bv8>, base: nat)
    requires forall i :: 0 <= i < |pool| ==> pool[i] == 0
    ensures Used(pool, base) == {}
  {
    forall f: Frame
      ensures !FrameUsed(pool, base, f)
    {
      if base <= f < base + 8 * |pool| {
        assert pool[(f - base) / 8] == 0;
      }
    }
  }

  /** memory_clear of a pool: every frame is free. */
  method Clear(pool: array<bv8>, base: nat)
    modifies pool
    ensures Used(pool[..], base) == {}
  {
    for i := 0 to pool.Length
      invariant forall k :: 0 <= k < i ==> pool[k] == 0
    {
      pool[i] := 0;
    }
    ClearedIsUnused(pool[..], base);
  }

  /** Scan for the lowest clear bit and set it: the loop shared by `allocate_frame` and
      `allocate_page_folder`, returning a frame number, 0 for null. */
  method TakeLowest(pool: array<bv8>, base: nat) returns (f: Frame)
    requires 0 < base && base + 8 * pool.Length <= 0x10_0000
    modifies pool
    ensures f == LowestFree(old(Used(pool[..], base)), base, base + 8 * pool.Length)
    ensures Used(pool[..], base) == if f == 0 then old(Used(pool[..], base)) else old(Used(pool[..], base)) + {f}
  {
    ghost var bits := pool[..];
    ghost var used := Used(bits, base);
    for i := 0 to pool.Length
      invariant pool[..] == bits
      invariant forall n: Frame :: base <= n < base + 8 * i ==> n in used
    {
      var freeBit := GetFreeBit(pool[i]);
      if freeBit != FULL_BYTE {
        f := base + i * 8 + freeBit;
        LowestTaken(bits, base, i, freeBit, f);
        pool[i] := pool[i] | Mask(freeBit);
        assert pool[..] == bits[i := bits[i] | Mask(freeBit)];
        return;
      }
      ByteScanned(bits, base, i, 8);
    }
    return 0;
  }
}
