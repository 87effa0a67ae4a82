/** string.c on the heap of heap.c: every function returns a fresh block that holds a NUL-terminated text and leaves
    the other blocks alone. Address 0 means that the allocation exception has stopped the machine. */
module Strings {
  import opened ByteMemory
  import opened HeapLayout
  import opened HeapLinks
  import H = Heap

  /** A `string` argument: text in the program image, or a pointer. */
  datatype Text = Constant(chars: seq<Byte>) | At(address: int)

  /** Memory holds the text `s`, NUL-terminated, at address a. */
  ghost predicate Holds(m: seq<Byte>, a: int, s: seq<Byte>) {
    && 0 <= a && a + |s| < |m| && m[a + |s|] == 0
    && forall i :: 0 <= i < |s| ==> s[i] != 0 && m[a + i] == s[i]
  }

  ghost predicate Reads(m: seq<Byte>, t: Text, s: seq<Byte>) {
    match t
    case Constant(chars) => chars == s && forall i :: 0 <= i < |s| ==> s[i] != 0
    case At(a) => Holds(m, a, s)
  }

  /** The text lies in a live block or outside the heap, so no heap operation touches it. */
  ghost predicate Stable(now: H.Image, t: Text, s: seq<Byte>) {
    match t
    case Constant(_) => true
    case At(a) =>
      || a + |s| < now.header || now.hi <= a
      || exists b <- now.live :: b.addr <= a && a + |s| < b.addr + b.size
  }

  /** A string argument: it reads `s`, no heap operation touches it, and an `int` holds its length. */
  ghost predicate Given(now: H.Image, t: Text, s: seq<Byte>) {
    Reads(now.mem, t, s) && Stable(now, t, s) && |s| < 0x7fff_ffff
  }

  /** The blocks in `gone` are freed, one new block of `size` bytes at r holds the text s, and the other blocks are live
      and untouched. */
  ghost predicate Built(before: H.Image, now: H.Image, gone: set<Block>, r: int, size: int, s: seq<Byte>) {
    && now.header == before.header && now.hi == before.hi
    && now.live == before.live - gone + {Block(r, size)} && Block(r, size) !in before.live
    && Kept(before.mem, now.mem, before.live - gone, before.header, before.hi)
    && Holds(now.mem, r, s) && |s| < size
  }

  /** What an operation may cost: with that much room behind the last block it does not fail, and it uses no more. */
  predicate Paid(tail: int, tail': int, r: int, cost: int) {
    (tail >= cost + 12 ==> r != 0) && (r != 0 ==> tail' >= tail - cost)
  }

  lemma KeptReads(before: H.Image, now: H.Image, t: Text, s: seq<Byte>)
    requires Given(before, t, s) && Kept(before.mem, now.mem, before.live, before.header, before.hi)
    ensures Reads(now.mem, t, s)
  {
  }

  /** len. */
  method Len(h: H.Heap, t: Text, ghost s: seq<Byte>) returns (n: nat)
    requires Reads(h.mem, t, s)
    ensures n == |s|
  {
    n := 0;
    assert forall i: nat :: i < |s| ==> Char(h.mem, t, i) == s[i] && s[i] != 0;
    while Char(h.mem, t, n) != 0
      invariant n <= |s|
      decreases |s| - n
    {
      n := n + 1;
    }
  }

  /** t[i], where a constant ends with its NUL. */
  function Char(m: seq<Byte>, t: Text, i: nat): Byte {
    match t
    case Constant(chars) => if i < |chars| then chars[i] else 0
    case At(a) => if 0 <= a && a + i < |m| then m[a + i] else 0
  }

  /** The text does not overlap the bytes r..r+size. */
  ghost predicate Clear(t: Text, s: seq<Byte>, r: int, size: int) {
    t.At? ==> t.address + |s| < r || r + size <= t.address
  }

  lemma ClearReads(m: seq<Byte>, m': seq<Byte>, t: Text, s: seq<Byte>, r: int, size: int)
    requires Reads(m, t, s) && Clear(t, s, r, size) && Same(m, m', 0, r) && Same(m, m', r + size, |m|)
    ensures Reads(m', t, s)
  {
  }

  /** A text that the heap leaves alone does not overlap a new block. */
  lemma StableIsClear(now: H.Image, blocks: seq<Block>, all: seq<Block>, lo: int, p: int, b: Block, t: Text,
                      s: seq<Byte>)
    requires Stable(now, t, s) && now.live == Live(blocks)
    requires H.New(blocks, all, p, b) && Layout(all, lo, now.hi) && lo == now.header + 12
    ensures Clear(t, s, b.addr, b.size)
  {
    if t.At? {
      if c: Block :| c in Live(blocks) && c.addr <= t.address && t.address + |s| < c.addr + c.size {
        var j :| 0 <= j < |blocks| && blocks[j] == c;
        InsertedOld(blocks, p, b, j);
      }
    }
  }

  lemma BlockInside(h: H.Heap, p: int)
    requires h.Valid() && 0 <= p < |h.blocks|
    ensures 0 <= h.blocks[p].addr && h.blocks[p].addr + h.blocks[p].size <= |h.mem|
  {
  }

  /** The copying loops of string.c: t[begin..end] into block p at r, from `offset` on. */
  method CopyChars(h: H.Heap, t: Text, begin: int, end: int, r: int, size: int, offset: int,
                   ghost s: seq<Byte>, ghost p: int)
    requires h.Valid() && 0 <= p < |h.blocks| && h.blocks[p] == Block(r, size)
    requires Reads(h.mem, t, s) && Clear(t, s, r, size)
    requires 0 <= begin <= end <= |s| && 0 <= offset && offset + end - begin <= size
    modifies h`mem
    ensures h.Valid() && Same(old(h.mem), h.mem, 0, r + offset) && Same(old(h.mem), h.mem, r + size, |h.mem|)
    ensures 0 <= r && r + size <= |h.mem| && forall i :: begin <= i < end ==> h.mem[r + offset + i - begin] == s[i]
  {
    hide Linked;
    BlockInside(h, p);
    var i := begin;
    while i < end
      invariant begin <= i <= end && h.Valid() && 0 <= r && r + size <= |h.mem|
      invariant Same(old(h.mem), h.mem, 0, r + offset) && Same(old(h.mem), h.mem, r + size, |h.mem|)
      invariant forall j :: begin <= j < i ==> h.mem[r + offset + j - begin] == s[j]
    {
      ClearReads(old(h.mem), h.mem, t, s, r, size);
      h.SetByte(r + offset + i - begin, Char(h.mem, t, i), p);
      i := i + 1;
    }
  }

  /** The loop of substring_mid and its terminator, in a block that has just been allocated. */
  method WriteSlice(h: H.Heap, t: Text, begin: int, end: int, r: int, size: int,
                    ghost s: seq<Byte>, ghost p: int, ghost u: seq<Byte>)
    requires h.Valid() && 0 <= p < |h.blocks| && h.blocks[p] == Block(r, size) && size == end - begin + 1
    requires Reads(h.mem, t, s) && Clear(t, s, r, size) && 0 <= begin <= end <= |s| && u == s[begin..end]
    modifies h`mem
    ensures h.Valid() && Same(old(h.mem), h.mem, 0, r) && Same(old(h.mem), h.mem, r + size, |h.mem|)
    ensures Holds(h.mem, r, u)
  {
    hide Linked;
    assert forall i :: 0 <= i < |s| ==> s[i] != 0;
    CopyChars(h, t, begin, end, r, size, 0, s, p);
    ghost var m := h.mem;
    h.SetByte(r + end - begin, 0, p);
    SliceHeld(m, h.mem, begin, end, r, s, u);
  }

  lemma SliceHeld(m: seq<Byte>, m': seq<Byte>, begin: int, end: int, r: int, s: seq<Byte>, u: seq<Byte>)
    requires 0 <= begin <= end <= |s| && u == s[begin..end] && forall i :: 0 <= i < |s| ==> s[i] != 0
    requires 0 <= r && r + end - begin < |m| && m' == m[r + end - begin := 0]
    requires forall i :: begin <= i < end ==> m[r + 0 + i - begin] == s[i]
    ensures Holds(m', r, u)
  {
    forall i | 0 <= i < |u|
      ensures u[i] != 0 && m'[r + i] == u[i]
    {
      assert m[r + 0 + (begin + i) - begin] == s[begin + i];
    }
  }

  /** substring_mid, the size being known. */
  method Slice(h: H.Heap, t: Text, begin: int, end: int, size: int, ghost s: seq<Byte>, ghost u: seq<Byte>)
      returns (r: int)
    requires h.Valid() && Given(h.Now(), t, s) && 0 <= begin <= end <= |s| && u == s[begin..end]
    requires size == end - begin + 1 == |u| + 1 && Allocatable(h.blocks, h.lo, h.hi, size)
    modifies h
    ensures h.Valid() && Paid(old(h.Tail()), h.Tail(), r, Cost(size))
    ensures r != 0 ==> Built(old(h.Now()), h.Now(), {}, r, size, u)
  {
    hide Linked;
    ghost var before, blocks := h.Now(), h.blocks;
    ghost var p;
    r, p := h.Reserve(size);
    if r != 0 {
      ghost var m := h.mem;
      ReservedReads(before, h.Now(), blocks, h.blocks, h.lo, p, Block(r, size), t, s);
      WriteSlice(h, t, begin, end, r, size, s, p, u);
      FilledIsBuilt(before, m, h.Now(), blocks, h.blocks, h.lo, p, Block(r, size), u);
    }
  }

  /** substring_mid; `u` is the text between `begin` and `end`. */
  method SubstringMid(h: H.Heap, t: Text, begin: int, end: int, ghost s: seq<Byte>, ghost u: seq<Byte>) returns (r: int)
    requires h.Valid() && Given(h.Now(), t, s) && 0 <= begin <= end <= |s| && u == s[begin..end]
    requires Allocatable(h.blocks, h.lo, h.hi, |u| + 1)
    modifies h
    ensures h.Valid() && Paid(old(h.Tail()), h.Tail(), r, Cost(|u| + 1))
    ensures r != 0 ==> Built(old(h.Now()), h.Now(), {}, r, |u| + 1, u)
  {
    hide Linked;
    var size := end - begin + 1;
    assert size == |u| + 1;
    r := Slice(h, t, begin, end, size, s, u);
  }

  /** Both loops of concatenate and the terminator, in a block that has just been allocated. */
  method WriteBoth(h: H.Heap, t1: Text, t2: Text, r: int, size: int, ghost s1: seq<Byte>, ghost s2: seq<Byte>,
                   ghost u: seq<Byte>, ghost p: int)
    requires h.Valid() && 0 <= p < |h.blocks| && h.blocks[p] == Block(r, size) && u == s1 + s2
    requires size == |s1| + |s2| + 1
    requires Reads(h.mem, t1, s1) && Clear(t1, s1, r, size) && Reads(h.mem, t2, s2) && Clear(t2, s2, r, size)
    modifies h`mem
    ensures h.Valid() && Same(old(h.mem), h.mem, 0, r) && Same(old(h.mem), h.mem, r + size, |h.mem|)
    ensures Holds(h.mem, r, u)
  {
    hide Linked;
    var n1 := Len(h, t1, s1);
    var n2 := Len(h, t2, s2);
    CopyChars(h, t1, 0, n1, r, size, 0, s1, p);
    ClearReads(old(h.mem), h.mem, t2, s2, r, size);
    ghost var m1 := h.mem;
    CopyChars(h, t2, 0, n2, r, size, n1, s2, p);
    ghost var m2 := h.mem;
    h.SetByte(r + n1 + n2, 0, p);
    BothHeld(m1, m2, h.mem, r, s1, s2, u);
  }

  lemma BothHeld(m1: seq<Byte>, m2: seq<Byte>, m': seq<Byte>, r: int, s1: seq<Byte>, s2: seq<Byte>, u: seq<Byte>)
    requires u == s1 + s2 && 0 <= r && r + |u| < |m1| == |m2| && m' == m2[r + |u| := 0]
    requires (forall i :: 0 <= i < |s1| ==> s1[i] != 0) && forall i :: 0 <= i < |s2| ==> s2[i] != 0
    requires forall i :: 0 <= i < |s1| ==> m1[r + 0 + i - 0] == s1[i]
    requires Same(m1, m2, 0, r + |s1|) && forall i :: 0 <= i < |s2| ==> m2[r + |s1| + i - 0] == s2[i]
    ensures Holds(m', r, u)
  {
    forall i | 0 <= i < |u|
      ensures u[i] != 0 && m'[r + i] == u[i]
    {
      if i < |s1| {
        assert m1[r + 0 + i - 0] == s1[i];
      } else {
        assert m2[r + |s1| + (i - |s1|) - 0] == s2[i - |s1|];
      }
    }
  }

  /** concatenate, the lengths being known. */
  method Joined(h: H.Heap, t1: Text, t2: Text, size: int, ghost s1: seq<Byte>, ghost s2: seq<Byte>, ghost u: seq<Byte>)
      returns (r: int)
    requires h.Valid() && Given(h.Now(), t1, s1) && Given(h.Now(), t2, s2) && u == s1 + s2 && size == |u| + 1
    requires Allocatable(h.blocks, h.lo, h.hi, size)
    modifies h
    ensures h.Valid() && Paid(old(h.Tail()), h.Tail(), r, Cost(size))
    ensures r != 0 ==> Built(old(h.Now()), h.Now(), {}, r, size, u)
  {
    hide Linked;
    ghost var before, blocks := h.Now(), h.blocks;
    ghost var p;
    r, p := h.Reserve(size);
    if r != 0 {
      ghost var m := h.mem;
      ReservedReads(before, h.Now(), blocks, h.blocks, h.lo, p, Block(r, size), t1, s1);
      ReservedReads(before, h.Now(), blocks, h.blocks, h.lo, p, Block(r, size), t2, s2);
      WriteBoth(h, t1, t2, r, size, s1, s2, u, p);
      FilledIsBuilt(before, m, h.Now(), blocks, h.blocks, h.lo, p, Block(r, size), u);
    }
  }

  /** concatenate. */
  method Concatenate(h: H.Heap, t1: Text, t2: Text, ghost s1: seq<Byte>, ghost s2: seq<Byte>, ghost u: seq<Byte>)
      returns (r: int)
    requires h.Valid() && Given(h.Now(), t1, s1) && Given(h.Now(), t2, s2) && u == s1 + s2
    requires Allocatable(h.blocks, h.lo, h.hi, |u| + 1)
    modifies h
    ensures h.Valid() && Paid(old(h.Tail()), h.Tail(), r, Cost(|u| + 1))
    ensures r != 0 ==> Built(old(h.Now()), h.Now(), {}, r, |u| + 1, u)
  {
    hide Linked;
    var n1 := Len(h, t1, s1);
    var n2 := Len(h, t2, s2);
    var size := n1 + n2 + 1;
    assert size == |u| + 1;
    r := Joined(h, t1, t2, size, s1, s2, u);
  }

  /** After an allocation a given text still reads the same and does not overlap the new block. */
  lemma ReservedReads(before: H.Image, now: H.Image, blocks: seq<Block>, all: seq<Block>, lo: int, p: int, b: Block,
                      t: Text, s: seq<Byte>)
    requires Given(before, t, s) && before.live == Live(blocks)
    requires Kept(before.mem, now.mem, before.live, before.header, before.hi)
    requires H.New(blocks, all, p, b) && Linked(now.mem, before.header, all, lo, before.hi)
    ensures Reads(now.mem, t, s) && Clear(t, s, b.addr, b.size)
  {
    KeptReads(before, now, t, s);
    StableIsClear(before, blocks, all, lo, p, b, t, s);
  }

  /** An allocated block, filled with a text: `m` is the memory after the allocation. */
  lemma FilledIsBuilt(before: H.Image, m: seq<Byte>, now: H.Image, blocks: seq<Block>, all: seq<Block>, lo: int,
                      p: int, b: Block, s: seq<Byte>)
    requires before.live == Live(blocks) && now == H.Image(now.mem, Live(all), before.header, before.hi)
    requires H.New(blocks, all, p, b) && Linked(now.mem, before.header, all, lo, before.hi)
    requires Kept(before.mem, m, before.live, before.header, before.hi)
    requires Same(m, now.mem, 0, b.addr) && Same(m, now.mem, b.addr + b.size, |m|)
    requires Holds(now.mem, b.addr, s) && |s| < b.size
    ensures Built(before, now, {}, b.addr, b.size, s)
  {
    FillKeeps(before.mem, m, now.mem, before.header, blocks, lo, before.hi, p, b);
    assert before.live - {} == before.live;
  }

  /** A temporary block, used to build the result and freed afterwards, leaves no trace. */
  lemma TemporaryFreed(i0: H.Image, i1: H.Image, i2: H.Image, a: Block, t: seq<Byte>, r: int, size: int, s: seq<Byte>)
    requires Built(i0, i1, {}, a.addr, a.size, t) && Built(i1, i2, {a}, r, size, s)
    ensures Built(i0, i2, {}, r, size, s)
  {
  }
}
