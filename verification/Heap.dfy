/** heap.c as it runs: one memory of bytes that holds the heap header, the block headers and the payloads. */
module Heap {
  import opened ByteMemory
  import opened HeapLayout
  import opened HeapLinks

  /** What initialize_heap stores in the heap header. */
  method WriteHeapHeader(m: seq<Byte>, header: int, lo: int, hi: int) returns (r: seq<Byte>)
    requires 0 <= header && lo == header + 12 <= |m| && 0 <= hi < WORD && lo < WORD
    ensures HeapHeader(r, header, 0, lo, hi) && Same(m, r, 0, header) && Same(m, r, lo, |m|)
  {
    var m1 := Store(m, header + 4, lo);
    var m2 := Store(m1, header + 8, hi);
    LoadStays(m1, m2, header + 4);
    r := Store(m2, header, 0);
    FirstStored(m2, r, header, Load(m2, header), 0, lo, hi);
  }

  /** What a caller can know about a heap: the memory, which blocks are live, and where the heap lies. */
  datatype Image = Image(mem: seq<Byte>, live: set<Block>, header: int, hi: int)

  class Heap {
    var mem: seq<Byte>
    const header: int
    ghost const lo: int
    ghost const hi: int
    ghost var blocks: seq<Block>

    ghost predicate Valid()
      reads this
    {
      Linked(mem, header, blocks, lo, hi)
    }

    /** initialize_heap. */
    constructor (memory: seq<Byte>, start: int, size: int)
      requires 0 <= start && 12 <= size && start + size <= |memory| && start + size < WORD
      ensures Valid() && blocks == [] && header == start && lo == start + 12 && hi == start + size
      ensures Kept(memory, mem, {}, start, start + size)
    {
      header, lo, hi, blocks := start, start + 12, start + size, [];
      var m := MemoryClear(memory, start, 12, 0);
      m := WriteHeapHeader(m, start, start + 12, start + size);
      mem := m;
    }

    method IsInHeap(structure: int) returns (r: bool)
      requires Valid()
      ensures r <==> lo < structure < hi
    {
      r := structure > Load(mem, header + 4) && structure < Load(mem, header + 8);
    }

    /** get_header: the address of the block header, -1 when the heap exception is thrown. */
    method GetHeader(structure: int) returns (r: int)
      requires Valid()
      ensures r == if lo < structure < hi then structure - 12 else -1
    {
      var inHeap := IsInHeap(structure);
      r := if inHeap then structure - 12 else -1;
    }

    method Size(structure: int) returns (r: int)
      requires Valid() && exists b :: b in blocks && b.addr == structure
      ensures Block(structure, r) in blocks
    {
      ghost var k :| 0 <= k < |blocks| && blocks[k].addr == structure;
      var h := GetHeader(structure);
      assert Node(mem, blocks, k);
      r := Load(mem, h);
    }

    /** occupation: it walks the list and returns the number of blocks. */
    method Occupation() returns (num: nat)
      requires Valid()
      ensures num == |blocks|
    {
      num := 0;
      var currentAddress := Load(mem, header);
      while currentAddress != 0
        invariant num <= |blocks| && currentAddress == AddrAt(blocks, num)
        decreases |blocks| - num
      {
        assert Node(mem, blocks, num);
        var h := GetHeader(currentAddress);
        num := num + 1;
        currentAddress := Load(mem, h + 8);
      }
    }

    /** The fields of block k, read through its address. */
    method ReadBlock(structure: int, ghost k: int) returns (size: int, next: int)
      requires Valid() && 0 <= k < |blocks| && structure == blocks[k].addr
      ensures size == blocks[k].size && next == AddrAt(blocks, k + 1) && (next == 0 <==> k + 1 == |blocks|)
    {
      assert Node(mem, blocks, k);
      var h := GetHeader(structure);
      size, next := Load(mem, h), Load(mem, h + 8);
    }

    method ReadPrevious(structure: int, ghost k: int) returns (previous: int)
      requires Valid() && 0 <= k < |blocks| && structure == blocks[k].addr
      ensures previous == AddrAt(blocks, k - 1)
    {
      assert Node(mem, blocks, k);
      var h := GetHeader(structure);
      previous := Load(mem, h + 4);
    }

    method ReadHeader() returns (first: int, start: int, end: int)
      requires Valid()
      ensures first == AddrAt(blocks, 0) && start == lo && end == hi
    {
      first, start, end := Load(mem, header), Load(mem, header + 4), Load(mem, header + 8);
    }

    /** The test that `ralloc` makes for gap n: better than the best so far? */
    method Consider(size: int, freeSpaceSize: int, address: int, previous: int, next: int, ghost n: int,
                    bestSize: int, bestAddress: int, bestPrevious: int, bestNext: int)
        returns (newSize: int, newAddress: int, newPrevious: int, newNext: int)
      requires 0 <= n <= |blocks| && Best(n, size, bestSize, bestAddress, bestPrevious, bestNext)
      requires freeSpaceSize == Measured(blocks, lo, hi, n) && address == GapStart(blocks, lo, n)
      requires previous == AddrAt(blocks, n - 1) && next == AddrAt(blocks, n)
      ensures Best(n + 1, size, newSize, newAddress, newPrevious, newNext)
    {
      if freeSpaceSize >= Add(size, 12) && freeSpaceSize < bestSize {
        newSize, newAddress, newPrevious, newNext := freeSpaceSize, address, previous, next;
      } else {
        newSize, newAddress, newPrevious, newNext := bestSize, bestAddress, bestPrevious, bestNext;
      }
    }

    /** The gap in front of the first block. */
    method ConsiderFirst(size: int, start: int, first: int, end: int)
        returns (bestSize: int, bestAddress: int, bestPrevious: int, bestNext: int)
      requires blocks != [] && start == lo && end == hi && first == blocks[0].addr
      ensures Best(1, size, bestSize, bestAddress, bestPrevious, bestNext)
    {
      bestSize, bestAddress, bestPrevious, bestNext :=
        Consider(size, Sub(Sub(first, start), 12), start, 0, first, 0, Sub(end, start), 0, 0, 0);
    }

    /** The gap behind block k, up to the next block. */
    method ConsiderInner(size: int, current: int, currentSize: int, next: int, ghost k: int,
                         bestSize: int, bestAddress: int, bestPrevious: int, bestNext: int)
        returns (newSize: int, newAddress: int, newPrevious: int, newNext: int)
      requires 0 <= k < |blocks| - 1 && blocks[k] == Block(current, currentSize) && next == blocks[k + 1].addr
      requires Best(k + 1, size, bestSize, bestAddress, bestPrevious, bestNext)
      ensures Best(k + 2, size, newSize, newAddress, newPrevious, newNext)
    {
      newSize, newAddress, newPrevious, newNext :=
        Consider(size, Sub(Sub(Sub(next, current), currentSize), 12), current + currentSize, current, next, k + 1,
                 bestSize, bestAddress, bestPrevious, bestNext);
    }

    /** The tail behind the last block. */
    method ConsiderTail(size: int, current: int, currentSize: int, end: int,
                        bestSize: int, bestAddress: int, bestPrevious: int, bestNext: int)
        returns (newSize: int, newAddress: int, newPrevious: int, newNext: int)
      requires blocks != [] && blocks[|blocks| - 1] == Block(current, currentSize) && end == hi
      requires Best(|blocks|, size, bestSize, bestAddress, bestPrevious, bestNext)
      ensures Best(|blocks| + 1, size, newSize, newAddress, newPrevious, newNext)
    {
      newSize, newAddress, newPrevious, newNext :=
        Consider(size, Sub(Sub(Sub(end, current), currentSize), 12), current + currentSize, current, 0, |blocks|,
                 bestSize, bestAddress, bestPrevious, bestNext);
    }

    /** The search loop of ralloc: the address, predecessor and successor of the best gap, 0 for none. */
    method FindGap(size: int) returns (bestAddress: int, bestPrevious: int, bestNext: int)
      requires Valid() && blocks != [] && 0 <= size < WORD
      ensures var k := Placed(blocks, lo, hi, size);
        if k == -1 then bestAddress == 0
        else 0 <= k <= |blocks| && bestAddress == GapStart(blocks, lo, k)
             && bestPrevious == AddrAt(blocks, k - 1) && bestNext == AddrAt(blocks, k)
    {
      hide Linked, Search;
      var currentAddress, heapStart, heapEnd := ReadHeader();
      var bestSize;
      bestSize, bestAddress, bestPrevious, bestNext := ConsiderFirst(size, heapStart, currentAddress, heapEnd);
      ghost var k := 0;
      var currentSize, nextAddress := ReadBlock(currentAddress, k);
      while nextAddress != 0
        invariant 0 <= k < |blocks| && blocks[k] == Block(currentAddress, currentSize)
        invariant nextAddress == AddrAt(blocks, k + 1) && (nextAddress == 0 <==> k + 1 == |blocks|)
        invariant Best(k + 1, size, bestSize, bestAddress, bestPrevious, bestNext)
        decreases |blocks| - k
      {
        bestSize, bestAddress, bestPrevious, bestNext :=
          ConsiderInner(size, currentAddress, currentSize, nextAddress, k,
                        bestSize, bestAddress, bestPrevious, bestNext);
        k := k + 1;
        currentAddress := nextAddress;
        currentSize, nextAddress := ReadBlock(currentAddress, k);
      }
      bestSize, bestAddress, bestPrevious, bestNext :=
        ConsiderTail(size, currentAddress, currentSize, heapEnd, bestSize, bestAddress, bestPrevious, bestNext);
    }

    /** The best_* variables after the first n gaps. */
    ghost predicate Best(n: int, size: int, bestSize: int, bestAddress: int, bestPrevious: int, bestNext: int)
      requires 0 <= n <= |blocks| + 1
      reads this
    {
      var c := Search(blocks, lo, hi, size, n);
      && bestSize == c.best
      && (if 0 <= c.gap <= |blocks| then
            bestAddress == GapStart(blocks, lo, c.gap) && bestPrevious == AddrAt(blocks, c.gap - 1)
              && bestNext == AddrAt(blocks, c.gap)
          else c.gap == -1 && bestAddress == 0)
    }

    ghost function Now(): Image
      reads this
    {
      Image(mem, Live(blocks), header, hi)
    }

    ghost function Tail(): int
      reads this
    {
      HeapLayout.Tail(blocks, lo, hi)
    }

    /** All payloads and the memory outside the heap are as they were. */
    twostate predicate Untouched()
      reads this
    {
      Kept(old(mem), mem, Live(old(blocks)), header, hi)
    }

    /** allocate_space at the start of gap k, and first_address when that is the start of the heap. */
    method WriteBlock(free: int, size: int, previous: int, next: int, ghost k: int)
        returns (m: seq<Byte>, address: int)
      requires Valid() && FitsGap(blocks, lo, hi, k, Block(free + 12, size))
      requires previous == AddrAt(blocks, k - 1) && next == AddrAt(blocks, k)
      ensures address == free + 12 && Linked(m, header, Insert(blocks, k, Block(address, size)), lo, hi)
      ensures Kept(mem, m, Live(blocks), header, hi) && Same(mem, m, address, address + size)
    {
      hide Linked, Allocated, Kept;
      ghost var b := Block(free + 12, size);
      InsertReady(mem, header, blocks, lo, hi, k, b);
      var _, heapStart, _ := ReadHeader();
      m, address := AllocateSpace(mem, free, size, previous, next);
      Inserted(mem, m, header, blocks, lo, hi, k, b);
      if free == heapStart {
        m := Store(m, header, address);
      }
    }

    /** The block goes into gap k, where it fits. */
    method Place(free: int, size: int, previous: int, next: int, ghost k: int) returns (address: int)
      requires Valid() && FitsGap(blocks, lo, hi, k, Block(free + 12, size))
      requires previous == AddrAt(blocks, k - 1) && next == AddrAt(blocks, k)
      modifies this
      ensures Valid() && Untouched() && address == free + 12
      ensures blocks == Insert(old(blocks), k, Block(address, size)) && Same(old(mem), mem, address, address + size)
    {
      var m;
      m, address := WriteBlock(free, size, previous, next, k);
      mem, blocks := m, Insert(blocks, k, Block(address, size));
    }

    /** ralloc; 0 is null, returned with the allocation exception thrown. The payload of the new block is not
        written. */
    method Ralloc(size: int) returns (address: int)
      requires Valid() && Allocatable(blocks, lo, hi, size)
      modifies this
      ensures Valid() && Untouched()
      ensures Placement(old(blocks), blocks, lo, hi, size, address)
      ensures address == 0 ==> mem == old(mem)
      ensures address != 0 ==> Same(old(mem), mem, address, address + size)
    {
      var first, heapStart, _ := ReadHeader();
      if first == 0 {
        address := Place(heapStart, size, 0, 0, 0);
      } else {
        ghost var k := Placed(blocks, lo, hi, size);
        var bestAddress, bestPrevious, bestNext := FindGap(size);
        if bestAddress == 0 { return 0; }
        PlacedFits(blocks, lo, hi, size);
        address := Place(bestAddress, size, bestPrevious, bestNext, k);
      }
    }

    /** unalloc of the live block k. */
    method Unalloc(structure: int, ghost k: int)
      requires Valid() && 0 <= k < |blocks| && structure == blocks[k].addr
      modifies this
      ensures Valid() && Untouched()
      ensures blocks == Remove(old(blocks), k)
    {
      var _, next := ReadBlock(structure, k);
      var previous := ReadPrevious(structure, k);
      var first, _, _ := ReadHeader();
      RemoveGeometry(mem, header, blocks, lo, hi, k);
      var m := Bypass(mem, header, structure == first, previous, next);
      RemoveLinks(mem, m, header, blocks, lo, hi, k);
      RemoveKeeps(mem, m, header, blocks, lo, hi, k);
      mem, blocks := m, Remove(blocks, k);
    }

    /** memory_clear over the payload of block k. */
    method ClearPayload(address: int, size: int, ghost k: int)
      requires Valid() && 0 <= k < |blocks| && blocks[k] == Block(address, size)
      modifies this`mem
      ensures Valid() && |mem| == |old(mem)| && 0 <= address && address + size <= |mem|
      ensures Same(old(mem), mem, 0, address) && Same(old(mem), mem, address + size, |mem|)
      ensures forall i :: address <= i < address + size ==> mem[i] == 0
    {
      mem := MemoryClear(mem, address, size, 0);
      PayloadWrite(old(mem), mem, header, blocks, lo, hi, k);
    }

    /** A store through a pointer into the payload of block k. */
    method SetByte(address: int, value: Byte, ghost k: int)
      requires Valid() && 0 <= k < |blocks| && blocks[k].addr <= address < blocks[k].addr + blocks[k].size
      modifies this`mem
      ensures Valid() && 0 <= address < |old(mem)| && mem == old(mem)[address := value]
    {
      mem := mem[address := value];
      PayloadWrite(old(mem), mem, header, blocks, lo, hi, k);
    }

    /** zalloc; when ralloc answers null the kernel's handler has stopped the machine, modelled as returning 0. */
    method Zalloc(size: int) returns (address: int)
      requires Valid() && Allocatable(blocks, lo, hi, size)
      modifies this
      ensures Valid() && Untouched()
      ensures Placement(old(blocks), blocks, lo, hi, size, address)
      ensures address != 0 ==>
        0 <= address && address + size <= |mem| && forall i :: address <= i < address + size ==> mem[i] == 0
    {
      address := Ralloc(size);
      if address != 0 {
        ghost var k, b := Placed(old(blocks), lo, hi, size), Block(address, size);
        ghost var m := mem;
        InsertedAt(old(blocks), k, b, k);
        ClearPayload(address, size, k);
        FillKeeps(old(mem), m, mem, header, old(blocks), lo, hi, k, b);
      }
    }

    method Resize(structure: int, newSize: int, ghost k: int)
      requires Valid() && 0 <= k < |blocks| && structure == blocks[k].addr && 0 <= newSize < WORD
      requires structure + newSize <= GapEnd(blocks, hi, k + 1)
      modifies this
      ensures Valid()
      ensures blocks == old(blocks)[k := Block(structure, newSize)]
      ensures var size := old(blocks)[k].size;
        Replaced(old(mem), old(blocks), mem, blocks, structure, size, structure, newSize, Min(newSize, size))
    {
      var h := GetHeader(structure);
      var m := Store(mem, h, newSize);
      ResizeLinks(mem, m, header, blocks, lo, hi, k, newSize);
      ResizeReplaces(mem, m, header, blocks, lo, hi, k, newSize);
      mem, blocks := m, blocks[k := Block(structure, newSize)];
    }

    /** memory_copy of the first n bytes of block j's payload into block i's. */
    method CopyPayload(source: int, dest: int, n: nat, ghost j: int, ghost i: int)
      requires Valid() && 0 <= j < |blocks| && 0 <= i < |blocks| && i != j
      requires source == blocks[j].addr && dest == blocks[i].addr && n <= blocks[j].size && n <= blocks[i].size
      modifies this`mem
      ensures Valid() && Copied(old(mem), mem, source, dest, n, blocks[i].size)
    {
      assert if i < j then blocks[i].addr + blocks[i].size <= source else source + blocks[j].size <= dest;
      mem := MemoryCopy(mem, source, dest, n);
      CopyIsCopied(old(mem), mem, source, dest, n, blocks[i].size);
      PayloadWrite(old(mem), mem, header, blocks, lo, hi, i);
    }

    /** ralloc with the part of its contract that later steps use, and the room it leaves. */
    method Reserve(size: int) returns (address: int, ghost p: int)
      requires Valid() && Allocatable(blocks, lo, hi, size)
      modifies this
      ensures Valid() && Untouched()
      ensures p == Placed(old(blocks), lo, hi, size) && (address == 0 <==> p == -1)
      ensures address == 0 ==> blocks == old(blocks) && mem == old(mem)
      ensures address != 0 ==> 0 <= p <= |old(blocks)| && Block(address, size) == NewBlock(old(blocks), lo, p, size)
      ensures address != 0 ==> New(old(blocks), blocks, p, Block(address, size))
      ensures address != 0 ==> Same(old(mem), mem, address, address + size)
      ensures old(blocks) == [] || old(Tail()) >= size + 24 ==> address != 0
      ensures address != 0 ==> Tail() >= old(Tail()) - size - 12
    {
      p := Placed(blocks, lo, hi, size);
      address := Ralloc(size);
      PlacementRoom(old(blocks), blocks, lo, hi, size, address);
    }

    /** Copy the first bytes of block j into block i, and free block j. */
    method CopyAndFree(source: int, size: int, dest: int, ghost newSize: int, ghost j: int,
                       ghost i: int) returns (ghost m: seq<Byte>)
      requires Valid() && 0 <= j < |blocks| && 0 <= i < |blocks| && i != j && 0 <= size <= newSize
      requires blocks[j] == Block(source, size) && blocks[i] == Block(dest, newSize)
      modifies this
      ensures Valid() && blocks == Remove(old(blocks), j) && Copied(old(mem), m, source, dest, size, newSize)
      ensures Kept(m, mem, Live(old(blocks)), header, hi)
    {
      CopyPayload(source, dest, size, j, i);
      m := mem;
      Unalloc(source, j);
    }

    /** Copy the block into the fresh one, which has gone into gap p, and free it. */
    method Move(structure: int, size: int, r: int, newSize: int, ghost k: int, ghost p: int, ghost before: seq<Block>)
      requires Valid() && 0 <= k < |before| && 0 <= size < newSize
      requires before[k] == Block(structure, size) && New(before, blocks, p, Block(r, newSize))
      modifies this
      ensures Valid() && Replaced(old(mem), before, mem, blocks, structure, size, r, newSize, size)
      ensures 0 <= Shifted(p, k) < |old(blocks)| && blocks == Remove(old(blocks), Shifted(p, k))
    {
      ghost var all := blocks;
      InsertedOld(before, p, Block(r, newSize), k);
      ghost var m := CopyAndFree(structure, size, r, newSize, Shifted(p, k), p);
      MoveEffect(old(mem), m, mem, before, all, header, lo, hi, k, p, Block(structure, size), Block(r, newSize));
    }

    /** unalloc of a live block, with its effect on the set of live blocks. */
    method Release(structure: int, ghost b: Block)
      requires Valid() && b in blocks && b.addr == structure
      modifies this
      ensures Valid() && Untouched() && Live(blocks) == Live(old(blocks)) - {b}
      ensures Tail() >= old(Tail())
    {
      ghost var k :| 0 <= k < |blocks| && blocks[k] == b;
      LiveRemove(blocks, lo, hi, k);
      TailAfterRemove(blocks, lo, hi, k);
      Unalloc(structure, k);
    }

    /** The relocating path of challoc. */
    method Relocate(structure: int, size: int, newSize: int, ghost k: int) returns (r: int)
      requires Valid() && 0 <= k < |blocks| && blocks[k] == Block(structure, size) && size < newSize
      requires newSize + 12 < WORD
      modifies this
      ensures Valid()
      ensures r == 0 <==> Placed(old(blocks), lo, hi, newSize) == -1
      ensures r == 0 ==> mem == old(mem) && blocks == old(blocks)
      ensures r != 0 ==> Replaced(old(mem), old(blocks), mem, blocks, structure, size, r, newSize, size)
      ensures r != 0 ==> MovedTo(old(blocks), blocks, lo, hi, k, r, newSize)
    {
      assert 0 <= size;
      ghost var p;
      r, p := Reserve(newSize);
      if r != 0 {
        ghost var m := mem;
        Move(structure, size, r, newSize, k, p, old(blocks));
        ReplacedAfter(old(mem), m, mem, old(blocks), blocks, header, hi, k, structure, size, r, newSize);
      }
    }

    /** challoc of the live block k. Growing in place trusts `new_size < next - structure`; the caller has to
        make sure that this implies room. */
    method Challoc(structure: int, newSize: int, ghost k: int) returns (r: int)
      requires Valid() && 0 <= k < |blocks| && structure == blocks[k].addr && 0 <= newSize && newSize + 12 < WORD
      requires GrowsInPlace(blocks, k, newSize) ==> structure + newSize <= GapEnd(blocks, hi, k + 1)
      modifies this
      ensures Valid()
      ensures r == 0 <==>
        && newSize > old(blocks)[k].size && !GrowsInPlace(old(blocks), k, newSize)
        && Placed(old(blocks), lo, hi, newSize) == -1
      ensures r == 0 ==> mem == old(mem) && blocks == old(blocks)
      ensures var size := old(blocks)[k].size;
        r != 0 ==> Replaced(old(mem), old(blocks), mem, blocks, structure, size, r, newSize, Min(newSize, size))
      ensures newSize <= old(blocks)[k].size || GrowsInPlace(old(blocks), k, newSize) ==>
        r == structure && blocks == old(blocks)[k := Block(structure, newSize)]
      ensures r != 0 && newSize > old(blocks)[k].size && !GrowsInPlace(old(blocks), k, newSize) ==>
        MovedTo(old(blocks), blocks, lo, hi, k, r, newSize)
    {
      var size, next := ReadBlock(structure, k);
      r := structure;
      if newSize < size {
        Resize(structure, newSize, k);
      } else if newSize > size {
        if newSize < Sub(next, structure) {
          Resize(structure, newSize, k);
        } else {
          r := Relocate(structure, size, newSize, k);
        }
      } else {
        assert blocks[k] in blocks;
      }
    }
  }

  function Min(a: int, b: int): int {
    if a < b then a else b
  }

  /** What challoc promises: the block of `size` bytes at `structure` is replaced by one of the new size at `r`
      that begins with the same n bytes, and every other payload is untouched. */
  ghost predicate Replaced(m: seq<Byte>, blocks: seq<Block>, m': seq<Byte>, blocks': seq<Block>,
                           structure: int, size: int, r: int, newSize: int, n: int) {
    && Live(blocks') == Live(blocks) - {Block(structure, size)} + {Block(r, newSize)}
    && |m'| == |m| && 0 <= r && 0 <= n && r + n <= |m| && 0 <= structure && structure + n <= |m|
    && m'[r..r + n] == m[structure..structure + n]
    && (forall c <- blocks :: c != Block(structure, size) ==> Same(m, m', c.addr, c.addr + c.size))
  }

  /** Block k has moved: a block of the new size was placed as ralloc places it while block k was still there, at r, and
      then block k left the list. */
  ghost predicate MovedTo(blocks: seq<Block>, blocks': seq<Block>, lo: int, hi: int, k: int, r: int, newSize: int) {
    var p := Placed(blocks, lo, hi, newSize);
    && 0 <= k < |blocks| && 0 <= p <= |blocks| && r == GapStart(blocks, lo, p) + 12
    && blocks' == Remove(Insert(blocks, p, Block(r, newSize)), Shifted(p, k))
  }

  /** The branch at line 182: the distance to the next block, or to null. */
  predicate GrowsInPlace(blocks: seq<Block>, k: int, newSize: int)
    requires 0 <= k < |blocks|
  {
    blocks[k].size < newSize < Sub(AddrAt(blocks, k + 1), blocks[k].addr)
  }

  /** What the branch tests, in true addresses: the distance to the next block, or from the last block to 2^32. */
  lemma GrowthBranch(blocks: seq<Block>, lo: int, hi: int, k: int, newSize: int)
    requires Layout(blocks, lo, hi) && 0 <= k < |blocks|
    ensures GrowsInPlace(blocks, k, newSize) <==>
      && blocks[k].size < newSize
      && newSize + blocks[k].addr < if k + 1 < |blocks| then blocks[k + 1].addr else 0x1_0000_0000
  {
    assert k + 1 < |blocks| ==> blocks[k].addr < blocks[k + 1].addr;
    SubValue(AddrAt(blocks, k + 1), blocks[k].addr);
  }

  /** Growing in place keeps the layout exactly when the gap behind the block holds the difference, which the guard
      does not say: it lets a block run into the next header, and the last block run out of the heap. */
  lemma GrowthGuard(blocks: seq<Block>, lo: int, hi: int, k: int, newSize: int)
    requires Layout(blocks, lo, hi) && 0 <= k < |blocks| && GrowsInPlace(blocks, k, newSize)
    ensures Layout(blocks[k := Block(blocks[k].addr, newSize)], lo, hi) <==>
            newSize - blocks[k].size <= Gap(blocks, lo, hi, k + 1)
  {
    ResizeKeepsLayoutIff(blocks, lo, hi, k, newSize);
  }

  lemma GrowthGuardIsTooWeak()
    ensures var blocks := [Block(24, 4), Block(44, 4)];
      && Layout(blocks, 12, 100)
      && GrowsInPlace(blocks, 0, 15) && !Layout(blocks[0 := Block(24, 15)], 12, 100)
      && GrowsInPlace(blocks, 1, 1000) && !Layout(blocks[1 := Block(44, 1000)], 12, 100)
  {
    var blocks := [Block(24, 4), Block(44, 4)];
    GrowthGuard(blocks, 12, 100, 0, 15);
    GrowthGuard(blocks, 12, 100, 1, 1000);
  }

  /** ralloc's effect on the list: the block goes to the start of the gap that the search chooses, or nothing
      happens. */
  ghost predicate Placement(blocks: seq<Block>, blocks': seq<Block>, lo: int, hi: int, size: int, address: int) {
    var k := Placed(blocks, lo, hi, size);
    if k == -1 then address == 0 && blocks' == blocks
    else && 0 <= k <= |blocks| && address != 0 && Block(address, size) == NewBlock(blocks, lo, k, size)
         && blocks' == Insert(blocks, k, Block(address, size))
  }

  /** The list `blocks'` is `blocks` with `b` inserted as number p. */
  ghost predicate New(blocks: seq<Block>, blocks': seq<Block>, p: int, b: Block) {
    && 0 <= p <= |blocks| && blocks' == Insert(blocks, p, b)
    && blocks'[p] == b && Live(blocks') == Live(blocks) + {b} && b !in Live(blocks)
  }

  /** When an allocation is sure to succeed, and what it leaves of the tail. */
  lemma PlacementRoom(blocks: seq<Block>, blocks': seq<Block>, lo: int, hi: int, size: int, address: int)
    requires Layout(blocks, lo, hi) && Allocatable(blocks, lo, hi, size) && Layout(blocks', lo, hi)
    requires Placement(blocks, blocks', lo, hi, size, address)
    ensures blocks == [] || Tail(blocks, lo, hi) >= size + 24 ==> address != 0
    ensures address != 0 ==>
      && New(blocks, blocks', Placed(blocks, lo, hi, size), Block(address, size))
      && Tail(blocks', lo, hi) >= Tail(blocks, lo, hi) - size - 12
  {
    var k, b := Placed(blocks, lo, hi, size), Block(address, size);
    if blocks != [] {
      NullIffNoRoom(blocks, lo, hi, size);
    }
    if address != 0 {
      LiveInsert(blocks, lo, hi, k, b);
      InsertedAt(blocks, k, b, k);
      TailAfterInsert(blocks, lo, hi, k, b);
    }
  }

  lemma ResizeReplaces(m: seq<Byte>, m': seq<Byte>, header: int, blocks: seq<Block>, lo: int, hi: int, k: int,
                       newSize: int)
    requires Layout(blocks, lo, hi) && hi <= |m| && 0 <= k < |blocks| && 0 <= header && lo == header + 12
    requires 0 <= newSize
    requires Resized(m, m', blocks[k].addr, newSize)
    ensures var b := blocks[k];
      Replaced(m, blocks, m', blocks[k := Block(b.addr, newSize)], b.addr, b.size, b.addr, newSize, Min(newSize,
        b.size))
  {
    var b := blocks[k];
    LiveResize(blocks, lo, hi, k, newSize);
    ResizeKeeps(m, m', header, blocks, lo, hi, k, newSize);
    assert b in Live(blocks);
    assert Same(m, m', b.addr, b.addr + b.size);
  }

  /** Memory `m` is `m0` with the first n of `size` bytes at `to` copied from `from`, and nothing but those `size` bytes
      changed. */
  ghost predicate Copied(m0: seq<Byte>, m: seq<Byte>, from: int, to: int, n: int, size: int) {
    && Same(m0, m, 0, to) && Same(m0, m, to + size, |m0|)
    && 0 <= n && 0 <= from && from + n <= |m0| && 0 <= to && to + n <= |m| && m[to..to + n] == m0[from..from + n]
  }

  lemma CopyIsCopied(m0: seq<Byte>, m: seq<Byte>, from: int, to: int, n: nat, size: int)
    requires |m| == |m0| && 0 <= from && from + n <= |m0| && 0 <= to && to + n <= |m0| && n <= size
    requires m[to..to + n] == m0[from..from + n]
    requires forall i :: 0 <= i < |m0| && !(to <= i < to + n) ==> m[i] == m0[i]
    ensures Copied(m0, m, from, to, n, size)
  {
  }

  lemma SliceSame(m: seq<Byte>, m': seq<Byte>, a: int, n: int)
    requires Same(m, m', a, a + n) && 0 <= a && 0 <= n && a + n <= |m|
    ensures m'[a..a + n] == m[a..a + n]
  {
  }

  lemma LiveMoved(blocks: seq<Block>, all: seq<Block>, lo: int, hi: int, k: int, p: int, c: Block)
    requires 0 <= k < |blocks| && New(blocks, all, p, c) && Layout(all, lo, hi)
    ensures 0 <= Shifted(p, k) < |all| && Live(Remove(all, Shifted(p, k))) == Live(blocks) - {blocks[k]} + {c}
  {
    InsertedOld(blocks, p, c, k);
    LiveRemove(all, lo, hi, Shifted(p, k));
    assert blocks[k] in Live(blocks);
  }

  /** A copy of the bytes of block k has been made in the new block number p, and then block k has been freed. */
  lemma MoveEffect(m0: seq<Byte>, m: seq<Byte>, m': seq<Byte>, blocks: seq<Block>, all: seq<Block>,
                   header: int, lo: int, hi: int, k: int, p: int, b: Block, c: Block)
    requires 0 <= k < |blocks| && blocks[k] == b && New(blocks, all, p, c) && Layout(all, lo, hi)
    requires 0 <= b.size < c.size
    requires Copied(m0, m, b.addr, c.addr, b.size, c.size) && Kept(m, m', Live(all), header, hi)
    ensures Replaced(m0, blocks, m', Remove(all, Shifted(p, k)), b.addr, b.size, c.addr, c.size, b.size)
  {
    LiveMoved(blocks, all, lo, hi, k, p, c);
    assert c in Live(all);
    SliceSame(m, m', c.addr, b.size);
    OthersUntouched(m0, m, m', header, blocks, all, lo, hi, p, c);
  }

  lemma OthersUntouched(m0: seq<Byte>, m: seq<Byte>, m': seq<Byte>, header: int, blocks: seq<Block>, all: seq<Block>,
                        lo: int, hi: int, p: int, c: Block)
    requires New(blocks, all, p, c) && Layout(all, lo, hi) && Kept(m, m', Live(all), header, hi)
    requires Same(m0, m, 0, c.addr) && Same(m0, m, c.addr + c.size, |m0|)
    ensures forall d <- blocks :: Same(m0, m', d.addr, d.addr + d.size)
  {
    FilledUntouched(m0, m, blocks, all, lo, hi, p, c);
    forall d <- blocks
      ensures Same(m0, m', d.addr, d.addr + d.size)
    {
      assert d in Live(blocks) && d in Live(all);
      assert Same(m0, m, d.addr, d.addr + d.size) && Same(m, m', d.addr, d.addr + d.size);
    }
  }

  /** Writing in a new block leaves the others alone. */
  lemma FilledUntouched(m0: seq<Byte>, m: seq<Byte>, blocks: seq<Block>, all: seq<Block>, lo: int, hi: int, p: int,
                        c: Block)
    requires New(blocks, all, p, c) && Layout(all, lo, hi)
    requires Same(m0, m, 0, c.addr) && Same(m0, m, c.addr + c.size, |m0|)
    ensures forall d <- Live(blocks) :: Same(m0, m, d.addr, d.addr + d.size)
  {
    forall j | 0 <= j < |blocks|
      ensures Same(m0, m, blocks[j].addr, blocks[j].addr + blocks[j].size)
    {
      InsertedAt(blocks, p, c, Shifted(p, j));
      assert if j < p then blocks[j].addr + blocks[j].size <= c.addr else c.addr + c.size <= blocks[j].addr;
    }
  }

  lemma ReplacedAfter(m0: seq<Byte>, m: seq<Byte>, m': seq<Byte>, blocks: seq<Block>, blocks': seq<Block>,
                      header: int, hi: int, k: int, from: int, n: int, to: int, newSize: int)
    requires 0 <= k < |blocks| && blocks[k] == Block(from, n) && Kept(m0, m, Live(blocks), header, hi)
    requires Replaced(m, blocks, m', blocks', from, n, to, newSize, n)
    ensures Replaced(m0, blocks, m', blocks', from, n, to, newSize, n)
  {
  }
}
