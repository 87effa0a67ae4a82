/** The intrusive list: how the blocks of a heap show in memory, and what the pointer updates of
    `allocate_space` and `unalloc` do to it. */
module HeapLinks {
  import opened ByteMemory
  import opened HeapLayout

  /** The heap_block_header in front of a payload. */
  ghost predicate HeaderIs(m: seq<Byte>, b: Block, previous: int, next: int)
    requires 12 <= b.addr <= |m|
  {
    Load(m, b.addr - 12) == b.size && Load(m, b.addr - 8) == previous && Load(m, b.addr - 4) == next
  }

  /** A neighbour's address, null beyond the ends. */
  function AddrAt(blocks: seq<Block>, k: int): int {
    if 0 <= k < |blocks| then blocks[k].addr else 0
  }

  /** The header of the k-th block of a list, linked to its neighbours. */
  ghost predicate Node(m: seq<Byte>, blocks: seq<Block>, k: int)
    requires 0 <= k < |blocks| && 12 <= blocks[k].addr <= |m|
  {
    HeaderIs(m, blocks[k], AddrAt(blocks, k - 1), AddrAt(blocks, k + 1))
  }

  /** The heap_header. */
  ghost predicate HeapHeader(m: seq<Byte>, header: int, first: int, lo: int, hi: int) {
    && 0 <= header && lo == header + 12 && lo <= |m|
    && Load(m, header) == first && Load(m, header + 4) == lo && Load(m, header + 8) == hi
  }

  /** Memory holds the heap header at `header` and the list: first_address at its head, next and previous
      mutually inverse. */
  ghost predicate Linked(m: seq<Byte>, header: int, blocks: seq<Block>, lo: int, hi: int) {
    && hi <= |m| && Layout(blocks, lo, hi) && HeapHeader(m, header, AddrAt(blocks, 0), lo, hi)
    && forall k :: 0 <= k < |blocks| ==> Node(m, blocks, k)
  }

  /** Two memories agree on a stretch. */
  ghost predicate Same(m: seq<Byte>, m': seq<Byte>, from: int, to: int) {
    |m'| == |m| && forall i :: from <= i < to && 0 <= i < |m| ==> m'[i] == m[i]
  }

  /** The payloads of the live blocks and everything outside the heap are as they were. */
  ghost predicate Kept(m: seq<Byte>, m': seq<Byte>, live: set<Block>, header: int, hi: int) {
    && |m'| == |m|
    && Same(m, m', 0, header) && Same(m, m', hi, |m|)
    && forall b <- live :: Same(m, m', b.addr, b.addr + b.size)
  }

  lemma HeaderStays(m: seq<Byte>, m': seq<Byte>, b: Block, previous: int, next: int)
    requires 12 <= b.addr <= |m| && HeaderIs(m, b, previous, next) && Same(m, m', b.addr - 12, b.addr)
    ensures HeaderIs(m', b, previous, next)
  {
  }

  lemma HeapHeaderStays(m: seq<Byte>, m': seq<Byte>, header: int, first: int, lo: int, hi: int)
    requires HeapHeader(m, header, first, lo, hi) && Same(m, m', header, header + 12)
    ensures HeapHeader(m', header, first, lo, hi)
  {
  }

  /** A store outside the four bytes of a field leaves the field alone. */
  lemma LoadStays(m: seq<Byte>, r: seq<Byte>, a: int)
    requires 0 <= a && a + 4 <= |m| && Same(m, r, a, a + 4)
    ensures Load(r, a) == Load(m, a)
  {
  }

  lemma FirstStored(m: seq<Byte>, m': seq<Byte>, header: int, old': int, first: int, lo: int, hi: int)
    requires HeapHeader(m, header, old', lo, hi) && Same(m, m', header + 4, header + 12) && Load(m', header) == first
    ensures HeapHeader(m', header, first, lo, hi)
  {
    LoadStays(m, m', header + 4);
    LoadStays(m, m', header + 8);
  }

  // ---------- allocate_space ----------

  predicate InBounds(m: seq<Byte>, free: int, size: int, previous: int, next: int) {
    && 0 <= free && free + 12 <= |m| && free + 12 < WORD && 0 <= size < WORD && 0 <= previous < WORD && 0 <= next < WORD
    && (previous == 0 || 12 <= previous <= |m|) && (next == 0 || 12 <= next <= |m|)
  }

  /** Where an allocation lies: after its predecessor, with its header before its successor's. */
  predicate Between(free: int, previous: int, next: int) {
    (previous == 0 || previous <= free) && (next == 0 || free + 24 <= next)
  }

  /** What `allocate_space` turns memory `m` into: a new header, the neighbours pointing to it, all else as it was. */
  ghost predicate Allocated(m: seq<Byte>, r: seq<Byte>, free: int, size: int, previous: int, next: int)
    requires InBounds(m, free, size, previous, next)
  {
    && |r| == |m|
    && HeaderIs(r, Block(free + 12, size), previous, next)
    && (previous != 0 ==> Load(r, previous - 4) == free + 12)
    && (next != 0 ==> Load(r, next - 8) == free + 12)
    && (forall i :: 0 <= i < |m| && !Overwritten(i, free, previous, next) ==> r[i] == m[i])
  }

  predicate Overwritten(i: int, free: int, previous: int, next: int) {
    || free <= i < free + 12
    || (previous != 0 && previous - 4 <= i < previous)
    || (next != 0 && next - 8 <= i < next - 4)
  }

  /** The three words of a new header. */
  method WriteHeader(m: seq<Byte>, free: int, size: int, previous: int, next: int) returns (r: seq<Byte>)
    requires InBounds(m, free, size, previous, next)
    ensures |r| == |m| && HeaderIs(r, Block(free + 12, size), previous, next)
    ensures Same(m, r, 0, free) && Same(m, r, free + 12, |m|)
  {
    var m1 := Store(m, free, size);
    var m2 := Store(m1, free + 4, previous);
    LoadStays(m1, m2, free);
    r := Store(m2, free + 8, next);
    LoadStays(m2, r, free);
    LoadStays(m2, r, free + 4);
  }

  /** allocate_space. */
  method AllocateSpace(m: seq<Byte>, free: int, size: int, previous: int, next: int) returns (r: seq<Byte>,
                       address: int)
    requires InBounds(m, free, size, previous, next) && Between(free, previous, next)
    ensures Allocated(m, r, free, size, previous, next) && address == free + 12
  {
    r := WriteHeader(m, free, size, previous, next);
    address := free + 12;
    if previous != 0 {
      ghost var m1 := r;
      r := Store(r, previous - 4, address);
      HeaderStays(m1, r, Block(free + 12, size), previous, next);
    }
    if next != 0 {
      ghost var m2 := r;
      r := Store(r, next - 8, address);
      HeaderStays(m2, r, Block(free + 12, size), previous, next);
      if previous != 0 { LoadStays(m2, r, previous - 4); }
    }
  }

  /** A block `b` that fits gap k. */
  ghost predicate FitsGap(blocks: seq<Block>, lo: int, hi: int, k: int, b: Block) {
    && 0 <= k <= |blocks| && 0 <= b.size
    && b.addr == GapStart(blocks, lo, k) + 12 && b.addr < hi && b.addr + b.size <= GapEnd(blocks, hi, k)
  }

  lemma InsertGeometry(m: seq<Byte>, blocks: seq<Block>, lo: int, hi: int, k: int, b: Block)
    requires Layout(blocks, lo, hi) && FitsGap(blocks, lo, hi, k, b) && hi <= |m|
    ensures InBounds(m, b.addr - 12, b.size, AddrAt(blocks, k - 1), AddrAt(blocks, k))
    ensures Between(b.addr - 12, AddrAt(blocks, k - 1), AddrAt(blocks, k))
  {
  }

  /** Where block j lies when b goes into gap k: off the new header, off b, and off the neighbours' fields. */
  lemma InsertApart(blocks: seq<Block>, lo: int, hi: int, k: int, b: Block, j: int)
    requires Layout(blocks, lo, hi) && FitsGap(blocks, lo, hi, k, b) && 0 <= j < |blocks|
    ensures j < k ==> blocks[j].addr + blocks[j].size <= b.addr - 12
    ensures j < k - 1 ==> blocks[j].addr + blocks[j].size <= AddrAt(blocks, k - 1) - 12
    ensures j >= k ==> b.addr + b.size <= blocks[j].addr - 12
    ensures j > k ==> AddrAt(blocks, k) <= blocks[j].addr - 12
    ensures k > 0 && j >= k ==> AddrAt(blocks, k - 1) <= blocks[j].addr - 12
  {
  }

  /** What allocate_space makes of a heap when it puts `b` into gap k. */
  ghost predicate AllocatedIn(m: seq<Byte>, r: seq<Byte>, blocks: seq<Block>, lo: int, hi: int, k: int, b: Block) {
    && Layout(blocks, lo, hi) && FitsGap(blocks, lo, hi, k, b) && hi <= |m|
    && InBounds(m, b.addr - 12, b.size, AddrAt(blocks, k - 1), AddrAt(blocks, k))
    && Allocated(m, r, b.addr - 12, b.size, AddrAt(blocks, k - 1), AddrAt(blocks, k))
  }

  /** A header of which the links may have been rewritten. */
  lemma HeaderRelinked(m: seq<Byte>, r: seq<Byte>, b: Block, x: int, y: int, x': int, y': int)
    requires 12 <= b.addr <= |m| && HeaderIs(m, b, x, y) && Same(m, r, b.addr - 12, b.addr - 8)
    requires Load(r, b.addr - 8) == x' || (x' == x && Same(m, r, b.addr - 8, b.addr - 4))
    requires Load(r, b.addr - 4) == y' || (y' == y && Same(m, r, b.addr - 4, b.addr))
    ensures HeaderIs(r, b, x', y')
  {
  }

  /** The fields of block j that an allocation in gap k does not write. */
  lemma FieldsMissed(m: seq<Byte>, r: seq<Byte>, blocks: seq<Block>, lo: int, hi: int, k: int, b: Block, j: int)
    requires AllocatedIn(m, r, blocks, lo, hi, k, b) && 0 <= j < |blocks|
    ensures var a := blocks[j].addr;
      && Same(m, r, a - 12, a - 8)
      && (j != k ==> Same(m, r, a - 8, a - 4))
      && (j != k - 1 ==> Same(m, r, a - 4, a))
  {
    InsertApart(blocks, lo, hi, k, b, j);
  }

  /** What an allocation in gap k does to the header of block j. */
  lemma NeighbourHeader(m: seq<Byte>, r: seq<Byte>, blocks: seq<Block>, lo: int, hi: int, k: int, b: Block,
                        j: int, x: int, y: int)
    requires AllocatedIn(m, r, blocks, lo, hi, k, b)
    requires 0 <= j < |blocks| && HeaderIs(m, blocks[j], x, y)
    ensures HeaderIs(r, blocks[j], if j == k then b.addr else x, if j == k - 1 then b.addr else y)
  {
    FieldsMissed(m, r, blocks, lo, hi, k, b, j);
    HeaderRelinked(m, r, blocks[j], x, y, if j == k then b.addr else x, if j == k - 1 then b.addr else y);
  }

  lemma InsertedNeighbours(blocks: seq<Block>, k: int, b: Block, i: int)
    requires 0 <= k <= |blocks| && 0 <= i <= |blocks| && i != k
    ensures var s := Insert(blocks, k, b); var j := Unshifted(k, i);
      && s[i] == blocks[j]
      && AddrAt(s, i - 1) == (if j == k then b.addr else AddrAt(blocks, j - 1))
      && AddrAt(s, i + 1) == (if j == k - 1 then b.addr else AddrAt(blocks, j + 1))
  {
  }

  lemma InsertedSelf(blocks: seq<Block>, k: int, b: Block)
    requires 0 <= k <= |blocks|
    ensures var s := Insert(blocks, k, b);
      s[k] == b && AddrAt(s, k - 1) == AddrAt(blocks, k - 1) && AddrAt(s, k + 1) == AddrAt(blocks, k)
  {
  }

  lemma InsertedOldNode(m: seq<Byte>, r: seq<Byte>, blocks: seq<Block>, lo: int, hi: int, k: int, b: Block, i: int,
                        j: int)
    requires AllocatedIn(m, r, blocks, lo, hi, k, b) && 0 <= i <= |blocks| && i != k && j == Unshifted(k, i)
    requires Node(m, blocks, j)
    ensures var s := Insert(blocks, k, b); 12 <= s[i].addr <= |r| && Node(r, s, i)
  {
    NeighbourHeader(m, r, blocks, lo, hi, k, b, j, AddrAt(blocks, j - 1), AddrAt(blocks, j + 1));
    InsertedNeighbours(blocks, k, b, i);
  }

  lemma InsertedNode(m: seq<Byte>, r: seq<Byte>, blocks: seq<Block>, lo: int, hi: int, k: int, b: Block, i: int)
    requires AllocatedIn(m, r, blocks, lo, hi, k, b) && 0 <= i <= |blocks|
    requires forall j :: 0 <= j < |blocks| ==> Node(m, blocks, j)
    ensures var s := Insert(blocks, k, b); 12 <= s[i].addr <= |r| && Node(r, s, i)
  {
    if i == k {
      InsertedSelf(blocks, k, b);
    } else {
      InsertedOldNode(m, r, blocks, lo, hi, k, b, i, Unshifted(k, i));
    }
  }

  /** No store of an allocation lands in a payload, the new one included. */
  lemma PayloadMissed(m: seq<Byte>, r: seq<Byte>, blocks: seq<Block>, lo: int, hi: int, k: int, b: Block, j: int)
    requires AllocatedIn(m, r, blocks, lo, hi, k, b) && 0 <= j < |blocks|
    ensures Same(m, r, blocks[j].addr, blocks[j].addr + blocks[j].size)
  {
    InsertApart(blocks, lo, hi, k, b, j);
  }

  lemma NewPayloadMissed(m: seq<Byte>, r: seq<Byte>, blocks: seq<Block>, lo: int, hi: int, k: int, b: Block)
    requires AllocatedIn(m, r, blocks, lo, hi, k, b)
    ensures Same(m, r, b.addr, b.addr + b.size)
  {
  }

  /** Nor in the heap header, nor outside the heap. */
  lemma OutsideMissed(m: seq<Byte>, r: seq<Byte>, blocks: seq<Block>, lo: int, hi: int, k: int, b: Block)
    requires AllocatedIn(m, r, blocks, lo, hi, k, b)
    ensures Same(m, r, 0, lo) && Same(m, r, hi, |m|)
  {
  }

  /** Kept, by position in the list. */
  lemma KeptByIndex(m: seq<Byte>, m': seq<Byte>, blocks: seq<Block>, header: int, hi: int)
    requires Same(m, m', 0, header) && Same(m, m', hi, |m|)
    requires forall j :: 0 <= j < |blocks| ==> Same(m, m', blocks[j].addr, blocks[j].addr + blocks[j].size)
    ensures Kept(m, m', Live(blocks), header, hi)
  {
  }

  lemma AllocatedKeeps(m: seq<Byte>, r: seq<Byte>, header: int, blocks: seq<Block>, lo: int, hi: int, k: int, b: Block)
    requires AllocatedIn(m, r, blocks, lo, hi, k, b) && 0 <= header && lo == header + 12
    ensures Same(m, r, header, lo) && Kept(m, r, Live(blocks), header, hi)
  {
    OutsideMissed(m, r, blocks, lo, hi, k, b);
    forall j | 0 <= j < |blocks|
      ensures Same(m, r, blocks[j].addr, blocks[j].addr + blocks[j].size)
    {
      PayloadMissed(m, r, blocks, lo, hi, k, b, j);
    }
    KeptByIndex(m, r, blocks, header, hi);
  }

  /** The memory after allocate_space and, for the first block, the store of first_address. */
  function WithFirst(r: seq<Byte>, header: int, k: int, first: int): seq<Byte>
    requires 0 <= header && header + 4 <= |r| && 0 <= first < WORD
  {
    if k == 0 then Store(r, header, first) else r
  }

  /** They insert the block into the list... */
  lemma InsertLinks(m: seq<Byte>, r: seq<Byte>, header: int, blocks: seq<Block>, lo: int, hi: int, k: int, b: Block)
    requires Linked(m, header, blocks, lo, hi) && AllocatedIn(m, r, blocks, lo, hi, k, b)
    ensures Linked(WithFirst(r, header, k, b.addr), header, Insert(blocks, k, b), lo, hi)
  {
    InsertKeepsLayout(blocks, lo, hi, k, b);
    OutsideMissed(m, r, blocks, lo, hi, k, b);
    HeapHeaderStays(m, r, header, AddrAt(blocks, 0), lo, hi);
    var s := Insert(blocks, k, b);
    forall i | 0 <= i < |s|
      ensures Node(r, s, i)
    {
      InsertedNode(m, r, blocks, lo, hi, k, b, i);
    }
    if k == 0 {
      FirstLinks(r, header, s, lo, hi, AddrAt(blocks, 0), b.addr);
    } else {
      assert AddrAt(s, 0) == AddrAt(blocks, 0);
    }
  }

  /** ... and touch no payload. */
  lemma InsertKeeps(m: seq<Byte>, r: seq<Byte>, header: int, blocks: seq<Block>, lo: int, hi: int, k: int, b: Block)
    requires AllocatedIn(m, r, blocks, lo, hi, k, b) && 0 <= header && lo == header + 12
    ensures var r' := WithFirst(r, header, k, b.addr);
      Kept(m, r', Live(blocks), header, hi) && Same(m, r', b.addr, b.addr + b.size)
  {
    AllocatedKeeps(m, r, header, blocks, lo, hi, k, b);
    NewPayloadMissed(m, r, blocks, lo, hi, k, b);
    var r' := WithFirst(r, header, k, b.addr);
    assert Same(r, r', 0, header) && Same(r, r', lo, |r|);
    forall c <- Live(blocks)
      ensures Same(m, r', c.addr, c.addr + c.size)
    {
      assert Same(m, r, c.addr, c.addr + c.size);
    }
  }

  /** What allocate_space needs to know about gap k, and when it is the front of the heap. */
  lemma InsertReady(m: seq<Byte>, header: int, blocks: seq<Block>, lo: int, hi: int, k: int, b: Block)
    requires Linked(m, header, blocks, lo, hi) && FitsGap(blocks, lo, hi, k, b)
    ensures InBounds(m, b.addr - 12, b.size, AddrAt(blocks, k - 1), AddrAt(blocks, k))
    ensures Between(b.addr - 12, AddrAt(blocks, k - 1), AddrAt(blocks, k))
    ensures 0 <= header && header + 4 <= |m| && 0 <= b.addr < WORD && (b.addr - 12 == lo <==> k == 0)
  {
    InsertGeometry(m, blocks, lo, hi, k, b);
    assert k > 0 ==> blocks[k - 1].addr >= lo + 12;
  }

  /** Both together. */
  lemma Inserted(m: seq<Byte>, r: seq<Byte>, header: int, blocks: seq<Block>, lo: int, hi: int, k: int, b: Block)
    requires Linked(m, header, blocks, lo, hi) && FitsGap(blocks, lo, hi, k, b)
    requires InBounds(m, b.addr - 12, b.size, AddrAt(blocks, k - 1), AddrAt(blocks, k))
    requires Allocated(m, r, b.addr - 12, b.size, AddrAt(blocks, k - 1), AddrAt(blocks, k))
    ensures 0 <= header && header + 4 <= |r| && 0 <= b.addr < WORD
    ensures Linked(WithFirst(r, header, k, b.addr), header, Insert(blocks, k, b), lo, hi)
    ensures Kept(m, WithFirst(r, header, k, b.addr), Live(blocks), header, hi)
    ensures Same(m, WithFirst(r, header, k, b.addr), b.addr, b.addr + b.size)
  {
    InsertLinks(m, r, header, blocks, lo, hi, k, b);
    InsertKeeps(m, r, header, blocks, lo, hi, k, b);
  }

  /** Writing first_address completes a list whose block headers are in place. */
  lemma FirstLinks(r: seq<Byte>, header: int, s: seq<Block>, lo: int, hi: int, old': int, first: int)
    requires hi <= |r| && Layout(s, lo, hi) && HeapHeader(r, header, old', lo, hi) && first == AddrAt(s, 0)
    requires 0 <= first < WORD
    requires forall i :: 0 <= i < |s| ==> Node(r, s, i)
    ensures Linked(Store(r, header, first), header, s, lo, hi)
  {
    var r' := Store(r, header, first);
    FirstStored(r, r', header, old', first, lo, hi);
    forall i | 0 <= i < |s|
      ensures Node(r', s, i)
    {
      assert Node(r, s, i);
      HeaderStays(r, r', s[i], AddrAt(s, i - 1), AddrAt(s, i + 1));
    }
  }

  // ---------- unalloc ----------

  /** What `unalloc` turns memory into: the neighbours, or the heap header, point past the block. */
  ghost predicate Unlinked(m: seq<Byte>, r: seq<Byte>, header: int, previous: int, next: int)
    requires Addresses(m, header, previous, next)
  {
    && |r| == |m|
    && (if previous == 0 then Load(r, header) == next else Load(r, previous - 4) == next)
    && (next != 0 ==> Load(r, next - 8) == previous)
    && (forall i :: 0 <= i < |m| && !Bypassed(i, header, previous, next) ==> r[i] == m[i])
  }

  predicate Bypassed(i: int, header: int, previous: int, next: int) {
    || (previous == 0 && header <= i < header + 4)
    || (previous != 0 && previous - 4 <= i < previous)
    || (next != 0 && next - 8 <= i < next - 4)
  }

  /** Heap header, predecessor and successor, one after the other. */
  predicate Addresses(m: seq<Byte>, header: int, previous: int, next: int) {
    && 0 <= header && header + 12 <= |m| && 0 <= previous < WORD && 0 <= next < WORD
    && (previous == 0 || header + 24 <= previous <= |m|) && (next == 0 || header + 24 <= next <= |m|)
    && (previous == 0 || next == 0 || previous + 12 <= next)
  }

  /** The pointer updates of unalloc, in the order of the source. */
  method Bypass(m: seq<Byte>, header: int, isFirst: bool, previous: int, next: int) returns (r: seq<Byte>)
    requires Addresses(m, header, previous, next) && (isFirst <==> previous == 0)
    ensures Unlinked(m, r, header, previous, next)
  {
    r := m;
    if isFirst {
      r := Store(r, header, next);
    }
    if next != 0 {
      ghost var m1 := r;
      r := Store(r, next - 8, previous);
      if isFirst { LoadStays(m1, r, header); }
    }
    if previous != 0 {
      ghost var m2 := r;
      r := Store(r, previous - 4, next);
      if next != 0 { LoadStays(m2, r, next - 8); }
    }
  }

  lemma RemoveGeometry(m: seq<Byte>, header: int, blocks: seq<Block>, lo: int, hi: int, k: int)
    requires Layout(blocks, lo, hi) && hi <= |m| && 0 <= header && lo == header + 12 && 0 <= k < |blocks|
    ensures Addresses(m, header, AddrAt(blocks, k - 1), AddrAt(blocks, k + 1))
    ensures AddrAt(blocks, k - 1) == 0 <==> k == 0
    ensures blocks[k].addr == AddrAt(blocks, 0) <==> k == 0
  {
    assert k > 0 ==> blocks[0].addr < blocks[k].addr;
    assert k > 0 && k + 1 < |blocks| ==> blocks[k - 1].addr + 12 <= blocks[k + 1].addr;
  }

  /** What unalloc makes of a heap when it frees block k. */
  ghost predicate UnlinkedIn(m: seq<Byte>, r: seq<Byte>, header: int, blocks: seq<Block>, lo: int, hi: int, k: int) {
    && Layout(blocks, lo, hi) && hi <= |m| && 0 <= header && lo == header + 12 && 0 <= k < |blocks|
    && Addresses(m, header, AddrAt(blocks, k - 1), AddrAt(blocks, k + 1))
    && Unlinked(m, r, header, AddrAt(blocks, k - 1), AddrAt(blocks, k + 1))
  }

  /** Where block j lies when block k goes: off the fields of its neighbours. */
  lemma RemoveApart(blocks: seq<Block>, lo: int, hi: int, k: int, j: int)
    requires Layout(blocks, lo, hi) && 0 <= k < |blocks| && 0 <= j < |blocks|
    ensures j < k - 1 ==> blocks[j].addr + blocks[j].size <= AddrAt(blocks, k - 1) - 12
    ensures j <= k && k + 1 < |blocks| ==> blocks[j].addr + blocks[j].size <= AddrAt(blocks, k + 1) - 12
    ensures j >= k && k > 0 ==> AddrAt(blocks, k - 1) <= blocks[j].addr - 12
    ensures j > k + 1 ==> AddrAt(blocks, k + 1) <= blocks[j].addr - 12
  {
  }

  /** The fields of block j that the removal of block k does not write. */
  lemma FieldsBypassed(m: seq<Byte>, r: seq<Byte>, header: int, blocks: seq<Block>, lo: int, hi: int, k: int, j: int)
    requires UnlinkedIn(m, r, header, blocks, lo, hi, k) && 0 <= j < |blocks| && j != k
    ensures var a := blocks[j].addr;
      && Same(m, r, a - 12, a - 8)
      && (j != k + 1 ==> Same(m, r, a - 8, a - 4))
      && (j != k - 1 ==> Same(m, r, a - 4, a))
  {
    RemoveApart(blocks, lo, hi, k, j);
  }

  /** What removing block k does to the header of block j. */
  lemma BypassedHeader(m: seq<Byte>, r: seq<Byte>, header: int, blocks: seq<Block>, lo: int, hi: int, k: int,
                       j: int, x: int, y: int)
    requires UnlinkedIn(m, r, header, blocks, lo, hi, k)
    requires 0 <= j < |blocks| && j != k && HeaderIs(m, blocks[j], x, y)
    ensures HeaderIs(r, blocks[j], if j == k + 1 then AddrAt(blocks, k - 1) else x,
                     if j == k - 1 then AddrAt(blocks, k + 1) else y)
  {
    FieldsBypassed(m, r, header, blocks, lo, hi, k, j);
    HeaderRelinked(m, r, blocks[j], x, y, if j == k + 1 then AddrAt(blocks, k - 1) else x,
                   if j == k - 1 then AddrAt(blocks, k + 1) else y);
  }

  lemma RemovedNeighbours(blocks: seq<Block>, k: int, i: int)
    requires 0 <= k < |blocks| && 0 <= i < |blocks| - 1
    ensures var s := Remove(blocks, k); var j := Shifted(k, i);
      && s[i] == blocks[j]
      && AddrAt(s, i - 1) == (if j == k + 1 then AddrAt(blocks, k - 1) else AddrAt(blocks, j - 1))
      && AddrAt(s, i + 1) == (if j == k - 1 then AddrAt(blocks, k + 1) else AddrAt(blocks, j + 1))
  {
  }

  lemma RemovedNode(m: seq<Byte>, r: seq<Byte>, header: int, blocks: seq<Block>, lo: int, hi: int, k: int, i: int)
    requires UnlinkedIn(m, r, header, blocks, lo, hi, k) && 0 <= i < |blocks| - 1
    requires Node(m, blocks, Shifted(k, i))
    ensures var s := Remove(blocks, k); 12 <= s[i].addr <= |r| && Node(r, s, i)
  {
    var j := Shifted(k, i);
    BypassedHeader(m, r, header, blocks, lo, hi, k, j, AddrAt(blocks, j - 1), AddrAt(blocks, j + 1));
    RemovedNeighbours(blocks, k, i);
  }

  lemma RemovedHeapHeader(m: seq<Byte>, r: seq<Byte>, header: int, blocks: seq<Block>, lo: int, hi: int, k: int)
    requires UnlinkedIn(m, r, header, blocks, lo, hi, k) && HeapHeader(m, header, AddrAt(blocks, 0), lo, hi)
    ensures HeapHeader(r, header, AddrAt(Remove(blocks, k), 0), lo, hi)
  {
    assert Same(m, r, header + 4, header + 12);
    if k == 0 {
      FirstStored(m, r, header, AddrAt(blocks, 0), AddrAt(blocks, 1), lo, hi);
    } else {
      assert blocks[k - 1].addr >= lo + 12;
      HeapHeaderStays(m, r, header, AddrAt(blocks, 0), lo, hi);
    }
  }

  lemma RemoveLinks(m: seq<Byte>, r: seq<Byte>, header: int, blocks: seq<Block>, lo: int, hi: int, k: int)
    requires Linked(m, header, blocks, lo, hi) && UnlinkedIn(m, r, header, blocks, lo, hi, k)
    ensures Linked(r, header, Remove(blocks, k), lo, hi)
  {
    RemoveKeepsLayout(blocks, lo, hi, k);
    RemovedHeapHeader(m, r, header, blocks, lo, hi, k);
    var s := Remove(blocks, k);
    forall i | 0 <= i < |s|
      ensures Node(r, s, i)
    {
      assert Node(m, blocks, Shifted(k, i));
      RemovedNode(m, r, header, blocks, lo, hi, k, i);
    }
  }

  lemma RemoveKeeps(m: seq<Byte>, r: seq<Byte>, header: int, blocks: seq<Block>, lo: int, hi: int, k: int)
    requires UnlinkedIn(m, r, header, blocks, lo, hi, k)
    ensures Kept(m, r, Live(blocks), header, hi)
  {
    forall j | 0 <= j < |blocks|
      ensures Same(m, r, blocks[j].addr, blocks[j].addr + blocks[j].size)
    {
      RemoveApart(blocks, lo, hi, k, j);
    }
    KeptByIndex(m, r, blocks, header, hi);
  }

  // ---------- payload writes and resizing ----------

  /** Bytes of the payload of block k are nobody else's: changing them keeps the list and the other payloads. */
  lemma PayloadWrite(m: seq<Byte>, m': seq<Byte>, header: int, blocks: seq<Block>, lo: int, hi: int, k: int)
    requires Linked(m, header, blocks, lo, hi) && 0 <= k < |blocks|
    requires Same(m, m', 0, blocks[k].addr) && Same(m, m', blocks[k].addr + blocks[k].size, |m|)
    ensures Linked(m', header, blocks, lo, hi)
  {
    HeapHeaderStays(m, m', header, AddrAt(blocks, 0), lo, hi);
    forall j | 0 <= j < |blocks|
      ensures Node(m', blocks, j)
    {
      assert Node(m, blocks, j);
      assert j < k ==> blocks[j].addr <= blocks[k].addr;
      assert j > k ==> blocks[k].addr + blocks[k].size <= blocks[j].addr - 12;
      HeaderStays(m, m', blocks[j], AddrAt(blocks, j - 1), AddrAt(blocks, j + 1));
    }
  }

  /** Filling a new block leaves the earlier payloads as the allocation left them. */
  lemma FillKeeps(m0: seq<Byte>, m: seq<Byte>, m': seq<Byte>, header: int, blocks: seq<Block>, lo: int, hi: int,
                  k: int, b: Block)
    requires 0 <= k <= |blocks| && Layout(Insert(blocks, k, b), lo, hi) && lo == header + 12 && hi <= |m|
    requires Kept(m0, m, Live(blocks), header, hi)
    requires Same(m, m', 0, b.addr) && Same(m, m', b.addr + b.size, |m|)
    ensures Kept(m0, m', Live(blocks), header, hi)
  {
    var s := Insert(blocks, k, b);
    assert s[k] == b;
    forall j | 0 <= j < |blocks|
      ensures Same(m0, m', blocks[j].addr, blocks[j].addr + blocks[j].size)
    {
      var c := blocks[j];
      assert s[Shifted(k, j)] == c && c in Live(blocks);
      assert if j < k then c.addr + c.size <= b.addr else b.addr + b.size <= c.addr;
      assert Same(m0, m, c.addr, c.addr + c.size);
    }
    KeptByIndex(m0, m', blocks, header, hi);
  }

  lemma ResizeKeepsLayoutIff(blocks: seq<Block>, lo: int, hi: int, k: int, size: int)
    requires Layout(blocks, lo, hi) && 0 <= k < |blocks| && 0 <= size
    ensures Layout(blocks[k := Block(blocks[k].addr, size)], lo, hi) <==>
            blocks[k].addr + size <= GapEnd(blocks, hi, k + 1)
  {
    var s := blocks[k := Block(blocks[k].addr, size)];
    if Layout(s, lo, hi) {
      assert s[k].addr + s[k].size <= hi;
      assert k + 1 < |blocks| ==> s[k].addr + s[k].size + 12 <= s[k + 1].addr;
    }
  }

  /** Memory `m'` differs from `m` only in the size field of the block at `addr`, which is now `size`. */
  ghost predicate Resized(m: seq<Byte>, m': seq<Byte>, addr: int, size: int) {
    && 12 <= addr <= |m| && Same(m, m', 0, addr - 12) && Same(m, m', addr - 8, |m|) && Load(m', addr - 12) == size
  }

  lemma ResizeLinks(m: seq<Byte>, m': seq<Byte>, header: int, blocks: seq<Block>, lo: int, hi: int, k: int, size: int)
    requires Linked(m, header, blocks, lo, hi) && 0 <= k < |blocks| && 0 <= size < WORD
    requires Resized(m, m', blocks[k].addr, size) && blocks[k].addr + size <= GapEnd(blocks, hi, k + 1)
    ensures Linked(m', header, blocks[k := Block(blocks[k].addr, size)], lo, hi)
  {
    ResizeKeepsLayoutIff(blocks, lo, hi, k, size);
    HeapHeaderStays(m, m', header, AddrAt(blocks, 0), lo, hi);
    var s := blocks[k := Block(blocks[k].addr, size)];
    forall j | 0 <= j < |s|
      ensures Node(m', s, j)
    {
      assert Node(m, blocks, j);
      ResizedNode(m, m', blocks, lo, hi, k, size, j);
    }
  }

  lemma ResizedNode(m: seq<Byte>, m': seq<Byte>, blocks: seq<Block>, lo: int, hi: int, k: int, size: int, j: int)
    requires Layout(blocks, lo, hi) && hi <= |m| && 0 <= k < |blocks| && 0 <= j < |blocks| && Node(m, blocks, j)
    requires Resized(m, m', blocks[k].addr, size)
    ensures Node(m', blocks[k := Block(blocks[k].addr, size)], j)
  {
    var a := blocks[j].addr;
    if j == k {
      LoadStays(m, m', a - 8);
      LoadStays(m, m', a - 4);
    } else {
      assert if j < k then a <= blocks[k].addr - 12 else blocks[k].addr <= a - 12;
      HeaderStays(m, m', blocks[j], AddrAt(blocks, j - 1), AddrAt(blocks, j + 1));
    }
  }

  lemma ResizeKeeps(m: seq<Byte>, m': seq<Byte>, header: int, blocks: seq<Block>, lo: int, hi: int, k: int, size: int)
    requires Layout(blocks, lo, hi) && hi <= |m| && 0 <= k < |blocks| && 0 <= header && lo == header + 12
    requires Resized(m, m', blocks[k].addr, size)
    ensures Kept(m, m', Live(blocks), header, hi)
  {
    forall j | 0 <= j < |blocks|
      ensures Same(m, m', blocks[j].addr, blocks[j].addr + blocks[j].size)
    {
      assert j < k ==> blocks[j].addr + blocks[j].size <= blocks[k].addr - 12;
      assert j > k ==> blocks[k].addr <= blocks[j].addr;
    }
    KeptByIndex(m, m', blocks, header, hi);
  }
}
