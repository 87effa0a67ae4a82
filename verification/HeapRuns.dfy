/** Whole runs on a heap: a caller allocates, writes to its blocks and frees them, in any order that keeps its side
    of the bargain. To it the heap is a set of buffers that nobody else touches; to everybody else it might not have
    been there. */
module HeapRuns {
  import opened ByteMemory
  import opened HeapLayout
  import opened HeapLinks
  import H = Heap

  /** `Poke` is a store of the caller through a pointer to its block. */
  datatype Op =
    | Ralloc(size: int)
    | Zalloc(size: int)
    | Unalloc(block: Block)
    | Poke(block: Block, offset: int, value: Byte)

  /** A byte of a buffer, as far as the caller can know it. */
  datatype Cell = Unknown | Known(value: Byte)

  /** The blocks of a heap, and the buffers that a run has allocated there and not yet freed. */
  datatype HeapRun = HeapRun(blocks: seq<Block>, buffers: map<Block, seq<Cell>>)

  /** The caller frees and writes only what is its own, and keeps its side when it allocates. */
  predicate Legal(r: HeapRun, lo: int, hi: int, op: Op) {
    match op
    case Ralloc(size) => Allocatable(r.blocks, lo, hi, size)
    case Zalloc(size) => Allocatable(r.blocks, lo, hi, size)
    case Unalloc(block) => block in r.buffers
    case Poke(block, offset, _) => block in r.buffers && 0 <= offset < block.size
  }

  ghost function Index(blocks: seq<Block>, b: Block): (k: int)
    requires b in blocks
    ensures 0 <= k < |blocks| && blocks[k] == b
  {
    var k :| 0 <= k < |blocks| && blocks[k] == b;
    k
  }

  /** A new buffer, all of whose bytes are `cell`, where best fit puts it. */
  function Allocate(r: HeapRun, lo: int, hi: int, size: int, cell: Cell): HeapRun {
    var k := Placed(r.blocks, lo, hi, size);
    if 0 <= k <= |r.blocks| && 0 <= size then
      var b := NewBlock(r.blocks, lo, k, size);
      HeapRun(Insert(r.blocks, k, b), r.buffers[b := seq(size, _ => cell)])
    else r
  }

  ghost function Apply(r: HeapRun, lo: int, hi: int, op: Op): HeapRun {
    match op
    case Ralloc(size) => Allocate(r, lo, hi, size, Unknown)
    case Zalloc(size) => Allocate(r, lo, hi, size, Known(0))
    case Unalloc(block) =>
      if block in r.blocks then HeapRun(Remove(r.blocks, Index(r.blocks, block)), r.buffers - {block}) else r
    case Poke(block, offset, value) =>
      if block in r.buffers && 0 <= offset < |r.buffers[block]| then
        r.(buffers := r.buffers[block := r.buffers[block][offset := Known(value)]])
      else r
  }

  ghost function After(r: HeapRun, lo: int, hi: int, ops: seq<Op>): HeapRun {
    if ops == [] then r else Apply(After(r, lo, hi, ops[..|ops| - 1]), lo, hi, ops[|ops| - 1])
  }

  ghost predicate AllLegal(r: HeapRun, lo: int, hi: int, ops: seq<Op>) {
    ops == [] ||
    (AllLegal(r, lo, hi, ops[..|ops| - 1]) && Legal(After(r, lo, hi, ops[..|ops| - 1]), lo, hi, ops[|ops| - 1]))
  }

  /** The live blocks are those of `others` and the run's own buffers, each as long as its block. */
  ghost predicate Own(r: HeapRun, lo: int, hi: int, others: set<Block>) {
    && Layout(r.blocks, lo, hi) && Live(r.blocks) == others + r.buffers.Keys && others !! r.buffers.Keys
    && forall b <- r.buffers :: |r.buffers[b]| == b.size
  }

  lemma AllocateKeeps(r: HeapRun, lo: int, hi: int, size: int, cell: Cell, others: set<Block>)
    requires Own(r, lo, hi, others) && Allocatable(r.blocks, lo, hi, size)
    ensures Own(Allocate(r, lo, hi, size, cell), lo, hi, others)
  {
    var k := Placed(r.blocks, lo, hi, size);
    if k != -1 {
      AllocationKeepsLayoutIff(r.blocks, lo, hi, size);
      LiveInsert(r.blocks, lo, hi, k, NewBlock(r.blocks, lo, k, size));
    }
  }

  lemma UnallocKeeps(r: HeapRun, lo: int, hi: int, block: Block, others: set<Block>)
    requires Own(r, lo, hi, others) && block in r.buffers
    ensures Own(Apply(r, lo, hi, Unalloc(block)), lo, hi, others)
  {
    assert block in Live(r.blocks);
    RemoveKeepsLayout(r.blocks, lo, hi, Index(r.blocks, block));
    LiveRemove(r.blocks, lo, hi, Index(r.blocks, block));
  }

  lemma ApplyKeeps(r: HeapRun, lo: int, hi: int, op: Op, others: set<Block>)
    requires Own(r, lo, hi, others) && Legal(r, lo, hi, op)
    ensures Own(Apply(r, lo, hi, op), lo, hi, others)
  {
    match op
    case Ralloc(size) => AllocateKeeps(r, lo, hi, size, Unknown, others);
    case Zalloc(size) => AllocateKeeps(r, lo, hi, size, Known(0), others);
    case Unalloc(block) => UnallocKeeps(r, lo, hi, block, others);
    case Poke(block, _, _) => assert r.buffers.Keys + {block} == r.buffers.Keys;
  }

  /** Every legal run keeps the layout and the earlier blocks, and one that has freed all it allocated leaves the
      list of blocks as it found it. */
  lemma {:induction false} RunsAreNeutral(blocks: seq<Block>, lo: int, hi: int, ops: seq<Op>)
    requires Layout(blocks, lo, hi) && AllLegal(HeapRun(blocks, map[]), lo, hi, ops)
    ensures var t := After(HeapRun(blocks, map[]), lo, hi, ops);
      Own(t, lo, hi, Live(blocks)) && (t.buffers == map[] ==> t.blocks == blocks)
  {
    var r := HeapRun(blocks, map[]);
    var t := After(r, lo, hi, ops);
    if ops != [] {
      var n := |ops| - 1;
      RunsAreNeutral(blocks, lo, hi, ops[..n]);
      ApplyKeeps(After(r, lo, hi, ops[..n]), lo, hi, ops[n], Live(blocks));
    }
    if t.buffers == map[] {
      SameBlocksSameList(t.blocks, blocks, lo, hi);
    }
  }

  // ---------- on the real heap ----------

  /** Memory holds what is known of a buffer. */
  ghost predicate Stored(m: seq<Byte>, b: Block, cells: seq<Cell>) {
    && |cells| == b.size && 0 <= b.addr && b.addr + b.size <= |m|
    && forall i :: 0 <= i < |cells| && cells[i].Known? ==> m[b.addr + i] == cells[i].value
  }

  ghost predicate AllStored(m: seq<Byte>, buffers: map<Block, seq<Cell>>) {
    forall b <- buffers :: Stored(m, b, buffers[b])
  }

  lemma KeptStored(m: seq<Byte>, m': seq<Byte>, live: set<Block>, header: int, hi: int, buffers: map<Block, seq<Cell>>)
    requires Kept(m, m', live, header, hi) && AllStored(m, buffers) && buffers.Keys <= live
    ensures AllStored(m', buffers)
  {
    forall b <- buffers
      ensures Stored(m', b, buffers[b])
    {
      assert Stored(m, b, buffers[b]) && Same(m, m', b.addr, b.addr + b.size);
    }
  }

  /** The heap is in the state that the run says, and its buffers hold what is known of them. */
  ghost predicate Runs(h: H.Heap, r: HeapRun, others: set<Block>)
    reads h
  {
    h.Valid() && h.blocks == r.blocks && Own(r, h.lo, h.hi, others) && AllStored(h.mem, r.buffers)
  }

  /** The buffers after an allocation. */
  lemma ObtainStored(m: seq<Byte>, m': seq<Byte>, r: HeapRun, header: int, lo: int, hi: int, size: int, cell: Cell,
                     others: set<Block>, blocks': seq<Block>, address: int)
    requires Own(r, lo, hi, others) && AllStored(m, r.buffers) && Kept(m, m', Live(r.blocks), header, hi) && 0 <= size
    requires H.Placement(r.blocks, blocks', lo, hi, size, address)
    requires address != 0 ==> 0 <= address && address + size <= |m'|
    requires address != 0 && cell.Known? ==> forall i :: address <= i < address + size ==> m'[i] == cell.value
    ensures Allocate(r, lo, hi, size, cell).blocks == blocks'
    ensures AllStored(m', Allocate(r, lo, hi, size, cell).buffers) && Kept(m, m', others, header, hi)
  {
    KeptStored(m, m', Live(r.blocks), header, hi, r.buffers);
    if address != 0 {
      assert Stored(m', Block(address, size), seq(size, _ => cell));
    }
  }

  method Obtain(h: H.Heap, size: int, zero: bool, ghost r: HeapRun, ghost others: set<Block>)
    requires Runs(h, r, others) && Allocatable(h.blocks, h.lo, h.hi, size)
    modifies h
    ensures Runs(h, Allocate(r, h.lo, h.hi, size, if zero then Known(0) else Unknown), others)
    ensures Kept(old(h.mem), h.mem, others, h.header, h.hi)
  {
    ghost var cell := if zero then Known(0) else Unknown;
    ghost var m := h.mem;
    AllocateKeeps(r, h.lo, h.hi, size, cell, others);
    var address := Get(h, size, zero);
    ObtainStored(m, h.mem, r, h.header, h.lo, h.hi, size, cell, others, h.blocks, address);
  }

  /** ralloc or zalloc. */
  method Get(h: H.Heap, size: int, zero: bool) returns (address: int)
    requires h.Valid() && Allocatable(h.blocks, h.lo, h.hi, size)
    modifies h
    ensures h.Valid() && Kept(old(h.mem), h.mem, Live(old(h.blocks)), h.header, h.hi)
    ensures H.Placement(old(h.blocks), h.blocks, h.lo, h.hi, size, address)
    ensures address != 0 ==> 0 <= address && address + size <= |h.mem|
    ensures address != 0 && zero ==> forall i :: address <= i < address + size ==> h.mem[i] == 0
  {
    if zero {
      address := h.Zalloc(size);
    } else {
      address := h.Ralloc(size);
      H.PlacementRoom(old(h.blocks), h.blocks, h.lo, h.hi, size, address);
    }
  }

  method Give(h: H.Heap, block: Block, ghost r: HeapRun, ghost others: set<Block>)
    requires Runs(h, r, others) && block in r.buffers
    modifies h
    ensures Runs(h, Apply(r, h.lo, h.hi, Unalloc(block)), others)
    ensures Kept(old(h.mem), h.mem, others, h.header, h.hi)
  {
    ghost var m := h.mem;
    ApplyKeeps(r, h.lo, h.hi, Unalloc(block), others);
    assert block in Live(r.blocks);
    h.Unalloc(block.addr, Index(r.blocks, block));
    KeptStored(m, h.mem, Live(r.blocks), h.header, h.hi, r.buffers);
  }

  /** Two live blocks share no byte. */
  lemma BlocksApart(blocks: seq<Block>, lo: int, hi: int, b: Block, c: Block)
    requires Layout(blocks, lo, hi) && b in blocks && c in blocks && b != c
    ensures b.addr + b.size <= c.addr || c.addr + c.size <= b.addr
  {
    var i, j := Index(blocks, b), Index(blocks, c);
    assert if i < j then b.addr + b.size <= c.addr else c.addr + c.size <= b.addr;
  }

  /** A byte written in one block is not seen in another. */
  lemma PokeMisses(m: seq<Byte>, blocks: seq<Block>, lo: int, hi: int, b: Block, offset: int, value: Byte, c: Block)
    requires Layout(blocks, lo, hi) && hi <= |m| && b in blocks && c in blocks && b != c && 0 <= offset < b.size
    ensures 0 <= b.addr && b.addr + offset < |m|
    ensures Same(m, m[b.addr + offset := value], c.addr, c.addr + c.size)
  {
    BlocksApart(blocks, lo, hi, b, c);
  }

  lemma PokeStored(m: seq<Byte>, r: HeapRun, lo: int, hi: int, others: set<Block>, b: Block, offset: int, value: Byte)
    requires Own(r, lo, hi, others) && AllStored(m, r.buffers) && hi <= |m| && b in r.buffers && 0 <= offset < b.size
    ensures 0 <= b.addr && b.addr + offset < |m|
    ensures AllStored(m[b.addr + offset := value], Apply(r, lo, hi, Poke(b, offset, value)).buffers)
  {
    var buffers := Apply(r, lo, hi, Poke(b, offset, value)).buffers;
    assert b in Live(r.blocks) && Stored(m, b, r.buffers[b]);
    forall c <- buffers
      ensures Stored(m[b.addr + offset := value], c, buffers[c])
    {
      assert c in Live(r.blocks) && Stored(m, c, r.buffers[c]);
      if c != b {
        PokeMisses(m, r.blocks, lo, hi, b, offset, value, c);
      }
    }
  }

  lemma PokeKept(m: seq<Byte>, r: HeapRun, header: int, lo: int, hi: int, others: set<Block>, b: Block, offset: int,
                 value: Byte)
    requires Own(r, lo, hi, others) && hi <= |m| && lo == header + 12 && b in r.buffers && 0 <= offset < b.size
    ensures 0 <= b.addr && b.addr + offset < |m|
    ensures Kept(m, m[b.addr + offset := value], others, header, hi)
  {
    assert b in Live(r.blocks);
    forall c <- others
      ensures Same(m, m[b.addr + offset := value], c.addr, c.addr + c.size)
    {
      assert c in Live(r.blocks);
      PokeMisses(m, r.blocks, lo, hi, b, offset, value, c);
    }
  }

  /** A run after a byte has been written to one of its buffers. */
  lemma PokeRuns(m: seq<Byte>, m': seq<Byte>, r: HeapRun, header: int, lo: int, hi: int, others: set<Block>,
                 b: Block, offset: int, value: Byte)
    requires Own(r, lo, hi, others) && AllStored(m, r.buffers) && hi <= |m| && lo == header + 12
    requires b in r.buffers && 0 <= offset < b.size && 0 <= b.addr + offset < |m| && m' == m[b.addr + offset := value]
    ensures var t := Apply(r, lo, hi, Poke(b, offset, value));
      t.blocks == r.blocks && Own(t, lo, hi, others) && AllStored(m', t.buffers) && Kept(m, m', others, header, hi)
  {
    ApplyKeeps(r, lo, hi, Poke(b, offset, value), others);
    PokeStored(m, r, lo, hi, others, b, offset, value);
    PokeKept(m, r, header, lo, hi, others, b, offset, value);
  }

  method Set(h: H.Heap, block: Block, offset: int, value: Byte, ghost r: HeapRun, ghost others: set<Block>)
    requires Runs(h, r, others) && block in r.buffers && 0 <= offset < block.size
    modifies h
    ensures Runs(h, Apply(r, h.lo, h.hi, Poke(block, offset, value)), others)
    ensures Kept(old(h.mem), h.mem, others, h.header, h.hi)
  {
    ghost var m := h.mem;
    assert block in Live(r.blocks);
    h.SetByte(block.addr + offset, value, Index(r.blocks, block));
    PokeRuns(m, h.mem, r, h.header, h.lo, h.hi, others, block, offset, value);
  }

  method Perform(h: H.Heap, op: Op, ghost r: HeapRun, ghost others: set<Block>)
    requires Runs(h, r, others) && Legal(r, h.lo, h.hi, op)
    modifies h
    ensures Runs(h, Apply(r, h.lo, h.hi, op), others) && Kept(old(h.mem), h.mem, others, h.header, h.hi)
  {
    match op
    case Ralloc(size) => Obtain(h, size, false, r, others);
    case Zalloc(size) => Obtain(h, size, true, r, others);
    case Unalloc(block) => Give(h, block, r, others);
    case Poke(block, offset, value) => Set(h, block, offset, value, r, others);
  }

  lemma {:induction false} LegalPrefix(r: HeapRun, lo: int, hi: int, ops: seq<Op>, n: int)
    requires AllLegal(r, lo, hi, ops) && 0 <= n < |ops|
    ensures Legal(After(r, lo, hi, ops[..n]), lo, hi, ops[n])
    ensures After(r, lo, hi, ops[..n + 1]) == Apply(After(r, lo, hi, ops[..n]), lo, hi, ops[n])
    decreases |ops|
  {
    assert ops[..n + 1][..n] == ops[..n];
    if n < |ops| - 1 {
      LegalPrefix(r, lo, hi, ops[..|ops| - 1], n);
      assert ops[..|ops| - 1][..n] == ops[..n];
    }
  }

  lemma KeptTwice(m0: seq<Byte>, m1: seq<Byte>, m2: seq<Byte>, live: set<Block>, header: int, hi: int)
    requires Kept(m0, m1, live, header, hi) && Kept(m1, m2, live, header, hi)
    ensures Kept(m0, m2, live, header, hi)
  {
  }

  /** A run on the heap. Its buffers hold what it wrote to them, every block that was there before is still there and no
      byte of it has changed, nor anything outside the heap. */
  method Execute(h: H.Heap, ops: seq<Op>)
    requires h.Valid() && AllLegal(HeapRun(h.blocks, map[]), h.lo, h.hi, ops)
    modifies h
    ensures h.Valid() && Kept(old(h.mem), h.mem, Live(old(h.blocks)), h.header, h.hi)
    ensures var t := After(HeapRun(old(h.blocks), map[]), h.lo, h.hi, ops);
      h.blocks == t.blocks && AllStored(h.mem, t.buffers) && Own(t, h.lo, h.hi, Live(old(h.blocks)))
  {
    ghost var r, others := HeapRun(h.blocks, map[]), Live(h.blocks);
    for i := 0 to |ops|
      invariant Runs(h, After(r, h.lo, h.hi, ops[..i]), others)
      invariant Kept(old(h.mem), h.mem, others, h.header, h.hi)
    {
      ghost var m := h.mem;
      LegalPrefix(r, h.lo, h.hi, ops, i);
      Perform(h, ops[i], After(r, h.lo, h.hi, ops[..i]), others);
      KeptTwice(old(h.mem), m, h.mem, others, h.header, h.hi);
    }
    assert ops[..|ops|] == ops;
  }
}
