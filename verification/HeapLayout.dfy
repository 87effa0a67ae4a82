/** The heap as a sequence of allocated blocks in address order, and best fit over the gaps between them,
    measured with the code's 32-bit arithmetic. Addresses are those of payloads; each has a 12-byte header. */
module HeapLayout {

  const WORD := 0x1_0000_0000

  datatype Block = Block(addr: int, size: int)

  /** u_dword subtraction and addition. */
  function Sub(a: int, b: int): int {
    (a - b) % WORD
  }

  function Add(a: int, b: int): int {
    (a + b) % WORD
  }

  /** Blocks inside lo..hi, in address order, headers and payloads disjoint. */
  ghost predicate Layout(blocks: seq<Block>, lo: int, hi: int) {
    && 12 <= lo <= hi < WORD
    && (forall k :: 0 <= k < |blocks| ==>
         lo + 12 <= blocks[k].addr < hi && 0 <= blocks[k].size && blocks[k].addr + blocks[k].size <= hi)
    && (forall j, k :: 0 <= j < k < |blocks| ==> blocks[j].addr + blocks[j].size + 12 <= blocks[k].addr)
  }

  /** Gap k lies before block k; gap |blocks| is the tail. */
  function GapStart(blocks: seq<Block>, lo: int, k: int): int
    requires 0 <= k <= |blocks|
  {
    if k == 0 then lo else blocks[k - 1].addr + blocks[k - 1].size
  }

  function GapEnd(blocks: seq<Block>, hi: int, k: int): int
    requires 0 <= k <= |blocks|
  {
    if k == |blocks| then hi else blocks[k].addr - 12
  }

  function Gap(blocks: seq<Block>, lo: int, hi: int, k: int): int
    requires 0 <= k <= |blocks|
  {
    GapEnd(blocks, hi, k) - GapStart(blocks, lo, k)
  }

  /** What `ralloc` computes for a gap: the tail comes out 12 bytes short, wrapping below zero. */
  function Measured(blocks: seq<Block>, lo: int, hi: int, k: int): int
    requires 0 <= k <= |blocks|
  {
    if k == 0 && blocks != [] then Sub(Sub(blocks[0].addr, lo), 12)
    else if k < |blocks| then Sub(Sub(Sub(blocks[k].addr, blocks[k - 1].addr), blocks[k - 1].size), 12)
    else if k == 0 then 0
    else Sub(Sub(Sub(hi, blocks[k - 1].addr), blocks[k - 1].size), 12)
  }

  /** The gap chosen so far (-1 for none) and the size to beat. */
  datatype Choice = Choice(gap: int, best: int)

  /** The search of `ralloc` after it has looked at gaps 0..n. */
  function Search(blocks: seq<Block>, lo: int, hi: int, size: int, n: int): Choice
    requires 0 <= n <= |blocks| + 1
  {
    if n == 0 then Choice(-1, Sub(hi, lo)) else
      var c := Search(blocks, lo, hi, size, n - 1);
      var g := Measured(blocks, lo, hi, n - 1);
      if g >= Add(size, 12) && g < c.best then Choice(n - 1, g) else c
  }

  function Insert(blocks: seq<Block>, k: int, b: Block): seq<Block>
    requires 0 <= k <= |blocks|
  {
    blocks[..k] + [b] + blocks[k..]
  }

  function Remove(blocks: seq<Block>, k: int): seq<Block>
    requires 0 <= k < |blocks|
  {
    blocks[..k] + blocks[k + 1..]
  }

  /** Where `ralloc` puts a block: the gap it goes into, or -1 when it answers null. The first block of an
      empty heap goes to the front unchecked. */
  function Placed(blocks: seq<Block>, lo: int, hi: int, size: int): (k: int)
  {
    if blocks == [] then 0 else Search(blocks, lo, hi, size, |blocks| + 1).gap
  }

  // ---------- what is measured ----------

  lemma SubValue(a: int, b: int)
    ensures 0 <= a - b < WORD ==> Sub(a, b) == a - b
    ensures -WORD <= a - b < 0 ==> Sub(a, b) == a - b + WORD
  {
  }

  lemma MeasuredIsGap(blocks: seq<Block>, lo: int, hi: int, k: int)
    requires Layout(blocks, lo, hi) && blocks != [] && 0 <= k <= |blocks|
    ensures 0 <= Gap(blocks, lo, hi, k) < hi - lo
    ensures k < |blocks| ==> Measured(blocks, lo, hi, k) == Gap(blocks, lo, hi, k)
    ensures k == |blocks| ==> Measured(blocks, lo, hi, k) == Sub(Gap(blocks, lo, hi, k), 12)
    ensures k == |blocks| && Gap(blocks, lo, hi, k) < 12 ==> Measured(blocks, lo, hi, k) > hi - lo
  {
    if k == 0 {
      SubValue(blocks[0].addr, lo);
      SubValue(blocks[0].addr - lo, 12);
    } else {
      var b := blocks[k - 1];
      var end := if k < |blocks| then blocks[k].addr else hi;
      SubValue(end, b.addr);
      SubValue(end - b.addr, b.size);
      SubValue(end - b.addr - b.size, 12);
    }
  }

  /** A gap is a candidate when its measure is large enough and not absurd. */
  predicate Candidate(blocks: seq<Block>, lo: int, hi: int, size: int, k: int)
    requires 0 <= k <= |blocks|
  {
    Add(size, 12) <= Measured(blocks, lo, hi, k) < Sub(hi, lo)
  }

  /** The search finds the smallest candidate by its own measure, the lowest on ties. */
  lemma {:induction false} SearchIsBestFit(blocks: seq<Block>, lo: int, hi: int, size: int, n: int)
    requires 0 <= n <= |blocks| + 1
    ensures var c := Search(blocks, lo, hi, size, n);
      && -1 <= c.gap < n
      && (c.gap == -1 ==> c.best == Sub(hi, lo) && forall k :: 0 <= k < n ==> !Candidate(blocks, lo, hi, size, k))
      && (c.gap != -1 ==>
           && Candidate(blocks, lo, hi, size, c.gap) && c.best == Measured(blocks, lo, hi, c.gap)
           && (forall k :: 0 <= k < n && Candidate(blocks, lo, hi, size, k) ==> c.best <= Measured(blocks, lo, hi, k))
           && (forall k :: 0 <= k < c.gap && Candidate(blocks, lo, hi, size, k) ==>
             c.best < Measured(blocks, lo, hi, k)))
  {
    if n > 0 {
      SearchIsBestFit(blocks, lo, hi, size, n - 1);
    }
  }

  /** In terms of true space: a leading or inner gap is a candidate when it holds header and payload, the tail
      only when it holds 12 bytes more; a wrapped measurement never is. */
  lemma CandidateIffRoom(blocks: seq<Block>, lo: int, hi: int, size: int, k: int)
    requires Layout(blocks, lo, hi) && blocks != [] && 0 <= k <= |blocks| && 0 <= size && size + 12 < WORD
    ensures Candidate(blocks, lo, hi, size, k) <==>
            Gap(blocks, lo, hi, k) >= size + (if k < |blocks| then 12 else 24)
  {
    MeasuredIsGap(blocks, lo, hi, k);
    SubValue(hi, lo);
    SubValue(Gap(blocks, lo, hi, k), 12);
  }

  /** `ralloc` on a non-empty heap answers null exactly when no leading or inner gap holds the block with its
      header and the tail does not hold 12 bytes more. */
  lemma NullIffNoRoom(blocks: seq<Block>, lo: int, hi: int, size: int)
    requires Layout(blocks, lo, hi) && blocks != [] && 0 <= size && size + 12 < WORD
    ensures Placed(blocks, lo, hi, size) == -1 <==>
      && (forall k :: 0 <= k < |blocks| ==> Gap(blocks, lo, hi, k) < size + 12)
      && Gap(blocks, lo, hi, |blocks|) < size + 24
  {
    SearchIsBestFit(blocks, lo, hi, size, |blocks| + 1);
    forall k | 0 <= k <= |blocks|
      ensures Candidate(blocks, lo, hi, size, k) <==> Gap(blocks, lo, hi, k) >= size + (if k < |blocks| then 12 else 24)
    {
      CandidateIffRoom(blocks, lo, hi, size, k);
    }
  }

  /** The block `ralloc` creates in gap k. */
  function NewBlock(blocks: seq<Block>, lo: int, k: int, size: int): Block
    requires 0 <= k <= |blocks|
  {
    Block(GapStart(blocks, lo, k) + 12, size)
  }

  /** The caller's side of the bargain: `size + 12` does not wrap, and the first block fits, which nobody checks. */
  predicate Allocatable(blocks: seq<Block>, lo: int, hi: int, size: int) {
    && 0 <= size && size + 12 < WORD
    && (blocks == [] ==> lo + 12 < hi && lo + 12 + size <= hi)
  }

  lemma PlacedFits(blocks: seq<Block>, lo: int, hi: int, size: int)
    requires Layout(blocks, lo, hi) && Allocatable(blocks, lo, hi, size) && Placed(blocks, lo, hi, size) != -1
    ensures var k := Placed(blocks, lo, hi, size);
      0 <= k <= |blocks| && GapStart(blocks, lo, k) + 12 + size <= GapEnd(blocks, hi, k)
        && GapStart(blocks, lo, k) + 12 < hi
  {
    if blocks != [] {
      SearchIsBestFit(blocks, lo, hi, size, |blocks| + 1);
      CandidateIffRoom(blocks, lo, hi, size, Placed(blocks, lo, hi, size));
    }
  }

  /** For every heap and every u_dword size, an allocation that is not refused keeps the layout exactly when the
      caller kept their side. */
  lemma AllocationKeepsLayoutIff(blocks: seq<Block>, lo: int, hi: int, size: int)
    requires Layout(blocks, lo, hi) && 0 <= size < WORD && Placed(blocks, lo, hi, size) != -1
    ensures 0 <= Placed(blocks, lo, hi, size) <= |blocks|
    ensures var k := Placed(blocks, lo, hi, size);
      Layout(Insert(blocks, k, NewBlock(blocks, lo, k, size)), lo, hi) <==> Allocatable(blocks, lo, hi, size)
  {
    SearchIsBestFit(blocks, lo, hi, size, |blocks| + 1);
    var k := Placed(blocks, lo, hi, size);
    var b := NewBlock(blocks, lo, k, size);
    if Allocatable(blocks, lo, hi, size) {
      PlacedFits(blocks, lo, hi, size);
      InsertKeepsLayout(blocks, lo, hi, k, b);
    } else {
      assert Insert(blocks, k, b)[k] == b;
      assert k > 0 ==> blocks[k - 1].addr >= lo + 12;
    }
  }

  /** Where a block is after another has been inserted in front of it or behind. */
  function Shifted(k: int, j: int): int {
    if j < k then j else j + 1
  }

  /** The other way round: whose place i was before. */
  function Unshifted(k: int, i: int): int {
    if i < k then i else i - 1
  }

  lemma InsertedAt(blocks: seq<Block>, k: int, b: Block, i: int)
    requires 0 <= k <= |blocks| && 0 <= i <= |blocks|
    ensures Insert(blocks, k, b)[i] == if i == k then b else blocks[Unshifted(k, i)]
  {
  }

  lemma InsertedOld(blocks: seq<Block>, k: int, b: Block, j: int)
    requires 0 <= k <= |blocks| && 0 <= j < |blocks|
    ensures 0 <= Shifted(k, j) <= |blocks| && Shifted(k, j) != k && Insert(blocks, k, b)[Shifted(k, j)] == blocks[j]
  {
  }

  lemma InsertedInOrder(blocks: seq<Block>, lo: int, hi: int, k: int, b: Block, i: int, j: int)
    requires Layout(blocks, lo, hi) && 0 <= k <= |blocks| && 0 <= b.size && 0 <= i < j <= |blocks|
    requires GapStart(blocks, lo, k) + 12 <= b.addr < hi && b.addr + b.size <= GapEnd(blocks, hi, k)
    ensures var s := Insert(blocks, k, b); s[i].addr + s[i].size + 12 <= s[j].addr
  {
    InsertedAt(blocks, k, b, i);
    InsertedAt(blocks, k, b, j);
  }

  lemma InsertKeepsLayout(blocks: seq<Block>, lo: int, hi: int, k: int, b: Block)
    requires Layout(blocks, lo, hi) && 0 <= k <= |blocks| && 0 <= b.size
    requires GapStart(blocks, lo, k) + 12 <= b.addr < hi && b.addr + b.size <= GapEnd(blocks, hi, k)
    ensures Layout(Insert(blocks, k, b), lo, hi)
  {
    var s := Insert(blocks, k, b);
    forall i | 0 <= i < |s|
      ensures lo + 12 <= s[i].addr < hi && 0 <= s[i].size && s[i].addr + s[i].size <= hi
    {
      InsertedAt(blocks, k, b, i);
    }
    forall i, j | 0 <= i < j < |s|
      ensures s[i].addr + s[i].size + 12 <= s[j].addr
    {
      InsertedInOrder(blocks, lo, hi, k, b, i, j);
    }
  }

  lemma RemoveKeepsLayout(blocks: seq<Block>, lo: int, hi: int, k: int)
    requires Layout(blocks, lo, hi) && 0 <= k < |blocks|
    ensures Layout(Remove(blocks, k), lo, hi)
  {
  }

  /** A block takes its size and its header. */
  function Cost(size: int): int {
    size + 12
  }

  /** The free space behind the last block. */
  function Tail(blocks: seq<Block>, lo: int, hi: int): int {
    Gap(blocks, lo, hi, |blocks|)
  }

  lemma TailAfterInsert(blocks: seq<Block>, lo: int, hi: int, k: int, b: Block)
    requires 0 <= k <= |blocks| && b.addr == GapStart(blocks, lo, k) + 12 && 0 <= b.size
    ensures Tail(Insert(blocks, k, b), lo, hi) >= Tail(blocks, lo, hi) - b.size - 12
  {
  }

  lemma TailAfterRemove(blocks: seq<Block>, lo: int, hi: int, k: int)
    requires Layout(blocks, lo, hi) && 0 <= k < |blocks|
    ensures Tail(Remove(blocks, k), lo, hi) >= Tail(blocks, lo, hi)
  {
  }

  // ---------- blocks as a set ----------

  function Live(blocks: seq<Block>): set<Block> {
    set b | b in blocks
  }

  /** Address order leaves no freedom: the set of live blocks determines the list. */
  lemma {:induction false} SameBlocksSameList(a: seq<Block>, b: seq<Block>, lo: int, hi: int)
    requires Layout(a, lo, hi) && Layout(b, lo, hi) && Live(a) == Live(b)
    ensures a == b
  {
    assert b != [] ==> b[0] in Live(b);
    if a != [] {
      assert a[0] in Live(a);
      var j :| 0 <= j < |b| && b[j] == a[0];
      assert b[0] in Live(b);
      var i :| 0 <= i < |a| && a[i] == b[0];
      assert j == 0;
      TailBlocks(a, lo, hi);
      TailBlocks(b, lo, hi);
      SameBlocksSameList(a[1..], b[1..], lo, hi);
    }
  }

  lemma TailBlocks(a: seq<Block>, lo: int, hi: int)
    requires Layout(a, lo, hi) && a != []
    ensures Layout(a[1..], lo, hi) && Live(a[1..]) == Live(a) - {a[0]}
  {
  }

  lemma LiveInsert(blocks: seq<Block>, lo: int, hi: int, k: int, b: Block)
    requires 0 <= k <= |blocks| && Layout(Insert(blocks, k, b), lo, hi)
    ensures Live(Insert(blocks, k, b)) == Live(blocks) + {b} && b !in Live(blocks)
  {
    var s := Insert(blocks, k, b);
    forall i | 0 <= i < |s|
      ensures s[i] == b || s[i] in blocks
    {
      InsertedAt(blocks, k, b, i);
    }
    forall j | 0 <= j < |blocks|
      ensures blocks[j] in s && blocks[j] != b
    {
      assert s[Shifted(k, j)] == blocks[j] && s[k] == b;
    }
    assert s[k] == b;
  }

  lemma LiveRemove(blocks: seq<Block>, lo: int, hi: int, k: int)
    requires Layout(blocks, lo, hi) && 0 <= k < |blocks|
    ensures Live(Remove(blocks, k)) == Live(blocks) - {blocks[k]}
  {
  }

  lemma LiveResize(blocks: seq<Block>, lo: int, hi: int, k: int, size: int)
    requires Layout(blocks, lo, hi) && 0 <= k < |blocks|
    ensures Live(blocks[k := Block(blocks[k].addr, size)]) == Live(blocks) - {blocks[k]} + {Block(blocks[k].addr, size)}
  {
    var s := blocks[k := Block(blocks[k].addr, size)];
    assert forall j :: 0 <= j < |blocks| && j != k ==> s[j] == blocks[j] && blocks[j] != blocks[k];
    assert s[k] in s;
  }
}
