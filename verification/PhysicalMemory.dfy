/** Physical memory as page frames, and the two bitmap pools seen as sets of used frame numbers.

    A 32-bit word is represented by the bit-fields of `page_pointer`. The struct divides the 32 bits of
    a dword without remainder, so every dword is exactly one such record: the same word type serves page
    tables and data pages, and copying a page copies records. */
module PhysicalMemory {

  const PAGING_POOL_START := 0x100
  const PAGING_POOL_END := 0xf00
  const USER_SPACE_START := 0x1000
  const USER_SPACE_END := 0x1_0000

  /** Frame numbers and addresses are `frame` fields of 20 bits; frame 0 doubles as the null pointer. */
  type Frame = f: int | 0 <= f < 0x10_0000
  type Index = i: int | 0 <= i < 1024
  type Spare = u: int | 0 <= u < 8

  datatype Word = Word(present: bool, rw: bool, user: bool, write: bool, cache: bool, accessed: bool,
                       dirty: bool, zero: bool, global: bool, unused: Spare, frame: Frame)

  const ZERO := Word(false, false, false, false, false, false, false, false, false, 0, 0)

  type Page = p: seq<Word> | |p| == 1024 witness seq(1024, _ => ZERO)
  type Memory = m: seq<Page> | |m| == 0x10_0000 witness seq(0x10_0000, _ => seq(1024, _ => ZERO))

  /** What `memory_clear(address, page_size, 0)` leaves. */
  function ZeroPage(): (p: Page)
    ensures forall i: Index :: p[i] == ZERO
  {
    seq(1024, _ => ZERO)
  }

  /** Memory plus what the bitmaps of `paging_pool` and `user_space_pool` say is used, by frame number. */
  datatype Vm = Vm(mem: Memory, folders: set<Frame>, frames: set<Frame>)
  {
    ghost predicate Valid() {
      && (forall f <- folders :: PAGING_POOL_START <= f < PAGING_POOL_END)
      && (forall f <- frames :: USER_SPACE_START <= f < USER_SPACE_END)
    }

    /** A frame either pool would still hand out. */
    predicate Free(f: Frame) {
      || (USER_SPACE_START <= f < USER_SPACE_END && f !in frames)
      || (PAGING_POOL_START <= f < PAGING_POOL_END && f !in folders)
    }
  }

  function Put(m: Memory, f: Frame, i: Index, w: Word): Memory {
    m[f := m[f][i := w]]
  }

  /** The lowest number of the range that is not used; 0 when there is none. */
  function LowestFree(used: set<Frame>, lo: int, hi: int): (r: Frame)
    requires 0 < lo <= hi <= 0x10_0000
    ensures r == 0 ==> forall n: Frame :: lo <= n < hi ==> n in used
    ensures r != 0 ==> lo <= r < hi && r !in used && forall n: Frame :: lo <= n < r ==> n in used
    decreases hi - lo
  {
    if lo == hi then 0 else if lo !in used then lo else LowestFree(used, lo + 1, hi)
  }

  function AllocateFrame(v: Vm): (Vm, Frame) {
    var f := LowestFree(v.frames, USER_SPACE_START, USER_SPACE_END);
    if f == 0 then (v, 0) else (v.(frames := v.frames + {f}), f)
  }

  function AllocatePageFolder(v: Vm): (Vm, Frame) {
    var f := LowestFree(v.folders, PAGING_POOL_START, PAGING_POOL_END);
    if f == 0 then (v, 0) else (v.(folders := v.folders + {f}, mem := v.mem[f := ZeroPage()]), f)
  }

  // ---------- exhaustion is a matter of counting ----------

  ghost function Range(lo: int, hi: int): (s: set<Frame>)
    requires 0 <= lo <= hi <= 0x10_0000
    ensures forall n: Frame :: n in s <==> lo <= n < hi
    ensures |s| == hi - lo
    decreases hi
  {
    if lo == hi then {} else Range(lo, hi - 1) + {hi - 1}
  }

  lemma {:induction false} SubsetSize(a: set<Frame>, b: set<Frame>)
    requires a <= b
    ensures |a| <= |b|
    ensures |a| == |b| ==> a == b
  {
    assert b == a + (b - a);
    assert |b| == |a| + |b - a|;
  }

  /** A pool answers null exactly when as many bits are set as the pool has. */
  lemma NullIffExhausted(used: set<Frame>, lo: int, hi: int)
    requires 0 < lo <= hi <= 0x10_0000
    requires forall f <- used :: lo <= f < hi
    ensures LowestFree(used, lo, hi) == 0 <==> |used| == hi - lo
  {
    var all := Range(lo, hi);
    SubsetSize(used, all);
    if LowestFree(used, lo, hi) == 0 {
      assert used == all;
    }
  }
}
