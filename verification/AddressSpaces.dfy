/** The address spaces of a running system: every directory was built by `initialise_paging` or cloned
    by `fork` from one that was, with the boot stack of kernel.c. */
module AddressSpaces {
  import opened PhysicalMemory
  import opened Cloning
  import Pager

  const STACK_POINTER := 0x7000
  const STACK_SIZE := 0x5000

  /** Pages 2 to 6 hold the boot stack; they are the private pages of every task. */
  predicate StackPage(page: int) {
    2 <= page < 7
  }

  /** Pages of the kernel half that hold neither stack nor page folders; all tasks share them. */
  predicate SharedPage(page: int) {
    0 <= page < USER_SPACE_START && !StackPage(page) && !(PAGING_POOL_START <= page < PAGING_POOL_END)
  }

  /** Every page of the kernel half is one or the other, or lies in the paging pool. */
  lemma KernelPages(page: int)
    requires 0 <= page < 0x1000
    ensures StackPage(page) <==> 2 <= page <= 6
    ensures SharedPage(page) <==> !StackPage(page) && !(0x100 <= page < 0xf00)
  {
  }

  function FrameOf(m: Memory, dir: Frame, page: nat): Frame
    requires page < USER_SPACE_START
  {
    Leaf(m, dir, page / 1024, page % 1024).frame
  }

  /** The mapping of one page: all kernel pages are themselves, stack pages are anywhere. */
  ghost predicate PageShaped(v: Vm, dir: Frame, i: Index, j: Index) {
    var p := Leaf(v.mem, dir, i, j);
    var page := 1024 * i + j;
    && p.present && p.user == p.rw == StackPage(page)
    && (if StackPage(page) then p.frame in v.frames || StackPage(p.frame) else p.frame == page)
  }

  ghost predicate Shaped(v: Vm, dir: Frame) {
    && dir in v.folders
    && (forall i: Index :: var e := v.mem[dir][i];
         e.present == (i < 4) && (i < 4 ==> !e.user && e.frame in v.folders))
    && (forall i: Index, j: Index :: i < 4 ==> PageShaped(v, dir, i, j))
  }

  /** No stack frame is mapped twice, by two tasks or at two places. */
  ghost predicate Owned(m: Memory, dirs: seq<Frame>) {
    forall k: nat, l: nat, p: nat, q: nat ::
      k < |dirs| && l < |dirs| && StackPage(p) && StackPage(q) && (k, p) != (l, q) ==>
        FrameOf(m, dirs[k], p) != FrameOf(m, dirs[l], q)
  }

  ghost predicate Spaces(v: Vm, dirs: seq<Frame>) {
    && v.Valid()
    && (forall k: nat :: k < |dirs| ==> Shaped(v, dirs[k]))
    && Owned(v.mem, dirs)
    && |dirs| >= 1
    && |v.folders| == 5 + 2 * (|dirs| - 1)
    && |v.frames| == 5 * (|dirs| - 1)
  }

  lemma BootStack(page: nat)
    requires page < USER_SPACE_START
    ensures Pager.InStack(STACK_POINTER, STACK_SIZE, page) <==> StackPage(page)
  {
  }

  lemma BootShaped(v: Vm)
    requires Pager.IdentityMapped(v, USER_SPACE_START, STACK_POINTER, STACK_SIZE)
    ensures Shaped(v, PAGING_POOL_START)
    ensures forall i: Index, j: Index :: i < 4 ==> Leaf(v.mem, PAGING_POOL_START, i, j).frame == 1024 * i + j
  {
    assert Pager.Tables(USER_SPACE_START) == 4;
    forall i: Index, j: Index | i < 4
      ensures PageShaped(v, PAGING_POOL_START, i, j) && Leaf(v.mem, PAGING_POOL_START, i, j).frame == 1024 * i + j
    {
      BootStack(1024 * i + j);
    }
  }

  lemma BootSpaces(v: Vm)
    requires Pager.IdentityMapped(v, USER_SPACE_START, STACK_POINTER, STACK_SIZE)
    ensures Spaces(v, [PAGING_POOL_START])
  {
    BootShaped(v);
  }

  // ---------- what a fork costs ----------

  lemma {:induction false} StackPagesCounted(v: Vm, dir: Frame, n: nat)
    requires n <= 1024 && Shaped(v, dir)
    ensures PrivatePages(v.mem[v.mem[dir][0].frame], false, n) == if n <= 2 then 0 else if n <= 7 then n - 2 else 5
  {
    if n > 0 {
      StackPagesCounted(v, dir, n - 1);
      assert PageShaped(v, dir, 0, n - 1);
    }
  }

  lemma OnlyTheFirstTableIsCloned(v: Vm, dir: Frame, i: Index)
    requires Shaped(v, dir) && i < 4
    ensures MustClone(v.mem, v.mem[dir][i]) <==> i == 0
  {
    assert PageShaped(v, dir, 0, 2);
    assert Leaf(v.mem, dir, 0, 2).user;
    forall j: Index | i > 0
      ensures !v.mem[v.mem[dir][i].frame][j].user
    {
      assert PageShaped(v, dir, i, j);
    }
  }

  lemma {:induction false} ForkNeeds(v: Vm, dir: Frame, n: nat)
    requires n <= 1024 && Shaped(v, dir)
    ensures FramesNeeded(v.mem, dir, n) == if n == 0 then 0 else 5
    ensures TablesNeeded(v.mem, dir, n) == if n == 0 then 0 else 1
  {
    if n > 0 {
      ForkNeeds(v, dir, n - 1);
      StackPagesCounted(v, dir, 1024);
      if n - 1 < 4 {
        OnlyTheFirstTableIsCloned(v, dir, n - 1);
      }
    }
  }

  // ---------- fork ----------

  lemma ShapedIsLive(v: Vm, dir: Frame)
    requires v.Valid() && Shaped(v, dir)
    ensures Live(v, dir)
  {
    forall i: Index, j: Index | PrivateAt(v.mem, dir, i, j)
      ensures !v.Free(Leaf(v.mem, dir, i, j).frame)
    {
      assert PageShaped(v, dir, i, j);
    }
  }

  /** Frame f is the directory itself or one of its tables. */
  ghost predicate FolderOf(m: Memory, dir: Frame, f: Frame) {
    f == dir || exists i: Index :: i < 4 && m[dir][i].frame == f
  }

  /** Its folders are left alone, so a directory keeps its shape and its frames. */
  lemma ShapeStays(v: Vm, w: Vm, dir: Frame)
    requires v.Valid() && Shaped(v, dir) && v.folders <= w.folders && v.frames <= w.frames
    requires forall f: Frame :: FolderOf(v.mem, dir, f) ==> w.mem[f] == v.mem[f]
    ensures Shaped(w, dir)
    ensures forall p: nat :: p < USER_SPACE_START ==> FrameOf(w.mem, dir, p) == FrameOf(v.mem, dir, p)
  {
    forall i: Index, j: Index | i < 4
      ensures PageShaped(w, dir, i, j) && Leaf(w.mem, dir, i, j) == Leaf(v.mem, dir, i, j)
    {
      assert PageShaped(v, dir, i, j);
      assert FolderOf(v.mem, dir, dir) && FolderOf(v.mem, dir, v.mem[dir][i].frame);
    }
  }

  lemma CloneIsShaped(v: Vm, src: Frame, w: Vm, dir: Frame)
    requires v.Valid() && w.Valid() && Shaped(v, src) && v.folders <= w.folders && dir in w.folders
    requires forall i: Index, j: Index :: SameMapping(v, src, w, dir, i, j)
    requires forall i: Index :: w.mem[dir][i].present ==>
      w.mem[dir][i].frame in w.folders || w.mem[dir][i] == v.mem[src][i]
    ensures Shaped(w, dir)
    ensures forall p: nat :: StackPage(p) ==>
      && FrameOf(w.mem, dir, p) in w.frames - v.frames
      && w.mem[FrameOf(w.mem, dir, p)] == v.mem[FrameOf(v.mem, src, p)]
  {
    forall i: Index
      ensures w.mem[dir][i].present == (i < 4) && (i < 4 ==> !w.mem[dir][i].user && w.mem[dir][i].frame in w.folders)
    {
      assert SameMapping(v, src, w, dir, i, 0);
    }
    forall i: Index, j: Index | i < 4
      ensures PageShaped(w, dir, i, j)
      ensures StackPage(1024 * i + j) ==>
        && Leaf(w.mem, dir, i, j).frame in w.frames - v.frames
        && w.mem[Leaf(w.mem, dir, i, j).frame] == v.mem[Leaf(v.mem, src, i, j).frame]
    {
      assert SameMapping(v, src, w, dir, i, j);
      assert PageShaped(v, src, i, j);
    }
    forall p: nat | StackPage(p)
      ensures FrameOf(w.mem, dir, p) in w.frames - v.frames
      ensures w.mem[FrameOf(w.mem, dir, p)] == v.mem[FrameOf(v.mem, src, p)]
    {
      assert FrameOf(w.mem, dir, p) == Leaf(w.mem, dir, 0, p).frame;
      assert FrameOf(v.mem, src, p) == Leaf(v.mem, src, 0, p).frame;
    }
  }

  /** The most forks the paging pool can serve. */
  const MAX_FORKS := 1789

  lemma EnoughBelowTheLimit(v: Vm, dirs: seq<Frame>, k: nat)
    requires Spaces(v, dirs) && k < |dirs|
    ensures EnoughFor(v, dirs[k]) <==> |dirs| <= MAX_FORKS
  {
    ForkNeeds(v, dirs[k], 1024);
  }

  lemma StackFrameInUse(v: Vm, dir: Frame, p: nat)
    requires v.Valid() && Shaped(v, dir) && StackPage(p)
    ensures FrameOf(v.mem, dir, p) in v.frames || StackPage(FrameOf(v.mem, dir, p))
  {
    assert PageShaped(v, dir, 0, p);
    assert FrameOf(v.mem, dir, p) == Leaf(v.mem, dir, 0, p).frame;
  }

  /** Fork from any task: the new space owns fresh copies of the stack pages and nobody else's changes. */
  lemma CloneKeepsSpaces(v: Vm, dirs: seq<Frame>, k: nat)
    requires Spaces(v, dirs) && k < |dirs| <= MAX_FORKS
    ensures var (w, dir) := CloneDirectory(v, dirs[k]);
      && Spaces(w, dirs + [dir])
      && (forall f: Frame :: !v.Free(f) ==> w.mem[f] == v.mem[f])
      && (forall p: nat :: StackPage(p) ==> w.mem[FrameOf(w.mem, dir, p)] == v.mem[FrameOf(v.mem, dirs[k], p)])
      && (forall l: nat, p: nat :: l < |dirs| && p < USER_SPACE_START ==>
        FrameOf(w.mem, dirs[l], p) == FrameOf(v.mem, dirs[l], p))
  {
    EnoughBelowTheLimit(v, dirs, k);
    ForkNeeds(v, dirs[k], 1024);
    ShapedIsLive(v, dirs[k]);
    CloneDirectoryMeaning(v, dirs[k]);
    var (w, dir) := CloneDirectory(v, dirs[k]);
    CloneIsShaped(v, dirs[k], w, dir);
    forall l: nat | l < |dirs|
      ensures Shaped(w, dirs[l])
      ensures forall p: nat :: p < USER_SPACE_START ==> FrameOf(w.mem, dirs[l], p) == FrameOf(v.mem, dirs[l], p)
    {
      ShapeStays(v, w, dirs[l]);
    }
    OwnedByTheClone(v, dirs, w, dir);
  }

  lemma OwnedByTheClone(v: Vm, dirs: seq<Frame>, w: Vm, dir: Frame)
    requires Spaces(v, dirs) && w.Valid() && Shaped(w, dir)
    requires forall l: nat, p: nat :: l < |dirs| && p < USER_SPACE_START ==>
      FrameOf(w.mem, dirs[l], p) == FrameOf(v.mem, dirs[l], p)
    requires forall p: nat :: StackPage(p) ==> FrameOf(w.mem, dir, p) in w.frames - v.frames
    requires PrivateFramesDistinct(w.mem, dir, 1024)
    ensures Owned(w.mem, dirs + [dir])
  {
    var all := dirs + [dir];
    forall k: nat, l: nat, p: nat, q: nat | k < |all| && l < |all| && StackPage(p) && StackPage(q) && (k, p) != (l, q)
      ensures FrameOf(w.mem, all[k], p) != FrameOf(w.mem, all[l], q)
    {
      if k < |dirs| && l < |dirs| {
        assert FrameOf(v.mem, dirs[k], p) != FrameOf(v.mem, dirs[l], q);
      } else if k < |dirs| {
        CloneApart(v, dirs, w, dir, k, p, q);
      } else if l < |dirs| {
        CloneApart(v, dirs, w, dir, l, q, p);
      } else {
        CloneFramesDistinct(w, dir, p, q);
      }
    }
  }

  /** A fresh frame is not one of an older space. */
  lemma CloneApart(v: Vm, dirs: seq<Frame>, w: Vm, dir: Frame, k: nat, p: nat, q: nat)
    requires Spaces(v, dirs) && w.Valid() && k < |dirs| && StackPage(p) && StackPage(q)
    requires FrameOf(w.mem, dirs[k], p) == FrameOf(v.mem, dirs[k], p) && FrameOf(w.mem, dir, q) in w.frames - v.frames
    ensures FrameOf(w.mem, dirs[k], p) != FrameOf(w.mem, dir, q)
  {
    StackFrameInUse(v, dirs[k], p);
  }

  lemma CloneFramesDistinct(w: Vm, dir: Frame, p: nat, q: nat)
    requires Shaped(w, dir) && PrivateFramesDistinct(w.mem, dir, 1024) && StackPage(p) && StackPage(q) && p != q
    ensures FrameOf(w.mem, dir, p) != FrameOf(w.mem, dir, q)
  {
    assert PageShaped(w, dir, 0, p) && PageShaped(w, dir, 0, q);
    assert PrivateAt(w.mem, dir, 0, p) && PrivateAt(w.mem, dir, 0, q);
    assert Leaf(w.mem, dir, 0, p).frame != Leaf(w.mem, dir, 0, q).frame;
  }

  // ---------- stores ----------

  /** A task stores a word through its own directory. */
  function Store(v: Vm, dir: Frame, page: nat, i: Index, w: Word): Vm
    requires page < USER_SPACE_START
  {
    v.(mem := Put(v.mem, FrameOf(v.mem, dir, page), i, w))
  }

  lemma SharedPageIsItself(v: Vm, dir: Frame, page: nat)
    requires Shaped(v, dir) && page < USER_SPACE_START && !StackPage(page)
    ensures FrameOf(v.mem, dir, page) == page
  {
    assert PageShaped(v, dir, page / 1024, page % 1024);
  }

  /** Frame f holds a directory or a page table of one of the spaces. */
  ghost predicate FolderInUse(m: Memory, dirs: seq<Frame>, f: Frame) {
    exists k: nat :: k < |dirs| && FolderOf(m, dirs[k], f)
  }

  /** The pages of the stack, and all pages of the kernel half but the paging pool, are no folders. */
  lemma PlainPageIsNoFolder(v: Vm, dirs: seq<Frame>, k: nat, page: nat)
    requires Spaces(v, dirs) && k < |dirs| && (StackPage(page) || SharedPage(page))
    ensures !FolderInUse(v.mem, dirs, FrameOf(v.mem, dirs[k], page))
  {
    if StackPage(page) {
      StackFrameInUse(v, dirs[k], page);
    } else {
      SharedPageIsItself(v, dirs[k], page);
    }
    assert FrameOf(v.mem, dirs[k], page) !in v.folders;
  }

  /** A store to any page that is no folder in use keeps all spaces and their translations. */
  lemma StoreKeepsSpaces(v: Vm, dirs: seq<Frame>, k: nat, page: nat, i: Index, x: Word)
    requires Spaces(v, dirs) && k < |dirs| && page < USER_SPACE_START
    requires !FolderInUse(v.mem, dirs, FrameOf(v.mem, dirs[k], page))
    ensures Spaces(Store(v, dirs[k], page, i, x), dirs)
    ensures forall l: nat, p: nat :: l < |dirs| && p < USER_SPACE_START ==>
      FrameOf(Store(v, dirs[k], page, i, x).mem, dirs[l], p) == FrameOf(v.mem, dirs[l], p)
  {
    var w := Store(v, dirs[k], page, i, x);
    forall l: nat | l < |dirs|
      ensures Shaped(w, dirs[l])
      ensures forall p: nat :: p < USER_SPACE_START ==> FrameOf(w.mem, dirs[l], p) == FrameOf(v.mem, dirs[l], p)
    {
      assert !FolderOf(v.mem, dirs[l], FrameOf(v.mem, dirs[k], page));
      ShapeStays(v, w, dirs[l]);
    }
  }

  /** Clearing the first word of a folder that dirs[l] uses destroys that space. */
  lemma ClearedFolderBreaks(v: Vm, dirs: seq<Frame>, l: nat, f: Frame)
    requires Spaces(v, dirs) && l < |dirs| && FolderOf(v.mem, dirs[l], f)
    ensures !Spaces(v.(mem := Put(v.mem, f, 0, ZERO)), dirs)
  {
    var w := v.(mem := Put(v.mem, f, 0, ZERO));
    if f == dirs[l] {
      assert !w.mem[dirs[l]][0].present;
    } else {
      var i: Index :| i < 4 && v.mem[dirs[l]][i].frame == f;
      assert !Leaf(w.mem, dirs[l], i, 0).present;
      assert !PageShaped(w, dirs[l], i, 0);
    }
    assert !Shaped(w, dirs[l]);
  }

  /** The spaces survive every store to a page if and only if it is no folder in use. */
  lemma StoresAreSafeIff(v: Vm, dirs: seq<Frame>, k: nat, page: nat)
    requires Spaces(v, dirs) && k < |dirs| && page < USER_SPACE_START
    ensures (forall i: Index, x: Word :: Spaces(Store(v, dirs[k], page, i, x), dirs)) <==>
            !FolderInUse(v.mem, dirs, FrameOf(v.mem, dirs[k], page))
  {
    var f := FrameOf(v.mem, dirs[k], page);
    if FolderInUse(v.mem, dirs, f) {
      var l: nat :| l < |dirs| && FolderOf(v.mem, dirs[l], f);
      ClearedFolderBreaks(v, dirs, l, f);
      assert !Spaces(Store(v, dirs[k], page, 0, ZERO), dirs);
    } else {
      forall i: Index, x: Word
        ensures Spaces(Store(v, dirs[k], page, i, x), dirs)
      {
        StoreKeepsSpaces(v, dirs, k, page, i, x);
      }
    }
  }
}
