/** What cloning cannot do when a pool runs out. Whatever a clone looks like, private pages are kept apart only if
    there was a free frame for each; and a null pointer takes the place of a folder exactly when the folders do not
    suffice. */
module Exhaustion {
  import opened PhysicalMemory
  import opened Cloning

  // ---------- isolation needs frames ----------

  /** The frames of the private pages among the first n of a table. */
  ghost function TableFrames(m: Memory, user: bool, table: Page, t: Frame, n: nat): set<Frame> {
    set j: Index | j < n && Private(user, table[j]) :: m[t][j].frame
  }

  ghost predicate TableDistinct(m: Memory, user: bool, table: Page, t: Frame) {
    forall j: Index, k: Index :: j < k && Private(user, table[j]) && Private(user, table[k]) ==>
      m[t][j].frame != m[t][k].frame
  }

  lemma OneMoreFrame(m: Memory, user: bool, table: Page, t: Frame, n: Index)
    requires TableDistinct(m, user, table, t)
    ensures var s := TableFrames(m, user, table, t, n); var f := m[t][n].frame;
      && TableFrames(m, user, table, t, n + 1) == (if Private(user, table[n]) then s + {f} else s)
      && (Private(user, table[n]) ==> f !in s)
  {
  }

  lemma {:induction false} TableFramesCounted(m: Memory, user: bool, table: Page, t: Frame, n: nat)
    requires n <= 1024 && TableDistinct(m, user, table, t)
    ensures |TableFrames(m, user, table, t, n)| == PrivatePages(table, user, n)
  {
    if n > 0 {
      TableFramesCounted(m, user, table, t, n - 1);
      OneMoreFrame(m, user, table, t, n - 1);
    }
  }

  /** The frames of all private pages of the first n tables of a directory. */
  ghost function DirectoryFrames(m: Memory, dir: Frame, n: nat): set<Frame> {
    set i: Index, j: Index | i < n && PrivateAt(m, dir, i, j) :: Leaf(m, dir, i, j).frame
  }

  /** The clone's private pages in table i are those of the source. */
  lemma SamePrivate(v: Vm, src: Frame, w: Vm, dir: Frame, i: Index, j: Index)
    requires SameMapping(v, src, w, dir, i, j)
    ensures PrivateAt(w.mem, dir, i, j) <==> PrivateAt(v.mem, src, i, j)
    ensures PrivateAt(v.mem, src, i, j) ==> MustClone(v.mem, v.mem[src][i])
    ensures PrivateAt(v.mem, src, i, j) ==> Leaf(w.mem, dir, i, j).frame in w.frames - v.frames
  {
  }

  /** The private pages of table n of the clone, in terms of the source. */
  lemma TableOfClone(v: Vm, src: Frame, w: Vm, dir: Frame, n: Index)
    requires v.mem[src][n].present && forall j: Index :: SameMapping(v, src, w, dir, n, j)
    requires PrivateFramesDistinct(w.mem, dir, 1024)
    ensures var e := v.mem[src][n]; var t := w.mem[dir][n].frame;
      && TableDistinct(w.mem, e.user, v.mem[e.frame], t)
      && forall j: Index :: Private(e.user, v.mem[e.frame][j]) <==> PrivateAt(w.mem, dir, n, j)
  {
    var e := v.mem[src][n];
    forall j: Index
      ensures Private(e.user, v.mem[e.frame][j]) <==> PrivateAt(w.mem, dir, n, j)
    {
      SamePrivate(v, src, w, dir, n, j);
    }
    forall j: Index, k: Index | j < k && PrivateAt(w.mem, dir, n, j) && PrivateAt(w.mem, dir, n, k)
      ensures w.mem[w.mem[dir][n].frame][j].frame != w.mem[w.mem[dir][n].frame][k].frame
    {
      assert Leaf(w.mem, dir, n, j).frame != Leaf(w.mem, dir, n, k).frame;
    }
  }

  lemma OneMoreTable(v: Vm, src: Frame, w: Vm, dir: Frame, n: Index)
    requires v.mem[src][n].present && forall j: Index :: SameMapping(v, src, w, dir, n, j)
    requires PrivateFramesDistinct(w.mem, dir, 1024)
    ensures var e := v.mem[src][n]; var s := DirectoryFrames(w.mem, dir, n);
      var mine := TableFrames(w.mem, e.user, v.mem[e.frame], w.mem[dir][n].frame, 1024);
      DirectoryFrames(w.mem, dir, n + 1) == s + mine && s !! mine
  {
    var e := v.mem[src][n];
    TableOfClone(v, src, w, dir, n);
    var t := w.mem[dir][n].frame;
    var mine := TableFrames(w.mem, e.user, v.mem[e.frame], t, 1024);
    forall j: Index | Private(e.user, v.mem[e.frame][j])
      ensures w.mem[t][j].frame !in DirectoryFrames(w.mem, dir, n)
      ensures w.mem[t][j].frame in DirectoryFrames(w.mem, dir, n + 1)
    {
      assert PrivateAt(w.mem, dir, n, j) && Leaf(w.mem, dir, n, j).frame == w.mem[t][j].frame;
    }
    forall i: Index, j: Index | i < n + 1 && PrivateAt(w.mem, dir, i, j)
      ensures Leaf(w.mem, dir, i, j).frame in DirectoryFrames(w.mem, dir, n) + mine
    {
    }
  }

  /** A table the clone shares, or does not have, holds no private page. */
  lemma NoPrivatePages(v: Vm, src: Frame, w: Vm, dir: Frame, n: Index)
    requires forall j: Index :: SameMapping(v, src, w, dir, n, j)
    requires !(v.mem[src][n].present && MustClone(v.mem, v.mem[src][n]))
    ensures DirectoryFrames(w.mem, dir, n + 1) == DirectoryFrames(w.mem, dir, n)
  {
    forall j: Index
      ensures !PrivateAt(w.mem, dir, n, j)
    {
      SamePrivate(v, src, w, dir, n, j);
    }
  }

  lemma {:induction false} DirectoryFramesCounted(v: Vm, src: Frame, w: Vm, dir: Frame, n: nat)
    requires n <= 1024
    requires forall i: Index, j: Index :: SameMapping(v, src, w, dir, i, j)
    requires PrivateFramesDistinct(w.mem, dir, 1024)
    ensures |DirectoryFrames(w.mem, dir, n)| == FramesNeeded(v.mem, src, n)
  {
    if n > 0 {
      DirectoryFramesCounted(v, src, w, dir, n - 1);
      var e := v.mem[src][n - 1];
      if !(e.present && MustClone(v.mem, e)) {
        NoPrivatePages(v, src, w, dir, n - 1);
      } else {
        OneMoreTable(v, src, w, dir, n - 1);
        TableOfClone(v, src, w, dir, n - 1);
        TableFramesCounted(w.mem, e.user, v.mem[e.frame], w.mem[dir][n - 1].frame, 1024);
      }
    }
  }

  /** No clone of any kind keeps private pages apart without a free frame for each: if the pool is too small, some two
      private pages meet, or one of them is not fresh. */
  lemma IsolationNeedsRoom(v: Vm, src: Frame, w: Vm, dir: Frame)
    requires v.Valid() && w.Valid() && v.frames <= w.frames
    requires forall i: Index, j: Index :: SameMapping(v, src, w, dir, i, j)
    requires PrivateFramesDistinct(w.mem, dir, 1024)
    ensures |v.frames| + FramesNeeded(v.mem, src, 1024) <= USER_SPACE_END - USER_SPACE_START
  {
    var s := DirectoryFrames(w.mem, dir, 1024);
    DirectoryFramesCounted(v, src, w, dir, 1024);
    forall f <- s
      ensures f in w.frames - v.frames
    {
      var i: Index, j: Index :| PrivateAt(w.mem, dir, i, j) && Leaf(w.mem, dir, i, j).frame == f;
      SamePrivate(v, src, w, dir, i, j);
    }
    SubsetSize(v.frames + s, Range(USER_SPACE_START, USER_SPACE_END));
    assert |v.frames + s| == |v.frames| + |s|;
  }

  // ---------- folders ----------

  predicate FramesSuffice(v: Vm, src: Frame) {
    |v.frames| + FramesNeeded(v.mem, src, 1024) <= USER_SPACE_END - USER_SPACE_START
  }

  predicate FoldersSuffice(v: Vm, src: Frame) {
    |v.folders| + 1 + TablesNeeded(v.mem, src, 1024) <= PAGING_POOL_END - PAGING_POOL_START
  }

  /** The clone's directory, or one of the tables it should have of its own, is the null pointer, that is frame 0,
      a page in use that belongs to no pool. */
  ghost predicate HasNullFolder(v: Vm, src: Frame, w: Vm, dir: Frame) {
    dir == 0 || HasNullTable(v.mem, src, w.mem, dir)
  }

  ghost predicate HasNullTable(m: Memory, src: Frame, m': Memory, dir: Frame) {
    exists i: Index :: m[src][i].present && MustClone(m, m[src][i]) && m'[dir][i].frame == 0
  }

  /** A folder that is in use is not written while a table is cloned. */
  lemma {:induction false} CloneEntriesKeep(v: Vm, src: Word, table: Frame, n: nat, d: Frame)
    requires n <= 1024 && d != table && 0 < d < USER_SPACE_START
    ensures CloneEntries(v, src, table, n).mem[d] == v.mem[d] && CloneEntries(v, src, table, n).folders == v.folders
  {
    if n > 0 {
      CloneEntriesKeep(v, src, table, n - 1, d);
    }
  }

  lemma CloneTableKeeps(v: Vm, src: Word, d: Frame)
    requires d in v.folders && 0 < d < USER_SPACE_START
    ensures CloneTable(v, src).0.mem[d] == v.mem[d] && d in CloneTable(v, src).0.folders
  {
    var (v1, table) := AllocatePageFolder(v);
    CloneEntriesKeep(v1, src, table, 1024, d);
  }

  lemma CloneDirectoryEntryKeeps(v: Vm, src: Frame, d: Frame, n: Index)
    requires d in v.folders && 0 < d < USER_SPACE_START
    ensures var w := CloneDirectoryEntry(v, src, d, n);
      d in w.folders && forall i: Index :: i != n ==> w.mem[d][i] == v.mem[d][i]
  {
    var e := v.mem[src][n];
    if e.present && MustClone(v.mem, e) {
      CloneTableKeeps(v, e, d);
    }
  }

  /** An entry of the new directory, once written, stays, whatever has run out meanwhile. */
  lemma {:induction false} EntryStays(v: Vm, src: Frame, d: Frame, i: Index, n: nat)
    requires i < n <= 1024 && d in v.folders && 0 < d < USER_SPACE_START
    ensures d in CloneDirectoryEntries(v, src, d, n).folders
    ensures CloneDirectoryEntries(v, src, d, n).mem[d][i] == CloneDirectoryEntries(v, src, d, i + 1).mem[d][i]
  {
    FolderStays(v, src, d, n - 1);
    CloneDirectoryEntryKeeps(CloneDirectoryEntries(v, src, d, n - 1), src, d, n - 1);
    if n > i + 1 {
      EntryStays(v, src, d, i, n - 1);
    }
  }

  lemma {:induction false} FolderStays(v: Vm, src: Frame, d: Frame, n: nat)
    requires n <= 1024 && d in v.folders && 0 < d < USER_SPACE_START
    ensures d in CloneDirectoryEntries(v, src, d, n).folders
  {
    if n > 0 {
      FolderStays(v, src, d, n - 1);
      CloneDirectoryEntryKeeps(CloneDirectoryEntries(v, src, d, n - 1), src, d, n - 1);
    }
  }

  /** Where the folders run out: the first table for which none is left. */
  lemma {:induction false} FirstShortage(m: Memory, src: Frame, have: nat, pool: nat, n: nat) returns (k: Index)
    requires n <= 1024 && have <= pool < have + TablesNeeded(m, src, n)
    ensures k < n && have + TablesNeeded(m, src, k) == pool && m[src][k].present && MustClone(m, m[src][k])
  {
    if have + TablesNeeded(m, src, n - 1) > pool {
      k := FirstShortage(m, src, have, pool, n - 1);
    } else {
      k := n - 1;
    }
  }

  lemma {:induction false} FramesNeededGrows(m: Memory, src: Frame, k: nat, n: nat)
    requires k <= n <= 1024
    ensures FramesNeeded(m, src, k) <= FramesNeeded(m, src, n)
  {
    if k < n {
      FramesNeededGrows(m, src, k, n - 1);
    }
  }

  /** A table that is cloned out of an exhausted pool gets frame 0. */
  lemma NullTable(v: Vm, src: Frame, u: Vm, d: Frame, k: Index)
    requires v.Valid() && Live(v, src) && Avoids(v.mem, src, d) && DirectoryCloned(v, src, u, d, k) && d in v.folders
    requires |u.folders| == PAGING_POOL_END - PAGING_POOL_START && v.mem[src][k].present
    requires MustClone(v.mem, v.mem[src][k])
    ensures CloneDirectoryEntry(u, src, d, k).mem[d][k].frame == 0
  {
    var e := v.mem[src][k];
    assert u.mem[src] == v.mem[src] && u.mem[e.frame] == v.mem[e.frame];
    NullIffExhausted(u.folders, PAGING_POOL_START, PAGING_POOL_END);
  }

  /** With a directory but too few folders for its tables, one of them is null. */
  lemma ShortageShows(v: Vm, src: Frame, d: Frame)
    requires v.Valid() && Live(v, src) && Avoids(v.mem, src, d) && d in v.folders && v.mem[d] == ZeroPage()
    requires FramesSuffice(v, src)
    requires |v.folders| + TablesNeeded(v.mem, src, 1024) > PAGING_POOL_END - PAGING_POOL_START
    ensures HasNullTable(v.mem, src, CloneDirectoryEntries(v, src, d, 1024).mem, d)
  {
    SubsetSize(v.folders, Range(PAGING_POOL_START, PAGING_POOL_END));
    var k := FirstShortage(v.mem, src, |v.folders|, PAGING_POOL_END - PAGING_POOL_START, 1024);
    FramesNeededGrows(v.mem, src, k, 1024);
    CloneDirectoryEntriesMeaning(v, src, d, k);
    NullTable(v, src, CloneDirectoryEntries(v, src, d, k), d, k);
    EntryStays(v, src, d, k, 1024);
  }

  /** With enough of them, none is. */
  lemma NoShortageShows(v: Vm, src: Frame, d: Frame)
    requires v.Valid() && Live(v, src) && Avoids(v.mem, src, d) && d in v.folders && v.mem[d] == ZeroPage()
    requires FramesSuffice(v, src)
    requires |v.folders| + TablesNeeded(v.mem, src, 1024) <= PAGING_POOL_END - PAGING_POOL_START
    ensures !HasNullTable(v.mem, src, CloneDirectoryEntries(v, src, d, 1024).mem, d)
  {
    CloneDirectoryEntriesMeaning(v, src, d, 1024);
    var w := CloneDirectoryEntries(v, src, d, 1024);
    forall i: Index | v.mem[src][i].present && MustClone(v.mem, v.mem[src][i])
      ensures w.mem[d][i].frame != 0
    {
      assert DirectoryEntryCloned(v, v.mem[src][i], w, w.mem[d][i]);
    }
  }

  lemma TablesOfTheSource(m: Memory, m1: Memory, src: Frame, m': Memory, d: Frame)
    requires m1[src] == m[src] && forall i: Index :: m[src][i].present ==> m1[m[src][i].frame] == m[m[src][i].frame]
    ensures HasNullTable(m1, src, m', d) <==> HasNullTable(m, src, m', d)
  {
  }

  /** While the frames suffice, cloning meets a null folder exactly when the folders do not. */
  lemma NullFolderIffShort(v: Vm, src: Frame)
    requires v.Valid() && Live(v, src) && FramesSuffice(v, src)
    ensures var (w, dir) := CloneDirectory(v, src); HasNullFolder(v, src, w, dir) <==> !FoldersSuffice(v, src)
  {
    NullIffExhausted(v.folders, PAGING_POOL_START, PAGING_POOL_END);
    SubsetSize(v.folders, Range(PAGING_POOL_START, PAGING_POOL_END));
    if |v.folders| < PAGING_POOL_END - PAGING_POOL_START {
      var (v1, d) := AllocatePageFolder(v);
      assert d != 0;
      NullTableIffShort(v, src, v1, d);
    }
  }

  lemma NullTableIffShort(v: Vm, src: Frame, v1: Vm, d: Frame)
    requires v.Valid() && Live(v, src) && FramesSuffice(v, src) && |v.folders| < PAGING_POOL_END - PAGING_POOL_START
    requires (v1, d) == AllocatePageFolder(v)
    ensures HasNullTable(v.mem, src, CloneDirectoryEntries(v1, src, d, 1024).mem, d) <==> !FoldersSuffice(v, src)
  {
    FolderTaken(v, src);
    TablesOfTheSource(v.mem, v1.mem, src, CloneDirectoryEntries(v1, src, d, 1024).mem, d);
    if FoldersSuffice(v, src) {
      NoShortageShows(v1, src, d);
    } else {
      ShortageShows(v1, src, d);
    }
  }
}
