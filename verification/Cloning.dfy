/** What `clone_table` and `clone_directory` compute, as functions on the whole memory state. They are
    total: when a pool is exhausted they go on with frame 0, as the code goes on with a null pointer. */
module Cloning {
  import opened PhysicalMemory

  /** The code's test for a page that must not be shared. */
  predicate Private(directoryUser: bool, page: Word) {
    page.present && (directoryUser || page.user)
  }

  /** `contains_user_pages` looks at every entry, present or not. */
  predicate ContainsUserPages(table: Page) {
    exists j: Index :: table[j].user
  }

  predicate MustClone(m: Memory, e: Word) {
    e.user || ContainsUserPages(m[e.frame])
  }

  function CloneEntry(v: Vm, src: Word, table: Frame, j: Index): Vm {
    var page := v.mem[src.frame][j];
    if !page.present then v
    else if src.user || page.user then
      var (v1, f) := AllocateFrame(v.(mem := Put(v.mem, table, j, page)));
      var v2 := v1.(mem := Put(v1.mem, table, j, v1.mem[table][j].(frame := f)));
      v2.(mem := v2.mem[f := v2.mem[v2.mem[src.frame][j].frame]])
    else v.(mem := Put(v.mem, table, j, page))
  }

  function CloneEntries(v: Vm, src: Word, table: Frame, n: nat): Vm
    requires n <= 1024
  {
    if n == 0 then v else CloneEntry(CloneEntries(v, src, table, n - 1), src, table, n - 1)
  }

  function CloneTable(v: Vm, src: Word): (Vm, Word) {
    var (v1, table) := AllocatePageFolder(v);
    (CloneEntries(v1, src, table, 1024), src.(frame := table))
  }

  function CloneDirectoryEntry(v: Vm, src: Frame, dir: Frame, i: Index): Vm {
    var e := v.mem[src][i];
    if !e.present then v
    else if MustClone(v.mem, e) then
      var (v1, q) := CloneTable(v, e);
      v1.(mem := Put(v1.mem, dir, i, q))
    else v.(mem := Put(v.mem, dir, i, e))
  }

  function CloneDirectoryEntries(v: Vm, src: Frame, dir: Frame, n: nat): Vm
    requires n <= 1024
  {
    if n == 0 then v else CloneDirectoryEntry(CloneDirectoryEntries(v, src, dir, n - 1), src, dir, n - 1)
  }

  function CloneDirectory(v: Vm, src: Frame): (Vm, Frame) {
    var (v1, dir) := AllocatePageFolder(v);
    (CloneDirectoryEntries(v1, src, dir, 1024), dir)
  }

  // ---------- what a clone costs ----------

  function PrivatePages(table: Page, directoryUser: bool, n: nat): nat
    requires n <= 1024
  {
    if n == 0 then 0
    else PrivatePages(table, directoryUser, n - 1) + if Private(directoryUser, table[n - 1]) then 1 else 0
  }

  function FramesNeeded(m: Memory, dir: Frame, n: nat): nat
    requires n <= 1024
  {
    if n == 0 then 0 else
      var e := m[dir][n - 1];
      FramesNeeded(m, dir, n - 1) + if e.present && MustClone(m, e) then PrivatePages(m[e.frame], e.user, 1024) else 0
  }

  function TablesNeeded(m: Memory, dir: Frame, n: nat): nat
    requires n <= 1024
  {
    if n == 0 then 0 else
      var e := m[dir][n - 1];
      TablesNeeded(m, dir, n - 1) + if e.present && MustClone(m, e) then 1 else 0
  }

  // ---------- one table ----------

  /** How entry `q` of a clone in memory `m'` relates to entry `p` of its source in memory `m`. */
  ghost predicate EntryCloned(m: Memory, directoryUser: bool, p: Word, m': Memory, q: Word, taken: set<Frame>) {
    if !p.present then q == ZERO
    else if Private(directoryUser, p) then q == p.(frame := q.frame) && q.frame in taken && m'[q.frame] == m[p.frame]
    else q == p
  }

  /** Only `t` and frames newly taken from the user pool differ between `v` and `w`. */
  ghost predicate OnlyTouches(v: Vm, w: Vm, t: Frame) {
    forall f: Frame :: f != t && f !in w.frames - v.frames ==> w.mem[f] == v.mem[f]
  }

  ghost predicate TableCloned(v: Vm, src: Word, w: Vm, t: Frame, n: nat)
    requires n <= 1024
  {
    && w.Valid() && w.folders == v.folders && v.frames <= w.frames
    && OnlyTouches(v, w, t)
    && (forall j: Index :: j < n ==>
         EntryCloned(v.mem, src.user, v.mem[src.frame][j], w.mem, w.mem[t][j], w.frames - v.frames))
    && (forall j: Index :: n <= j ==> w.mem[t][j] == ZERO)
    && |w.frames| == |v.frames| + PrivatePages(v.mem[src.frame], src.user, n)
  }

  /** Different private entries of the clone get different frames. */
  ghost predicate Injective(v: Vm, src: Word, w: Vm, t: Frame, n: nat) {
    forall j: Index, k: Index :: j < k < n ==>
      Private(src.user, v.mem[src.frame][j]) && Private(src.user, v.mem[src.frame][k]) ==>
      w.mem[t][j].frame != w.mem[t][k].frame
  }

  /** The table `src` points to and its private pages are neither the new table nor up for allocation. */
  ghost predicate TableLive(v: Vm, src: Word, t: Frame) {
    && src.frame != t && !v.Free(src.frame)
    && forall j: Index :: Private(src.user, v.mem[src.frame][j]) ==>
      v.mem[src.frame][j].frame != t && !v.Free(v.mem[src.frame][j].frame)
  }

  lemma AllocateFrameFresh(v: Vm)
    requires v.Valid() && |v.frames| < USER_SPACE_END - USER_SPACE_START
    ensures var (w, f) := AllocateFrame(v);
      w == v.(frames := v.frames + {f}) && v.Free(f) && f !in v.frames && w.Valid() && |w.frames| == |v.frames| + 1
      && USER_SPACE_START <= f
  {
    NullIffExhausted(v.frames, USER_SPACE_START, USER_SPACE_END);
  }

  lemma PutTwice(m: Memory, f: Frame, i: Index, a: Word, b: Word)
    ensures Put(Put(m, f, i, a), f, i, b) == Put(m, f, i, b)
  {
    assert m[f][i := a][i := b] == m[f][i := b];
  }

  /** A private entry: its copy goes to a frame that was free. */
  lemma PrivateEntryCloned(u: Vm, src: Word, t: Frame, n: Index) returns (f: Frame)
    requires u.Valid() && |u.frames| < USER_SPACE_END - USER_SPACE_START && t < USER_SPACE_START && src.frame != t
    requires Private(src.user, u.mem[src.frame][n]) && u.mem[src.frame][n].frame != t
    ensures u.Free(f) && USER_SPACE_START <= f && f !in u.frames
    ensures var page := u.mem[src.frame][n]; var w := CloneEntry(u, src, t, n);
      && w.Valid() && w.folders == u.folders && w.frames == u.frames + {f} && |w.frames| == |u.frames| + 1
      && w.mem == Put(u.mem, t, n, page.(frame := f))[f := u.mem[page.frame]]
  {
    var page := u.mem[src.frame][n];
    var u1 := u.(mem := Put(u.mem, t, n, page));
    AllocateFrameFresh(u1);
    f := AllocateFrame(u1).1;
    PutTwice(u.mem, t, n, page, page.(frame := f));
  }

  /** One more entry, private: what was cloned before stays and the copy is in a frame of its own. */
  lemma PrivateEntryKeeps(v: Vm, src: Word, u: Vm, t: Frame, n: Index, w: Vm, f: Frame)
    requires v.Valid() && TableLive(v, src, t) && t < USER_SPACE_START <= f && f !in u.frames && v.Free(f)
    requires TableCloned(v, src, u, t, n) && Private(src.user, v.mem[src.frame][n])
    requires w.Valid() && w.folders == u.folders && w.frames == u.frames + {f} && |w.frames| == |u.frames| + 1
    requires var page := v.mem[src.frame][n];
      w.mem == Put(u.mem, t, n, page.(frame := f))[f := u.mem[page.frame]]
    ensures TableCloned(v, src, w, t, n + 1)
  {
    var page := v.mem[src.frame][n];
    assert w.mem[f] == v.mem[page.frame];
    forall j: Index | j < n
      ensures EntryCloned(v.mem, src.user, v.mem[src.frame][j], w.mem, w.mem[t][j], w.frames - v.frames)
    {
      assert EntryCloned(v.mem, src.user, v.mem[src.frame][j], u.mem, u.mem[t][j], u.frames - v.frames);
    }
  }

  lemma PrivateEntryInjective(v: Vm, src: Word, u: Vm, t: Frame, n: Index, w: Vm, f: Frame)
    requires TableCloned(v, src, u, t, n) && Injective(v, src, u, t, n) && f !in u.frames && w.mem[t][n].frame == f
    requires forall j: Index :: j < n ==> w.mem[t][j] == u.mem[t][j]
    ensures Injective(v, src, w, t, n + 1)
  {
  }

  lemma SharedEntryKeeps(v: Vm, src: Word, u: Vm, t: Frame, n: Index)
    requires v.Valid() && TableLive(v, src, t) && t < USER_SPACE_START && u.mem[src.frame] == v.mem[src.frame]
    requires TableCloned(v, src, u, t, n) && Injective(v, src, u, t, n) && !Private(src.user, v.mem[src.frame][n])
    ensures TableCloned(v, src, CloneEntry(u, src, t, n), t, n + 1)
    ensures Injective(v, src, CloneEntry(u, src, t, n), t, n + 1)
  {
    var w := CloneEntry(u, src, t, n);
    assert w == u.(mem := w.mem) && w.mem == u.mem[t := w.mem[t]];
    assert w.mem[t][n] == if v.mem[src.frame][n].present then v.mem[src.frame][n] else ZERO;
    forall j: Index | j < n
      ensures EntryCloned(v.mem, src.user, v.mem[src.frame][j], w.mem, w.mem[t][j], w.frames - v.frames)
    {
      assert EntryCloned(v.mem, src.user, v.mem[src.frame][j], u.mem, u.mem[t][j], u.frames - v.frames);
    }
  }

  lemma CloneEntryKeeps(v: Vm, src: Word, u: Vm, t: Frame, n: nat)
    requires n < 1024 && v.Valid() && TableLive(v, src, t) && t < USER_SPACE_START
    requires TableCloned(v, src, u, t, n) && Injective(v, src, u, t, n)
    requires |v.frames| + PrivatePages(v.mem[src.frame], src.user, n + 1) <= USER_SPACE_END - USER_SPACE_START
    ensures TableCloned(v, src, CloneEntry(u, src, t, n), t, n + 1)
    ensures Injective(v, src, CloneEntry(u, src, t, n), t, n + 1)
  {
    assert u.mem[src.frame] == v.mem[src.frame];
    if Private(src.user, u.mem[src.frame][n]) {
      var f := PrivateEntryCloned(u, src, t, n);
      var w := CloneEntry(u, src, t, n);
      PrivateEntryKeeps(v, src, u, t, n, w, f);
      PrivateEntryInjective(v, src, u, t, n, w, f);
    } else {
      SharedEntryKeeps(v, src, u, t, n);
    }
  }

  lemma {:induction false} CloneEntriesMeaning(v: Vm, src: Word, t: Frame, n: nat)
    requires n <= 1024 && v.Valid() && TableLive(v, src, t) && t < USER_SPACE_START && v.mem[t] == ZeroPage()
    requires |v.frames| + PrivatePages(v.mem[src.frame], src.user, n) <= USER_SPACE_END - USER_SPACE_START
    ensures TableCloned(v, src, CloneEntries(v, src, t, n), t, n)
    ensures Injective(v, src, CloneEntries(v, src, t, n), t, n)
  {
    if n > 0 {
      CloneEntriesMeaning(v, src, t, n - 1);
      CloneEntryKeeps(v, src, CloneEntries(v, src, t, n - 1), t, n - 1);
    }
  }

  // ---------- a whole directory ----------

  /** Entry `i` of directory `dir` is a table in use and its `j`th page is private. */
  ghost predicate PrivateAt(m: Memory, dir: Frame, i: Index, j: Index) {
    m[dir][i].present && Private(m[dir][i].user, m[m[dir][i].frame][j])
  }

  function Leaf(m: Memory, dir: Frame, i: Index, j: Index): Word {
    m[m[dir][i].frame][j]
  }

  ghost predicate DirectoryEntryCloned(v: Vm, e: Word, w: Vm, q: Word) {
    if !e.present then q == ZERO
    else if MustClone(v.mem, e) then
      && q == e.(frame := q.frame) && q.frame in w.folders - v.folders
      && forall j: Index ::
        EntryCloned(v.mem, e.user, v.mem[e.frame][j], w.mem, w.mem[q.frame][j], w.frames - v.frames)
    else q == e
  }

  /** Only `d` and what the pools have handed out since differ between `v` and `w`. */
  ghost predicate Grown(v: Vm, w: Vm, d: Frame) {
    && w.Valid() && v.folders <= w.folders && v.frames <= w.frames
    && forall f: Frame :: f != d && f !in w.frames - v.frames && f !in w.folders - v.folders ==> w.mem[f] == v.mem[f]
  }

  ghost predicate DirectoryCloned(v: Vm, src: Frame, w: Vm, d: Frame, n: nat)
    requires n <= 1024
  {
    && Grown(v, w, d)
    && (forall i: Index :: i < n ==> DirectoryEntryCloned(v, v.mem[src][i], w, w.mem[d][i]))
    && (forall i: Index :: n <= i ==> w.mem[d][i] == ZERO)
    && |w.frames| == |v.frames| + FramesNeeded(v.mem, src, n)
    && |w.folders| == |v.folders| + TablesNeeded(v.mem, src, n)
  }

  ghost predicate PrivateFramesDistinct(m: Memory, dir: Frame, n: nat) {
    forall i: Index, j: Index, i': Index, j': Index ::
      i < n && i' < n && (i, j) != (i', j') && PrivateAt(m, dir, i, j) && PrivateAt(m, dir, i', j') ==>
        Leaf(m, dir, i, j).frame != Leaf(m, dir, i', j').frame
  }

  /** Everything a clone reads is in use: the directory, its tables and its private pages. */
  ghost predicate Live(v: Vm, dir: Frame) {
    && !v.Free(dir)
    && (forall i: Index :: v.mem[dir][i].present ==> !v.Free(v.mem[dir][i].frame))
    && forall i: Index, j: Index :: PrivateAt(v.mem, dir, i, j) ==> !v.Free(Leaf(v.mem, dir, i, j).frame)
  }

  ghost predicate Avoids(m: Memory, dir: Frame, d: Frame) {
    && dir != d
    && (forall i: Index :: m[dir][i].present ==> m[dir][i].frame != d)
    && forall i: Index, j: Index :: PrivateAt(m, dir, i, j) ==> Leaf(m, dir, i, j).frame != d
  }

  lemma AllocateFolderFresh(v: Vm)
    requires v.Valid() && |v.folders| < PAGING_POOL_END - PAGING_POOL_START
    ensures var (w, f) := AllocatePageFolder(v);
      && w == Vm(v.mem[f := ZeroPage()], v.folders + {f}, v.frames)
      && v.Free(f) && f !in v.folders && w.Valid() && |w.folders| == |v.folders| + 1 && 0 < f < USER_SPACE_START
  {
    NullIffExhausted(v.folders, PAGING_POOL_START, PAGING_POOL_END);
  }

  /** Cloning table `e` of the source out of a state `u` that has grown from `v`. */
  lemma CloneTableMeaning(v: Vm, src: Frame, u: Vm, d: Frame, i: Index)
    requires v.Valid() && Live(v, src) && Avoids(v.mem, src, d) && d in v.folders && Grown(v, u, d)
    requires v.mem[src][i].present
    requires |u.folders| < PAGING_POOL_END - PAGING_POOL_START
    requires var e := v.mem[src][i];
      |u.frames| + PrivatePages(v.mem[e.frame], e.user, 1024) <= USER_SPACE_END - USER_SPACE_START
    ensures var e := v.mem[src][i];
      var (w, q) := CloneTable(u, e);
      && q == e.(frame := q.frame) && q.frame !in u.folders && w.folders == u.folders + {q.frame}
      && TableCloned(Vm(u.mem[q.frame := ZeroPage()], w.folders, u.frames), e, w, q.frame, 1024)
      && Injective(Vm(u.mem[q.frame := ZeroPage()], w.folders, u.frames), e, w, q.frame, 1024)
      && v.Free(q.frame)
      && |w.folders| == |u.folders| + 1
  {
    AllocateFolderFresh(u);
    var e := v.mem[src][i];
    var (u1, t) := AllocatePageFolder(u);
    assert e.frame != t && u1.mem[e.frame] == v.mem[e.frame];
    forall j: Index | Private(e.user, u1.mem[e.frame][j])
      ensures u1.mem[e.frame][j].frame != t && !u1.Free(u1.mem[e.frame][j].frame)
    {
      assert PrivateAt(v.mem, src, i, j);
      assert !v.Free(Leaf(v.mem, src, i, j).frame);
    }
    CloneEntriesMeaning(u1, e, t, 1024);
  }

  /** An entry that was cloned stays so while memory grows around it. */
  lemma DirectoryEntryStays(v: Vm, e: Word, u: Vm, w: Vm, d: Frame, q: Word)
    requires DirectoryEntryCloned(v, e, u, q) && Grown(v, u, d) && Grown(u, w, d) && d in v.folders
    ensures DirectoryEntryCloned(v, e, w, q)
  {
  }

  /** The private pages of one table use different frames, all from `taken`. */
  ghost predicate FreshLeaves(m: Memory, d: Frame, i: Index, taken: set<Frame>) {
    && (forall j: Index :: PrivateAt(m, d, i, j) ==> Leaf(m, d, i, j).frame in taken)
    && forall j: Index, k: Index :: j < k && PrivateAt(m, d, i, j) && PrivateAt(m, d, i, k) ==>
         Leaf(m, d, i, j).frame != Leaf(m, d, i, k).frame
  }

  lemma ClonedTableFresh(u: Vm, e: Word, w: Vm, t: Frame, m: Memory, d: Frame, i: Index)
    requires TableCloned(u, e, w, t, 1024) && Injective(u, e, w, t, 1024)
    requires m[d][i] == e.(frame := t) && m[t] == w.mem[t]
    ensures FreshLeaves(m, d, i, w.frames - u.frames)
  {
  }

  /** The entries of a table cloned out of `u`, seen from the earlier state `v`. */
  lemma LeavesCloned(v: Vm, src: Frame, u: Vm, d: Frame, i: Index, z: Vm, w: Vm, t: Frame, m: Memory)
    requires v.Valid() && Live(v, src) && Avoids(v.mem, src, d) && Grown(v, u, d) && v.mem[src][i].present && v.Free(t)
    requires z == Vm(u.mem[t := ZeroPage()], z.folders, u.frames) && TableCloned(z, v.mem[src][i], w, t, 1024)
    requires m[t] == w.mem[t] && forall f: Frame :: f in w.frames ==> m[f] == w.mem[f]
    ensures var e := v.mem[src][i];
      forall j: Index :: EntryCloned(v.mem, e.user, v.mem[e.frame][j], m, m[t][j], w.frames - v.frames)
  {
    var e := v.mem[src][i];
    assert z.mem[e.frame] == v.mem[e.frame];
    forall j: Index
      ensures EntryCloned(v.mem, e.user, v.mem[e.frame][j], m, m[t][j], w.frames - v.frames)
    {
      assert EntryCloned(z.mem, e.user, z.mem[e.frame][j], w.mem, w.mem[t][j], w.frames - z.frames);
      if Private(e.user, v.mem[e.frame][j]) {
        assert PrivateAt(v.mem, src, i, j);
        assert !v.Free(Leaf(v.mem, src, i, j).frame);
      }
    }
  }

  /** What happens to memory when entry n of the new directory is written: what `u` had grown to grows on. */
  ghost predicate EntryAdded(v: Vm, src: Frame, u: Vm, w: Vm, d: Frame, n: Index) {
    && Grown(v, w, d) && Grown(u, w, d)
    && (forall i: Index :: i != n ==> w.mem[d][i] == u.mem[d][i])
    && DirectoryEntryCloned(v, v.mem[src][n], w, w.mem[d][n])
    && FreshLeaves(w.mem, d, n, w.frames - u.frames)
  }

  /** An entry whose table gets cloned. */
  lemma TableEntryAdded(v: Vm, src: Frame, u: Vm, d: Frame, n: Index, w1: Vm, q: Word)
    requires v.Valid() && Live(v, src) && Avoids(v.mem, src, d) && d in v.folders && d < USER_SPACE_START
    requires Grown(v, u, d)
    requires v.mem[src][n].present && MustClone(v.mem, v.mem[src][n]) && q == v.mem[src][n].(frame := q.frame)
    requires q.frame !in u.folders && w1.folders == u.folders + {q.frame} && v.Free(q.frame)
    requires var z := Vm(u.mem[q.frame := ZeroPage()], w1.folders, u.frames);
      TableCloned(z, v.mem[src][n], w1, q.frame, 1024) && Injective(z, v.mem[src][n], w1, q.frame, 1024)
    ensures EntryAdded(v, src, u, w1.(mem := Put(w1.mem, d, n, q)), d, n)
  {
    var e := v.mem[src][n];
    var t := q.frame;
    var w := w1.(mem := Put(w1.mem, d, n, q));
    assert t != d && w.mem[t] == w1.mem[t] && w1.mem[d] == u.mem[d];
    var z := Vm(u.mem[t := ZeroPage()], w1.folders, u.frames);
    ClonedTableFresh(z, e, w1, t, w.mem, d, n);
    LeavesCloned(v, src, u, d, n, z, w1, t, w.mem);
  }

  /** An entry that is absent or copied. */
  lemma PlainEntryAdded(v: Vm, src: Frame, u: Vm, d: Frame, n: Index)
    requires v.Valid() && Live(v, src) && Avoids(v.mem, src, d) && d in v.folders && d < USER_SPACE_START
    requires Grown(v, u, d)
    requires u.mem[src] == v.mem[src] && u.mem[d][n] == ZERO
    requires v.mem[src][n].present ==>
      u.mem[v.mem[src][n].frame] == v.mem[v.mem[src][n].frame] && !MustClone(v.mem, v.mem[src][n])
    ensures EntryAdded(v, src, u, CloneDirectoryEntry(u, src, d, n), d, n)
    ensures var w := CloneDirectoryEntry(u, src, d, n); w.frames == u.frames && w.folders == u.folders
  {
  }

  lemma CloneDirectoryEntryGrows(v: Vm, src: Frame, u: Vm, d: Frame, n: Index)
    requires v.Valid() && Live(v, src) && Avoids(v.mem, src, d) && d in v.folders && d < USER_SPACE_START
    requires DirectoryCloned(v, src, u, d, n)
    requires |v.frames| + FramesNeeded(v.mem, src, n + 1) <= USER_SPACE_END - USER_SPACE_START
    requires |v.folders| + TablesNeeded(v.mem, src, n + 1) <= PAGING_POOL_END - PAGING_POOL_START
    ensures var w := CloneDirectoryEntry(u, src, d, n);
      && EntryAdded(v, src, u, w, d, n)
      && |w.frames| == |v.frames| + FramesNeeded(v.mem, src, n + 1)
      && |w.folders| == |v.folders| + TablesNeeded(v.mem, src, n + 1)
  {
    var e := v.mem[src][n];
    assert u.mem[src] == v.mem[src];
    assert e.present ==> u.mem[e.frame] == v.mem[e.frame];
    if e.present && MustClone(v.mem, e) {
      CloneTableMeaning(v, src, u, d, n);
      var (w1, q) := CloneTable(u, e);
      TableEntryAdded(v, src, u, d, n, w1, q);
    } else {
      PlainEntryAdded(v, src, u, d, n);
    }
  }

  /** What cloning promises for the page at directory index `i`, table index `j`. */
  ghost predicate SameMapping(v: Vm, src: Frame, w: Vm, dir: Frame, i: Index, j: Index) {
    var e := v.mem[src][i];
    var q := w.mem[dir][i];
    && q.present == e.present
    && (e.present ==>
      var p := Leaf(v.mem, src, i, j);
      var p' := Leaf(w.mem, dir, i, j);
      && q == e.(frame := q.frame)
      && p'.present == p.present
      && (p.present ==> p' == p.(frame := p'.frame))
      && (p.present && !Private(e.user, p) ==> p'.frame == p.frame)
      && (Private(e.user, p) ==> p'.frame in w.frames - v.frames && w.mem[p'.frame] == v.mem[p.frame]))
  }

  lemma EntryMapsTheSame(v: Vm, src: Frame, w: Vm, d: Frame, i: Index, j: Index)
    requires DirectoryEntryCloned(v, v.mem[src][i], w, w.mem[d][i])
    requires v.mem[src][i].present ==> w.mem[v.mem[src][i].frame] == v.mem[v.mem[src][i].frame]
    ensures SameMapping(v, src, w, d, i, j)
    ensures PrivateAt(w.mem, d, i, j) <==> PrivateAt(v.mem, src, i, j)
  {
  }

  lemma DistinctStays(v: Vm, src: Frame, u: Vm, w: Vm, d: Frame, n: Index)
    requires v.Valid() && Live(v, src) && Avoids(v.mem, src, d) && d in v.folders
    requires DirectoryCloned(v, src, u, d, n) && Grown(v, w, d) && Grown(u, w, d)
    requires forall i: Index :: i < n ==> DirectoryEntryCloned(v, v.mem[src][i], w, w.mem[d][i])
    requires forall i: Index :: i != n ==> w.mem[d][i] == u.mem[d][i]
    requires PrivateFramesDistinct(u.mem, d, n)
    ensures PrivateFramesDistinct(w.mem, d, n)
    ensures forall i: Index, j: Index :: i < n && PrivateAt(w.mem, d, i, j) ==> Leaf(w.mem, d, i, j).frame in u.frames
  {
    forall i: Index, j: Index | i < n && PrivateAt(w.mem, d, i, j)
      ensures PrivateAt(u.mem, d, i, j) && Leaf(w.mem, d, i, j) == Leaf(u.mem, d, i, j)
      ensures Leaf(w.mem, d, i, j).frame in u.frames
    {
      EntryMapsTheSame(v, src, u, d, i, j);
      EntryMapsTheSame(v, src, w, d, i, j);
      assert MustClone(v.mem, v.mem[src][i]);
      assert w.mem[w.mem[d][i].frame] == u.mem[u.mem[d][i].frame];
    }
  }

  /** The entries cloned earlier stay as they are when entry n is added. */
  lemma EarlierEntriesStay(v: Vm, src: Frame, u: Vm, w: Vm, d: Frame, n: Index)
    requires v.Valid() && Live(v, src) && Avoids(v.mem, src, d) && d in v.folders
    requires DirectoryCloned(v, src, u, d, n) && EntryAdded(v, src, u, w, d, n) && PrivateFramesDistinct(u.mem, d, n)
    ensures forall i: Index :: i <= n ==> DirectoryEntryCloned(v, v.mem[src][i], w, w.mem[d][i])
    ensures PrivateFramesDistinct(w.mem, d, n + 1)
  {
    forall i: Index | i < n
      ensures DirectoryEntryCloned(v, v.mem[src][i], w, w.mem[d][i])
    {
      DirectoryEntryStays(v, v.mem[src][i], u, w, d, u.mem[d][i]);
    }
    DistinctStays(v, src, u, w, d, n);
    DistinctGrows(w.mem, d, n, u.frames, w.frames);
  }

  /** Private pages in frames of their own, and one more table whose private pages are in others. */
  lemma DistinctGrows(m: Memory, d: Frame, n: Index, old': set<Frame>, new': set<Frame>)
    requires PrivateFramesDistinct(m, d, n) && FreshLeaves(m, d, n, new' - old')
    requires forall i: Index, j: Index :: i < n && PrivateAt(m, d, i, j) ==> Leaf(m, d, i, j).frame in old'
    ensures PrivateFramesDistinct(m, d, n + 1)
  {
  }

  lemma {:induction false} CloneDirectoryEntriesMeaning(v: Vm, src: Frame, d: Frame, n: nat)
    requires n <= 1024
    requires v.Valid() && Live(v, src) && Avoids(v.mem, src, d) && d in v.folders && v.mem[d] == ZeroPage()
    requires |v.frames| + FramesNeeded(v.mem, src, n) <= USER_SPACE_END - USER_SPACE_START
    requires |v.folders| + TablesNeeded(v.mem, src, n) <= PAGING_POOL_END - PAGING_POOL_START
    ensures var w := CloneDirectoryEntries(v, src, d, n);
            DirectoryCloned(v, src, w, d, n) && PrivateFramesDistinct(w.mem, d, n)
  {
    if n > 0 {
      CloneDirectoryEntriesMeaning(v, src, d, n - 1);
      var u := CloneDirectoryEntries(v, src, d, n - 1);
      CloneDirectoryEntryGrows(v, src, u, d, n - 1);
      EarlierEntriesStay(v, src, u, CloneDirectoryEntry(u, src, d, n - 1), d, n - 1);
    }
  }

  lemma {:induction false} NeedsUnchanged(m: Memory, m': Memory, src: Frame, n: nat)
    requires n <= 1024 && m'[src] == m[src]
    requires forall i: Index :: m[src][i].present ==> m'[m[src][i].frame] == m[m[src][i].frame]
    ensures FramesNeeded(m', src, n) == FramesNeeded(m, src, n)
    ensures TablesNeeded(m', src, n) == TablesNeeded(m, src, n)
  {
    if n > 0 {
      NeedsUnchanged(m, m', src, n - 1);
    }
  }

  ghost predicate EnoughFor(v: Vm, src: Frame) {
    && |v.frames| + FramesNeeded(v.mem, src, 1024) <= USER_SPACE_END - USER_SPACE_START
    && |v.folders| + 1 + TablesNeeded(v.mem, src, 1024) <= PAGING_POOL_END - PAGING_POOL_START
  }

  /** Taking a folder for the clone changes nothing about the source. */
  lemma FolderTaken(v: Vm, src: Frame)
    requires v.Valid() && Live(v, src) && |v.folders| < PAGING_POOL_END - PAGING_POOL_START
    ensures var (v1, d) := AllocatePageFolder(v);
      && v1.Valid() && Live(v1, src) && Avoids(v1.mem, src, d) && d in v1.folders && v1.mem[d] == ZeroPage()
      && v1 == Vm(v.mem[d := ZeroPage()], v.folders + {d}, v.frames) && v.Free(d) && d !in v.folders
      && |v1.folders| == |v.folders| + 1 && v1.mem[src] == v.mem[src]
      && (forall i: Index :: v.mem[src][i].present ==> v1.mem[v.mem[src][i].frame] == v.mem[v.mem[src][i].frame])
      && FramesNeeded(v1.mem, src, 1024) == FramesNeeded(v.mem, src, 1024)
      && TablesNeeded(v1.mem, src, 1024) == TablesNeeded(v.mem, src, 1024)
  {
    AllocateFolderFresh(v);
    var (v1, d) := AllocatePageFolder(v);
    assert v1.mem[src] == v.mem[src];
    forall i: Index, j: Index | PrivateAt(v1.mem, src, i, j)
      ensures PrivateAt(v.mem, src, i, j) && Leaf(v1.mem, src, i, j) == Leaf(v.mem, src, i, j)
    {
      assert v1.mem[v.mem[src][i].frame] == v.mem[v.mem[src][i].frame];
    }
    NeedsUnchanged(v.mem, v1.mem, src, 1024);
  }

  lemma MapsLikeTheSource(v: Vm, v1: Vm, src: Frame, w: Vm, d: Frame, i: Index, j: Index)
    requires Live(v, src) && v.Free(d) && v1 == Vm(v.mem[d := ZeroPage()], v.folders + {d}, v.frames)
    requires DirectoryEntryCloned(v1, v1.mem[src][i], w, w.mem[d][i])
    requires v.mem[src][i].present ==> w.mem[v.mem[src][i].frame] == v1.mem[v.mem[src][i].frame]
    ensures SameMapping(v, src, w, d, i, j)
  {
  }

  /** What a clone `dir` of `src` should be: it maps the same pages with the same flags, kernel pages to the same frames
      and private ones to different fresh copies; nothing in use has changed; and the pools have lent exactly one frame
      per private page and one folder per table that holds any, plus the directory. */
  ghost predicate Faithful(v: Vm, src: Frame, w: Vm, dir: Frame) {
    && w.Valid() && v.folders <= w.folders && v.frames <= w.frames
    && dir in w.folders - v.folders
    && (forall i: Index, j: Index :: SameMapping(v, src, w, dir, i, j))
    && PrivateFramesDistinct(w.mem, dir, 1024)
    && (forall f: Frame :: !v.Free(f) ==> w.mem[f] == v.mem[f])
    && (forall i: Index :: w.mem[dir][i].present ==> w.mem[dir][i].frame in w.folders || w.mem[dir][i] == v.mem[src][i])
    && |w.frames| == |v.frames| + FramesNeeded(v.mem, src, 1024)
    && |w.folders| == |v.folders| + 1 + TablesNeeded(v.mem, src, 1024)
  }

  lemma CloneMapsTheSame(v: Vm, v1: Vm, src: Frame, d: Frame, w: Vm)
    requires v.Valid() && Live(v, src) && v.Free(d) && v1 == Vm(v.mem[d := ZeroPage()], v.folders + {d}, v.frames)
    requires Avoids(v1.mem, src, d) && DirectoryCloned(v1, src, w, d, 1024)
    ensures forall i: Index, j: Index :: SameMapping(v, src, w, d, i, j)
  {
    assert v1.mem[src] == v.mem[src];
    forall i: Index, j: Index
      ensures SameMapping(v, src, w, d, i, j)
    {
      MapsLikeTheSource(v, v1, src, w, d, i, j);
    }
  }

  /** A directory `d` that was taken from the pool and filled entry by entry. */
  lemma ClonedIsFaithful(v: Vm, v1: Vm, src: Frame, d: Frame, w: Vm)
    requires v.Valid() && Live(v, src) && v.Free(d) && d !in v.folders
    requires v1 == Vm(v.mem[d := ZeroPage()], v.folders + {d}, v.frames) && |v1.folders| == |v.folders| + 1
    requires Avoids(v1.mem, src, d) && DirectoryCloned(v1, src, w, d, 1024) && PrivateFramesDistinct(w.mem, d, 1024)
    requires FramesNeeded(v1.mem, src, 1024) == FramesNeeded(v.mem, src, 1024)
    requires TablesNeeded(v1.mem, src, 1024) == TablesNeeded(v.mem, src, 1024)
    ensures Faithful(v, src, w, d)
  {
    CloneMapsTheSame(v, v1, src, d, w);
    FoldersKnown(v, v1, src, d, w);
  }

  /** Its entries lead to folders in use, or are those of the source. */
  lemma FoldersKnown(v: Vm, v1: Vm, src: Frame, d: Frame, w: Vm)
    requires v1 == Vm(v.mem[d := ZeroPage()], v.folders + {d}, v.frames) && src != d
    requires DirectoryCloned(v1, src, w, d, 1024)
    ensures forall i: Index :: w.mem[d][i].present ==> w.mem[d][i].frame in w.folders || w.mem[d][i] == v.mem[src][i]
  {
    forall i: Index
      ensures w.mem[d][i].present ==> w.mem[d][i].frame in w.folders || w.mem[d][i] == v.mem[src][i]
    {
      assert DirectoryEntryCloned(v1, v1.mem[src][i], w, w.mem[d][i]);
    }
  }

  /** `clone_directory` preserves meaning, whatever the source maps. */
  lemma CloneDirectoryMeaning(v: Vm, src: Frame)
    requires v.Valid() && Live(v, src) && EnoughFor(v, src)
    ensures var (w, dir) := CloneDirectory(v, src); Faithful(v, src, w, dir)
  {
    FolderTaken(v, src);
    var (v1, d) := AllocatePageFolder(v);
    CloneDirectoryEntriesMeaning(v1, src, d, 1024);
    ClonedIsFaithful(v, v1, src, d, CloneDirectoryEntries(v1, src, d, 1024));
  }

  /** ... and it does so exactly when the pools can serve it. */
  lemma CloneFaithfulIffEnough(v: Vm, src: Frame)
    requires v.Valid() && Live(v, src)
    ensures var (w, dir) := CloneDirectory(v, src); Faithful(v, src, w, dir) <==> EnoughFor(v, src)
  {
    if EnoughFor(v, src) {
      CloneDirectoryMeaning(v, src);
    }
    var (w, dir) := CloneDirectory(v, src);
    if Faithful(v, src, w, dir) {
      SubsetSize(w.frames, Range(USER_SPACE_START, USER_SPACE_END));
      SubsetSize(w.folders, Range(PAGING_POOL_START, PAGING_POOL_END));
    }
  }
}
