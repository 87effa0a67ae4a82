/** pages.c as it runs: bitmaps changed in place, page folders filled through physical memory.
    Addresses of folders and frames are frame numbers (`address / page_size`), null is frame 0. */
module Pager {
  import opened PhysicalMemory
  import opened Cloning
  import Bitmap

  /** A `page_pointer*`: entry `index` of the folder in `frame`. */
  datatype Slot = Null | Slot(frame: Frame, index: Index)

  /** The bits `create_page_entry` does not assign keep whatever `junk` the local variable held. */
  function CreatePageEntry(junk: Word, frame: Frame, isKernel: bool, isWriteable: bool): Word {
    junk.(frame := frame, user := !isKernel, rw := isWriteable, present := true)
  }

  /** The `in_stack` test of `initialise_paging`, with its unsigned subtraction. */
  predicate InStack(stackPointer: nat, stackSize: nat, page: nat) {
    (stackPointer - stackSize) % 0x1_0000_0000 <= page * 0x1000 < stackPointer
  }

  /** It holds exactly for the pages between the end of the stack and its beginning, and for none if the stack would
      begin below address 0. */
  lemma StackRange(stackPointer: nat, stackSize: nat, page: nat)
    requires stackPointer < 0x1_0000_0000 && stackSize < 0x1_0000_0000
    ensures InStack(stackPointer, stackSize, page) <==>
            stackSize <= stackPointer && stackPointer - stackSize <= page * 0x1000 < stackPointer
  {
  }

  /** Tables needed to hold the first `n` pages. */
  function Tables(n: nat): nat {
    (n + 1023) / 1024
  }

  /** A kernel directory with `t` tables in which pages 0..n are entered: the directory is the first folder
      of the pool, its tables follow, every page below `n` maps to itself, and nothing else is mapped. */
  ghost predicate Entered(v: Vm, t: nat, n: nat, stackPointer: nat, stackSize: nat)
    requires t <= 64
  {
    && v.folders == Range(PAGING_POOL_START, PAGING_POOL_START + 1 + t)
    && v.frames == {}
    && (forall i: Index :: var e := v.mem[PAGING_POOL_START][i];
         if i < t then e.present && e.rw && !e.user && e.frame == PAGING_POOL_START + 1 + i else e == ZERO)
    && (forall i: Index, j: Index :: i < t ==>
         var p := Leaf(v.mem, PAGING_POOL_START, i, j);
         var page := 1024 * i + j;
         if page < n then
           p.present && p.frame == page && p.user == InStack(stackPointer, stackSize, page) && p.rw == p.user
         else p == ZERO)
  }

  ghost predicate IdentityMapped(v: Vm, n: nat, stackPointer: nat, stackSize: nat)
    requires n <= 0x1_0000
  {
    Entered(v, Tables(n), n, stackPointer, stackSize)
  }

  /** The slot in which directory `dir` keeps a page. */
  function SlotOf(m: Memory, dir: Frame, page: nat): Slot
    requires page < 0x10_0000
  {
    Slot(m[dir][page / 1024].frame, page % 1024)
  }

  /** In a kernel directory no two pages share a slot. */
  lemma SlotsDiffer(v: Vm, t: nat, n: nat, stackPointer: nat, stackSize: nat, p: nat, q: nat)
    requires t <= 64 && Entered(v, t, n, stackPointer, stackSize) && p < 1024 * t && q < 1024 * t
    ensures SlotOf(v.mem, PAGING_POOL_START, p) == SlotOf(v.mem, PAGING_POOL_START, q) <==> p == q
  {
  }

  /** `get_page` with `make` set, as a function: the directory gets a new table when it has none there. */
  function MakeTable(v: Vm, dir: Frame, i: Index, junk: Word): Vm {
    if v.mem[dir][i].frame != 0 then v else
      var (w, f) := PhysicalMemory.AllocatePageFolder(v);
      w.(mem := Put(w.mem, dir, i, CreatePageEntry(junk, f, true, true)))
  }

  lemma MakeTableAdds(v: Vm, i: Index, n: nat, stackPointer: nat, stackSize: nat, junk: Word)
    requires i < 64 && Entered(v, i, n, stackPointer, stackSize)
    ensures var w := MakeTable(v, PAGING_POOL_START, i, junk);
      var f := PAGING_POOL_START + 1 + i;
      && w == Vm(w.mem, Range(PAGING_POOL_START, f + 1), {})
      && var directory := v.mem[PAGING_POOL_START][i := CreatePageEntry(junk, f, true, true)];
         w.mem == v.mem[f := ZeroPage()][PAGING_POOL_START := directory]
  {
  }

  lemma MakeTableLeaves(v: Vm, i: Index, n: nat, stackPointer: nat, stackSize: nat, junk: Word, k: Index, j: Index)
    requires i < 64 && Entered(v, i, n, stackPointer, stackSize) && k <= i
    ensures var w := MakeTable(v, PAGING_POOL_START, i, junk);
      && w.mem[PAGING_POOL_START][k] ==
         (if k < i then v.mem[PAGING_POOL_START][k] else CreatePageEntry(junk, PAGING_POOL_START + 1 + i, true, true))
      && Leaf(w.mem, PAGING_POOL_START, k, j) == (if k < i then Leaf(v.mem, PAGING_POOL_START, k, j) else ZERO)
  {
    MakeTableAdds(v, i, n, stackPointer, stackSize, junk);
  }

  lemma MakeTableEnters(v: Vm, n: nat, stackPointer: nat, stackSize: nat, junk: Word)
    requires n < 0x1_0000 && IdentityMapped(v, n, stackPointer, stackSize)
    ensures Entered(MakeTable(v, PAGING_POOL_START, n / 1024, junk), n / 1024 + 1, n, stackPointer, stackSize)
  {
    var i := n / 1024;
    if n % 1024 == 0 {
      TableEntered(v, i, stackPointer, stackSize, junk);
    }
  }

  lemma TableEntered(v: Vm, i: Index, stackPointer: nat, stackSize: nat, junk: Word)
    requires i < 64 && Entered(v, i, 1024 * i, stackPointer, stackSize)
    ensures Entered(MakeTable(v, PAGING_POOL_START, i, junk), i + 1, 1024 * i, stackPointer, stackSize)
  {
    MakeTableAdds(v, i, 1024 * i, stackPointer, stackSize, junk);
    var w := MakeTable(v, PAGING_POOL_START, i, junk);
    forall k: Index, j: Index | k <= i
      ensures Leaf(w.mem, PAGING_POOL_START, k, j) == if k < i then Leaf(v.mem, PAGING_POOL_START, k, j) else ZERO
    {
      MakeTableLeaves(v, i, 1024 * i, stackPointer, stackSize, junk, k, j);
    }
  }

  lemma PutEnters(v: Vm, n: nat, stackPointer: nat, stackSize: nat, p: Word)
    requires n < 0x1_0000 && Entered(v, n / 1024 + 1, n, stackPointer, stackSize)
    requires p.present && p.frame == n && p.user == InStack(stackPointer, stackSize, n) && p.rw == p.user
    ensures var w := v.(mem := Put(v.mem, PAGING_POOL_START + 1 + n / 1024, n % 1024, p));
      IdentityMapped(w, n + 1, stackPointer, stackSize)
  {
    var w := v.(mem := Put(v.mem, PAGING_POOL_START + 1 + n / 1024, n % 1024, p));
    forall i: Index, j: Index | i <= n / 1024
      ensures Leaf(w.mem, PAGING_POOL_START, i, j) ==
              if 1024 * i + j == n then p else Leaf(v.mem, PAGING_POOL_START, i, j)
    {
    }
  }

  class Pager {
    var memory: Memory
    const pagingPool: array<bv8>
    const userSpacePool: array<bv8>
    var kernelDirectory: Frame
    var currentDirectory: Frame

    ghost predicate Valid() {
      && pagingPool.Length == 448 && userSpacePool.Length == 7680 && pagingPool != userSpacePool
    }

    /** The memory and the two arrays of the bitmaps as they are found: nothing is cleared yet. */
    constructor (memory: Memory)
      ensures Valid() && fresh(pagingPool) && fresh(userSpacePool) && this.memory == memory
    {
      this.memory := memory;
      pagingPool, userSpacePool := new bv8[448], new bv8[7680];
      kernelDirectory, currentDirectory := 0, 0;
    }

    ghost function State(): Vm
      reads this, pagingPool, userSpacePool
    {
      Vm(memory, Bitmap.Used(pagingPool[..], PAGING_POOL_START), Bitmap.Used(userSpacePool[..], USER_SPACE_START))
    }

    method AllocateFrame() returns (f: Frame)
      requires Valid()
      modifies userSpacePool
      ensures (State(), f) == PhysicalMemory.AllocateFrame(old(State()))
    {
      f := Bitmap.TakeLowest(userSpacePool, USER_SPACE_START);
    }

    method ClearFrame(f: Frame)
      modifies this`memory
      ensures memory == old(memory)[f := ZeroPage()]
    {
      for k := 0 to 1024
        invariant memory == old(memory)[f := memory[f]]
        invariant forall j: Index :: j < k ==> memory[f][j] == ZERO
      {
        memory := Put(memory, f, k, ZERO);
      }
      assert memory[f] == ZeroPage();
    }

    method AllocatePageFolder() returns (f: Frame)
      requires Valid()
      modifies this`memory, pagingPool
      ensures (State(), f) == PhysicalMemory.AllocatePageFolder(old(State()))
    {
      f := Bitmap.TakeLowest(pagingPool, PAGING_POOL_START);
      if f != 0 {
        ClearFrame(f);
      }
    }

    /** copy_page_physical: 1024 words, one at a time. */
    method CopyPagePhysical(source: Frame, destination: Frame)
      modifies this`memory
      ensures memory == old(memory)[destination := old(memory)[source]]
    {
      for k := 0 to 1024
        invariant memory == old(memory)[destination := memory[destination]]
        invariant forall j: Index :: j < k ==> memory[destination][j] == old(memory)[source][j]
        invariant source == destination ==> memory == old(memory)
      {
        memory := Put(memory, destination, k, memory[source][k]);
        assert source == destination ==> memory[source] == old(memory)[source];
      }
      assert memory[destination] == old(memory)[source];
    }

    /** One turn of the loop of clone_table. */
    method CloneTableEntry(src: Word, table: Frame, i: Index)
      requires Valid()
      modifies this`memory, userSpacePool
      ensures State() == CloneEntry(old(State()), src, table, i)
    {
      var page := memory[src.frame][i];
      if !page.present {
      } else if src.user || page.user {
        memory := Put(memory, table, i, page);
        var f := AllocateFrame();
        memory := Put(memory, table, i, memory[table][i].(frame := f));
        CopyPagePhysical(memory[src.frame][i].frame, memory[table][i].frame);
      } else {
        memory := Put(memory, table, i, page);
      }
    }

    method CloneTable(src: Word) returns (tablePointer: Word)
      requires Valid()
      modifies this`memory, pagingPool, userSpacePool
      ensures (State(), tablePointer) == Cloning.CloneTable(old(State()), src)
    {
      var table := AllocatePageFolder();
      ghost var start := State();
      for i := 0 to 1024
        invariant State() == CloneEntries(start, src, table, i)
      {
        CloneTableEntry(src, table, i);
      }
      tablePointer := src.(frame := table);
    }

    method ContainsUserPages(folder: Word) returns (contains: bool)
      ensures contains <==> exists j: Index :: memory[folder.frame][j].user
      ensures contains == Cloning.ContainsUserPages(memory[folder.frame])
    {
      contains := false;
      for i := 0 to 1024
        invariant contains <==> exists j: Index :: j < i && memory[folder.frame][j].user
      {
        contains := contains || memory[folder.frame][i].user;
      }
    }

    /** One turn of the loop of clone_directory. */
    method CloneDirectoryEntry(src: Frame, dir: Frame, i: Index)
      requires Valid()
      modifies this`memory, pagingPool, userSpacePool
      ensures State() == Cloning.CloneDirectoryEntry(old(State()), src, dir, i)
    {
      var e := memory[src][i];
      if e.present {
        var contains := ContainsUserPages(e);
        if e.user || contains {
          var q := CloneTable(e);
          memory := Put(memory, dir, i, q);
        } else {
          memory := Put(memory, dir, i, e);
        }
      }
    }

    method CloneDirectory(src: Frame) returns (dir: Frame)
      requires Valid()
      modifies this`memory, pagingPool, userSpacePool
      ensures (State(), dir) == Cloning.CloneDirectory(old(State()), src)
    {
      dir := AllocatePageFolder();
      ghost var start := State();
      for i := 0 to 1024
        invariant State() == CloneDirectoryEntries(start, src, dir, i)
      {
        CloneDirectoryEntry(src, dir, i);
      }
    }

    method GetPage(address: nat, make: bool, dir: Frame, junk: Word) returns (slot: Slot)
      requires Valid() && address < 0x1_0000_0000
      modifies this`memory, pagingPool
      ensures slot == Null <==>
        address > 0x1000_0000 || (!make && SlotOf(old(memory), dir, address / 0x1000).frame == 0)
      ensures State() ==
        if slot == Null then old(State()) else MakeTable(old(State()), dir, address / 0x1000 / 1024, junk)
      ensures slot != Null ==> slot == SlotOf(memory, dir, address / 0x1000)
    {
      if address > 0x1000_0000 { return Null; }
      var page := address / 0x1000;
      var tableIdx := page / 1024;
      if memory[dir][tableIdx].frame == 0 {
        if !make { return Null; }
        var f := AllocatePageFolder();
        memory := Put(memory, dir, tableIdx, CreatePageEntry(junk, f, true, true));
      }
      return Slot(memory[dir][tableIdx].frame, page % 1024);
    }

    /** get_page for the next page of the table-building loop, with the table that may take. */
    method NextSlot(page: nat, stackPointer: nat, stackSize: nat) returns (slot: Slot)
      requires Valid() && page < 0x1_0000 && kernelDirectory == PAGING_POOL_START
      requires IdentityMapped(State(), page, stackPointer, stackSize)
      modifies this`memory, pagingPool
      ensures Entered(State(), page / 1024 + 1, page, stackPointer, stackSize)
      ensures slot == Slot(PAGING_POOL_START + 1 + page / 1024, page % 1024)
    {
      var junk: Word := *;
      ghost var before := State();
      MakeTableEnters(before, page, stackPointer, stackSize, junk);
      assert page * 0x1000 / 0x1000 == page;
      slot := GetPage(page * 0x1000, true, kernelDirectory, junk);
      assert State() == MakeTable(before, PAGING_POOL_START, page / 1024, junk);
    }

    /** The body of the table-building loop. */
    method MapPage(page: nat, stackPointer: nat, stackSize: nat)
      requires Valid() && page < 0x1_0000 && kernelDirectory == PAGING_POOL_START
      requires IdentityMapped(State(), page, stackPointer, stackSize)
      modifies this`memory, pagingPool
      ensures IdentityMapped(State(), page + 1, stackPointer, stackSize)
    {
      var junk: Word := *;
      var inStack := InStack(stackPointer, stackSize, page);
      var slot := NextSlot(page, stackPointer, stackSize);
      var entry := CreatePageEntry(junk, page, !inStack, inStack);
      PutEnters(State(), page, stackPointer, stackSize, entry);
      memory := Put(memory, slot.frame, slot.index, entry);
    }

    /** The first folder of an empty pool becomes the kernel directory. */
    method MakeKernelDirectory(stackPointer: nat, stackSize: nat)
      requires Valid() && State().folders == {} && State().frames == {}
      modifies this, pagingPool
      ensures kernelDirectory == PAGING_POOL_START && IdentityMapped(State(), 0, stackPointer, stackSize)
    {
      Bitmap.LowestIs({}, PAGING_POOL_START, PAGING_POOL_END, PAGING_POOL_START);
      kernelDirectory := AllocatePageFolder();
    }

    /** initialise_paging up to the point where CR3 is loaded, for a user space that starts at page `limit`. */
    method InitialisePaging(limit: nat, stackPointer: nat, stackSize: nat)
      requires Valid() && limit <= 0x1_0000
      modifies this, pagingPool, userSpacePool
      ensures IdentityMapped(State(), limit, stackPointer, stackSize)
      ensures kernelDirectory == currentDirectory == PAGING_POOL_START
    {
      Bitmap.Clear(pagingPool, PAGING_POOL_START);
      Bitmap.Clear(userSpacePool, USER_SPACE_START);
      MakeKernelDirectory(stackPointer, stackSize);
      for page := 0 to limit
        invariant kernelDirectory == PAGING_POOL_START
        invariant IdentityMapped(State(), page, stackPointer, stackSize)
      {
        MapPage(page, stackPointer, stackSize);
      }
      currentDirectory := kernelDirectory;
    }
  }
}
