/** Forking address spaces refines an ideal memory in which every task simply has its own stack pages: a fork
    copies the forker's pages, a store changes only the storing task's page or the one shared kernel page. */
module PrivateMemory {
  import opened PhysicalMemory
  import opened Cloning
  import opened AddressSpaces
  import opened Kernel
  import opened KernelSafety

  /** The private pages of one task, by page number; 0 and 1 are unused. */
  type View = v: seq<Page> | |v| == 7 witness seq(7, _ => seq(1024, _ => ZERO))

  datatype Ideal = Ideal(views: seq<View>, shared: Memory)

  /** What the same step does to the ideal memory; `s` says who is running and where. */
  function IdealNext(a: Ideal, s: Machine, step: Step): Ideal {
    match step
    case StoreWord(page, index, word) =>
      if StackPage(page) then
        if s.current < |a.views| then
          var view := a.views[s.current];
          a.(views := a.views[s.current := view[page := view[page][index := word]]])
        else a
      else if SharedPage(page) then a.(shared := Put(a.shared, page, index, word))
      else a
    case KernelStep =>
      if s.location == ForkParent && s.current < |a.views| then a.(views := a.views + [a.views[s.current]]) else a
    case _ => a
  }

  /** The ideal memory after the first `i` steps of a run. */
  function IdealAfter(states: seq<Machine>, steps: seq<Step>, i: nat): Ideal
    requires |states| == |steps| + 1 && i <= |steps|
  {
    if i == 0 then Ideal([states[0].vm.mem[..7]], states[0].vm.mem)
    else IdealNext(IdealAfter(states, steps, i - 1), states[i - 1], steps[i - 1])
  }

  /** What task (or directory) `dir` reads at a page. */
  function Load(m: Memory, dir: Frame, page: nat): Page
    requires page < USER_SPACE_START
  {
    m[FrameOf(m, dir, page)]
  }

  /** Pages that tasks use as memory: their stack, and what is shared. */
  predicate DataPage(page: int) {
    StackPage(page) || SharedPage(page)
  }

  /** What the ideal memory holds for task k at a page. */
  function PageOf(a: Ideal, k: nat, page: nat): Page
    requires k < |a.views| && DataPage(page)
  {
    if StackPage(page) then a.views[k][page] else a.shared[page]
  }

  ghost predicate Represents(m: Memory, dirs: seq<Frame>, a: Ideal) {
    && |a.views| == |dirs|
    && forall k: nat, p: nat :: k < |dirs| && DataPage(p) ==> Load(m, dirs[k], p) == PageOf(a, k, p)
  }

  /** A task's pages after another fork: cloning leaves them alone. */
  lemma OldPagesStay(v: Vm, dirs: seq<Frame>, k: nat, l: nat, p: nat)
    requires Spaces(v, dirs) && k < |dirs| <= MAX_FORKS && l < |dirs| && DataPage(p)
    ensures Load(CloneDirectory(v, dirs[k]).0.mem, dirs[l], p) == Load(v.mem, dirs[l], p)
  {
    CloneKeepsSpaces(v, dirs, k);
    FrameInUse(v, dirs[l], p);
  }

  /** The pages of the new task are those of the forking one. */
  lemma NewPagesCopy(v: Vm, dirs: seq<Frame>, k: nat, p: nat)
    requires Spaces(v, dirs) && k < |dirs| <= MAX_FORKS && DataPage(p)
    ensures var (w, d) := CloneDirectory(v, dirs[k]); Load(w.mem, d, p) == Load(v.mem, dirs[k], p)
  {
    CloneKeepsSpaces(v, dirs, k);
    var (w, d) := CloneDirectory(v, dirs[k]);
    if SharedPage(p) {
      assert Shaped(w, (dirs + [d])[|dirs|]);
      SharedPageIsItself(w, d, p);
      SharedPageIsItself(v, dirs[k], p);
      FrameInUse(v, dirs[k], p);
    }
  }

  lemma CopyRepresents(m: Memory, dirs: seq<Frame>, k: nat, a: Ideal, m': Memory, d: Frame)
    requires k < |dirs| && Represents(m, dirs, a)
    requires forall l: nat, p: nat :: l < |dirs| && DataPage(p) ==>
      Load(m', dirs[l], p) == Load(m, dirs[l], p)
    requires forall p: nat :: DataPage(p) ==> Load(m', d, p) == Load(m, dirs[k], p)
    ensures Represents(m', dirs + [d], a.(views := a.views + [a.views[k]]))
  {
    var all, b := dirs + [d], a.(views := a.views + [a.views[k]]);
    forall l: nat, p: nat | l < |all| && DataPage(p)
      ensures Load(m', all[l], p) == PageOf(b, l, p)
    {
      var from := if l < |dirs| then l else k;
      assert PageOf(b, l, p) == PageOf(a, from, p) == Load(m, dirs[from], p);
    }
  }

  lemma CloneRefines(v: Vm, dirs: seq<Frame>, k: nat, a: Ideal)
    requires Spaces(v, dirs) && k < |dirs| <= MAX_FORKS && Represents(v.mem, dirs, a)
    ensures var (w, d) := CloneDirectory(v, dirs[k]);
            Represents(w.mem, dirs + [d], a.(views := a.views + [a.views[k]]))
  {
    var (w, d) := CloneDirectory(v, dirs[k]);
    forall l: nat, p: nat | l < |dirs| && DataPage(p)
      ensures Load(w.mem, dirs[l], p) == Load(v.mem, dirs[l], p)
    {
      OldPagesStay(v, dirs, k, l, p);
    }
    forall p: nat | DataPage(p)
      ensures Load(w.mem, d, p) == Load(v.mem, dirs[k], p)
    {
      NewPagesCopy(v, dirs, k, p);
    }
    CopyRepresents(v.mem, dirs, k, a, w.mem, d);
  }

  lemma FrameInUse(v: Vm, dir: Frame, p: nat)
    requires v.Valid() && Shaped(v, dir) && DataPage(p)
    ensures !v.Free(FrameOf(v.mem, dir, p))
  {
    if StackPage(p) {
      StackFrameInUse(v, dir, p);
    } else {
      SharedPageIsItself(v, dir, p);
    }
  }

  /** Where two accesses meet: the same stack page of the same task, or the same other page. */
  lemma FramesMeet(v: Vm, dirs: seq<Frame>, k: nat, p: nat, l: nat, q: nat)
    requires Spaces(v, dirs) && k < |dirs| && l < |dirs| && p < USER_SPACE_START && q < USER_SPACE_START
    ensures FrameOf(v.mem, dirs[k], p) == FrameOf(v.mem, dirs[l], q) <==> p == q && (StackPage(p) ==> k == l)
  {
    if StackPage(p) {
      StackFrameInUse(v, dirs[k], p);
    } else {
      SharedPageIsItself(v, dirs[k], p);
    }
    if StackPage(q) {
      StackFrameInUse(v, dirs[l], q);
    } else {
      SharedPageIsItself(v, dirs[l], q);
    }
  }

  /** A store is seen by an access that meets it and by no other. */
  lemma StoreSeen(v: Vm, dirs: seq<Frame>, k: nat, page: nat, i: Index, x: Word, l: nat, p: nat)
    requires Spaces(v, dirs) && k < |dirs| && l < |dirs| && page < USER_SPACE_START && p < USER_SPACE_START
    requires !FolderInUse(v.mem, dirs, FrameOf(v.mem, dirs[k], page))
    ensures var w := Store(v, dirs[k], page, i, x);
      var before := Load(v.mem, dirs[l], p);
      Load(w.mem, dirs[l], p) == if p == page && (StackPage(p) ==> k == l) then before[i := x] else before
  {
    StoreKeepsSpaces(v, dirs, k, page, i, x);
    FramesMeet(v, dirs, k, page, l, p);
  }

  lemma StoreRefines(v: Vm, dirs: seq<Frame>, a: Ideal, s: Machine, step: Step)
    requires Spaces(v, dirs) && s.current < |dirs| && Represents(v.mem, dirs, a)
    requires step.StoreWord? && step.page < USER_SPACE_START
    requires !FolderInUse(v.mem, dirs, FrameOf(v.mem, dirs[s.current], step.page))
    ensures Represents(Store(v, dirs[s.current], step.page, step.index, step.word).mem, dirs, IdealNext(a, s, step))
  {
    var w := Store(v, dirs[s.current], step.page, step.index, step.word);
    var b := IdealNext(a, s, step);
    forall l: nat, p: nat | l < |dirs| && DataPage(p)
      ensures Load(w.mem, dirs[l], p) == PageOf(b, l, p)
    {
      StoreSeen(v, dirs, s.current, step.page, step.index, step.word, l, p);
      assert Load(v.mem, dirs[l], p) == PageOf(a, l, p);
    }
  }

  lemma StepRefines(c: Code, s: Machine, step: Step, a: Ideal)
    requires c.Valid() && Inv(c, s) && Enabled(s, step) && Represents(s.vm.mem, AllDirectories(s), a)
    ensures var t := Next(c, s, step); Represents(t.vm.mem, AllDirectories(t), IdealNext(a, s, step))
  {
    if step.StoreWord? {
      StoreRefines(s.vm, AllDirectories(s), a, s, step);
    } else if step.KernelStep? && s.location == ForkParent {
      CloneRefines(s.vm, AllDirectories(s), s.current, a);
    } else {
      assert s.location != ForkParent;
      DirectoriesStay(c, s, step);
    }
  }

  lemma RunStepRefines(c: Code, states: seq<Machine>, steps: seq<Step>, i: nat, a: Ideal)
    requires c.Valid() && Run(c, states, steps) && i < |steps|
    requires Represents(states[i].vm.mem, AllDirectories(states[i]), a)
    ensures Represents(states[i + 1].vm.mem, AllDirectories(states[i + 1]), IdealNext(a, states[i], steps[i]))
  {
    EveryRunIsSafe(c, states, steps, i);
    assert IsStep(c, states[i], steps[i], states[i + 1]);
    StepRefines(c, states[i], steps[i], a);
  }

  lemma RunStartRefines(c: Code, states: seq<Machine>, steps: seq<Step>)
    requires Run(c, states, steps)
    ensures Represents(states[0].vm.mem, AllDirectories(states[0]), IdealAfter(states, steps, 0))
  {
    BootRefines(states[0].vm);
  }

  lemma {:induction false} EveryRunRefines(c: Code, states: seq<Machine>, steps: seq<Step>, i: nat)
    requires c.Valid() && Run(c, states, steps) && |states| == |steps| + 1 && i < |states|
    ensures Represents(states[i].vm.mem, AllDirectories(states[i]), IdealAfter(states, steps, i))
  {
    hide Run, Represents, AllDirectories, IdealNext;
    if i == 0 {
      RunStartRefines(c, states, steps);
    } else {
      EveryRunRefines(c, states, steps, i - 1);
      RunStepRefines(c, states, steps, i - 1, IdealAfter(states, steps, i - 1));
    }
  }

  lemma BootRefines(v: Vm)
    requires Pager.IdentityMapped(v, USER_SPACE_START, STACK_POINTER, STACK_SIZE)
    ensures Represents(v.mem, [PAGING_POOL_START], Ideal([v.mem[..7]], v.mem))
  {
  }

  /** In every state of every run each task reads, at each of its pages, what the ideal memory holds for it. */
  lemma TasksReadTheirOwnMemory(c: Code, states: seq<Machine>, steps: seq<Step>, i: nat, k: nat, page: nat)
    requires c.Valid() && Run(c, states, steps) && i < |states| && k < |states[i].tasks|
    requires DataPage(page)
    ensures var a := IdealAfter(states, steps, i);
      && k < |a.views|
      && Load(states[i].vm.mem, states[i].tasks[k].pageDirectory, page) == PageOf(a, k, page)
  {
    EveryRunRefines(c, states, steps, i);
    assert AllDirectories(states[i])[k] == states[i].tasks[k].pageDirectory;
  }
}
