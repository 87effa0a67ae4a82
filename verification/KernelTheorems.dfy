/** What the invariant means: ownership of frames, complete contexts, the resume protocol, and accounting. */
module KernelTheorems {
  import opened PhysicalMemory
  import opened Cloning
  import opened AddressSpaces
  import opened Kernel
  import opened KernelSafety

  /** Isolation of directories `dk` of task k and `dl` of task l, looked at in two places (i, j) and (i', j'):
      no private frame is mapped by two tasks or at two places; a pool frame that is mapped is marked used;
      what is not private maps to itself in every task; all map pages 0 to 0xfff and nothing else, and the
      private ones are exactly the stack's. */
  ghost predicate Isolated(v: Vm, dk: Frame, dl: Frame, sameTask: bool, i: Index, j: Index, i': Index, j': Index) {
    var m := v.mem;
    var page := 1024 * i + j;
    && (PrivateAt(m, dk, i, j) && PrivateAt(m, dl, i', j') && !(sameTask && (i, j) == (i', j')) ==>
         Leaf(m, dk, i, j).frame != Leaf(m, dl, i', j').frame)
    && m[dk][i].present == m[dl][i].present == (i < 4)
    && (i < 4 ==>
         var p := Leaf(m, dk, i, j);
         && p.present
         && (PrivateAt(m, dk, i, j) <==> StackPage(page))
         && (USER_SPACE_START <= p.frame < USER_SPACE_END ==> p.frame in v.frames)
         && (!StackPage(page) ==> p.frame == Leaf(m, dl, i, j).frame == page))
  }

  lemma FramesAreOwned(c: Code, states: seq<Machine>, steps: seq<Step>, t: nat, k: nat, l: nat, i: Index, j: Index,
                       i': Index, j': Index)
    requires c.Valid() && Run(c, states, steps) && t < |states| && k < |states[t].tasks| && l < |states[t].tasks|
    ensures var s := states[t];
      Isolated(s.vm, s.tasks[k].pageDirectory, s.tasks[l].pageDirectory, k == l, i, j, i', j')
  {
    EveryRunIsSafe(c, states, steps, t);
    var s := states[t];
    var dirs := AllDirectories(s);
    assert dirs[k] == s.tasks[k].pageDirectory && dirs[l] == s.tasks[l].pageDirectory;
    SpacesAreIsolated(s.vm, dirs, k, l, i, j, i', j');
  }

  lemma PrivateIsStack(v: Vm, dir: Frame, i: Index, j: Index)
    requires Shaped(v, dir)
    ensures PrivateAt(v.mem, dir, i, j) <==> i == 0 && StackPage(j)
    ensures i == 0 ==> FrameOf(v.mem, dir, j) == Leaf(v.mem, dir, 0, j).frame
  {
    if i < 4 {
      assert PageShaped(v, dir, i, j);
    }
  }

  lemma SpacesAreIsolated(v: Vm, dirs: seq<Frame>, k: nat, l: nat, i: Index, j: Index, i': Index, j': Index)
    requires Spaces(v, dirs) && k < |dirs| && l < |dirs|
    ensures Isolated(v, dirs[k], dirs[l], k == l, i, j, i', j')
  {
    PrivateIsStack(v, dirs[k], i, j);
    PrivateIsStack(v, dirs[l], i', j');
    if i < 4 {
      assert PageShaped(v, dirs[k], i, j) && PageShaped(v, dirs[l], i, j);
    }
  }

  /** The cost of forking, exactly: after n-1 forks the pools have lent 5 + 2(n-1) folders and 5(n-1) frames,
      and a fork is possible exactly while there have been fewer than MAX_FORKS. */
  lemma ForksAreAccountedFor(c: Code, states: seq<Machine>, steps: seq<Step>, t: nat)
    requires c.Valid() && Run(c, states, steps) && t < |states| && states[t].location == Running
    ensures var s := states[t]; var forks := |s.tasks| - 1;
      && |s.vm.folders| == 5 + 2 * forks && |s.vm.frames| == 5 * forks
      && s.nextPid == forks + 1
      && (EnoughFor(s.vm, s.currentDirectory) <==> forks < MAX_FORKS)
  {
    EveryRunIsSafe(c, states, steps, t);
    EnoughBelowTheLimit(states[t].vm, AllDirectories(states[t]), states[t].current);
  }

  lemma ContextComplete(c: Code, s: Machine, k: nat)
    requires c.Valid() && TaskInv(c, s) && s.interrupts && k < |s.tasks| && k != s.current
    ensures var task := s.tasks[k];
      && task.eip == (if s.dispatches[k] == 0 then c.forkSite else c.switchSite)
      && task.esp == task.ebp + 1 == |s.stacks[k]|
  {
    assert Saved(c, s, k);
  }

  /** While interrupts are on, every other task can be resumed, and the memory manager looks at the current
      task's directory; the k-th task of the queue has pid k. */
  lemma ContextsAreComplete(c: Code, states: seq<Machine>, steps: seq<Step>, t: nat, k: nat)
    requires c.Valid() && Run(c, states, steps) && t < |states| && k < |states[t].tasks|
    ensures states[t].Sane()
    ensures var s := states[t]; var task := s.tasks[k];
      && task.id == k && s.currentDirectory == s.tasks[s.current].pageDirectory
      && task.eip != SENTINEL && !s.location.Wild?
      && (s.interrupts && k != s.current ==>
           && task.eip == (if s.dispatches[k] == 0 then c.forkSite else c.switchSite)
           && task.esp == task.ebp + 1 == |s.stacks[k]|)
  {
    EveryRunIsSafe(c, states, steps, t);
    if states[t].interrupts && k != states[t].current {
      ContextComplete(c, states[t], k);
    }
  }

  /** Where a timer interrupt leads. */
  lemma DispatchLocation(c: Code, s: Machine)
    requires c.Valid() && TaskInv(c, s) && s.interrupts && s.Started()
    ensures var u := Timer(c, s); var k := u.current;
      u.location == if s.dispatches[k] == 0 then ForkSite(SENTINEL) else SwitchSite(SENTINEL)
  {
    var k := Timer(c, s).current;
    if k != s.current {
      ContextComplete(c, s, k);
    }
  }

  /** What a task does first when it is resumed. */
  lemma ResumedStep(c: Code, u: Machine)
    requires c.Valid() && TaskInv(c, u) && u.Started() && u.location in {ForkSite(SENTINEL), SwitchSite(SENTINEL)}
    ensures var k := u.current; var t := Continue(c, u);
      if u.location.ForkSite? then t.log == u.log + [Return(k, 0)] && t.location == Running
      else t.log == u.log && Handler(t.location) == Top(u.stacks[k])
  {
    assert Nested(u.current, u.stacks[u.current], u.location, |u.tasks|);
  }

  /** When the timer strikes, a task is entered in `fork` exactly on its first dispatch, with its own child
      side ahead of it; on every other dispatch it re-enters switch_task and leaves at the sentinel test,
      back to where it was interrupted. */
  lemma DispatchResumes(c: Code, states: seq<Machine>, steps: seq<Step>, t: nat)
    requires c.Valid() && Run(c, states, steps) && t < |states| && states[t].interrupts && states[t].Started()
    ensures states[t].Sane() && Timer(c, states[t]).Sane()
    ensures var s := states[t];
      var u := Timer(c, s);
      var k := u.current;
      && k == NextInQueue(s.current, |s.tasks|)
      && u.location == (if s.dispatches[k] == 0 then ForkSite(SENTINEL) else SwitchSite(SENTINEL))
      && (if u.location.ForkSite? then
            Continue(c, u).log == s.log + [Return(k, 0)] && Continue(c, u).location == Running
          else
            Continue(c, u).log == s.log && Handler(Continue(c, u).location) == Top(u.stacks[k]))
  {
    EveryRunIsSafe(c, states, steps, t);
    TimerKeepsTasks(c, states[t]);
    DispatchLocation(c, states[t]);
    ResumedStep(c, Timer(c, states[t]));
  }

  /** A timer interrupt does to the queue what Scheduler.SwitchTask does when it is called with the return address
      of its own get_instruction_pointer, and goes on where that jumps to. */
  lemma TimerSwitches(c: Code, s: Machine)
    requires c.Valid() && s.Sane() && s.Started()
    ensures var t := Timer(c, s); var k := s.current; var depth := |s.stacks[k]| + 1;
      && t.tasks == s.tasks[k := Task(s.tasks[k].id, depth, depth - 1, c.switchSite, s.tasks[k].pageDirectory)]
      && t.current == NextInQueue(k, |s.tasks|)
      && var next := t.tasks[t.current];
         && t.currentDirectory == next.pageDirectory
         && t.location == Resume(c, next.eip, next.esp, next.ebp) && t.vm == s.vm && t.nextPid == s.nextPid
  {
  }

  // ---------- the critical section of fork, from cli to sti ----------

  function Steps(c: Code, s: Machine, n: nat): Machine
    decreases n
  {
    if n == 0 || !s.Sane() then s else Steps(c, Continue(c, s), n - 1)
  }

  /** The three steps of initialise_tasking make one task, as Scheduler.InitialiseTasking does. */
  lemma InitSection(c: Code, s: Machine)
    requires s.Sane() && s.location == Booting && !s.Started()
    ensures var t := Steps(c, s, 3);
      && t.location == Running && t.interrupts && t.current == 0 && t.vm == s.vm && t.nextPid == s.nextPid + 1
      && t.tasks == [Task(s.nextPid, 0, 0, 0, s.currentDirectory)] && t.currentDirectory == s.currentDirectory
  {
    var s1 := Continue(c, s);
    var s2 := Continue(c, s1);
    assert Steps(c, s2, 1) == Continue(c, s2);
    StepsCompose(c, s, 2, 1);
    TwoSteps(c, s);
  }

  /** From `cli` to the return of clone_directory. */
  lemma ForkClones(c: Code, s: Machine)
    requires c.Valid() && TaskInv(c, s) && s.Started() && s.location == ForkCli
    ensures var (vm, directory) := CloneDirectory(s.vm, s.currentDirectory);
      var t := Steps(c, s, 2);
      && TaskInv(c, t) && t.Started() && t.location.ForkCloned? && t.location.directory == directory
      && t.vm == vm && t.nextPid == s.nextPid && t.tasks == s.tasks
  {
    OwnStepKeepsTasks(c, s);
    OwnStepKeepsTasks(c, Continue(c, s));
    TwoSteps(c, s);
  }

  /** From there until the child is linked. */
  lemma ForkAppends(c: Code, s: Machine)
    requires c.Valid() && TaskInv(c, s) && s.Started() && s.location.ForkCloned?
    ensures var t := Steps(c, s, 2);
      && TaskInv(c, t) && t.Started() && t.location == ForkLinked && t.vm == s.vm && t.nextPid == s.nextPid + 1
      && t.tasks == s.tasks + [Task(s.nextPid, 0, 0, 0, s.location.directory)]
  {
    OwnStepKeepsTasks(c, s);
    LinkKeepsTasks(c, Continue(c, s));
    TwoSteps(c, s);
  }

  lemma StackStored(c: Code, s: Machine)
    requires c.Valid() && TaskInv(c, s) && s.location == ForkSite(c.forkSite)
    ensures var t := Continue(c, s); var n := |s.tasks| - 1;
      && TaskInv(c, t) && t.Started() && t.location == ForkStacked(c.forkSite) && t.vm == s.vm && t.nextPid == s.nextPid
      && t.tasks == s.tasks[n := s.tasks[n].(esp := 1, ebp := 0)]
  {
    FillContextKeepsTasks(c, s);
  }

  /** The child's stack pointers are stored. */
  lemma ForkStacks(c: Code, s: Machine)
    requires c.Valid() && TaskInv(c, s) && s.Started() && s.location == ForkLinked
    ensures var t := Steps(c, s, 2); var n := |s.tasks| - 1;
      && TaskInv(c, t) && t.Started() && t.location == ForkStacked(c.forkSite) && t.vm == s.vm && t.nextPid == s.nextPid
      && t.tasks == s.tasks[n := s.tasks[n].(esp := 1, ebp := 0)]
  {
    FillContextKeepsTasks(c, s);
    StackStored(c, Continue(c, s));
    TwoSteps(c, s);
  }

  lemma EipStored(c: Code, s: Machine)
    requires c.Valid() && TaskInv(c, s) && s.location == ForkStacked(c.forkSite)
    ensures var t := Continue(c, s); var n := |s.tasks| - 1;
      && t.Sane() && t.location == ForkReady && t.vm == s.vm && t.nextPid == s.nextPid
      && t.tasks == s.tasks[n := s.tasks[n].(eip := c.forkSite)]
  {
  }

  /** Then its eip, and `sti`. */
  lemma ForkReadies(c: Code, s: Machine)
    requires c.Valid() && TaskInv(c, s) && s.Started() && s.location == ForkStacked(c.forkSite)
    ensures var t := Steps(c, s, 2); var n := |s.tasks| - 1;
      && t.location == ForkDone && t.interrupts && t.vm == s.vm && t.nextPid == s.nextPid
      && t.tasks == s.tasks[n := s.tasks[n].(eip := c.forkSite)]
  {
    EipStored(c, s);
    TwoSteps(c, s);
  }

  lemma TwoSteps(c: Code, s: Machine)
    requires s.Sane() && Continue(c, s).Sane()
    ensures Steps(c, s, 2) == Continue(c, Continue(c, s))
  {
  }

  lemma {:induction false} StepsCompose(c: Code, s: Machine, m: nat, n: nat)
    ensures Steps(c, Steps(c, s, m), n) == Steps(c, s, m + n)
    decreases m
  {
    if m > 0 && s.Sane() {
      StepsCompose(c, Continue(c, s), m - 1, n);
    }
  }

  lemma ForkLinks(c: Code, s: Machine)
    requires c.Valid() && TaskInv(c, s) && s.Started() && s.location == ForkCli
    ensures var (vm, directory) := CloneDirectory(s.vm, s.currentDirectory);
      var t := Steps(c, s, 4);
      && TaskInv(c, t) && t.Started() && t.location == ForkLinked && t.vm == vm && t.nextPid == s.nextPid + 1
      && t.tasks == s.tasks + [Task(s.nextPid, 0, 0, 0, directory)]
  {
    ForkClones(c, s);
    ForkAppends(c, Steps(c, s, 2));
    StepsCompose(c, s, 2, 2);
  }

  lemma ForkFills(c: Code, s: Machine)
    requires c.Valid() && TaskInv(c, s) && s.Started() && s.location == ForkLinked
    ensures var t := Steps(c, s, 4); var n := |s.tasks| - 1;
      && t.location == ForkDone && t.interrupts && t.vm == s.vm && t.nextPid == s.nextPid
      && t.tasks == s.tasks[n := s.tasks[n].(esp := 1, ebp := 0, eip := c.forkSite)]
  {
    ForkStacks(c, s);
    ForkReadies(c, Steps(c, s, 2));
    StepsCompose(c, s, 2, 2);
  }

  lemma LastReplaced(tasks: seq<Task>, a: Task, b: Task)
    ensures (tasks + [a])[|tasks| := b] == tasks + [b]
  {
  }

  /** Taken together, the eight steps from `cli` to `sti` do to memory and queue what Scheduler.Fork does. */
  lemma ForkSection(c: Code, s: Machine)
    requires c.Valid() && TaskInv(c, s) && s.Started() && s.location == ForkCli
    ensures var (vm, directory) := CloneDirectory(s.vm, s.currentDirectory);
      var t := Steps(c, s, 8);
      && t.location == ForkDone && t.interrupts && t.vm == vm && t.nextPid == s.nextPid + 1
      && t.tasks == s.tasks + [Task(s.nextPid, 1, 0, c.forkSite, directory)]
  {
    ForkLinks(c, s);
    var m := Steps(c, s, 4);
    ForkFills(c, m);
    StepsCompose(c, s, 4, 4);
    LastReplaced(s.tasks, m.tasks[|s.tasks|], m.tasks[|s.tasks|].(esp := 1, ebp := 0, eip := c.forkSite));
  }
}
