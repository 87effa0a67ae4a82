/** Every step of the kernel keeps the invariant, so every run does. */
module KernelSafety {
  import opened PhysicalMemory
  import opened Cloning
  import opened AddressSpaces
  import opened Kernel

  lemma {:induction false} NestedGrows(k: nat, stack: seq<Activation>, l: Location, n: nat, n': nat)
    requires Nested(k, stack, l, n) && n <= n'
    ensures Nested(k, stack, l, n')
    decreases |stack|
  {
    if l.SwitchSite? {
      NestedGrows(k, Pop(stack), Top(stack).interrupted, n, n');
    }
  }

  // ---------- tasks, contexts and the queue ----------

  lemma TimerKeepsTasks(c: Code, s: Machine)
    requires c.Valid() && TaskInv(c, s) && s.interrupts && s.Started()
    ensures TaskInv(c, Timer(c, s))
  {
    var t := Timer(c, s);
    var k := s.current;
    var stack := s.stacks[k] + [Handler(s.location)];
    assert Pop(stack) == s.stacks[k];
    var next := t.current;
    if next == k {
      assert t.stacks[k] == stack;
    } else {
      assert Saved(c, s, next);
      assert t.stacks[next] == s.stacks[next];
    }
    assert Nested(next, t.stacks[next], t.location, |t.tasks|);
    forall l: nat | l < |t.tasks| && l != next
      ensures Saved(c, t, l)
    {
      assert l != k ==> Saved(c, s, l);
    }
  }

  /** Steps that leave every other task's node and stack alone. */
  lemma OthersStaySaved(c: Code, s: Machine, t: Machine)
    requires s.Sane() && t.Sane() && s.Started() && Control(c, s) && !ChildLinked(c, s.location)
    requires t.current == s.current && |t.tasks| == |s.tasks| && t.dispatches == s.dispatches
    requires forall k: nat :: k < |s.tasks| && k != s.current ==> t.tasks[k] == s.tasks[k] && t.stacks[k] == s.stacks[k]
    ensures forall k: nat :: k < |t.tasks| && k != t.current ==> Saved(c, t, k)
  {
    forall k: nat | k < |t.tasks| && k != t.current
      ensures Saved(c, t, k)
    {
      assert Saved(c, s, k);
    }
  }

  lemma UserStepKeepsTasks(c: Code, s: Machine, step: Step)
    requires TaskInv(c, s) && Enabled(s, step) && (step.StoreWord? || step.CallFork?)
    ensures TaskInv(c, Next(c, s, step))
  {
    OthersStaySaved(c, s, Next(c, s, step));
  }

  /** Back from switch_task to where the interrupt struck. */
  lemma ReturnKeepsTasks(c: Code, s: Machine)
    requires c.Valid() && TaskInv(c, s) && s.location.SwitchSite?
    ensures TaskInv(c, Continue(c, s))
  {
    OthersStaySaved(c, s, Continue(c, s));
    var stack := s.stacks[s.current];
    assert Nested(s.current, Pop(stack), Top(stack).interrupted, |s.tasks|);
  }

  /** The first half of fork, up to the clone. */
  lemma BeginForkKeepsTasks(c: Code, s: Machine)
    requires c.Valid() && TaskInv(c, s) && s.location in {ForkCli, ForkParent}
    ensures TaskInv(c, Continue(c, s))
  {
    OthersStaySaved(c, s, Continue(c, s));
  }

  lemma NodeKeepsTasks(c: Code, s: Machine)
    requires c.Valid() && TaskInv(c, s) && s.location.ForkCloned?
    ensures TaskInv(c, Continue(c, s))
  {
    OthersStaySaved(c, s, Continue(c, s));
  }

  /** The steps in which fork returns, to the parent or to the child, and the `sti` before. */
  lemma EndForkKeepsTasks(c: Code, s: Machine)
    requires c.Valid() && TaskInv(c, s)
    requires s.location in {ForkReady, ForkDone, ForkSite(SENTINEL)}
    ensures TaskInv(c, Continue(c, s))
  {
    OthersStaySaved(c, s, Continue(c, s));
  }

  /** The steps of initialise_tasking. */
  lemma InitKeepsTasks(c: Code, s: Machine)
    requires c.Valid() && TaskInv(c, s) && s.location in {Booting, InitCli, InitNode}
    ensures TaskInv(c, Continue(c, s))
  {
    if s.location == InitNode {
      OthersStaySaved(c, s, Continue(c, s));
    }
  }

  /** The kernel steps that move only the running task's own control. */
  lemma OwnStepKeepsTasks(c: Code, s: Machine)
    requires c.Valid() && TaskInv(c, s)
    requires !ChildLinked(c, s.location) && s.location != Running && !s.location.ForkNode?
    ensures TaskInv(c, Continue(c, s))
  {
    if s.location.SwitchSite? {
      ReturnKeepsTasks(c, s);
    } else if s.location in {Booting, InitCli, InitNode} {
      InitKeepsTasks(c, s);
    } else if s.location in {ForkCli, ForkParent} {
      BeginForkKeepsTasks(c, s);
    } else if s.location.ForkCloned? {
      NodeKeepsTasks(c, s);
    } else {
      EndForkKeepsTasks(c, s);
    }
  }

  lemma LinkKeepsTasks(c: Code, s: Machine)
    requires c.Valid() && TaskInv(c, s) && s.location.ForkNode?
    ensures TaskInv(c, Continue(c, s))
  {
    var t := Continue(c, s);
    var n := |s.tasks|;
    forall k: nat | k < n && k != s.current
      ensures Saved(c, t, k)
    {
      assert Saved(c, s, k);
      NestedGrows(k, s.stacks[k], Resume(c, s.tasks[k].eip, s.tasks[k].esp, s.tasks[k].ebp), n, n + 1);
    }
    assert HalfMade(t, n);
  }

  /** Steps that leave every node but the half-made child's, and all stacks, alone. */
  lemma OlderStaySaved(c: Code, s: Machine, t: Machine)
    requires s.Sane() && t.Sane() && s.Started() && Control(c, s) && ChildLinked(c, s.location)
    requires t.current == s.current < |s.tasks| - 1 && |t.tasks| == |s.tasks|
    requires t.dispatches == s.dispatches && t.stacks == s.stacks
    requires forall k: nat :: k < |s.tasks| - 1 ==> t.tasks[k] == s.tasks[k]
    ensures HalfMade(s, |s.tasks| - 1)
    ensures forall k: nat :: k < |t.tasks| - 1 && k != t.current ==> Saved(c, t, k)
  {
    forall k: nat | k < |t.tasks| - 1 && k != t.current
      ensures Saved(c, t, k)
    {
      assert Saved(c, s, k);
    }
  }

  lemma SiteReturns(c: Code, s: Machine)
    requires c.Valid() && TaskInv(c, s) && s.location == ForkLinked
    ensures TaskInv(c, Continue(c, s))
  {
    OlderStaySaved(c, s, Continue(c, s));
  }

  lemma StackFilled(c: Code, s: Machine)
    requires c.Valid() && TaskInv(c, s) && s.location == ForkSite(c.forkSite)
    ensures TaskInv(c, Continue(c, s))
  {
    OlderStaySaved(c, s, Continue(c, s));
  }

  lemma EipFilled(c: Code, s: Machine)
    requires c.Valid() && TaskInv(c, s) && s.location == ForkStacked(c.forkSite)
    ensures TaskInv(c, Continue(c, s))
  {
    OlderStaySaved(c, s, Continue(c, s));
    assert Saved(c, Continue(c, s), |s.tasks| - 1);
  }

  lemma FillContextKeepsTasks(c: Code, s: Machine)
    requires c.Valid() && TaskInv(c, s) && ChildLinked(c, s.location)
    ensures TaskInv(c, Continue(c, s))
  {
    if s.location == ForkLinked {
      SiteReturns(c, s);
    } else if s.location.ForkSite? {
      StackFilled(c, s);
    } else {
      EipFilled(c, s);
    }
  }

  // ---------- address spaces ----------

  /** All steps but `clone_directory` and stores leave memory and the set of directories alone. */
  lemma DirectoriesStay(c: Code, s: Machine, step: Step)
    requires c.Valid() && TaskInv(c, s) && Enabled(s, step) && !step.StoreWord? && s.location != ForkParent
    ensures Next(c, s, step).vm == s.vm
    ensures AllDirectories(Next(c, s, step)) == AllDirectories(s)
    ensures !step.CallFork? ==> Next(c, s, step).location in {ForkCli, ForkParent} ==>
      s.location in {ForkCli, ForkParent} && |Next(c, s, step).tasks| == |s.tasks|
  {
    if step.KernelStep? {
      ContinueDirectories(c, s);
    } else if step.TimerTick? {
      TimerDirectories(c, s);
    }
  }

  lemma TimerDirectories(c: Code, s: Machine)
    requires c.Valid() && TaskInv(c, s) && s.interrupts
    ensures Timer(c, s).vm == s.vm && AllDirectories(Timer(c, s)) == AllDirectories(s)
    ensures Timer(c, s).location !in {ForkCli, ForkParent}
  {
    if s.Started() {
      assert Directories(Timer(c, s).tasks) == Directories(s.tasks);
    }
  }

  lemma ReturnDirectories(c: Code, s: Machine)
    requires c.Valid() && TaskInv(c, s) && s.location.SwitchSite?
    ensures Continue(c, s).vm == s.vm && AllDirectories(Continue(c, s)) == AllDirectories(s)
    ensures Continue(c, s).location !in {ForkCli, ForkParent}
  {
    var stack := s.stacks[s.current];
    assert Nested(s.current, Pop(stack), Top(stack).interrupted, |s.tasks|);
  }

  lemma ContinueDirectories(c: Code, s: Machine)
    requires c.Valid() && TaskInv(c, s) && s.location != Running && s.location != ForkParent
    ensures Continue(c, s).vm == s.vm && AllDirectories(Continue(c, s)) == AllDirectories(s)
    ensures Continue(c, s).location in {ForkCli, ForkParent} ==>
      s.location in {ForkCli, ForkParent} && |Continue(c, s).tasks| == |s.tasks|
  {
    if s.location.SwitchSite? {
      ReturnDirectories(c, s);
    } else if |Continue(c, s).tasks| == |s.tasks| {
      assert Directories(Continue(c, s).tasks) == Directories(s.tasks);
    }
  }

  lemma StepKeepsSpaces(c: Code, s: Machine, step: Step)
    requires c.Valid() && Inv(c, s) && Enabled(s, step)
    ensures SpaceInv(Next(c, s, step))
  {
    if step.StoreWord? {
      StoreKeepsSpaces(s.vm, AllDirectories(s), s.current, step.page, step.index, step.word);
    } else if step.KernelStep? && s.location == ForkParent {
      CloneKeepsSpaces(s.vm, AllDirectories(s), s.current);
    } else {
      if step.CallFork? {
        EnoughBelowTheLimit(s.vm, AllDirectories(s), s.current);
      }
      assert s.location != ForkParent;
      DirectoriesStay(c, s, step);
    }
  }

  lemma StepKeeps(c: Code, s: Machine, step: Step)
    requires c.Valid() && Inv(c, s) && Enabled(s, step)
    ensures Inv(c, Next(c, s, step))
  {
    StepKeepsSpaces(c, s, step);
    if step.TimerTick? {
      if s.Started() { TimerKeepsTasks(c, s); }
    } else if !step.KernelStep? {
      UserStepKeepsTasks(c, s, step);
    } else if s.location.ForkNode? {
      LinkKeepsTasks(c, s);
    } else if ChildLinked(c, s.location) {
      FillContextKeepsTasks(c, s);
    } else {
      OwnStepKeepsTasks(c, s);
    }
  }

  // ---------- runs ----------

  /** `states` is what the machine goes through when it takes `steps` from boot. */
  ghost predicate Run(c: Code, states: seq<Machine>, steps: seq<Step>) {
    && |states| == |steps| + 1
    && Boot(states[0])
    && forall i: nat :: i < |steps| ==> IsStep(c, states[i], steps[i], states[i + 1])
  }

  ghost predicate IsStep(c: Code, s: Machine, step: Step, t: Machine) {
    s.Sane() && Enabled(s, step) && t == Next(c, s, step)
  }

  lemma BootInv(c: Code, s: Machine)
    requires Boot(s)
    ensures Inv(c, s)
  {
    BootSpaces(s.vm);
  }

  /** In every state of every run, whatever the interleaving of forks, stores and timer interrupts. */
  lemma {:induction false} EveryRunIsSafe(c: Code, states: seq<Machine>, steps: seq<Step>, i: nat)
    requires c.Valid() && Run(c, states, steps) && i < |states|
    ensures Inv(c, states[i])
  {
    if i == 0 {
      BootInv(c, states[0]);
    } else {
      EveryRunIsSafe(c, states, steps, i - 1);
      assert IsStep(c, states[i - 1], steps[i - 1], states[i]);
      StepKeeps(c, states[i - 1], steps[i - 1]);
    }
  }
}
