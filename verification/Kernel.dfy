/** task.c as a transition system. `fork` is split at every point where an interrupt could matter; a timer
    interrupt can strike whenever the interrupt flag is set, and the whole of `switch_task` runs inside its
    handler, which enters with the flag cleared and leaves through `sti; jmp`. */
module Kernel {
  import opened PhysicalMemory
  import opened Cloning
  import opened AddressSpaces

  const SENTINEL := 0xDEADBABA

  /** Code addresses that get_instruction_pointer returns: the call sites in `fork` and `switch_task`. */
  datatype Code = Code(forkSite: nat, switchSite: nat)
  {
    ghost predicate Valid() {
      && forkSite != switchSite
      && forkSite != 0 && switchSite != 0 && forkSite != SENTINEL && switchSite != SENTINEL
    }
  }

  /** task_struct. `esp` is the depth of a task's stack of activations, `ebp` the place of the topmost one, through
      which the code there finds its locals. */
  datatype Task = Task(id: nat, esp: nat, ebp: nat, eip: nat, pageDirectory: Frame)

  /** What a task's stack pages hold that matters here: the locals of `fork`, and interrupt frames. */
  datatype Activation = ForkFrame(parent: nat, child: nat) | Handler(interrupted: Location)

  datatype Location =
    | Booting                                             // before initialise_tasking
    | InitCli                                             // inside it, interrupts off
    | InitNode
    | Running                                             // a task's own code
    | ForkCli                                             // task.c:42 done
    | ForkParent                                          // :45 done
    | ForkCloned(directory: Frame, copy: seq<Activation>) // :48 done; the child's stack pages hold `copy`
    | ForkNode(node: Task, copy: seq<Activation>)         // :51-56 done
    | ForkLinked                                          // :60-63 done
    | ForkSite(eax: nat)                                  // get_instruction_pointer has returned eax, :66
    | ForkStacked(eip: nat)                               // :71-72 done
    | ForkReady                                           // :73 done
    | ForkDone                                            // :75 done, about to return the child's id
    | SwitchSite(eax: nat)                                // get_instruction_pointer has returned eax, :100
    | Wild(eip: nat)                                      // a jump anywhere else

  datatype Return = Return(task: nat, value: nat)

  /** `log`, `parents` and `dispatches` record history: what `fork` returned where, who forked whom, and how
      often each task has been given the processor. */
  datatype Machine = Machine(vm: Vm, tasks: seq<Task>, current: nat, currentDirectory: Frame, nextPid: nat,
                             interrupts: bool, location: Location, stacks: seq<seq<Activation>>,
                             log: seq<Return>, parents: seq<nat>, dispatches: seq<nat>)
  {
    predicate Sane() {
      && |stacks| == |parents| == |dispatches| == |tasks|
      && (tasks != [] ==> current < |tasks|)
    }

    predicate Started() {
      tasks != []
    }
  }

  /** `jmp *ecx` with the dummy value in eax. The code that goes on there finds its locals through ebp; if that is
      not the topmost activation, control is lost. */
  function Resume(c: Code, eip: nat, esp: nat, ebp: nat): Location {
    if ebp + 1 != esp then Wild(eip)
    else if eip == c.forkSite then ForkSite(SENTINEL)
    else if eip == c.switchSite then SwitchSite(SENTINEL)
    else Wild(eip)
  }

  function NextInQueue(current: nat, n: nat): nat {
    if current + 1 < n then current + 1 else 0
  }

  function Restored(stack: seq<Activation>, esp: nat): seq<Activation> {
    if esp <= |stack| then stack[..esp] else stack
  }

  /** The timer handler with switch_task inside it. */
  function Timer(c: Code, s: Machine): Machine
    requires s.Sane()
  {
    if !s.Started() then s else
      var k := s.current;
      var stack := s.stacks[k] + [Handler(s.location)];
      var tasks := s.tasks[k := s.tasks[k].(eip := c.switchSite, esp := |stack|, ebp := |stack| - 1)];
      var next := NextInQueue(k, |tasks|);
      var stacks := s.stacks[k := stack];
      Machine(s.vm, tasks, next, tasks[next].pageDirectory, s.nextPid, true,
              Resume(c, tasks[next].eip, tasks[next].esp, tasks[next].ebp),
              stacks[next := Restored(stacks[next], tasks[next].esp)], s.log, s.parents,
              s.dispatches[next := s.dispatches[next] + 1])
  }

  function Top(stack: seq<Activation>): Activation {
    if stack == [] then Handler(Wild(0)) else stack[|stack| - 1]
  }

  function Pop(stack: seq<Activation>): seq<Activation> {
    if stack == [] then [] else stack[..|stack| - 1]
  }

  predicate InForkFrame(s: Machine)
    requires s.Sane()
  {
    s.Started() && Top(s.stacks[s.current]).ForkFrame? && Top(s.stacks[s.current]).child < |s.tasks|
  }

  /** The next instruction of the kernel, when the processor is in kernel code. */
  function Continue(c: Code, s: Machine): Machine
    requires s.Sane()
  {
    match s.location
    case Booting => s.(interrupts := false, location := InitCli)
    case InitCli =>
      s.(tasks := [Task(s.nextPid, 0, 0, 0, s.currentDirectory)], nextPid := s.nextPid + 1, current := 0,
         stacks := [[]], parents := [0], dispatches := [1], location := InitNode)
    case InitNode => s.(interrupts := true, location := Running)
    case ForkCli =>
      if !s.Started() then s else
      s.(stacks := s.stacks[s.current := s.stacks[s.current] + [ForkFrame(s.current, 0)]], location := ForkParent)
    case ForkParent =>
      if !s.Started() then s else
      var (vm, directory) := CloneDirectory(s.vm, s.currentDirectory);
      s.(vm := vm, location := ForkCloned(directory, s.stacks[s.current]))
    case ForkCloned(directory, copy) =>
      if !s.Started() || !Top(s.stacks[s.current]).ForkFrame? then s else
      var stack := s.stacks[s.current];
      s.(stacks := s.stacks[s.current := Pop(stack) + [Top(stack).(child := |s.tasks|)]],
         nextPid := s.nextPid + 1, location := ForkNode(Task(s.nextPid, 0, 0, 0, directory), copy))
    case ForkNode(node, copy) =>
      s.(tasks := s.tasks + [node], stacks := s.stacks + [copy], parents := s.parents + [s.current],
         dispatches := s.dispatches + [0], location := ForkLinked)
    case ForkLinked => s.(location := ForkSite(c.forkSite))
    case ForkSite(eax) =>
      if !InForkFrame(s) then s else
      var frame := Top(s.stacks[s.current]);
      if s.current == frame.parent then
        var depth := |s.stacks[s.current]|;
        s.(tasks := s.tasks[frame.child := s.tasks[frame.child].(esp := depth, ebp := depth - 1)],
           location := ForkStacked(eax))
      else
        s.(log := s.log + [Return(s.current, 0)], stacks := s.stacks[s.current := Pop(s.stacks[s.current])],
           location := Running)
    case ForkStacked(eip) =>
      if !InForkFrame(s) then s else
      var child := Top(s.stacks[s.current]).child;
      s.(tasks := s.tasks[child := s.tasks[child].(eip := eip)], location := ForkReady)
    case ForkReady => s.(interrupts := true, location := ForkDone)
    case ForkDone =>
      if !InForkFrame(s) then s else
      var child := Top(s.stacks[s.current]).child;
      s.(log := s.log + [Return(s.current, s.tasks[child].id)],
         stacks := s.stacks[s.current := Pop(s.stacks[s.current])], location := Running)
    case SwitchSite(eax) =>
      // the test at line 103 succeeds: return from switch_task and from the interrupt
      if !s.Started() || eax != SENTINEL || !Top(s.stacks[s.current]).Handler? then s else
      s.(stacks := s.stacks[s.current := Pop(s.stacks[s.current])], interrupts := true,
         location := Top(s.stacks[s.current]).interrupted)
    case _ => s
  }

  datatype Step = TimerTick | CallFork | StoreWord(page: nat, index: Index, word: Word) | KernelStep

  /** Tasks write anywhere in the kernel half except in folders that are in use. */
  ghost predicate Writable(s: Machine, page: nat)
    requires page < USER_SPACE_START
  {
    !FolderInUse(s.vm.mem, AllDirectories(s), FrameOf(s.vm.mem, s.currentDirectory, page))
  }

  ghost predicate Enabled(s: Machine, step: Step) {
    match step
    case TimerTick => s.interrupts
    case CallFork => s.location == Running && EnoughFor(s.vm, s.currentDirectory)
    case StoreWord(page, _, _) => s.location == Running && page < USER_SPACE_START && Writable(s, page)
    case KernelStep => s.location != Running
  }

  ghost function Next(c: Code, s: Machine, step: Step): Machine
    requires s.Sane() && Enabled(s, step)
  {
    match step
    case TimerTick => Timer(c, s)
    case CallFork => s.(interrupts := false, location := ForkCli)
    case StoreWord(page, index, word) => s.(vm := Store(s.vm, s.currentDirectory, page, index, word))
    case KernelStep => Continue(c, s)
  }

  /** The state initialise_paging leaves behind. */
  ghost predicate Boot(s: Machine) {
    && Pager.IdentityMapped(s.vm, USER_SPACE_START, STACK_POINTER, STACK_SIZE)
    && s.currentDirectory == PAGING_POOL_START && s.tasks == [] && s.nextPid == 0
    && s.stacks == [] && s.log == [] && s.parents == [] && s.dispatches == [] && s.location == Booting
  }

  // ---------- the invariant ----------

  /** A position of task `k` at which interrupts are on: its own code, the child's side of fork, the last
      step of the parent's side, or a timer handler that is about to return to such a position. */
  ghost predicate Nested(k: nat, stack: seq<Activation>, l: Location, n: nat)
    decreases |stack|
  {
    match l
    case Running => stack == []
    case ForkSite(eax) =>
      eax == SENTINEL && |stack| == 1 && stack[0].ForkFrame? && stack[0].parent != k && stack[0].child < n
    case ForkDone => |stack| == 1 && stack[0].ForkFrame? && stack[0].parent == k && stack[0].child < n
    case SwitchSite(eax) =>
      eax == SENTINEL && stack != [] && Top(stack).Handler? && Nested(k, Pop(stack), Top(stack).interrupted, n)
    case _ => false
  }

  /** The fork of task `k` after its child, the last of `n` tasks, has been linked and before `sti`. */
  predicate ChildLinked(c: Code, l: Location) {
    l == ForkLinked || l == ForkSite(c.forkSite) || l == ForkStacked(c.forkSite)
  }

  ghost predicate OwnFrame(k: nat, stack: seq<Activation>) {
    |stack| == 1 && stack[0].ForkFrame? && stack[0].parent == k
  }

  ghost predicate InFork(c: Code, k: nat, stack: seq<Activation>, l: Location, n: nat) {
    match l
    case ForkCli => stack == []
    case ForkParent => OwnFrame(k, stack) && stack[0].child < n
    case ForkCloned(_, copy) => OwnFrame(k, stack) && copy == stack && stack[0].child < n
    case ForkNode(_, copy) => OwnFrame(k, stack) && stack[0].child == n && OwnFrame(k, copy) && copy[0].child < n
    case _ => (ChildLinked(c, l) || l == ForkReady) && OwnFrame(k, stack) && stack[0].child == n - 1 && k < n - 1
  }

  /** A task that is not running can be dispatched. */
  ghost predicate Saved(c: Code, s: Machine, k: nat)
    requires s.Sane() && k < |s.tasks|
  {
    && s.tasks[k].eip == (if s.dispatches[k] == 0 then c.forkSite else c.switchSite)
    && s.tasks[k].esp == s.tasks[k].ebp + 1 == |s.stacks[k]|
    && Nested(k, s.stacks[k], Resume(c, s.tasks[k].eip, s.tasks[k].esp, s.tasks[k].ebp), |s.tasks|)
  }

  /** The child between being linked and getting its context. */
  ghost predicate HalfMade(s: Machine, k: nat)
    requires s.Sane() && k < |s.tasks|
  {
    && s.tasks[k].eip == 0 && s.dispatches[k] == 0
    && (s.location.ForkStacked? ==> s.tasks[k].esp == s.tasks[k].ebp + 1 == |s.stacks[k]|)
    && Nested(k, s.stacks[k], ForkSite(SENTINEL), |s.tasks|)
  }

  ghost predicate Control(c: Code, s: Machine)
    requires s.Sane() && s.Started()
  {
    && (if s.interrupts then Nested(s.current, s.stacks[s.current], s.location, |s.tasks|)
        else if s.location == InitNode then s.stacks == [[]] && s.current == 0
        else InFork(c, s.current, s.stacks[s.current], s.location, |s.tasks|))
    && s.dispatches[s.current] > 0
    && (forall k: nat :: k < |s.tasks| ==> s.tasks[k].eip in {0, c.forkSite, c.switchSite})
    && forall k: nat :: k < |s.tasks| && k != s.current ==>
         if ChildLinked(c, s.location) && k == |s.tasks| - 1 then HalfMade(s, k) else Saved(c, s, k)
  }

  ghost predicate Queue(s: Machine)
    requires s.Sane()
  {
    && (forall k: nat :: k < |s.tasks| ==> s.tasks[k].id == k)
    && s.nextPid == |s.tasks| + (if s.location.ForkNode? then 1 else 0)
    && (s.location.ForkNode? ==> s.location.node == Task(|s.tasks|, 0, 0, 0, s.location.node.pageDirectory))
    && (s.Started() ==> s.currentDirectory == s.tasks[s.current].pageDirectory)
  }

  function Directories(tasks: seq<Task>): (d: seq<Frame>)
    ensures |d| == |tasks| && forall k: nat :: k < |tasks| ==> d[k] == tasks[k].pageDirectory
  {
    seq(|tasks|, k requires 0 <= k < |tasks| => tasks[k].pageDirectory)
  }

  /** Every directory in existence: the tasks' and the one `fork` holds until its node is linked. */
  function AllDirectories(s: Machine): seq<Frame> {
    if !s.Started() then [s.currentDirectory]
    else if s.location.ForkCloned? then Directories(s.tasks) + [s.location.directory]
    else if s.location.ForkNode? then Directories(s.tasks) + [s.location.node.pageDirectory]
    else Directories(s.tasks)
  }

  ghost predicate TaskInv(c: Code, s: Machine) {
    && s.Sane()
    && Queue(s)
    && (if s.Started() then Control(c, s)
        else s.location in {Booting, InitCli} && (s.location == InitCli ==> !s.interrupts))
  }

  ghost predicate SpaceInv(s: Machine) {
    && Spaces(s.vm, AllDirectories(s))
    && (s.location in {ForkCli, ForkParent} ==> |s.tasks| <= MAX_FORKS)
  }

  ghost predicate Inv(c: Code, s: Machine) {
    TaskInv(c, s) && SpaceInv(s)
  }
}
