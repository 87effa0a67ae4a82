/** There and back: over any sequence of calls of `fork` and `switch_task`, a task is given the processor back with
    the registers that it handed over itself when it last gave it up, or, on its first turn, with those of the
    `fork` that made it. The calls alone say which registers these are; the queue is not mentioned. */
module Dispatching {
  import opened PhysicalMemory
  import opened Kernel
  import opened Cloning
  import T = Tasking

  /** The registers of the processor when a call is made, as its caller finds them. */
  datatype Registers = Registers(eip: nat, esp: nat, ebp: nat)

  datatype Call = Fork(at: Registers) | SwitchTask(at: Registers)
  {
    /** A call of switch_task that returns at once, in a task that has just been switched to. */
    predicate Returns() {
      SwitchTask? && at.eip == 0xDEADBABA
    }
  }

  datatype Answer = Pid(pid: int) | Switched(to: T.Switch)

  /** How many tasks there are after a sequence of calls. */
  function Population(n: nat, calls: seq<Call>): nat {
    if calls == [] then n
    else Population(n, calls[..|calls| - 1]) + if calls[|calls| - 1].Fork? then 1 else 0
  }

  /** Whose turn it is after a sequence of calls, when it was p's of n at the beginning. */
  function Turn(p: nat, n: nat, calls: seq<Call>): nat {
    if calls == [] then p else
      var before := calls[..|calls| - 1];
      var call := calls[|calls| - 1];
      var q := Turn(p, n, before);
      if call.Fork? || call.Returns() then q
      else if q + 1 < Population(n, before) then q + 1
      else 0
  }

  /** What task k handed over last: in its own last call of switch_task, or else in the fork that created it, or else
      `first[k]`, before the calls. */
  function HandedOver(first: seq<Registers>, p: nat, calls: seq<Call>, k: nat): Registers
    requires k < Population(|first|, calls)
  {
    if calls == [] then first[k] else
      var before := calls[..|calls| - 1];
      var call := calls[|calls| - 1];
      if call.Fork? && k == Population(|first|, before) then call.at
      else if call.SwitchTask? && !call.Returns() && k == Turn(p, |first|, before) then call.at
      else HandedOver(first, p, before, k)
  }

  lemma {:induction false} TurnInRange(p: nat, n: nat, calls: seq<Call>)
    requires p < n
    ensures Turn(p, n, calls) < Population(n, calls)
  {
    if calls != [] {
      TurnInRange(p, n, calls[..|calls| - 1]);
    }
  }

  function RegistersOf(t: Task): Registers {
    Registers(t.eip, t.esp, t.ebp)
  }

  /** The saved contexts of a queue. */
  function Contexts(tasks: seq<Task>): (r: seq<Registers>)
    ensures |r| == |tasks| && forall k: nat :: k < |r| ==> r[k] == RegistersOf(tasks[k])
  {
    seq(|tasks|, k requires 0 <= k < |tasks| => RegistersOf(tasks[k]))
  }

  /** After `calls` the queue is as long as the calls say, it is the turn of whom they say, and every task's struct
      holds what the task handed over last. */
  ghost predicate Remembers(tasks: seq<Task>, current: nat, first: seq<Registers>, p: nat, calls: seq<Call>) {
    && p < |first| && |tasks| == Population(|first|, calls) && current == Turn(p, |first|, calls)
    && forall k: nat :: k < |tasks| ==> RegistersOf(tasks[k]) == HandedOver(first, p, calls, k)
  }

  /** Directories are never changed, only added. */
  ghost predicate SameDirectories(tasks: seq<Task>, tasks': seq<Task>) {
    |tasks| <= |tasks'| && forall k: nat :: k < |tasks| ==> tasks'[k].pageDirectory == tasks[k].pageDirectory
  }

  /** What a call answers when it is made after `calls`. A switch goes to the task whose turn is next, with what
      that task handed over last, this very call included, and in the directory that it has for good. */
  ghost predicate Answered(first: seq<Registers>, p: nat, calls: seq<Call>, call: Call, answer: Answer, nextPid: int,
                           tasks: seq<Task>) {
    var after := calls + [call];
    var k := Turn(p, |first|, after);
    if call.Fork? then answer == Pid(nextPid + Population(|first|, calls) - |first|)
    else if call.Returns() then answer == Switched(T.Stay)
    else
      && k < Population(|first|, after) && k < |tasks|
      && var r := HandedOver(first, p, after, k);
         answer == Switched(T.Jump(r.eip, r.esp, r.ebp, tasks[k].pageDirectory))
  }

  lemma ForkRemembered(tasks: seq<Task>, current: nat, first: seq<Registers>, p: nat, calls: seq<Call>, call: Call,
                       t: Task,
                       pid: int)
    requires Remembers(tasks, current, first, p, calls) && call.Fork? && RegistersOf(t) == call.at
    ensures Remembers(tasks + [t], current, first, p, calls + [call]) && SameDirectories(tasks, tasks + [t])
    ensures Answered(first, p, calls, call, Pid(pid), pid - |tasks| + |first|, tasks + [t])
  {
    assert (calls + [call])[..|calls|] == calls;
  }

  lemma SwitchRemembered(tasks: seq<Task>, current: nat, first: seq<Registers>, p: nat, calls: seq<Call>, call: Call,
                         t: Task, next: nat, nextPid: int)
    requires Remembers(tasks, current, first, p, calls) && call.SwitchTask? && !call.Returns() && current < |tasks|
    requires RegistersOf(t) == call.at && t.pageDirectory == tasks[current].pageDirectory
    requires next == if current + 1 < |tasks| then current + 1 else 0
    ensures var tasks' := tasks[current := t]; var to := tasks'[next];
      && Remembers(tasks', next, first, p, calls + [call]) && SameDirectories(tasks, tasks')
      && Answered(first, p, calls, call, Switched(T.Jump(to.eip, to.esp, to.ebp, to.pageDirectory)), nextPid, tasks')
  {
    assert (calls + [call])[..|calls|] == calls;
    assert RegistersOf(tasks[current := t][next]) == HandedOver(first, p, calls + [call], next);
  }

  lemma ReturnRemembered(tasks: seq<Task>, current: nat, first: seq<Registers>, p: nat, calls: seq<Call>, call: Call,
                         nextPid: int)
    requires Remembers(tasks, current, first, p, calls) && call.Returns()
    ensures Remembers(tasks, current, first, p, calls + [call]) && SameDirectories(tasks, tasks)
    ensures Answered(first, p, calls, call, Switched(T.Stay), nextPid, tasks)
  {
    assert (calls + [call])[..|calls|] == calls;
  }

  /** A call of fork. The child's directory is a clone of the forking task's. */
  method PerformFork(s: T.Scheduler, call: Call, ghost first: seq<Registers>, ghost p: nat, ghost calls: seq<Call>)
      returns (pid: int)
    requires s.Valid() && s.queue != [] && call.Fork? && Remembers(s.Tasks(), s.current, first, p, calls)
    modifies s`queue, s`nextPid, s.queue, s.pager`memory, s.pager.pagingPool, s.pager.userSpacePool
    ensures s.Valid() && s.queue != [] && Remembers(s.Tasks(), s.current, first, p, calls + [call])
    ensures SameDirectories(old(s.Tasks()), s.Tasks()) && s.nextPid == old(s.nextPid) + 1
    ensures Answered(first, p, calls, call, Pid(pid), old(s.nextPid) - |old(s.queue)| + |first|, s.Tasks())
    ensures old(s.queue) < s.queue && |s.queue| == |old(s.queue)| + 1 && fresh(s.queue[|old(s.queue)|])
    ensures old(s.InForce()) ==> s.InForce()
    ensures old(s.InForce()) ==>
      (s.pager.State(), s.queue[|old(s.queue)|].pageDirectory) ==
        CloneDirectory(old(s.pager.State()), old(s.queue[s.current].pageDirectory))
  {
    hide T.Scheduler.Valid, Remembers, Answered, SameDirectories, CloneDirectory;
    ghost var tasks, current := s.Tasks(), s.current;
    CurrentInQueue(s);
    pid := s.Fork(call.at.eip, call.at.esp, call.at.ebp);
    ForkRemembered(tasks, current, first, p, calls, call, s.Tasks()[|tasks|], pid);
    assert s.Tasks() == tasks + [s.Tasks()[|tasks|]];
    assert s.Tasks()[current] == tasks[current];
  }

  /** A call of switch_task. */
  method PerformSwitch(s: T.Scheduler, call: Call, ghost first: seq<Registers>, ghost p: nat, ghost calls: seq<Call>)
      returns (to: T.Switch)
    requires s.Valid() && s.queue != [] && call.SwitchTask? && Remembers(s.Tasks(), s.current, first, p, calls)
    modifies s`currentTask, s`current, s.queue, s.pager`currentDirectory
    ensures s.Valid() && s.queue == old(s.queue) && Remembers(s.Tasks(), s.current, first, p, calls + [call])
    ensures SameDirectories(old(s.Tasks()), s.Tasks())
    ensures Answered(first, p, calls, call, Switched(to), old(s.nextPid) - |s.queue| + |first|, s.Tasks())
    ensures old(s.InForce()) || to != T.Stay ==> s.InForce()
  {
    hide Remembers, Answered, SameDirectories;
    ghost var tasks, current := s.Tasks(), s.current;
    ghost var nextPid := s.nextPid - |s.queue| + |first|;
    to := s.SwitchTask(call.at.eip, call.at.esp, call.at.ebp);
    if call.Returns() {
      ReturnRemembered(tasks, current, first, p, calls, call, nextPid);
    } else {
      SwitchRemembered(tasks, current, first, p, calls, call, s.Tasks()[current], s.current, nextPid);
    }
  }

  /** One call. */
  method Perform(s: T.Scheduler, call: Call, ghost first: seq<Registers>, ghost p: nat, ghost calls: seq<Call>)
      returns (answer: Answer)
    requires s.Valid() && s.queue != [] && Remembers(s.Tasks(), s.current, first, p, calls)
    modifies s, s.queue, s.pager, s.pager.pagingPool, s.pager.userSpacePool
    ensures s.Valid() && s.queue != [] && Remembers(s.Tasks(), s.current, first, p, calls + [call])
    ensures SameDirectories(old(s.Tasks()), s.Tasks())
    ensures s.nextPid - |s.queue| == old(s.nextPid) - |old(s.queue)|
    ensures Answered(first, p, calls, call, answer, old(s.nextPid) - |old(s.queue)| + |first|, s.Tasks())
    ensures forall k: nat :: k < |s.queue| ==> s.queue[k] in old(s.queue) || fresh(s.queue[k])
    ensures old(s.InForce()) ==> s.InForce()
  {
    hide T.Scheduler.Valid, Remembers, Answered, SameDirectories;
    if call.Fork? {
      var pid := PerformFork(s, call, first, p, calls);
      answer := Pid(pid);
    } else {
      var to := PerformSwitch(s, call, first, p, calls);
      answer := Switched(to);
    }
  }

  /** What each of a sequence of calls answers. */
  ghost predicate AllAnswered(first: seq<Registers>, p: nat, calls: seq<Call>, answers: seq<Answer>, nextPid: int,
                              tasks: seq<Task>) {
    && |answers| == |calls|
    && forall i: nat :: i < |calls| ==> Answered(first, p, calls[..i], calls[i], answers[i], nextPid, tasks)
  }

  lemma OneMoreAnswered(first: seq<Registers>, p: nat, calls: seq<Call>, answers: seq<Answer>, nextPid: int,
                        tasks: seq<Task>, call: Call, answer: Answer, tasks': seq<Task>)
    requires AllAnswered(first, p, calls, answers, nextPid, tasks) && SameDirectories(tasks, tasks')
    requires Answered(first, p, calls, call, answer, nextPid, tasks')
    ensures AllAnswered(first, p, calls + [call], answers + [answer], nextPid, tasks')
  {
    var all := calls + [call];
    forall i: nat | i < |all|
      ensures Answered(first, p, all[..i], all[i], (answers + [answer])[i], nextPid, tasks')
    {
      if i < |calls| {
        assert all[..i] == calls[..i];
        AnsweredLater(first, p, calls[..i], calls[i], answers[i], nextPid, tasks, tasks');
      } else {
        assert all[..i] == calls;
      }
    }
  }

  lemma AnsweredLater(first: seq<Registers>, p: nat, calls: seq<Call>, call: Call, answer: Answer, nextPid: int,
                      tasks: seq<Task>, tasks': seq<Task>)
    requires Answered(first, p, calls, call, answer, nextPid, tasks) && SameDirectories(tasks, tasks')
    ensures Answered(first, p, calls, call, answer, nextPid, tasks')
  {
  }

  lemma NothingCalled(tasks: seq<Task>, current: nat, nextPid: int)
    requires current < |tasks|
    ensures Remembers(tasks, current, Contexts(tasks), current, []) && SameDirectories(tasks, tasks)
    ensures AllAnswered(Contexts(tasks), current, [], [], nextPid, tasks)
  {
  }

  /** Any sequence of calls, with what each of them answers. */
  method Execute(s: T.Scheduler, calls: seq<Call>) returns (answers: seq<Answer>)
    requires s.Valid() && s.queue != []
    modifies s, s.queue, s.pager, s.pager.pagingPool, s.pager.userSpacePool
    ensures s.Valid() && s.queue != [] && SameDirectories(old(s.Tasks()), s.Tasks())
    ensures Remembers(s.Tasks(), s.current, Contexts(old(s.Tasks())), old(s.current), calls)
    ensures s.nextPid - |s.queue| == old(s.nextPid) - |old(s.queue)|
    ensures AllAnswered(Contexts(old(s.Tasks())), old(s.current), calls, answers, old(s.nextPid), s.Tasks())
    ensures forall k: nat :: k < |s.queue| ==> s.queue[k] in old(s.queue) || fresh(s.queue[k])
    ensures old(s.InForce()) ==> s.InForce()
    decreases |calls|
  {
    hide T.Scheduler.Valid, Remembers, Answered, AllAnswered, Population, Contexts, SameDirectories;
    ghost var start, first, p, nextPid := s.Tasks(), Contexts(s.Tasks()), s.current, s.nextPid;
    CurrentInQueue(s);
    answers := [];
    if calls == [] {
      NothingCalled(s.Tasks(), s.current, s.nextPid);
    } else {
      var n := |calls| - 1;
      LastCall(calls);
      answers := Execute(s, calls[..n]);
      ghost var tasks := s.Tasks();
      var answer := Perform(s, calls[n], first, p, calls[..n]);
      OneMoreAnswered(first, p, calls[..n], answers, nextPid, tasks, calls[n], answer, s.Tasks());
      SameDirectoriesTwice(start, tasks, s.Tasks());
      answers := answers + [answer];
    }
  }

  lemma SameDirectoriesTwice(a: seq<Task>, b: seq<Task>, c: seq<Task>)
    requires SameDirectories(a, b) && SameDirectories(b, c)
    ensures SameDirectories(a, c)
  {
  }

  lemma CurrentInQueue(s: T.Scheduler)
    requires s.Valid() && s.queue != []
    ensures s.current < |s.Tasks()| == |s.queue| == |Contexts(s.Tasks())|
  {
  }

  lemma LastCall(calls: seq<Call>)
    requires calls != []
    ensures calls[..|calls| - 1] + [calls[|calls| - 1]] == calls
  {
  }

  // ---------- there and back ----------

  /** The j-th call is one in which task k gives up the processor. */
  predicate GivesUp(p: nat, n: nat, calls: seq<Call>, j: nat, k: nat)
    requires j < |calls|
  {
    calls[j].SwitchTask? && !calls[j].Returns() && Turn(p, n, calls[..j]) == k
  }

  lemma {:induction false} PopulationGrows(n: nat, calls: seq<Call>, i: nat)
    requires i <= |calls|
    ensures Population(n, calls[..i]) <= Population(n, calls)
  {
    if i == |calls| {
      assert calls[..i] == calls;
    } else {
      var before := calls[..|calls| - 1];
      PopulationGrows(n, before, i);
      assert before[..i] == calls[..i];
    }
  }

  /** What a task hands over when it gives up the processor stays its context until it does so again. */
  lemma {:induction false} HandedOverLast(first: seq<Registers>, p: nat, calls: seq<Call>, i: nat, k: nat)
    requires p < |first| && i < |calls| && GivesUp(p, |first|, calls, i, k)
    requires forall m: nat :: i < m < |calls| ==> !GivesUp(p, |first|, calls, m, k)
    ensures k < Population(|first|, calls) && HandedOver(first, p, calls, k) == calls[i].at
  {
    var n := |calls| - 1;
    var before := calls[..n];
    TurnInRange(p, |first|, calls[..i]);
    PopulationGrows(|first|, calls, i);
    if i < n {
      PopulationGrows(|first|, before, i);
      assert before[..i] == calls[..i];
      forall m: nat | i < m < n
        ensures !GivesUp(p, |first|, before, m, k)
      {
        assert before[..m] == calls[..m];
        assert !GivesUp(p, |first|, calls, m, k);
      }
      HandedOverLast(first, p, before, i, k);
      assert !GivesUp(p, |first|, calls, n, k);
    }
  }

  /** A task that gave up the processor in call i, and not again until call j gives it the processor back, goes on
      with the eip, the esp and the ebp of its own call i, in its own directory. */
  lemma ThereAndBack(first: seq<Registers>, p: nat, calls: seq<Call>, answers: seq<Answer>, nextPid: int,
                     tasks: seq<Task>,
                     i: nat, j: nat, k: nat)
    requires p < |first| && AllAnswered(first, p, calls, answers, nextPid, tasks) && i <= j < |calls|
    requires GivesUp(p, |first|, calls, i, k) && forall m: nat :: i < m <= j ==> !GivesUp(p, |first|, calls, m, k)
    requires calls[j].SwitchTask? && !calls[j].Returns() && Turn(p, |first|, calls[..j + 1]) == k
    ensures k < |tasks|
    ensures var at := calls[i].at;
      answers[j] == Switched(T.Jump(at.eip, at.esp, at.ebp, tasks[k].pageDirectory))
  {
    hide Turn, Population, HandedOver;
    var after := calls[..j + 1];
    assert after == calls[..j] + [calls[j]];
    assert after[..i] == calls[..i];
    forall m: nat | i < m < |after|
      ensures !GivesUp(p, |first|, after, m, k)
    {
      assert after[..m] == calls[..m];
      assert !GivesUp(p, |first|, calls, m, k);
    }
    HandedOverLast(first, p, after, i, k);
    assert Answered(first, p, calls[..j], calls[j], answers[j], nextPid, tasks);
  }
}
