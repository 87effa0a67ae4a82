/** task.c as it runs: a linked queue of task structs, walked and extended in place. */
module Tasking {
  import opened PhysicalMemory
  import opened Kernel
  import Cloning
  import P = Pager

  /** task_struct. */
  class TaskNode {
    var id: nat
    var esp: nat
    var ebp: nat
    var eip: nat
    var pageDirectory: Frame
    var next: TaskNode?

    constructor (id: nat, pageDirectory: Frame)
      ensures this.id == id && esp == ebp == eip == 0 && this.pageDirectory == pageDirectory && next == null
    {
      this.id, this.pageDirectory := id, pageDirectory;
      esp, ebp, eip, next := 0, 0, 0, null;
    }

    function Value(): Task
      reads this
    {
      Task(id, esp, ebp, eip, pageDirectory)
    }
  }

  /** What `switch_task` does when it is called: nothing, or a jump to the next task's context. */
  datatype Switch = Stay | Jump(eip: nat, esp: nat, ebp: nat, directory: Frame)

  class Scheduler {
    var currentTask: TaskNode?
    var readyQueue: TaskNode?
    var nextPid: nat
    const pager: P.Pager
    ghost var queue: seq<TaskNode>
    ghost var current: nat

    /** `ready_queue` leads through `next` along the queue and ends: no cycles, no sharing. */
    ghost predicate Valid()
      reads this, queue
    {
      && pager.Valid()
      && (forall k, l :: 0 <= k < l < |queue| ==> queue[k] != queue[l])
      && readyQueue == (if queue == [] then null else queue[0])
      && (forall k {:trigger queue[k].next} :: 0 <= k < |queue| ==>
        queue[k].next == if k + 1 < |queue| then queue[k + 1] else null)
      && (if queue == [] then currentTask == null else current < |queue| && currentTask == queue[current])
    }

    ghost function Tasks(): (t: seq<Task>)
      reads this, queue
      ensures |t| == |queue| && forall k: nat :: k < |t| ==> t[k] == queue[k].Value()
    {
      seq(|queue|, k requires 0 <= k < |queue| reads this, queue => queue[k].Value())
    }

    /** The memory manager looks at the current task's directory. */
    ghost predicate InForce()
      requires Valid()
      reads this, queue, pager
    {
      queue != [] && pager.currentDirectory == queue[current].pageDirectory
    }

    constructor (pager: P.Pager)
      requires pager.Valid()
      ensures Valid() && queue == [] && nextPid == 0 && this.pager == pager
    {
      this.pager := pager;
      currentTask, readyQueue, nextPid := null, null, 0;
      queue, current := [], 0;
    }

    method InitialiseTasking()
      requires Valid() && queue == []
      modifies this
      ensures Valid() && InForce() && current == 0 && nextPid == old(nextPid) + 1
      ensures Tasks() == [Task(old(nextPid), 0, 0, 0, pager.currentDirectory)]
    {
      currentTask := new TaskNode(nextPid, pager.currentDirectory);
      readyQueue := currentTask;
      nextPid := nextPid + 1;
      queue, current := [currentTask], 0;
    }

    /** The walk to the end of the queue. */
    method Last() returns (tail: TaskNode)
      requires Valid() && queue != []
      ensures tail == queue[|queue| - 1]
    {
      tail := readyQueue;
      ghost var k := 0;
      while tail.next != null
        invariant k < |queue| && tail == queue[k]
        decreases |queue| - k
      {
        tail := tail.next;
        k := k + 1;
      }
    }

    /** Extend the queue. */
    method Append(newTask: TaskNode)
      requires Valid() && queue != [] && newTask !in queue && newTask.next == null
      modifies this`queue, queue
      ensures Valid() && queue == old(queue) + [newTask]
      ensures Tasks() == old(Tasks()) + [newTask.Value()]
      ensures newTask.next == null && newTask.Value() == old(newTask.Value())
    {
      var tail := Last();
      tail.next := newTask;
      queue := queue + [newTask];
    }

    /** Set up the child's context. */
    method Fill(child: TaskNode, eip: nat, esp: nat, ebp: nat)
      requires Valid() && queue != [] && child == queue[|queue| - 1]
      modifies child
      ensures Valid()
      ensures Tasks() == old(Tasks())[|queue| - 1 := old(Tasks())[|queue| - 1].(eip := eip, esp := esp, ebp := ebp)]
    {
      child.esp, child.ebp := esp, ebp;
      child.eip := eip;
    }

    /** The new process: its struct, not yet in the queue. */
    method Create(directory: Frame) returns (newTask: TaskNode)
      requires Valid()
      modifies this`nextPid
      ensures Valid() && Tasks() == old(Tasks()) && nextPid == old(nextPid) + 1
      ensures fresh(newTask) && newTask !in queue && newTask.next == null
      ensures newTask.Value() == Task(old(nextPid), 0, 0, 0, directory)
    {
      newTask := new TaskNode(nextPid, directory);
      nextPid := nextPid + 1;
    }

    /** Create the process and append it to the queue. */
    method Enqueue(directory: Frame) returns (newTask: TaskNode)
      requires Valid() && queue != []
      modifies this`queue, this`nextPid, queue
      ensures Valid() && nextPid == old(nextPid) + 1
      ensures fresh(newTask) && queue == old(queue) + [newTask]
      ensures Tasks() == old(Tasks()) + [Task(old(nextPid), 0, 0, 0, directory)]
    {
      newTask := Create(directory);
      Append(newTask);
    }

    /** Create the process, append it to the queue and fill it in. */
    method Spawn(directory: Frame, eip: nat, esp: nat, ebp: nat) returns (pid: int)
      requires Valid() && queue != []
      modifies this`queue, this`nextPid, queue
      ensures Valid() && pid == old(nextPid) && nextPid == pid + 1
      ensures Tasks() == old(Tasks()) + [Task(pid, esp, ebp, eip, directory)]
      ensures old(queue) < queue && fresh(queue[|old(queue)|])
    {
      var parentTask := currentTask;
      var newTask := Enqueue(directory);
      if currentTask == parentTask {
        Fill(newTask, eip, esp, ebp);
        pid := newTask.id;
      } else {
        pid := 0;
      }
    }

    /** Clone the address space; the queue is not concerned. */
    method CloneSpace() returns (directory: Frame)
      requires Valid()
      modifies pager`memory, pager.pagingPool, pager.userSpacePool
      ensures Valid() && Tasks() == old(Tasks())
      ensures (pager.State(), directory) == Cloning.CloneDirectory(old(pager.State()), pager.currentDirectory)
    {
      directory := pager.CloneDirectory(pager.currentDirectory);
    }

    /** `fork` between `cli` and `sti`, on the parent's side: `eip` is what get_instruction_pointer returned
        there, esp and ebp are the registers. */
    method Fork(eip: nat, esp: nat, ebp: nat) returns (pid: int)
      requires Valid() && queue != []
      modifies this`queue, this`nextPid, queue, pager`memory, pager.pagingPool, pager.userSpacePool
      ensures Valid() && pid == old(nextPid) && nextPid == pid + 1
      ensures var (vm, directory) := Cloning.CloneDirectory(old(pager.State()), pager.currentDirectory);
        && pager.State() == vm
        && Tasks() == old(Tasks()) + [Task(pid, esp, ebp, eip, directory)]
      ensures old(queue) < queue && fresh(queue[|old(queue)|])
    {
      hide Cloning.CloneDirectory;
      var directory := CloneSpace();
      pid := Spawn(directory, eip, esp, ebp);
    }

    /** Save the context of the current task. */
    method Save(eip: nat, esp: nat, ebp: nat)
      requires Valid() && queue != []
      modifies currentTask
      ensures Valid()
      ensures Tasks() == old(Tasks())[current := old(Tasks())[current].(eip := eip, esp := esp, ebp := ebp)]
    {
      currentTask.eip, currentTask.esp, currentTask.ebp := eip, esp, ebp;
    }

    /** Get the next task to run, or fall off the end of the queue and start again at its beginning. */
    method Advance()
      requires Valid() && queue != []
      modifies this`currentTask, this`current
      ensures Valid() && current == NextInQueue(old(current), |queue|)
    {
      currentTask := currentTask.next;
      if currentTask == null {
        currentTask := readyQueue;
      }
      current := NextInQueue(current, |queue|);
    }

    method SwitchTask(eip: nat, esp: nat, ebp: nat) returns (r: Switch)
      requires Valid()
      modifies this`currentTask, this`current, queue, pager`currentDirectory
      ensures Valid() && queue == old(queue)
      ensures r == Stay <==> queue == [] || eip == SENTINEL
      ensures r == Stay ==> Tasks() == old(Tasks()) && current == old(current)
      ensures r == Stay ==> pager.currentDirectory == old(pager.currentDirectory)
      ensures r != Stay ==>
        var was := old(Tasks())[old(current)];
        Tasks() == old(Tasks())[old(current) := Task(was.id, esp, ebp, eip, was.pageDirectory)]
      ensures r != Stay ==> current == NextInQueue(old(current), |queue|)
      ensures r != Stay ==>
        var t := Tasks()[current];
        r == Jump(t.eip, t.esp, t.ebp, t.pageDirectory) && pager.currentDirectory == t.pageDirectory
    {
      if currentTask == null || eip == SENTINEL { return Stay; }
      Save(eip, esp, ebp);
      Advance();
      pager.currentDirectory := currentTask.pageDirectory;
      r := Jump(currentTask.eip, currentTask.esp, currentTask.ebp, currentTask.pageDirectory);
    }

    method GetPid() returns (pid: nat)
      requires Valid() && queue != []
      ensures pid == Tasks()[current].id
    {
      pid := currentTask.id;
    }
  }
}
