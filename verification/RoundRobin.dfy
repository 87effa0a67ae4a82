/** The scheduler takes the queue in order. Forks append to it at any time, so the distance between two turns
    depends on the length the queue has when the scheduler wraps around. */
module RoundRobin {
  import opened Kernel
  import opened KernelSafety

  /** Timer interrupts among steps i..j. */
  ghost function Ticks(steps: seq<Step>, i: nat, j: nat): nat
    requires i <= j <= |steps|
  {
    if i == j then 0 else Ticks(steps, i, j - 1) + if steps[j - 1].TimerTick? then 1 else 0
  }

  ghost predicate Dispatches(states: seq<Machine>, steps: seq<Step>, m: nat, q: nat)
    requires m < |steps| < |states|
  {
    steps[m].TimerTick? && states[m + 1].current == q
  }

  /** The queue only grows, and only a timer interrupt moves the current task, to the next one in it. */
  ghost predicate Scheduled(s: Machine, step: Step, t: Machine) {
    s.Started() ==>
      && |s.tasks| <= |t.tasks| && s.current < |s.tasks| && t.current < |t.tasks|
      && t.current == if step.TimerTick? then NextInQueue(s.current, |s.tasks|) else s.current
  }

  ghost predicate AllScheduled(states: seq<Machine>, steps: seq<Step>) {
    && |states| == |steps| + 1
    && forall m: nat :: m < |steps| ==> Scheduled(states[m], steps[m], states[m + 1])
  }

  lemma StepIsScheduled(c: Code, s: Machine, step: Step)
    requires c.Valid() && TaskInv(c, s) && Enabled(s, step)
    ensures Scheduled(s, step, Next(c, s, step))
  {
  }

  lemma RunIsScheduled(c: Code, states: seq<Machine>, steps: seq<Step>)
    requires c.Valid() && Run(c, states, steps)
    ensures AllScheduled(states, steps)
    ensures forall m: nat :: m < |states| && states[m].Started() ==> states[m].current < |states[m].tasks|
  {
    forall m: nat | m < |states|
      ensures states[m].Started() ==> states[m].current < |states[m].tasks|
      ensures m < |steps| ==> Scheduled(states[m], steps[m], states[m + 1])
    {
      StateIsScheduled(c, states, steps, m);
    }
  }

  lemma StateIsScheduled(c: Code, states: seq<Machine>, steps: seq<Step>, m: nat)
    requires c.Valid() && Run(c, states, steps) && m < |states|
    ensures states[m].Started() ==> states[m].current < |states[m].tasks|
    ensures m < |steps| ==> Scheduled(states[m], steps[m], states[m + 1])
  {
    EveryRunIsSafe(c, states, steps, m);
    if m < |steps| {
      assert IsStep(c, states[m], steps[m], states[m + 1]);
      StepIsScheduled(c, states[m], steps[m]);
    }
  }

  /** As long as q has not been dispatched since i: before the wrap the scheduler has moved one place per tick
      and is beyond q or short of it; after a wrap at w it counts from the head and is short of q. */
  ghost predicate NotYet(states: seq<Machine>, steps: seq<Step>, i: nat, m: nat, q: nat, wrapped: bool, w: nat)
    requires i <= m <= |steps| < |states|
  {
    var p := states[i].current;
    var current := states[m].current;
    if !wrapped then
      current == p + Ticks(steps, i, m) && (p < q ==> current < q)
    else
      && q <= p && i <= w < m && steps[w].TimerTick? && states[w].current + 1 == |states[w].tasks|
      && |states[w].tasks| <= |states[m].tasks| && q < |states[w].tasks|
      && current + |states[w].tasks| == p + Ticks(steps, i, m) && current < q
  }

  lemma {:induction false} Track(states: seq<Machine>, steps: seq<Step>, i: nat, m: nat, q: nat)
      returns (wrapped: bool, w: nat)
    requires AllScheduled(states, steps) && i <= m <= |steps|
    requires states[i].Started() && states[i].current < |states[i].tasks| && q < |states[i].tasks|
    requires forall j: nat :: i <= j < m ==> !Dispatches(states, steps, j, q)
    ensures states[m].current < |states[m].tasks| && |states[i].tasks| <= |states[m].tasks|
    ensures NotYet(states, steps, i, m, q, wrapped, w)
    decreases m
  {
    if i == m {
      wrapped, w := false, i;
    } else {
      wrapped, w := Track(states, steps, i, m - 1, q);
      assert Scheduled(states[m - 1], steps[m - 1], states[m]);
      assert !Dispatches(states, steps, m - 1, q);
      if steps[m - 1].TimerTick? && states[m - 1].current + 1 == |states[m - 1].tasks| {
        wrapped, w := true, m - 1;
      }
    }
  }

  /** From position p, whoever is at q is next dispatched after q-p switches if it is further down the queue,
      else after n-p+q, where n is the length of the queue when the scheduler wraps around. */
  lemma TurnsComeInOrder(c: Code, states: seq<Machine>, steps: seq<Step>, i: nat, j: nat, q: nat) returns (w: nat)
    requires c.Valid() && Run(c, states, steps) && i <= j < |steps|
    requires states[i].Started() && q < |states[i].tasks|
    requires Dispatches(states, steps, j, q)
    requires forall m: nat :: i <= m < j ==> !Dispatches(states, steps, m, q)
    ensures var p := states[i].current; var switches := Ticks(steps, i, j + 1);
      if p < q then switches == q - p
      else && i <= w <= j && steps[w].TimerTick? && states[w].current + 1 == |states[w].tasks|
           && switches == |states[w].tasks| - p + q
  {
    var wrapped;
    RunIsScheduled(c, states, steps);
    wrapped, w := Track(states, steps, i, j, q);
    assert Scheduled(states[j], steps[j], states[j + 1]);
    if !wrapped {
      w := j;
    }
  }

  /** No task starves: any stretch with as many switches as there are tasks at its end gives every task that
      existed at its beginning a turn. */
  lemma NobodyStarves(c: Code, states: seq<Machine>, steps: seq<Step>, i: nat, m: nat, q: nat)
    requires c.Valid() && Run(c, states, steps) && i <= m <= |steps|
    requires states[i].Started() && q < |states[i].tasks|
    requires Ticks(steps, i, m) >= |states[m].tasks|
    ensures exists j: nat :: i <= j < m && Dispatches(states, steps, j, q)
  {
    if forall j: nat :: i <= j < m ==> !Dispatches(states, steps, j, q) {
      RunIsScheduled(c, states, steps);
      var wrapped, w := Track(states, steps, i, m, q);
      assert false;
    }
  }
}
