/** Every fork returns once in the parent and once in the child. For every return that some fork owes,
    the times it has happened and the tasks that still have it ahead of them add up to one. */
module ForkReturns {
  import opened PhysicalMemory
  import opened AddressSpaces
  import opened Kernel
  import opened KernelSafety

  datatype Debt = Nothing | Owes(due: Return)

  /** The return of `fork` that task `k` still has ahead of it when it stands at `l` above `stack`. */
  ghost function Outstanding(k: nat, stack: seq<Activation>, l: Location): Debt
    decreases |stack|
  {
    match l
    case SwitchSite(_) =>
      if stack != [] && Top(stack).Handler? then Outstanding(k, Pop(stack), Top(stack).interrupted) else Nothing
    case ForkSite(eax) => if eax == SENTINEL then Owes(Return(k, 0)) else OwnChild(k, stack)
    case ForkLinked => OwnChild(k, stack)
    case ForkStacked(_) => OwnChild(k, stack)
    case ForkReady => OwnChild(k, stack)
    case ForkDone => OwnChild(k, stack)
    case _ => Nothing
  }

  ghost function OwnChild(k: nat, stack: seq<Activation>): Debt {
    if |stack| == 1 && stack[0].ForkFrame? then Owes(Return(k, stack[0].child)) else Nothing
  }

  ghost function DebtOf(c: Code, s: Machine, k: nat): Debt
    requires s.Sane() && k < |s.tasks|
  {
    Outstanding(k, s.stacks[k],
                if k == s.current then s.location
                else if s.tasks[k].eip == c.switchSite then SwitchSite(SENTINEL) else ForkSite(SENTINEL))
  }

  ghost function Debts(c: Code, s: Machine): (d: seq<Debt>)
    requires s.Sane()
    ensures |d| == |s.tasks| && forall k: nat :: k < |d| ==> d[k] == DebtOf(c, s, k)
  {
    seq(|s.tasks|, k requires 0 <= k < |s.tasks| => DebtOf(c, s, k))
  }

  ghost function Count(d: seq<Debt>, r: Return): nat {
    if d == [] then 0 else Count(d[..|d| - 1], r) + if d[|d| - 1] == Owes(r) then 1 else 0
  }

  /** Some fork owes `r`: the 0 of a forked task, or a child's id to its parent. */
  predicate Due(parents: seq<nat>, r: Return) {
    || (0 < r.task < |parents| && r.value == 0)
    || (0 < r.value < |parents| && parents[r.value] == r.task)
  }

  ghost predicate Conserved(c: Code, s: Machine, r: Return)
    requires s.Sane()
  {
    multiset(s.log)[r] + Count(Debts(c, s), r) == if Due(s.parents, r) then 1 else 0
  }

  lemma {:induction false} CountUpdate(d: seq<Debt>, k: nat, x: Debt, r: Return)
    requires k < |d|
    ensures Count(d[k := x], r) == Count(d, r) - (if d[k] == Owes(r) then 1 else 0) + (if x == Owes(r) then 1 else 0)
  {
    var n := |d| - 1;
    if k == n {
      assert d[k := x][..n] == d[..n];
    } else {
      CountUpdate(d[..n], k, x, r);
      assert d[k := x][..n] == d[..n][k := x];
    }
  }

  lemma TimerConserves(c: Code, s: Machine)
    requires c.Valid() && TaskInv(c, s) && s.interrupts && s.Started()
    ensures Debts(c, Timer(c, s)) == Debts(c, s)
  {
    var t := Timer(c, s);
    var k := s.current;
    var stack := s.stacks[k] + [Handler(s.location)];
    assert Pop(stack) == s.stacks[k] && Top(stack) == Handler(s.location);
    forall l: nat | l < |s.tasks|
      ensures DebtOf(c, t, l) == DebtOf(c, s, l)
    {
      if l == k {
        assert t.stacks[k] == stack;
      } else {
        assert Saved(c, s, l);
        assert t.stacks[l] == s.stacks[l];
      }
    }
  }

  /** Steps of the running task that change no other task's position. */
  lemma OwnStepDebts(c: Code, s: Machine, t: Machine)
    requires s.Sane() && t.Sane() && s.Started() && t.current == s.current && |t.tasks| == |s.tasks|
    requires forall k: nat :: k < |s.tasks| && k != s.current ==>
      t.stacks[k] == s.stacks[k] && (t.tasks[k].eip == c.switchSite <==> s.tasks[k].eip == c.switchSite)
    ensures Debts(c, t) == Debts(c, s)[s.current := DebtOf(c, t, s.current)]
  {
  }

  /** From s to t the running task's debt stays, or is paid into the log; nobody else's changes. */
  ghost predicate Pays(c: Code, s: Machine, t: Machine)
    requires s.Sane() && s.Started()
  {
    && t.Sane() && t.current == s.current && |t.tasks| == |s.tasks| && t.parents == s.parents
    && Debts(c, t) == Debts(c, s)[s.current := DebtOf(c, t, s.current)]
    && (|| (t.log == s.log && DebtOf(c, t, s.current) == DebtOf(c, s, s.current))
        || (&& DebtOf(c, t, s.current) == Nothing
            && exists r :: t.log == s.log + [r] && DebtOf(c, s, s.current) == Owes(r)))
  }

  lemma ReturnPays(c: Code, s: Machine)
    requires c.Valid() && TaskInv(c, s) && s.location.SwitchSite?
    ensures Pays(c, s, Continue(c, s))
  {
    OwnStepDebts(c, s, Continue(c, s));
    var stack := s.stacks[s.current];
    assert Nested(s.current, Pop(stack), Top(stack).interrupted, |s.tasks|);
  }

  lemma ForkDonePays(c: Code, s: Machine)
    requires c.Valid() && TaskInv(c, s) && s.location in {ForkDone, ForkSite(SENTINEL)}
    ensures Pays(c, s, Continue(c, s))
  {
    var t := Continue(c, s);
    OwnStepDebts(c, s, t);
    var value := if s.location == ForkDone then s.stacks[s.current][0].child else 0;
    assert t.log == s.log + [Return(s.current, value)];
  }

  lemma EipStepPays(c: Code, s: Machine)
    requires c.Valid() && TaskInv(c, s) && s.location == ForkStacked(c.forkSite)
    ensures Pays(c, s, Continue(c, s))
  {
    assert HalfMade(s, |s.tasks| - 1);
    OwnStepDebts(c, s, Continue(c, s));
  }

  lemma LinkedStepPays(c: Code, s: Machine)
    requires c.Valid() && TaskInv(c, s) && s.location in {ForkLinked, ForkSite(c.forkSite)}
    ensures Pays(c, s, Continue(c, s))
  {
    OwnStepDebts(c, s, Continue(c, s));
  }

  lemma OtherStepPays(c: Code, s: Machine)
    requires c.Valid() && TaskInv(c, s)
    requires s.location in {InitNode, ForkCli, ForkParent, ForkReady} || s.location.ForkCloned?
    ensures Pays(c, s, Continue(c, s))
  {
    OwnStepDebts(c, s, Continue(c, s));
  }

  /** A kernel step either keeps the running task's debt or pays it into the log. */
  lemma KernelStepPays(c: Code, s: Machine)
    requires c.Valid() && TaskInv(c, s) && s.Started() && s.location != Running && !s.location.ForkNode?
    ensures Pays(c, s, Continue(c, s))
  {
    if s.location.SwitchSite? {
      ReturnPays(c, s);
    } else if s.location in {ForkDone, ForkSite(SENTINEL)} {
      ForkDonePays(c, s);
    } else if s.location.ForkStacked? {
      EipStepPays(c, s);
    } else if ChildLinked(c, s.location) {
      LinkedStepPays(c, s);
    } else {
      OtherStepPays(c, s);
    }
  }

  lemma LinkBorrows(c: Code, s: Machine)
    requires c.Valid() && TaskInv(c, s) && s.location.ForkNode?
    ensures var t := Continue(c, s); var n := |s.tasks|;
      && t.Sane() && t.log == s.log && t.parents == s.parents + [s.current]
      && Debts(c, s)[s.current] == Nothing
      && Debts(c, t) == Debts(c, s)[s.current := Owes(Return(s.current, n))] + [Owes(Return(n, 0))]
  {
  }

  /** A new child puts its 0 and its parent's return on the books. */
  lemma CountLink(d: seq<Debt>, parents: seq<nat>, k: nat, r: Return, logged: nat)
    requires k < |d| == |parents| && d[k] == Nothing
    requires logged + Count(d, r) == if Due(parents, r) then 1 else 0
    ensures logged + Count(d[k := Owes(Return(k, |d|))] + [Owes(Return(|d|, 0))], r) ==
            if Due(parents + [k], r) then 1 else 0
  {
    var d' := d[k := Owes(Return(k, |d|))];
    CountUpdate(d, k, Owes(Return(k, |d|)), r);
    assert (d' + [Owes(Return(|d|, 0))])[..|d|] == d';
  }

  lemma LinkConserves(c: Code, s: Machine, r: Return)
    requires c.Valid() && TaskInv(c, s) && s.location.ForkNode? && Conserved(c, s, r)
    ensures Continue(c, s).Sane() && Conserved(c, Continue(c, s), r)
  {
    LinkBorrows(c, s);
    CountLink(Debts(c, s), s.parents, s.current, r, multiset(s.log)[r]);
  }

  lemma KernelStepConserves(c: Code, s: Machine, r: Return)
    requires c.Valid() && TaskInv(c, s) && s.Started() && s.location != Running && !s.location.ForkNode?
    requires Conserved(c, s, r)
    ensures Continue(c, s).Sane() && Conserved(c, Continue(c, s), r)
  {
    KernelStepPays(c, s);
    CountUpdate(Debts(c, s), s.current, DebtOf(c, Continue(c, s), s.current), r);
  }

  lemma UserStepConserves(c: Code, s: Machine, step: Step, r: Return)
    requires c.Valid() && TaskInv(c, s) && Enabled(s, step) && Conserved(c, s, r) && (step.CallFork? || step.StoreWord?)
    ensures Next(c, s, step).Sane() && Conserved(c, Next(c, s, step), r)
  {
    SameDebts(c, s, Next(c, s, step));
  }

  /** A task's own code owes nothing, and neither does the first instruction of `fork`. */
  lemma SameDebts(c: Code, s: Machine, t: Machine)
    requires s.Sane() && s.Started() && s.location == Running && t.location in {Running, ForkCli}
    requires t == s.(vm := t.vm, interrupts := t.interrupts, location := t.location)
    ensures Debts(c, t) == Debts(c, s)
  {
    OwnStepDebts(c, s, t);
  }

  lemma ContinueConserves(c: Code, s: Machine, r: Return)
    requires c.Valid() && TaskInv(c, s) && s.location != Running && Conserved(c, s, r)
    ensures Continue(c, s).Sane() && Conserved(c, Continue(c, s), r)
  {
    if s.Started() && s.location.ForkNode? {
      LinkConserves(c, s, r);
    } else if s.Started() {
      KernelStepConserves(c, s, r);
    } else if s.location == InitCli {
      assert Debts(c, Continue(c, s)) == [Nothing];
    }
  }

  lemma StepConserves(c: Code, s: Machine, step: Step, r: Return)
    requires c.Valid() && TaskInv(c, s) && Enabled(s, step) && Conserved(c, s, r)
    ensures Next(c, s, step).Sane() && Conserved(c, Next(c, s, step), r)
  {
    if step.TimerTick? {
      if s.Started() { TimerConserves(c, s); }
    } else if step.KernelStep? {
      ContinueConserves(c, s, r);
    } else {
      UserStepConserves(c, s, step, r);
    }
  }

  lemma RunStepConserves(c: Code, states: seq<Machine>, steps: seq<Step>, i: nat, r: Return)
    requires c.Valid() && Run(c, states, steps) && i < |steps| && states[i].Sane() && Conserved(c, states[i], r)
    ensures states[i + 1].Sane() && Conserved(c, states[i + 1], r)
  {
    EveryRunIsSafe(c, states, steps, i);
    assert IsStep(c, states[i], steps[i], states[i + 1]);
    StepConserves(c, states[i], steps[i], r);
  }

  lemma {:induction false} EveryRunConserves(c: Code, states: seq<Machine>, steps: seq<Step>, i: nat, r: Return)
    requires c.Valid() && Run(c, states, steps) && i < |states|
    ensures states[i].Sane() && Conserved(c, states[i], r)
  {
    if i > 0 {
      EveryRunConserves(c, states, steps, i - 1, r);
      RunStepConserves(c, states, steps, i - 1, r);
    }
  }

  // ---------- in terms of single returns ----------

  lemma {:induction false} CountPositive(d: seq<Debt>, r: Return)
    ensures Count(d, r) > 0 <==> Owes(r) in d
  {
    if d != [] {
      CountPositive(d[..|d| - 1], r);
    }
  }

  /** In every state of every run: `fork` returns a value to a task only as the id of a child it forked or as 0
      to a forked task, never twice; and it has returned unless that very task still has it ahead. */
  lemma ForkReturnsOnce(c: Code, states: seq<Machine>, steps: seq<Step>, i: nat, r: Return)
    requires c.Valid() && Run(c, states, steps) && i < |states|
    ensures states[i].Sane()
    ensures var s := states[i];
      && (r in s.log ==> Due(s.parents, r)) && multiset(s.log)[r] <= 1
      && (Due(s.parents, r) ==> (r in s.log <==> !(r.task < |s.tasks| && DebtOf(c, s, r.task) == Owes(r))))
  {
    EveryRunConserves(c, states, steps, i, r);
    EveryRunIsSafe(c, states, steps, i);
    var s := states[i];
    CountPositive(Debts(c, s), r);
    assert r in s.log <==> multiset(s.log)[r] > 0;
    if Owes(r) in Debts(c, s) {
      var k: nat :| k < |s.tasks| && DebtOf(c, s, k) == Owes(r);
      OwesToSelf(k, s.stacks[k], if k == s.current then s.location
                 else if s.tasks[k].eip == c.switchSite then SwitchSite(SENTINEL) else ForkSite(SENTINEL));
    }
  }

  lemma {:induction false} OwesToSelf(k: nat, stack: seq<Activation>, l: Location)
    ensures Outstanding(k, stack, l).Owes? ==> Outstanding(k, stack, l).due.task == k
    decreases |stack|
  {
    if l.SwitchSite? && stack != [] && Top(stack).Handler? {
      OwesToSelf(k, Pop(stack), Top(stack).interrupted);
    }
  }
}
