/** The suite's mutex as code on shared fields: each method makes one access of `lock`,
    `increment` or `unlock`, and `RunAll` is a scheduler that picks any context each time. */
module SuiteProgram {
  import opened Steps
  import opened Sums
  import opened SuiteLock
  import AtomicLock

  class Contexts {
    var word: nat
    var counter: nat
    var pcs: seq<Pc>
    var left: seq<nat>

    ghost function View(): State
      reads this
    {
      State(word, counter, pcs, left)
    }

    constructor (n: nat, k: nat)
      ensures View() == Init(n, k)
    {
      word, counter := 0, 0;
      pcs, left := seq(n, _ => Loop(k)), seq(n, _ => k);
    }

    method CompareExchange(expected: nat, desired: nat) returns (done: bool)
      modifies this`word
      ensures done == (old(word) == expected)
      ensures word == if done then desired else old(word)
    {
      done := word == expected;
      if done { word := desired; }
    }

    method ExchangeWord(desired: nat) returns (previous: nat)
      modifies this`word
      ensures previous == old(word) && word == desired
    {
      previous, word := word, desired;
    }

    method LockAccess(t: nat)
      requires t < |pcs| && (pcs[t].Try? || pcs[t].Exchange? || pcs[t].Wait?)
      modifies this`word, this`pcs
      ensures View() == Next(old(View()), Access(t))
    {
      if pcs[t].Try? {
        var done := CompareExchange(0, 1);
        pcs := pcs[t := if done then Read else Exchange];
      } else if pcs[t].Exchange? {
        var previous := ExchangeWord(2);
        pcs := pcs[t := if previous == 0 then Read else Wait];
      } else {
        // kal_task_wait: the comparison and the suspension are one step.
        pcs := pcs[t := if word == 2 then Asleep else Exchange];
      }
    }

    method IncrementAccess(t: nat)
      requires t < |pcs| && (pcs[t].Read? || pcs[t].Write?)
      modifies this`counter, this`pcs
      ensures View() == Next(old(View()), Access(t))
    {
      if pcs[t].Read? {
        pcs := pcs[t := Write(counter)];
      } else {
        counter := pcs[t].seen + 1;
        pcs := pcs[t := Unlock];
      }
    }

    method UnlockAccess(t: nat)
      requires t < |pcs| && t < |left|
      requires (pcs[t].Unlock? && left[t] > 0) || (pcs[t].Wake? && !SomeAsleep(pcs))
      modifies this`word, this`pcs, this`left
      ensures View() == Next(old(View()), Access(t))
    {
      if pcs[t].Unlock? {
        var previous := ExchangeWord(0);
        left := left[t := left[t] - 1];
        pcs := pcs[t := if previous == 2 then Wake else Loop(left[t])];
      } else {
        pcs := pcs[t := Loop(left[t])];
      }
    }

    method WakeSleeper(t: nat, u: nat)
      requires Enabled(View(), WakeOf(t, u))
      modifies this`pcs
      ensures View() == Next(old(View()), WakeOf(t, u))
    {
      pcs := pcs[u := Exchange];
      pcs := pcs[t := Loop(left[t])];
    }

    method ReturnSpuriously(u: nat)
      requires Enabled(View(), Spurious(u))
      modifies this`pcs
      ensures View() == Next(old(View()), Spurious(u))
    {
      pcs := pcs[u := Exchange];
    }

    /** One access of context `t`; the environment chooses whom a wake releases. */
    method Advance(t: nat) returns (ghost step: Step)
      requires WellFormed(View()) && t < |pcs| && !pcs[t].Asleep? && !pcs[t].Done?
      requires pcs[t].Unlock? ==> left[t] > 0
      modifies this
      ensures Enabled(old(View()), step) && Takes(old(View()), step) && !step.Spurious?
      ensures View() == Next(old(View()), step)
    {
      step := Access(t);
      match pcs[t]
      case Try => LockAccess(t);
      case Exchange => LockAccess(t);
      case Wait => LockAccess(t);
      case Read => IncrementAccess(t);
      case Write(_) => IncrementAccess(t);
      case Unlock => UnlockAccess(t);
      case Wake =>
        if SomeAsleep(pcs) {
          var u :| 0 <= u < |pcs| && pcs[u].Asleep?;
          step := WakeOf(t, u);
          WakeSleeper(t, u);
        } else {
          UnlockAccess(t);
        }
    }

    /** One turn of the scheduler: any context that is awake, or a return nobody asked for. */
    method ScheduleOne(budget: nat, ghost a: AtomicLock.Spec)
      returns (budget': nat, ghost a': AtomicLock.Spec)
      requires Inv(View(), a) && NoLostWakeUp(View())
      requires exists t :: 0 <= t < |pcs| && !pcs[t].Asleep? && !pcs[t].Done?
      modifies this
      ensures Inv(View(), a') && NoLostWakeUp(View()) && |pcs| == old(|pcs|)
      ensures AtomicLock.Owed(a') == AtomicLock.Owed(a)
      ensures Measure(View()) + 4 * budget' < old(Measure(View())) + 4 * budget
    {
      ghost var s := View();
      ghost var step: Step;
      var stray: bool := *;
      if stray && budget > 0 && SomeAsleep(pcs) {
        var u :| 0 <= u < |pcs| && pcs[u].Asleep?;
        ReturnSpuriously(u);
        step, budget' := Spurious(u), budget - 1;
        SpuriousCost(s, u);
      } else {
        var t :| 0 <= t < |pcs| && !pcs[t].Asleep? && !pcs[t].Done?;
        step := Advance(t);
        budget' := budget;
        StepDrops(s, step);
      }
      StepRefines(s, a, step);
      StepKeepsNoLostWakeUp(s, a, step);
      a' := AtomicLock.Apply(a, EventOf(s, step));
      AtomicLock.OwedIsKept(a, EventOf(s, step));
    }

    /** However the contexts are scheduled, whomever a wake releases, and with up to
        `spurious` returns nobody asked for, the program ends with every increment counted. */
    method RunAll(n: nat, k: nat, spurious: nat)
      requires View() == Init(n, k)
      modifies this
      ensures |pcs| == n && forall t :: 0 <= t < n ==> pcs[t] == Done
      ensures word == 0 && counter == n * k
    {
      ghost var a := AtomicLock.Init(n, k);
      var budget := spurious;
      InitInv(n, k);
      SumConstant(a.left, k);
      while exists t :: 0 <= t < |pcs| && !pcs[t].Asleep? && !pcs[t].Done?
        invariant Inv(View(), a) && NoLostWakeUp(View()) && |pcs| == n
        invariant AtomicLock.Owed(a) == n * k
        decreases Measure(View()) + 4 * budget
      {
        budget, a := ScheduleOne(budget, a);
      }
      assert Quiescent(View());
      QuiescentIsDone(View(), a);
      SumConstant(a.left, 0);
    }
  }
}
