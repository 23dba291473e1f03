/** The context that sets a word and wakes, and the one that waits on it, as two programs over
    shared cells; one step per access, in any interleaving. */
module Handshake {

  /** Identify   store of the context's identity
      Ran        store of 1 to the flag that says it ran
      Set        store of 1 to the word
      Wake       kal_task_wake of at most one context
      Ended      the context has returned */
  datatype Setter = Identify | Ran | Set | Wake | Ended

  /** Load       load of the word, the condition of the waiting loop
      Wait       kal_task_wait on the value 0
      Asleep     suspended on the word
      Check      load of the flag, after the loop
      Passed     what the flag held */
  datatype Waiter = Load | Wait | Asleep | Check | Passed(flag: nat)

  datatype Cell = Unset | Holds(identity: nat)

  datatype State = State(word: nat, flag: nat, stored: Cell, setter: Setter, waiter: Waiter)

  datatype Step = SetterStep | WaiterStep | Spurious

  const INIT := State(0, 0, Unset, Identify, Load)

  predicate Enabled(s: State, step: Step) {
    match step
    case SetterStep => !s.setter.Ended?
    case WaiterStep => !s.waiter.Asleep? && !s.waiter.Passed?
    case Spurious => s.waiter.Asleep?
  }

  /** `me` is the identity the setting context is told. */
  function Next(s: State, step: Step, me: nat): State
    requires Enabled(s, step)
  {
    match step
    case Spurious => s.(waiter := Load)
    case SetterStep =>
      (match s.setter
       case Identify => s.(stored := Holds(me), setter := Ran)
       case Ran => s.(flag := 1, setter := Set)
       case Set => s.(word := 1, setter := Wake)
       case Wake => s.(setter := Ended, waiter := if s.waiter.Asleep? then Load else s.waiter))
    case WaiterStep =>
      (match s.waiter
       case Load => s.(waiter := if s.word == 0 then Wait else Check)
       case Wait => s.(waiter := if s.word == 0 then Asleep else Load)
       case Check => s.(waiter := Passed(s.flag)))
  }

  predicate IsRun(s: State, steps: seq<Step>, me: nat)
    decreases |steps|
  {
    |steps| == 0 || (Enabled(s, steps[0]) && IsRun(Next(s, steps[0], me), steps[1..], me))
  }

  function After(s: State, steps: seq<Step>, me: nat): State
    requires IsRun(s, steps, me)
    decreases |steps|
  {
    if |steps| == 0 then s else After(Next(s, steps[0], me), steps[1..], me)
  }

  ghost predicate Inv(s: State, me: nat) {
    && (s.stored == if s.setter.Identify? then Unset else Holds(me))
    && (s.flag == if s.setter.Identify? || s.setter.Ran? then 0 else 1)
    && (s.word == if s.setter.Wake? || s.setter.Ended? then 1 else 0)
    && (s.waiter.Check? || s.waiter.Passed? ==> s.word == 1)
    && (s.waiter.Passed? ==> s.waiter.flag == 1)
    && (s.waiter.Asleep? ==> !s.setter.Ended?)
  }

  lemma StepKeepsInv(s: State, step: Step, me: nat)
    requires Inv(s, me) && Enabled(s, step)
    ensures Inv(Next(s, step, me), me)
  {}

  lemma {:induction false} RunKeepsInv(s: State, steps: seq<Step>, me: nat)
    requires Inv(s, me) && IsRun(s, steps, me)
    ensures Inv(After(s, steps, me), me)
    decreases |steps|
  {
    if |steps| > 0 {
      StepKeepsInv(s, steps[0], me);
      RunKeepsInv(Next(s, steps[0], me), steps[1..], me);
    }
  }

  /** Past the loop, the started context has run and its identity is stored; and nobody is
      left suspended by a context that has finished its wake. */
  lemma ExitSeesTheSetter(steps: seq<Step>, me: nat)
    requires IsRun(INIT, steps, me)
    ensures var s := After(INIT, steps, me);
      && (s.waiter.Check? || s.waiter.Passed? ==> s.flag == 1 && s.stored == Holds(me))
      && (s.waiter.Passed? ==> s.waiter.flag == 1)
      && (s.setter.Ended? ==> !s.waiter.Asleep?)
  {
    RunKeepsInv(INIT, steps, me);
  }

  function Measure(s: State): nat {
    (match s.setter
     case Identify => 12
     case Ran => 9
     case Set => 6
     case Wake => 3
     case Ended => 0)
    + (match s.waiter
       case Load => 2
       case Wait => if s.word == 0 then 1 else 3
       case Asleep => 0
       case Check => 1
       case Passed(_) => 0)
  }

  function SpuriousReturns(steps: seq<Step>): nat {
    if |steps| == 0 then 0
    else (if steps[0].Spurious? then 1 else 0) + SpuriousReturns(steps[1..])
  }

  lemma {:induction false} LengthBound(s: State, steps: seq<Step>, me: nat)
    requires Inv(s, me) && IsRun(s, steps, me)
    ensures |steps| + Measure(After(s, steps, me)) <= Measure(s) + 3 * SpuriousReturns(steps)
    decreases |steps|
  {
    if |steps| > 0 {
      StepKeepsInv(s, steps[0], me);
      LengthBound(Next(s, steps[0], me), steps[1..], me);
    }
  }

  /** Every interleaving is short, and where nothing but a spurious return is left to happen
      the setter has ended and the waiter has passed and seen it run. */
  lemma HandshakeCompletes(steps: seq<Step>, me: nat)
    requires IsRun(INIT, steps, me)
    ensures |steps| <= 14 + 3 * SpuriousReturns(steps)
    ensures var s := After(INIT, steps, me);
      (forall step :: Enabled(s, step) ==> step.Spurious?) ==>
        s.setter.Ended? && s.waiter == Passed(1) && s.stored == Holds(me)
  {
    LengthBound(INIT, steps, me);
    RunKeepsInv(INIT, steps, me);
    var s := After(INIT, steps, me);
    assert !s.setter.Ended? ==> Enabled(s, SetterStep);
    assert !s.waiter.Asleep? && !s.waiter.Passed? ==> Enabled(s, WaiterStep);
  }

  /** The shared cells, and the two contexts' code on them, one access at a time. */
  class Cells {
    var word: nat
    var flag: nat
    var stored: Cell
    var setter: Setter
    var waiter: Waiter

    ghost function View(): State
      reads this
    {
      State(word, flag, stored, setter, waiter)
    }

    constructor ()
      ensures View() == INIT
    {
      word, flag, stored, setter, waiter := 0, 0, Unset, Identify, Load;
    }

    method SetsTheWord(me: nat)
      requires Enabled(View(), SetterStep)
      modifies this
      ensures View() == Next(old(View()), SetterStep, me)
    {
      match setter
      case Identify => stored := Holds(me); setter := Ran;
      case Ran => flag := 1; setter := Set;
      case Set => word := 1; setter := Wake;
      case Wake =>
        if waiter.Asleep? { waiter := Load; }
        setter := Ended;
    }

    method WaitsForTheWord()
      requires Enabled(View(), WaiterStep)
      modifies this
      ensures View() == Next(old(View()), WaiterStep, 0)
    {
      match waiter
      case Load => waiter := if word == 0 then Wait else Check;
      case Wait => waiter := if word == 0 then Asleep else Load;
      case Check => waiter := Passed(flag);
    }

    /** However the two are interleaved, and whenever the wait returns for nothing, up to
        `spurious` times, both finish and the identity is there to be read. */
    method RunBoth(me: nat, spurious: nat)
      requires View() == INIT
      modifies this
      ensures setter.Ended? && waiter == Passed(1) && stored == Holds(me)
    {
      var budget := spurious;
      while !setter.Ended? || !waiter.Passed?
        invariant Inv(View(), me)
        decreases Measure(View()) + 3 * budget
      {
        ghost var s := View();
        var turn: bool, stray: bool := *, *;
        if stray && budget > 0 && waiter.Asleep? {
          StepKeepsInv(s, Spurious, me);
          waiter, budget := Load, budget - 1;
        } else if !setter.Ended? && (turn || waiter.Asleep? || waiter.Passed?) {
          StepKeepsInv(s, SetterStep, me);
          SetsTheWord(me);
        } else {
          StepKeepsInv(s, WaiterStep, me);
          WaitsForTheWord();
        }
      }
    }
  }
}
