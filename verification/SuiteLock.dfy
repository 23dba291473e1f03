/** The conformance suite's mutex and the contexts that increment through it, as a step
    system: one step per access to a shared word, in any interleaving. */
module SuiteLock {
  import opened Steps
  import opened Sums
  import AtomicLock

  /** Where a context stands; each value but the last names the access it makes next.
        Try       compare-exchange of the word, 0 to 1
        Exchange  exchange of the word to 2, inside the loop
        Wait      kal_task_wait on the value 2
        Asleep    suspended on the word
        Read      read of the counter
        Write     store of the counter, one above the value read
        Unlock    exchange of the word to 0
        Wake      kal_task_wake of at most one context
        Done      all increments made */
  datatype Pc = Try | Exchange | Wait | Asleep | Read | Write(seen: nat) | Unlock | Wake | Done

  /** `left[t]` counts the increments context `t` has not unlocked after. */
  datatype State = State(word: nat, counter: nat, pcs: seq<Pc>, left: seq<nat>)

  ghost predicate WellFormed(s: State) {
    |s.pcs| == |s.left|
  }

  function Loop(left: nat): Pc {
    if left == 0 then Done else Try
  }

  function Init(n: nat, k: nat): State {
    State(0, 0, seq(n, _ => Loop(k)), seq(n, _ => k))
  }

  predicate SomeAsleep(pcs: seq<Pc>) {
    exists u :: 0 <= u < |pcs| && pcs[u].Asleep?
  }

  predicate Enabled(s: State, step: Step) {
    match step
    case Access(t) =>
      && t < |s.pcs|
      && !s.pcs[t].Asleep? && !s.pcs[t].Done?
      && (s.pcs[t].Unlock? ==> t < |s.left| && s.left[t] > 0)
      && (s.pcs[t].Wake? ==> t < |s.left|)
    case WakeOf(t, u) =>
      && t < |s.pcs| && t < |s.left| && s.pcs[t].Wake?
      && u < |s.pcs| && s.pcs[u].Asleep?
    case Spurious(t) => t < |s.pcs| && s.pcs[t].Asleep?
  }

  function Next(s: State, step: Step): State
    requires Enabled(s, step)
  {
    match step
    case WakeOf(t, u) => s.(pcs := s.pcs[u := Exchange][t := Loop(s.left[t])])
    case Spurious(t) => s.(pcs := s.pcs[t := Exchange])
    case Access(t) =>
      match s.pcs[t]
      case Try =>
        if s.word == 0 then s.(word := 1, pcs := s.pcs[t := Read])
        else s.(pcs := s.pcs[t := Exchange])
      case Exchange => s.(word := 2, pcs := s.pcs[t := if s.word == 0 then Read else Wait])
      case Wait => s.(pcs := s.pcs[t := if s.word == 2 then Asleep else Exchange])
      case Read => s.(pcs := s.pcs[t := Write(s.counter)])
      case Write(seen) => s.(counter := seen + 1, pcs := s.pcs[t := Unlock])
      case Unlock =>
        s.(word := 0, left := s.left[t := s.left[t] - 1],
           pcs := s.pcs[t := if s.word == 2 then Wake else Loop(s.left[t] - 1)])
      case Wake => s.(pcs := s.pcs[t := Loop(s.left[t])])
  }

  predicate IsRun(s: State, steps: seq<Step>)
    decreases |steps|
  {
    |steps| == 0 || (Enabled(s, steps[0]) && IsRun(Next(s, steps[0]), steps[1..]))
  }

  function After(s: State, steps: seq<Step>): State
    requires IsRun(s, steps)
    decreases |steps|
  {
    if |steps| == 0 then s else After(Next(s, steps[0]), steps[1..])
  }

  /** A wake takes a sleeper where there is one. Nothing but progress needs it. */
  predicate Takes(s: State, step: Step) {
    step.Access? && step.t < |s.pcs| && s.pcs[step.t].Wake? ==> !SomeAsleep(s.pcs)
  }

  predicate WakesTake(s: State, steps: seq<Step>)
    requires IsRun(s, steps)
    decreases |steps|
  {
    |steps| == 0 || (Takes(s, steps[0]) && WakesTake(Next(s, steps[0]), steps[1..]))
  }

  // ----- What every step keeps

  predicate InCritical(p: Pc) {
    p.Read? || p.Write? || p.Unlock?
  }

  /** The context is about to wake a sleeper, or awake and about to exchange 2. */
  predicate WillAct(p: Pc) {
    p.Wake? || p.Exchange?
  }

  ghost predicate NoLostWakeUp(s: State) {
    SomeAsleep(s.pcs) ==> s.word == 2 || exists t :: 0 <= t < |s.pcs| && WillAct(s.pcs[t])
  }

  /** The concrete state stands for the atomic lock's state `a`. */
  ghost predicate Represents(s: State, a: AtomicLock.Spec) {
    && s.counter == a.counter
    && s.left == a.left
    && (forall t :: 0 <= t < |s.pcs| && InCritical(s.pcs[t]) ==>
          a.holder == AtomicLock.Held(t, s.pcs[t].Unlock?))
    && (a.holder.Held? ==> a.holder.who < |s.pcs| && InCritical(s.pcs[a.holder.who]))
  }

  ghost predicate Inv(s: State, a: AtomicLock.Spec) {
    && WellFormed(s)
    && Represents(s, a)
    && s.word <= 2
    && (s.word == 0 <==> a.holder.Free?)
    && (forall t :: 0 <= t < |s.pcs| && s.pcs[t].Write? ==> s.pcs[t].seen == s.counter)
    && (forall t :: 0 <= t < |s.pcs| && s.pcs[t].Done? ==> s.left[t] == 0)
    && (forall t :: 0 <= t < |s.pcs| && !s.pcs[t].Done? && !s.pcs[t].Wake? ==> s.left[t] > 0)
  }

  /** The atomic event a concrete step is: acquisition at the successful compare-exchange or
      the exchange that found 0, release at the exchange to 0, and nothing otherwise. */
  function EventOf(s: State, step: Step): AtomicLock.Event
    requires Enabled(s, step)
  {
    if !step.Access? then AtomicLock.Stutter
    else
      match s.pcs[step.t]
      case Try => if s.word == 0 then AtomicLock.Acquire(step.t) else AtomicLock.Stutter
      case Exchange => if s.word == 0 then AtomicLock.Acquire(step.t) else AtomicLock.Stutter
      case Write(_) => AtomicLock.Increment(step.t)
      case Unlock => AtomicLock.Release(step.t)
      case _ => AtomicLock.Stutter
  }

  function EventsOf(s: State, steps: seq<Step>): seq<AtomicLock.Event>
    requires IsRun(s, steps)
    decreases |steps|
  {
    if |steps| == 0 then []
    else [EventOf(s, steps[0])] + EventsOf(Next(s, steps[0]), steps[1..])
  }

  lemma InitInv(n: nat, k: nat)
    ensures Inv(Init(n, k), AtomicLock.Init(n, k))
  {}

  lemma StepKeepsNoLostWakeUp(s: State, a: AtomicLock.Spec, step: Step)
    requires Inv(s, a) && NoLostWakeUp(s) && Enabled(s, step) && Takes(s, step)
    ensures NoLostWakeUp(Next(s, step))
  {
    var s' := Next(s, step);
    if SomeAsleep(s'.pcs) && s'.word != 2 {
      if step.WakeOf? {
        assert step.sleeper != step.t;
        assert WillAct(s'.pcs[step.sleeper]);
      } else if step.Spurious? {
        assert WillAct(s'.pcs[step.t]);
      } else if WillAct(s'.pcs[step.t]) {
      } else {
        assert SomeAsleep(s.pcs);
        var t :| 0 <= t < |s.pcs| && WillAct(s.pcs[t]);
        assert t != step.t;
        assert WillAct(s'.pcs[t]);
      }
    }
  }

  ghost predicate Refines(s: State, a: AtomicLock.Spec, step: Step)
    requires Enabled(s, step)
  {
    && AtomicLock.Allowed(a, EventOf(s, step))
    && Inv(Next(s, step), AtomicLock.Apply(a, EventOf(s, step)))
  }

  lemma LockRefines(s: State, a: AtomicLock.Spec, t: nat)
    requires Inv(s, a) && Enabled(s, Access(t)) && (s.pcs[t].Try? || s.pcs[t].Exchange? || s.pcs[t].Wait?)
    ensures Refines(s, a, Access(t))
  {}

  lemma IncrementRefines(s: State, a: AtomicLock.Spec, t: nat)
    requires Inv(s, a) && Enabled(s, Access(t)) && (s.pcs[t].Read? || s.pcs[t].Write?)
    ensures Refines(s, a, Access(t))
  {}

  lemma UnlockRefines(s: State, a: AtomicLock.Spec, t: nat)
    requires Inv(s, a) && Enabled(s, Access(t)) && (s.pcs[t].Unlock? || s.pcs[t].Wake?)
    ensures Refines(s, a, Access(t))
  {}

  lemma WakeRefines(s: State, a: AtomicLock.Spec, t: nat, u: nat)
    requires Inv(s, a) && Enabled(s, WakeOf(t, u))
    ensures Refines(s, a, WakeOf(t, u))
  {}

  lemma SpuriousRefines(s: State, a: AtomicLock.Spec, t: nat)
    requires Inv(s, a) && Enabled(s, Spurious(t))
    ensures Refines(s, a, Spurious(t))
  {}

  /** One concrete step is one allowed atomic event, and the invariant survives it. */
  lemma StepRefines(s: State, a: AtomicLock.Spec, step: Step)
    requires Inv(s, a) && Enabled(s, step)
    ensures Refines(s, a, step)
  {
    match step
    case WakeOf(t, u) => WakeRefines(s, a, t, u);
    case Spurious(t) => SpuriousRefines(s, a, t);
    case Access(t) =>
      if s.pcs[t].Read? || s.pcs[t].Write? {
        IncrementRefines(s, a, t);
      } else if s.pcs[t].Unlock? || s.pcs[t].Wake? {
        UnlockRefines(s, a, t);
      } else {
        LockRefines(s, a, t);
      }
  }

  // ----- Safety over every run, spurious returns included

  /** Every run of the contexts is a run of the atomic lock. */
  lemma {:induction false} RunRefines(s: State, a: AtomicLock.Spec, steps: seq<Step>)
    requires Inv(s, a) && IsRun(s, steps)
    ensures AtomicLock.IsRun(a, EventsOf(s, steps))
    ensures Inv(After(s, steps), AtomicLock.After(a, EventsOf(s, steps)))
    decreases |steps|
  {
    if |steps| > 0 {
      StepRefines(s, a, steps[0]);
      var a' := AtomicLock.Apply(a, EventOf(s, steps[0]));
      RunRefines(Next(s, steps[0]), a', steps[1..]);
      assert EventsOf(s, steps)[1..] == EventsOf(Next(s, steps[0]), steps[1..]);
    }
  }

  lemma {:induction false} RunKeepsNoLostWakeUp(s: State, a: AtomicLock.Spec, steps: seq<Step>)
    requires Inv(s, a) && NoLostWakeUp(s) && IsRun(s, steps) && WakesTake(s, steps)
    ensures NoLostWakeUp(After(s, steps))
    decreases |steps|
  {
    if |steps| > 0 {
      StepKeepsNoLostWakeUp(s, a, steps[0]);
      StepRefines(s, a, steps[0]);
      RunKeepsNoLostWakeUp(Next(s, steps[0]), AtomicLock.Apply(a, EventOf(s, steps[0])), steps[1..]);
    }
  }

  ghost function SpecAfter(n: nat, k: nat, steps: seq<Step>): (a: AtomicLock.Spec)
    requires IsRun(Init(n, k), steps)
    ensures Inv(After(Init(n, k), steps), a)
  {
    InitInv(n, k);
    RunRefines(Init(n, k), AtomicLock.Init(n, k), steps);
    AtomicLock.After(AtomicLock.Init(n, k), EventsOf(Init(n, k), steps))
  }

  /** At most one context is between its acquisition and its release. */
  lemma MutualExclusion(n: nat, k: nat, steps: seq<Step>, t: nat, u: nat)
    requires IsRun(Init(n, k), steps)
    requires var s := After(Init(n, k), steps);
             t < |s.pcs| && u < |s.pcs| && InCritical(s.pcs[t]) && InCritical(s.pcs[u])
    ensures t == u
    ensures After(Init(n, k), steps).word != 0
  {
    var a := SpecAfter(n, k, steps);
  }

  /** Increments made but not yet unlocked after: one while the holder is about to unlock. */
  ghost function Unreleased(s: State): nat {
    if exists t :: 0 <= t < |s.pcs| && s.pcs[t].Unlock? then 1 else 0
  }

  /** The counter is the number of increments completed, in every reachable state, and the
      value a context read in the critical section is current until it writes it back. */
  lemma CounterIsExact(n: nat, k: nat, steps: seq<Step>)
    requires IsRun(Init(n, k), steps)
    ensures var s := After(Init(n, k), steps);
      && s.counter + Sum(s.left) == n * k + Unreleased(s)
      && forall t :: 0 <= t < |s.pcs| && s.pcs[t].Write? ==> s.pcs[t].seen == s.counter
  {
    var a := SpecAfter(n, k, steps);
    InitInv(n, k);
    RunRefines(Init(n, k), AtomicLock.Init(n, k), steps);
    AtomicLock.CounterIsIncrementsDone(n, k, EventsOf(Init(n, k), steps));
    var s := After(Init(n, k), steps);
    if a.holder.Held? && a.holder.written {
      assert s.pcs[a.holder.who].Unlock?;
    }
  }

  /** Every context that tries the word finds it free. */
  predicate Uncontended(s: State, steps: seq<Step>)
    requires IsRun(s, steps)
    decreases |steps|
  {
    |steps| == 0
    || ((steps[0].Access? && s.pcs[steps[0].t].Try? ==> s.word == 0)
        && Uncontended(Next(s, steps[0]), steps[1..]))
  }

  /** No context is past its first try but in the critical section, and nobody is marked as waiting. */
  ghost predicate Quick(s: State) {
    s.word <= 1 && forall t :: 0 <= t < |s.pcs| ==>
      s.pcs[t].Try? || InCritical(s.pcs[t]) || s.pcs[t].Done?
  }

  lemma {:induction false} StaysQuick(s: State, a: AtomicLock.Spec, steps: seq<Step>)
    requires Inv(s, a) && Quick(s) && IsRun(s, steps) && Uncontended(s, steps)
    ensures Quick(After(s, steps))
    decreases |steps|
  {
    if |steps| > 0 {
      StepRefines(s, a, steps[0]);
      StaysQuick(Next(s, steps[0]), AtomicLock.Apply(a, EventOf(s, steps[0])), steps[1..]);
    }
  }

  /** While no context finds the word taken, none waits and no release wakes anyone. */
  lemma UncontendedIsQuick(n: nat, k: nat, steps: seq<Step>)
    requires IsRun(Init(n, k), steps) && Uncontended(Init(n, k), steps)
    ensures Quick(After(Init(n, k), steps))
  {
    InitInv(n, k);
    StaysQuick(Init(n, k), AtomicLock.Init(n, k), steps);
  }

  /** While a context is suspended, the word is 2, or a context is about to wake one, or an
      awake context is about to exchange 2. */
  lemma NoLostWakeUpEver(n: nat, k: nat, steps: seq<Step>, u: nat)
    requires IsRun(Init(n, k), steps) && WakesTake(Init(n, k), steps)
    requires u < |After(Init(n, k), steps).pcs| && After(Init(n, k), steps).pcs[u].Asleep?
    ensures var s := After(Init(n, k), steps);
      s.word == 2 || exists t :: 0 <= t < |s.pcs| && WillAct(s.pcs[t])
  {
    InitInv(n, k);
    RunKeepsNoLostWakeUp(Init(n, k), AtomicLock.Init(n, k), steps);
  }

  /** "Suspended implies the word is 2" is not kept: the holder's unlock clears the word
      while the sleeper it will wake is still suspended. */
  lemma SleeperWithClearWord() returns (steps: seq<Step>)
    ensures IsRun(Init(2, 1), steps)
    ensures After(Init(2, 1), steps) == State(0, 1, [Wake, Asleep], [0, 1])
  {
    var s1 := State(1, 0, [Read, Try], [1, 1]);
    var s2 := State(1, 0, [Read, Exchange], [1, 1]);
    var s3 := State(2, 0, [Read, Wait], [1, 1]);
    var s4 := State(2, 0, [Read, Asleep], [1, 1]);
    var s5 := State(2, 0, [Write(0), Asleep], [1, 1]);
    var s6 := State(2, 1, [Unlock, Asleep], [1, 1]);
    var s7 := State(0, 1, [Wake, Asleep], [0, 1]);
    steps := Prefixed(s6, Access(0), s7, [], s7);
    steps := Prefixed(s5, Access(0), s6, steps, s7);
    steps := Prefixed(s4, Access(0), s5, steps, s7);
    steps := Prefixed(s3, Access(1), s4, steps, s7);
    steps := Prefixed(s2, Access(1), s3, steps, s7);
    steps := Prefixed(s1, Access(1), s2, steps, s7);
    assert Init(2, 1).pcs == [Try, Try] && Init(2, 1).left == [1, 1];
    steps := Prefixed(Init(2, 1), Access(0), s1, steps, s7);
  }

  lemma Prefixed(s: State, step: Step, s': State, rest: seq<Step>, last: State) returns (steps: seq<Step>)
    requires Enabled(s, step) && Next(s, step) == s'
    requires IsRun(s', rest) && After(s', rest) == last
    ensures IsRun(s, steps) && After(s, steps) == last
  {
    steps := [step] + rest;
    assert steps[1..] == rest;
  }

  lemma {:induction false} Appended(s: State, steps: seq<Step>, step: Step)
    requires IsRun(s, steps) && Enabled(After(s, steps), step)
    ensures IsRun(s, steps + [step]) && After(s, steps + [step]) == Next(After(s, steps), step)
    decreases |steps|
  {
    if |steps| == 0 {
      assert steps + [step] == [step] && After(Next(s, step), []) == Next(s, step);
    } else {
      assert (steps + [step])[1..] == steps[1..] + [step];
      Appended(Next(s, steps[0]), steps[1..], step);
    }
  }

  /** Progress needs a wake to take a sleeper where there is one: in this run it takes nobody, and
      the sleeper is left, its increment not made, with no step left but a spurious return. */
  lemma WakeOfNobodyStrands() returns (steps: seq<Step>)
    ensures IsRun(Init(2, 1), steps) && Quiescent(After(Init(2, 1), steps))
    ensures After(Init(2, 1), steps) == State(0, 1, [Done, Asleep], [0, 1])
  {
    var before := SleeperWithClearWord();
    Appended(Init(2, 1), before, Access(0));
    steps := before + [Access(0)];
  }

  // ----- Termination

  /** How many accesses a context can make before the word changes under it, by where it
      stands and what the word holds. */
  function Rank(p: Pc, word: nat): (r: nat)
    ensures r <= 8
  {
    match p
    case Try => 4
    case Exchange => 3
    case Wait => if word == 2 then 1 else 4
    case Asleep => 0
    case Read => 2
    case Write(_) => 1
    case Unlock => 0
    case Wake => 8
    case Done => 0
  }

  function Ranks(pcs: seq<Pc>, word: nat): (r: seq<nat>)
    ensures |r| == |pcs|
    ensures forall t :: 0 <= t < |r| ==> r[t] == Rank(pcs[t], word)
  {
    seq(|pcs|, t requires 0 <= t < |pcs| => Rank(pcs[t], word))
  }

  /** Each unlock outweighs all the ranks it can raise. */
  function Measure(s: State): nat {
    (8 * |s.pcs| + 1) * Sum(s.left) + Sum(Ranks(s.pcs, s.word))
  }

  lemma UnlockDrops(s: State, t: nat)
    requires WellFormed(s) && Enabled(s, Access(t)) && s.pcs[t].Unlock?
    ensures Measure(Next(s, Access(t))) < Measure(s)
  {
    var s' := Next(s, Access(t));
    var c, l := 8 * |s.pcs| + 1, Sum(s.left);
    SumUpdate(s.left, t, s.left[t] - 1);
    SumBound(Ranks(s'.pcs, s'.word), 8);
    assert c * (l - 1) == c * l - c;
  }

  /** A step that changes at most the rank of `t`, and raises no other, drops the measure. */
  lemma OneDrops(s: State, s': State, t: nat)
    requires s.left == s'.left && |s.pcs| == |s'.pcs| && t < |s.pcs|
    requires Rank(s'.pcs[t], s'.word) < Rank(s.pcs[t], s.word)
    requires forall u :: 0 <= u < |s.pcs| && u != t ==> Rank(s'.pcs[u], s'.word) <= Rank(s.pcs[u], s.word)
    ensures Measure(s') < Measure(s)
  {
    var r, r' := Ranks(s.pcs, s.word), Ranks(s'.pcs, s'.word);
    SumUpdate(r, t, r'[t]);
    SumMonotone(r', r[t := r'[t]]);
  }

  lemma WakeDrops(s: State, t: nat, u: nat)
    requires WellFormed(s) && Enabled(s, WakeOf(t, u))
    ensures Measure(Next(s, WakeOf(t, u))) < Measure(s)
  {
    var s' := Next(s, WakeOf(t, u));
    var r := Ranks(s.pcs, s.word);
    SumUpdate(r, u, 3);
    var r1: seq<nat> := r[u := 3];
    SumUpdate(r1, t, Rank(s'.pcs[t], s.word));
    assert Ranks(s'.pcs, s.word) == r1[t := Rank(s'.pcs[t], s.word)];
  }

  lemma StepDrops(s: State, step: Step)
    requires WellFormed(s) && s.word <= 2 && Enabled(s, step) && !step.Spurious?
    ensures Measure(Next(s, step)) < Measure(s)
  {
    if step.WakeOf? {
      WakeDrops(s, step.t, step.sleeper);
    } else if s.pcs[step.t].Unlock? {
      UnlockDrops(s, step.t);
    } else {
      OneDrops(s, Next(s, step), step.t);
    }
  }

  lemma SpuriousCost(s: State, t: nat)
    requires WellFormed(s) && Enabled(s, Spurious(t))
    ensures Measure(Next(s, Spurious(t))) == Measure(s) + 3
  {
    var r := Ranks(s.pcs, s.word);
    SumUpdate(r, t, 3);
    assert Ranks(Next(s, Spurious(t)).pcs, s.word) == r[t := 3];
  }

  lemma {:induction false} LengthBound(s: State, a: AtomicLock.Spec, steps: seq<Step>)
    requires Inv(s, a) && IsRun(s, steps)
    ensures |steps| + Measure(After(s, steps)) <= Measure(s) + 4 * SpuriousReturns(steps)
    decreases |steps|
  {
    if |steps| > 0 {
      StepRefines(s, a, steps[0]);
      if steps[0].Spurious? {
        SpuriousCost(s, steps[0].t);
      } else {
        StepDrops(s, steps[0]);
      }
      LengthBound(Next(s, steps[0]), AtomicLock.Apply(a, EventOf(s, steps[0])), steps[1..]);
    }
  }

  lemma InitMeasure(n: nat, k: nat)
    ensures Measure(Init(n, k)) <= (8 * n + 1) * (n * k) + 4 * n
  {
    var s := Init(n, k);
    SumConstant(s.left, k);
    SumBound(Ranks(s.pcs, s.word), 4);
    var rounds := n * k;
    assert Sum(s.left) == rounds;
  }

  /** No run is infinite unless wait returns spuriously without end: N contexts making K
      increments take at most this many steps. */
  lemma RunsAreFinite(n: nat, k: nat, steps: seq<Step>)
    requires IsRun(Init(n, k), steps)
    ensures |steps| <= (8 * n + 1) * (n * k) + 4 * n + 4 * SpuriousReturns(steps)
  {
    InitInv(n, k);
    LengthBound(Init(n, k), AtomicLock.Init(n, k), steps);
    InitMeasure(n, k);
  }

  /** Nothing but a spurious return can happen. */
  ghost predicate Quiescent(s: State) {
    forall step :: Enabled(s, step) ==> step.Spurious?
  }

  lemma AwakeCanMove(s: State, a: AtomicLock.Spec, t: nat)
    requires Inv(s, a) && t < |s.pcs| && !s.pcs[t].Done? && !s.pcs[t].Asleep?
    ensures !Quiescent(s)
  {
    if s.pcs[t].Wake? && SomeAsleep(s.pcs) {
      var u :| 0 <= u < |s.pcs| && s.pcs[u].Asleep?;
      assert Enabled(s, WakeOf(t, u));
    } else {
      assert Enabled(s, Access(t));
    }
  }

  lemma SleeperIsNotAlone(s: State, a: AtomicLock.Spec, u: nat) returns (t: nat)
    requires Inv(s, a) && NoLostWakeUp(s) && u < |s.pcs| && s.pcs[u].Asleep?
    ensures t < |s.pcs| && !s.pcs[t].Done? && !s.pcs[t].Asleep?
  {
    if s.word == 2 {
      t := a.holder.who;
    } else {
      t :| 0 <= t < |s.pcs| && WillAct(s.pcs[t]);
    }
  }

  lemma QuiescentIsDone(s: State, a: AtomicLock.Spec)
    requires Inv(s, a) && NoLostWakeUp(s) && Quiescent(s)
    ensures forall t :: 0 <= t < |s.pcs| ==> s.pcs[t] == Done
    ensures s.word == 0
  {
    forall t | 0 <= t < |s.pcs| ensures s.pcs[t].Done? {
      if s.pcs[t].Asleep? {
        var w := SleeperIsNotAlone(s, a, t);
        AwakeCanMove(s, a, w);
      } else if !s.pcs[t].Done? {
        AwakeCanMove(s, a, t);
      }
    }
  }

  /** No run gets stuck: where nothing but a spurious return is left to happen, every context
      has finished, the word is 0 and no increment was lost. */
  lemma RunsEndWithTheExactCount(n: nat, k: nat, steps: seq<Step>)
    requires IsRun(Init(n, k), steps) && WakesTake(Init(n, k), steps) && Quiescent(After(Init(n, k), steps))
    ensures var s := After(Init(n, k), steps);
      && |s.pcs| == n
      && (forall t :: 0 <= t < n ==> s.pcs[t] == Done)
      && s.word == 0
      && s.counter == n * k
  {
    var s, a := After(Init(n, k), steps), SpecAfter(n, k, steps);
    InitInv(n, k);
    RunKeepsNoLostWakeUp(Init(n, k), AtomicLock.Init(n, k), steps);
    QuiescentIsDone(s, a);
    RunRefines(Init(n, k), AtomicLock.Init(n, k), steps);
    AtomicLock.CounterIsIncrementsDone(n, k, EventsOf(Init(n, k), steps));
    SumConstant(s.left, 0);
  }

  /** And every context has made its own K increments, each between an acquisition and a
      release of its own. */
  lemma EachContextDoesItsShare(n: nat, k: nat, steps: seq<Step>, t: nat)
    requires IsRun(Init(n, k), steps) && WakesTake(Init(n, k), steps) && Quiescent(After(Init(n, k), steps)) && t < n
    ensures AtomicLock.Count(EventsOf(Init(n, k), steps), t) == (k, k, k)
  {
    var s, es := After(Init(n, k), steps), EventsOf(Init(n, k), steps);
    InitInv(n, k);
    RunKeepsNoLostWakeUp(Init(n, k), AtomicLock.Init(n, k), steps);
    RunRefines(Init(n, k), AtomicLock.Init(n, k), steps);
    QuiescentIsDone(s, AtomicLock.After(AtomicLock.Init(n, k), es));
    AtomicLock.EachDoesItsShare(n, k, es, t);
  }
}
