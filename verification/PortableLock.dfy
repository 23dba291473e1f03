/** The portable example's lock and the contexts that count through it, as a step system:
    one step per access to a shared word, in any interleaving. */
module PortableLock {
  import opened Steps
  import opened Sums
  import AtomicLock

  const MAX_U32: nat := 0xFFFF_FFFF
  const MAX_U64: nat := 0xFFFF_FFFF_FFFF_FFFF

  /** One less in thirty-two bits, as fetch_sub computes it. */
  function Decrement32(x: nat): nat {
    if x == 0 then MAX_U32 else x - 1
  }

  /** One more in sixty-four bits, as `++counter` computes it. */
  function Increment64(x: nat): nat {
    if x == MAX_U64 then 0 else x + 1
  }

  /** What a counter that starts at 0 holds after `n` increments. */
  function Wrapped(n: nat): nat {
    if n == 0 then 0 else Increment64(Wrapped(n - 1))
  }

  lemma OneMoreModulo(n: nat)
    ensures (n + 1) % (MAX_U64 + 1) == Increment64(n % (MAX_U64 + 1))
  {
    var q, r := n / (MAX_U64 + 1), n % (MAX_U64 + 1);
    assert n == (MAX_U64 + 1) * q + r;
    if r == MAX_U64 {
      assert n + 1 == (MAX_U64 + 1) * (q + 1);
    }
  }

  lemma {:induction false} WrappedIsModulo(n: nat)
    ensures Wrapped(n) == n % (MAX_U64 + 1)
  {
    if n > 0 {
      WrappedIsModulo(n - 1);
      OneMoreModulo(n - 1);
    }
  }

  /** Where a context stands; each value but the last names the access it makes next.
        Try       compare-exchange of the word, 0 to 1
        Load      load of the word, at the head of the slow loop
        Mark      compare-exchange of the word, 1 to 2
        Wait      kal_task_wait on the value 2
        Asleep    suspended on the word
        Retry     compare-exchange of the word, 0 to 2
        Read      read of the counter
        Write     store of the counter, one above the value read
        Sub       fetch_sub of the word
        Store     store of 0 to the word, after a fetch_sub that did not see 1
        Wake      kal_task_wake of at most one context
        Done      all increments made */
  datatype Pc =
    | Try | Load | Mark | Wait | Asleep | Retry | Read | Write(seen: nat) | Sub | Store | Wake | Done

  /** `left[t]` counts the rounds context `t` has not released after. */
  datatype State = State(word: nat, counter: nat, pcs: seq<Pc>, left: seq<nat>)

  ghost predicate WellFormed(s: State) {
    |s.pcs| == |s.left|
  }

  function Loop(left: nat): Pc {
    if left == 0 then Done else Try
  }

  function Init(n: nat, k: nat): State {
    State(0, 0, seq(n, _ => Loop(k)), seq(n, _ => k))
  }

  predicate SomeAsleep(pcs: seq<Pc>) {
    exists u :: 0 <= u < |pcs| && pcs[u].Asleep?
  }

  predicate Enabled(s: State, step: Step) {
    match step
    case Access(t) =>
      && t < |s.pcs|
      && !s.pcs[t].Asleep? && !s.pcs[t].Done?
      && (s.pcs[t].Sub? || s.pcs[t].Store? ==> t < |s.left| && s.left[t] > 0)
      && (s.pcs[t].Wake? ==> t < |s.left|)
    case WakeOf(t, u) =>
      && t < |s.pcs| && t < |s.left| && s.pcs[t].Wake?
      && u < |s.pcs| && s.pcs[u].Asleep?
    case Spurious(t) => t < |s.pcs| && s.pcs[t].Asleep?
  }

  /** A release that takes effect: the word becomes 0 and one round of `t` is over. */
  function Released(s: State, t: nat, pc: Pc): State
    requires t < |s.pcs| && t < |s.left| && s.left[t] > 0
  {
    s.(word := 0, pcs := s.pcs[t := pc], left := s.left[t := s.left[t] - 1])
  }

  function Next(s: State, step: Step): State
    requires Enabled(s, step)
  {
    match step
    case WakeOf(t, u) => s.(pcs := s.pcs[u := Retry][t := Loop(s.left[t])])
    case Spurious(t) => s.(pcs := s.pcs[t := Retry])
    case Access(t) =>
      match s.pcs[t]
      case Try =>
        if s.word == 0 then s.(word := 1, pcs := s.pcs[t := Read])
        else s.(pcs := s.pcs[t := Load])
      case Load => s.(pcs := s.pcs[t := if s.word == 2 then Wait else Mark])
      case Mark =>
        if s.word == 1 then s.(word := 2, pcs := s.pcs[t := Wait])
        else s.(pcs := s.pcs[t := Retry])
      case Wait => s.(pcs := s.pcs[t := if s.word == 2 then Asleep else Retry])
      case Retry =>
        if s.word == 0 then s.(word := 2, pcs := s.pcs[t := Read])
        else s.(pcs := s.pcs[t := Load])
      case Read => s.(pcs := s.pcs[t := Write(s.counter)])
      case Write(seen) => s.(counter := Increment64(seen), pcs := s.pcs[t := Sub])
      case Sub =>
        if s.word == 1 then Released(s, t, Loop(s.left[t] - 1))
        else s.(word := Decrement32(s.word), pcs := s.pcs[t := Store])
      case Store => Released(s, t, Wake)
      case Wake => s.(pcs := s.pcs[t := Loop(s.left[t])])
  }

  predicate IsRun(s: State, steps: seq<Step>)
    decreases |steps|
  {
    |steps| == 0 || (Enabled(s, steps[0]) && IsRun(Next(s, steps[0]), steps[1..]))
  }

  function After(s: State, steps: seq<Step>): State
    requires IsRun(s, steps)
    decreases |steps|
  {
    if |steps| == 0 then s else After(Next(s, steps[0]), steps[1..])
  }

  /** A wake takes a sleeper where there is one. Nothing but progress needs it. */
  predicate Takes(s: State, step: Step) {
    step.Access? && step.t < |s.pcs| && s.pcs[step.t].Wake? ==> !SomeAsleep(s.pcs)
  }

  predicate WakesTake(s: State, steps: seq<Step>)
    requires IsRun(s, steps)
    decreases |steps|
  {
    |steps| == 0 || (Takes(s, steps[0]) && WakesTake(Next(s, steps[0]), steps[1..]))
  }

  // ----- What every step keeps

  /** Store is critical: after a fetch_sub that saw 2 the lock is still held. */
  predicate InCritical(p: Pc) {
    p.Read? || p.Write? || p.Sub? || p.Store?
  }

  predicate Written(p: Pc) {
    p.Sub? || p.Store?
  }

  predicate InSlowLoop(p: Pc) {
    p.Load? || p.Mark? || p.Wait? || p.Retry?
  }

  /** A releaser between its fetch_sub and its wake, or an awake context in the slow loop. */
  predicate WillAct(p: Pc) {
    p.Store? || p.Wake? || InSlowLoop(p)
  }

  ghost predicate NoLostWakeUp(s: State) {
    SomeAsleep(s.pcs) ==> s.word == 2 || exists t :: 0 <= t < |s.pcs| && WillAct(s.pcs[t])
  }

  /** The concrete state stands for the atomic lock's state `a`; the counter is the number of
      increments in the width of `unsigned long long`. */
  ghost predicate Represents(s: State, a: AtomicLock.Spec) {
    && s.counter == Wrapped(a.counter)
    && s.left == a.left
    && (forall t :: 0 <= t < |s.pcs| && InCritical(s.pcs[t]) ==>
          a.holder == AtomicLock.Held(t, Written(s.pcs[t])))
    && (a.holder.Held? ==> a.holder.who < |s.pcs| && InCritical(s.pcs[a.holder.who]))
  }

  ghost predicate Inv(s: State, a: AtomicLock.Spec) {
    && WellFormed(s)
    && Represents(s, a)
    && s.word <= 2
    && (s.word == 0 <==> a.holder.Free?)
    && (forall t :: 0 <= t < |s.pcs| && s.pcs[t].Write? ==> s.pcs[t].seen == s.counter)
    && (forall t :: 0 <= t < |s.pcs| && s.pcs[t].Done? ==> s.left[t] == 0)
    && (forall t :: 0 <= t < |s.pcs| && !s.pcs[t].Done? && !s.pcs[t].Wake? ==> s.left[t] > 0)
  }

  /** The atomic event a concrete step is. Release is at the fetch_sub when it saw 1, and at
      the store of 0 otherwise. */
  function EventOf(s: State, step: Step): AtomicLock.Event
    requires Enabled(s, step)
  {
    if !step.Access? then AtomicLock.Stutter
    else
      match s.pcs[step.t]
      case Try => if s.word == 0 then AtomicLock.Acquire(step.t) else AtomicLock.Stutter
      case Retry => if s.word == 0 then AtomicLock.Acquire(step.t) else AtomicLock.Stutter
      case Write(_) => AtomicLock.Increment(step.t)
      case Sub => if s.word == 1 then AtomicLock.Release(step.t) else AtomicLock.Stutter
      case Store => AtomicLock.Release(step.t)
      case _ => AtomicLock.Stutter
  }

  function EventsOf(s: State, steps: seq<Step>): seq<AtomicLock.Event>
    requires IsRun(s, steps)
    decreases |steps|
  {
    if |steps| == 0 then []
    else [EventOf(s, steps[0])] + EventsOf(Next(s, steps[0]), steps[1..])
  }

  lemma InitInv(n: nat, k: nat)
    ensures Inv(Init(n, k), AtomicLock.Init(n, k))
  {}

  lemma StepKeepsNoLostWakeUp(s: State, a: AtomicLock.Spec, step: Step)
    requires Inv(s, a) && NoLostWakeUp(s) && Enabled(s, step) && Takes(s, step)
    ensures NoLostWakeUp(Next(s, step))
  {
    var s' := Next(s, step);
    if SomeAsleep(s'.pcs) && s'.word != 2 {
      if step.WakeOf? {
        assert step.sleeper != step.t;
        assert WillAct(s'.pcs[step.sleeper]);
      } else if step.Spurious? {
        assert WillAct(s'.pcs[step.t]);
      } else if WillAct(s'.pcs[step.t]) {
      } else {
        assert SomeAsleep(s.pcs);
        var t :| 0 <= t < |s.pcs| && WillAct(s.pcs[t]);
        assert t != step.t;
        assert WillAct(s'.pcs[t]);
      }
    }
  }

  ghost predicate Refines(s: State, a: AtomicLock.Spec, step: Step)
    requires Enabled(s, step)
  {
    && AtomicLock.Allowed(a, EventOf(s, step))
    && Inv(Next(s, step), AtomicLock.Apply(a, EventOf(s, step)))
  }

  lemma TakeRefines(s: State, a: AtomicLock.Spec, t: nat)
    requires Inv(s, a) && Enabled(s, Access(t)) && (s.pcs[t].Try? || s.pcs[t].Retry?)
    ensures Refines(s, a, Access(t))
  {}

  lemma SlowLoopRefines(s: State, a: AtomicLock.Spec, t: nat)
    requires Inv(s, a) && Enabled(s, Access(t)) && (s.pcs[t].Load? || s.pcs[t].Mark? || s.pcs[t].Wait?)
    ensures Refines(s, a, Access(t))
  {}

  lemma WakeRefines(s: State, a: AtomicLock.Spec, t: nat, u: nat)
    requires Inv(s, a) && Enabled(s, WakeOf(t, u))
    ensures Refines(s, a, WakeOf(t, u))
  {}

  lemma SpuriousRefines(s: State, a: AtomicLock.Spec, t: nat)
    requires Inv(s, a) && Enabled(s, Spurious(t))
    ensures Refines(s, a, Spurious(t))
  {}

  lemma IncrementRefines(s: State, a: AtomicLock.Spec, t: nat)
    requires Inv(s, a) && Enabled(s, Access(t)) && (s.pcs[t].Read? || s.pcs[t].Write?)
    ensures Refines(s, a, Access(t))
  {}

  lemma ReleaseRefines(s: State, a: AtomicLock.Spec, t: nat)
    requires Inv(s, a) && Enabled(s, Access(t)) && (Written(s.pcs[t]) || s.pcs[t].Wake?)
    ensures Refines(s, a, Access(t))
  {}

  /** One concrete step is one allowed atomic event, and the invariant survives it. */
  lemma StepRefines(s: State, a: AtomicLock.Spec, step: Step)
    requires Inv(s, a) && Enabled(s, step)
    ensures Refines(s, a, step)
  {
    match step
    case WakeOf(t, u) => WakeRefines(s, a, t, u);
    case Spurious(t) => SpuriousRefines(s, a, t);
    case Access(t) =>
      if s.pcs[t].Try? || s.pcs[t].Retry? {
        TakeRefines(s, a, t);
      } else if InSlowLoop(s.pcs[t]) {
        SlowLoopRefines(s, a, t);
      } else if s.pcs[t].Read? || s.pcs[t].Write? {
        IncrementRefines(s, a, t);
      } else {
        ReleaseRefines(s, a, t);
      }
  }

  // ----- Safety over every run, spurious returns included

  /** Every run of the contexts is a run of the atomic lock. */
  lemma {:induction false} RunRefines(s: State, a: AtomicLock.Spec, steps: seq<Step>)
    requires Inv(s, a) && IsRun(s, steps)
    ensures AtomicLock.IsRun(a, EventsOf(s, steps))
    ensures Inv(After(s, steps), AtomicLock.After(a, EventsOf(s, steps)))
    decreases |steps|
  {
    if |steps| > 0 {
      StepRefines(s, a, steps[0]);
      var a' := AtomicLock.Apply(a, EventOf(s, steps[0]));
      RunRefines(Next(s, steps[0]), a', steps[1..]);
      assert EventsOf(s, steps)[1..] == EventsOf(Next(s, steps[0]), steps[1..]);
    }
  }

  lemma {:induction false} RunKeepsNoLostWakeUp(s: State, a: AtomicLock.Spec, steps: seq<Step>)
    requires Inv(s, a) && NoLostWakeUp(s) && IsRun(s, steps) && WakesTake(s, steps)
    ensures NoLostWakeUp(After(s, steps))
    decreases |steps|
  {
    if |steps| > 0 {
      StepKeepsNoLostWakeUp(s, a, steps[0]);
      StepRefines(s, a, steps[0]);
      RunKeepsNoLostWakeUp(Next(s, steps[0]), AtomicLock.Apply(a, EventOf(s, steps[0])), steps[1..]);
    }
  }

  ghost function SpecAfter(n: nat, k: nat, steps: seq<Step>): (a: AtomicLock.Spec)
    requires IsRun(Init(n, k), steps)
    ensures Inv(After(Init(n, k), steps), a)
  {
    InitInv(n, k);
    RunRefines(Init(n, k), AtomicLock.Init(n, k), steps);
    AtomicLock.After(AtomicLock.Init(n, k), EventsOf(Init(n, k), steps))
  }

  /** At most one context is between its acquisition and its release. */
  lemma MutualExclusion(n: nat, k: nat, steps: seq<Step>, t: nat, u: nat)
    requires IsRun(Init(n, k), steps)
    requires var s := After(Init(n, k), steps);
             t < |s.pcs| && u < |s.pcs| && InCritical(s.pcs[t]) && InCritical(s.pcs[u])
    ensures t == u
    ensures After(Init(n, k), steps).word != 0
  {
    var a := SpecAfter(n, k, steps);
  }

  /** In no run does the fetch_sub take the word below zero: it finds 1 or 2, and the atomic
      release is its own exactly when it found 1. */
  lemma FetchSubNeverUnderflows(n: nat, k: nat, steps: seq<Step>, t: nat)
    requires IsRun(Init(n, k), steps)
    requires var s := After(Init(n, k), steps); t < |s.pcs| && s.pcs[t].Sub?
    ensures var s := After(Init(n, k), steps);
      && Enabled(s, Access(t)) && Next(s, Access(t)).word == s.word - 1
      && EventOf(s, Access(t)) == (if s.word == 1 then AtomicLock.Release(t) else AtomicLock.Stutter)
      && (s.word == 1 || s.word == 2)
  {
    var a := SpecAfter(n, k, steps);
  }

  /** Increments made but not yet released after: one while the holder is releasing. */
  ghost function Unreleased(s: State): nat {
    if exists t :: 0 <= t < |s.pcs| && Written(s.pcs[t]) then 1 else 0
  }

  /** The counter is the number of increments completed, in the counter's width, in every
      reachable state, and the value a context read in the critical section is current until
      it writes it back. */
  lemma CounterIsExact(n: nat, k: nat, steps: seq<Step>)
    requires IsRun(Init(n, k), steps)
    ensures var s := After(Init(n, k), steps);
      && Sum(s.left) <= n * k + Unreleased(s)
      && s.counter == (n * k + Unreleased(s) - Sum(s.left)) % (MAX_U64 + 1)
      && forall t :: 0 <= t < |s.pcs| && s.pcs[t].Write? ==> s.pcs[t].seen == s.counter
  {
    var a := SpecAfter(n, k, steps);
    InitInv(n, k);
    RunRefines(Init(n, k), AtomicLock.Init(n, k), steps);
    AtomicLock.CounterIsIncrementsDone(n, k, EventsOf(Init(n, k), steps));
    var s := After(Init(n, k), steps);
    if a.holder.Held? && a.holder.written {
      assert Written(s.pcs[a.holder.who]);
    }
    assert a.counter == n * k + Unreleased(s) - Sum(s.left);
    WrappedIsModulo(a.counter);
  }

  /** Every context that tries the word finds it free. */
  predicate Uncontended(s: State, steps: seq<Step>)
    requires IsRun(s, steps)
    decreases |steps|
  {
    |steps| == 0
    || ((steps[0].Access? && s.pcs[steps[0].t].Try? ==> s.word == 0)
        && Uncontended(Next(s, steps[0]), steps[1..]))
  }

  /** No context is past its first try but in the critical section, and nobody is marked as waiting. */
  ghost predicate Quick(s: State) {
    s.word <= 1 && forall t :: 0 <= t < |s.pcs| ==>
      s.pcs[t].Try? || (InCritical(s.pcs[t]) && !s.pcs[t].Store?) || s.pcs[t].Done?
  }

  lemma {:induction false} StaysQuick(s: State, a: AtomicLock.Spec, steps: seq<Step>)
    requires Inv(s, a) && Quick(s) && IsRun(s, steps) && Uncontended(s, steps)
    ensures Quick(After(s, steps))
    decreases |steps|
  {
    if |steps| > 0 {
      StepRefines(s, a, steps[0]);
      StaysQuick(Next(s, steps[0]), AtomicLock.Apply(a, EventOf(s, steps[0])), steps[1..]);
    }
  }

  /** While no context finds the word taken, none waits and no release wakes anyone. */
  lemma UncontendedIsQuick(n: nat, k: nat, steps: seq<Step>)
    requires IsRun(Init(n, k), steps) && Uncontended(Init(n, k), steps)
    ensures Quick(After(Init(n, k), steps))
  {
    InitInv(n, k);
    StaysQuick(Init(n, k), AtomicLock.Init(n, k), steps);
  }

  /** While a context is suspended, the word is 2, or a releaser is between its fetch_sub and
      its wake, or an awake context is in the slow loop. */
  lemma NoLostWakeUpEver(n: nat, k: nat, steps: seq<Step>, u: nat)
    requires IsRun(Init(n, k), steps) && WakesTake(Init(n, k), steps)
    requires u < |After(Init(n, k), steps).pcs| && After(Init(n, k), steps).pcs[u].Asleep?
    ensures var s := After(Init(n, k), steps);
      s.word == 2 || exists t :: 0 <= t < |s.pcs| && WillAct(s.pcs[t])
  {
    InitInv(n, k);
    RunKeepsNoLostWakeUp(Init(n, k), AtomicLock.Init(n, k), steps);
  }

  lemma Prefixed(s: State, step: Step, s': State, rest: seq<Step>, last: State) returns (steps: seq<Step>)
    requires Enabled(s, step) && Next(s, step) == s'
    requires IsRun(s', rest) && After(s', rest) == last
    ensures IsRun(s, steps) && After(s, steps) == last
  {
    steps := [step] + rest;
    assert steps[1..] == rest;
  }

  /** "Suspended implies the word is 2" is not kept: inside release, between the fetch_sub and
      the store, the word is 1 while a context sleeps. */
  lemma SleeperInsideRelease() returns (steps: seq<Step>)
    ensures IsRun(Init(2, 1), steps)
    ensures After(Init(2, 1), steps) == State(1, 1, [Store, Asleep], [1, 1])
  {
    var s5 := State(2, 0, [Read, Asleep], [1, 1]);
    var s6 := State(2, 0, [Write(0), Asleep], [1, 1]);
    var s7 := State(2, 1, [Sub, Asleep], [1, 1]);
    var s8 := State(1, 1, [Store, Asleep], [1, 1]);
    assert Increment64(0) == 1;
    steps := Prefixed(s7, Access(0), s8, [], s8);
    steps := Prefixed(s6, Access(0), s7, steps, s8);
    steps := Prefixed(s5, Access(0), s6, steps, s8);
    steps := ContendedStart(s5, steps, s8);
  }

  lemma ContendedStart(s5: State, rest: seq<Step>, last: State) returns (steps: seq<Step>)
    requires s5 == State(2, 0, [Read, Asleep], [1, 1]) && IsRun(s5, rest) && After(s5, rest) == last
    ensures IsRun(Init(2, 1), steps) && After(Init(2, 1), steps) == last
  {
    var s2 := State(1, 0, [Read, Load], [1, 1]);
    var s3 := State(1, 0, [Read, Mark], [1, 1]);
    var s4 := State(2, 0, [Read, Wait], [1, 1]);
    steps := Prefixed(s4, Access(1), s5, rest, last);
    steps := Prefixed(s3, Access(1), s4, steps, last);
    steps := Prefixed(s2, Access(1), s3, steps, last);
    steps := FirstTry(s2, steps, last);
  }

  lemma FirstTry(s2: State, rest: seq<Step>, last: State) returns (steps: seq<Step>)
    requires s2 == State(1, 0, [Read, Load], [1, 1]) && IsRun(s2, rest) && After(s2, rest) == last
    ensures IsRun(Init(2, 1), steps) && After(Init(2, 1), steps) == last
  {
    var s1 := State(1, 0, [Read, Try], [1, 1]);
    steps := Prefixed(s1, Access(1), s2, rest, last);
    assert Init(2, 1).pcs == [Try, Try] && Init(2, 1).left == [1, 1];
    steps := Prefixed(Init(2, 1), Access(0), s1, steps, last);
  }

  // ----- Termination

  /** How many accesses a context can make before the word changes, by where it stands and
      what the word holds: a stale load or a failed compare-exchange leads to one more round
      of the loop, never two. */
  function Rank(p: Pc, word: nat): (r: nat)
    ensures r <= 8
  {
    match p
    case Try => 4
    case Load => 2
    case Mark => if word == 2 then 4 else 1
    case Wait => if word == 2 then 1 else 4
    case Asleep => 0
    case Retry => if word == 0 then 0 else 3
    case Read => 2
    case Write(_) => 1
    case Sub => 0
    case Store => 0
    case Wake => 8
    case Done => 0
  }

  function Ranks(pcs: seq<Pc>, word: nat): (r: seq<nat>)
    ensures |r| == |pcs|
    ensures forall t :: 0 <= t < |r| ==> r[t] == Rank(pcs[t], word)
  {
    seq(|pcs|, t requires 0 <= t < |pcs| => Rank(pcs[t], word))
  }

  predicate Storing(pcs: seq<Pc>) {
    exists t :: 0 <= t < |pcs| && pcs[t].Store?
  }

  /** How often the word can still change before the next release takes effect. */
  function Changes(word: nat, storing: bool): nat {
    if word == 0 then 4
    else if storing then (if word == 1 then 1 else 0)
    else if word == 1 then 3 else 2
  }

  /** How often the word can still change in all. */
  function ChangesLeft(s: State): nat {
    5 * Sum(s.left) + Changes(s.word, Storing(s.pcs))
  }

  function Measure(s: State): nat {
    (8 * |s.pcs| + 1) * ChangesLeft(s) + Sum(Ranks(s.pcs, s.word))
  }

  /** A change of the word outweighs every rank it can raise. */
  lemma ChangeDrops(s: State, s': State)
    requires |s.pcs| == |s'.pcs| && ChangesLeft(s') < ChangesLeft(s)
    ensures Measure(s') < Measure(s)
  {
    var r, r' := Ranks(s.pcs, s.word), Ranks(s'.pcs, s'.word);
    SumBound(r', 8);
    Outweighs(8 * |s.pcs| + 1, ChangesLeft(s'), ChangesLeft(s), Sum(r), Sum(r'));
  }

  lemma SameStoring(s: State, s': State)
    requires |s.pcs| == |s'.pcs|
    requires forall u :: 0 <= u < |s.pcs| ==> s.pcs[u].Store? == s'.pcs[u].Store?
    ensures Storing(s.pcs) == Storing(s'.pcs)
  {}

  lemma RankDrops(s: State, s': State)
    requires |s.pcs| == |s'.pcs| && s.left == s'.left && s.word == s'.word
    requires forall u :: 0 <= u < |s.pcs| ==> s.pcs[u].Store? == s'.pcs[u].Store?
    requires Sum(Ranks(s'.pcs, s'.word)) < Sum(Ranks(s.pcs, s.word))
    ensures Measure(s') < Measure(s)
  {
    SameStoring(s, s');
  }

  /** Every change of the word spends one of the changes left. */
  lemma WordChangeCounts(s: State, a: AtomicLock.Spec, t: nat)
    requires Inv(s, a) && Enabled(s, Access(t))
    requires Next(s, Access(t)).word != s.word
    ensures ChangesLeft(Next(s, Access(t))) < ChangesLeft(s)
  {
    var s' := Next(s, Access(t));
    if Written(s.pcs[t]) {
      SumUpdate(s.left, t, s.left[t] - 1);
      if s.pcs[t].Sub? {
        assert !Storing(s.pcs);
        assert s.word == 2 ==> s'.pcs[t].Store?;
      }
    } else {
      SameStoring(s, s');
    }
  }

  lemma WakeDrops(s: State, a: AtomicLock.Spec, t: nat, u: nat)
    requires Inv(s, a) && Enabled(s, WakeOf(t, u))
    ensures Measure(Next(s, WakeOf(t, u))) < Measure(s)
  {
    var s' := Next(s, WakeOf(t, u));
    var r := Ranks(s.pcs, s.word);
    var v, w := Rank(s'.pcs[u], s.word), Rank(s'.pcs[t], s.word);
    var r1: seq<nat> := r[u := v];
    SumUpdate(r, u, v);
    SumUpdate(r1, t, w);
    assert Ranks(s'.pcs, s.word) == r1[t := w];
    RankDrops(s, s');
  }

  lemma QuietAccess(s: State, a: AtomicLock.Spec, t: nat)
    requires Inv(s, a) && Enabled(s, Access(t))
    requires Next(s, Access(t)).word == s.word
    ensures var s' := Next(s, Access(t));
      && s'.left == s.left
      && s'.pcs == s.pcs[t := s'.pcs[t]]
      && !s.pcs[t].Store? && !s'.pcs[t].Store?
      && Rank(s'.pcs[t], s.word) < Rank(s.pcs[t], s.word)
  {}

  lemma QuietDrops(s: State, a: AtomicLock.Spec, t: nat)
    requires Inv(s, a) && Enabled(s, Access(t))
    requires Next(s, Access(t)).word == s.word
    ensures Measure(Next(s, Access(t))) < Measure(s)
  {
    QuietAccess(s, a, t);
    var s' := Next(s, Access(t));
    var r, v := Ranks(s.pcs, s.word), Rank(s'.pcs[t], s.word);
    SumUpdate(r, t, v);
    assert Ranks(s'.pcs, s.word) == r[t := v];
    RankDrops(s, s');
  }

  lemma StepDrops(s: State, a: AtomicLock.Spec, step: Step)
    requires Inv(s, a) && Enabled(s, step) && !step.Spurious?
    ensures Measure(Next(s, step)) < Measure(s)
  {
    if step.WakeOf? {
      WakeDrops(s, a, step.t, step.sleeper);
    } else if Next(s, step).word == s.word {
      QuietDrops(s, a, step.t);
    } else {
      WordChangeCounts(s, a, step.t);
      ChangeDrops(s, Next(s, step));
    }
  }

  lemma SpuriousCost(s: State, t: nat)
    requires WellFormed(s) && Enabled(s, Spurious(t))
    ensures Measure(Next(s, Spurious(t))) <= Measure(s) + 3
  {
    var s' := Next(s, Spurious(t));
    var r := Ranks(s.pcs, s.word);
    var v := Rank(Retry, s.word);
    SumUpdate(r, t, v);
    assert Ranks(s'.pcs, s.word) == r[t := v];
    SameStoring(s, s');
  }

  lemma {:induction false} LengthBound(s: State, a: AtomicLock.Spec, steps: seq<Step>)
    requires Inv(s, a) && IsRun(s, steps)
    ensures |steps| + Measure(After(s, steps)) <= Measure(s) + 4 * SpuriousReturns(steps)
    decreases |steps|
  {
    if |steps| > 0 {
      StepRefines(s, a, steps[0]);
      if steps[0].Spurious? {
        SpuriousCost(s, steps[0].t);
      } else {
        StepDrops(s, a, steps[0]);
      }
      LengthBound(Next(s, steps[0]), AtomicLock.Apply(a, EventOf(s, steps[0])), steps[1..]);
    }
  }

  lemma InitMeasure(n: nat, k: nat)
    ensures Measure(Init(n, k)) <= (8 * n + 1) * (5 * (n * k) + 4) + 4 * n
  {
    var s := Init(n, k);
    SumConstant(s.left, k);
    SumBound(Ranks(s.pcs, s.word), 4);
    var changes := 5 * (n * k) + 4;
    assert ChangesLeft(s) == changes;
  }

  /** No run is infinite unless wait returns spuriously without end: N contexts making K
      increments take at most this many steps, failed and stale attempts included. */
  lemma RunsAreFinite(n: nat, k: nat, steps: seq<Step>)
    requires IsRun(Init(n, k), steps)
    ensures |steps| <= (8 * n + 1) * (5 * (n * k) + 4) + 4 * n + 4 * SpuriousReturns(steps)
  {
    InitInv(n, k);
    LengthBound(Init(n, k), AtomicLock.Init(n, k), steps);
    InitMeasure(n, k);
  }

  /** Nothing but a spurious return can happen. */
  ghost predicate Quiescent(s: State) {
    forall step :: Enabled(s, step) ==> step.Spurious?
  }

  lemma AwakeCanMove(s: State, a: AtomicLock.Spec, t: nat)
    requires Inv(s, a) && t < |s.pcs| && !s.pcs[t].Done? && !s.pcs[t].Asleep?
    ensures !Quiescent(s)
  {
    if s.pcs[t].Wake? && SomeAsleep(s.pcs) {
      var u :| 0 <= u < |s.pcs| && s.pcs[u].Asleep?;
      assert Enabled(s, WakeOf(t, u));
    } else {
      assert Enabled(s, Access(t));
    }
  }

  lemma SleeperIsNotAlone(s: State, a: AtomicLock.Spec, u: nat) returns (t: nat)
    requires Inv(s, a) && NoLostWakeUp(s) && u < |s.pcs| && s.pcs[u].Asleep?
    ensures t < |s.pcs| && !s.pcs[t].Done? && !s.pcs[t].Asleep?
  {
    if s.word == 2 {
      t := a.holder.who;
    } else {
      t :| 0 <= t < |s.pcs| && WillAct(s.pcs[t]);
    }
  }

  lemma QuiescentIsDone(s: State, a: AtomicLock.Spec)
    requires Inv(s, a) && NoLostWakeUp(s) && Quiescent(s)
    ensures forall t :: 0 <= t < |s.pcs| ==> s.pcs[t] == Done
    ensures s.word == 0
  {
    forall t | 0 <= t < |s.pcs| ensures s.pcs[t].Done? {
      if s.pcs[t].Asleep? {
        var w := SleeperIsNotAlone(s, a, t);
        AwakeCanMove(s, a, w);
      } else if !s.pcs[t].Done? {
        AwakeCanMove(s, a, t);
      }
    }
  }

  /** No run gets stuck: where nothing but a spurious return is left to happen, every context
      has finished, the word is 0 and no increment was lost. */
  lemma RunsEndWithTheExactCount(n: nat, k: nat, steps: seq<Step>)
    requires IsRun(Init(n, k), steps) && WakesTake(Init(n, k), steps) && Quiescent(After(Init(n, k), steps))
    ensures var s := After(Init(n, k), steps);
      && |s.pcs| == n
      && (forall t :: 0 <= t < n ==> s.pcs[t] == Done)
      && s.word == 0
      && s.counter == (n * k) % (MAX_U64 + 1)
  {
    var s, a := After(Init(n, k), steps), SpecAfter(n, k, steps);
    InitInv(n, k);
    RunKeepsNoLostWakeUp(Init(n, k), AtomicLock.Init(n, k), steps);
    QuiescentIsDone(s, a);
    RunRefines(Init(n, k), AtomicLock.Init(n, k), steps);
    AtomicLock.CounterIsIncrementsDone(n, k, EventsOf(Init(n, k), steps));
    SumConstant(s.left, 0);
    WrappedIsModulo(a.counter);
  }

  /** And every context has made its own K increments, each between an acquisition and a
      release of its own. */
  lemma EachContextDoesItsShare(n: nat, k: nat, steps: seq<Step>, t: nat)
    requires IsRun(Init(n, k), steps) && WakesTake(Init(n, k), steps) && Quiescent(After(Init(n, k), steps)) && t < n
    ensures AtomicLock.Count(EventsOf(Init(n, k), steps), t) == (k, k, k)
  {
    var s, es := After(Init(n, k), steps), EventsOf(Init(n, k), steps);
    InitInv(n, k);
    RunKeepsNoLostWakeUp(Init(n, k), AtomicLock.Init(n, k), steps);
    RunRefines(Init(n, k), AtomicLock.Init(n, k), steps);
    QuiescentIsDone(s, AtomicLock.After(AtomicLock.Init(n, k), es));
    AtomicLock.EachDoesItsShare(n, k, es, t);
  }
}
