/** The specification both locks are proved against: one lock that is free or held by one
    context, around a counter that each context increments a fixed number of times.
    Nothing here mentions a word, a sleeper or a retry. */
module AtomicLock {
  import opened Sums

  /** `written` says whether the holder has already done its increment. */
  datatype Holder = Free | Held(who: nat, written: bool)

  /** `left[t]` counts the lock/increment/unlock rounds context `t` has not finished. */
  datatype Spec = Spec(holder: Holder, counter: nat, left: seq<nat>)

  datatype Event = Stutter | Acquire(t: nat) | Increment(t: nat) | Release(t: nat)

  function Init(n: nat, k: nat): Spec {
    Spec(Free, 0, seq(n, _ => k))
  }

  predicate Allowed(s: Spec, e: Event) {
    match e
    case Stutter => true
    case Acquire(t) => s.holder.Free? && t < |s.left| && s.left[t] > 0
    case Increment(t) => s.holder == Held(t, false)
    case Release(t) => s.holder == Held(t, true) && t < |s.left| && s.left[t] > 0
  }

  function Apply(s: Spec, e: Event): Spec
    requires Allowed(s, e)
  {
    match e
    case Stutter => s
    case Acquire(t) => s.(holder := Held(t, false))
    case Increment(t) => s.(holder := Held(t, true), counter := s.counter + 1)
    case Release(t) => s.(holder := Free, left := s.left[t := s.left[t] - 1])
  }

  predicate IsRun(s: Spec, es: seq<Event>)
    decreases |es|
  {
    |es| == 0 || (Allowed(s, es[0]) && IsRun(Apply(s, es[0]), es[1..]))
  }

  function After(s: Spec, es: seq<Event>): Spec
    requires IsRun(s, es)
    decreases |es|
  {
    if |es| == 0 then s else After(Apply(s, es[0]), es[1..])
  }

  function Pending(h: Holder): nat {
    if h.Held? && h.written then 1 else 0
  }

  /** The increments counted so far and those still to come. */
  function Owed(s: Spec): int {
    s.counter + Sum(s.left) - Pending(s.holder)
  }

  lemma OwedIsKept(s: Spec, e: Event)
    requires Allowed(s, e)
    ensures Owed(Apply(s, e)) == Owed(s)
  {
    if e.Release? {
      SumUpdate(s.left, e.t, s.left[e.t] - 1);
    }
  }

  /** Every increment is counted exactly once, in every run. */
  lemma {:induction false} Conservation(s: Spec, es: seq<Event>)
    requires IsRun(s, es)
    ensures Owed(After(s, es)) == Owed(s)
    ensures |After(s, es).left| == |s.left|
    decreases |es|
  {
    if |es| > 0 {
      OwedIsKept(s, es[0]);
      Conservation(Apply(s, es[0]), es[1..]);
    }
  }

  lemma CounterIsIncrementsDone(n: nat, k: nat, es: seq<Event>)
    requires IsRun(Init(n, k), es)
    ensures Owed(After(Init(n, k), es)) == n * k
    ensures |After(Init(n, k), es).left| == n
  {
    Conservation(Init(n, k), es);
    SumConstant(Init(n, k).left, k);
  }

  /** How often context `t` acquires, increments and releases. */
  function Count(es: seq<Event>, t: nat): (nat, nat, nat) {
    if |es| == 0 then (0, 0, 0)
    else
      var (a, i, r) := Count(es[1..], t);
      match es[0]
      case Stutter => (a, i, r)
      case Acquire(u) => if u == t then (a + 1, i, r) else (a, i, r)
      case Increment(u) => if u == t then (a, i + 1, r) else (a, i, r)
      case Release(u) => if u == t then (a, i, r + 1) else (a, i, r)
  }

  function Holds(h: Holder, t: nat): nat {
    if h.Held? && h.who == t then 1 else 0
  }

  /** Each release of a context is of one acquisition and one increment of its own, and is
      counted off what it had left. */
  lemma {:induction false} RoundsAreWhole(s: Spec, es: seq<Event>, t: nat)
    requires IsRun(s, es) && t < |s.left|
    ensures |After(s, es).left| == |s.left|
    ensures var (a, i, r) := Count(es, t); var h, h' := s.holder, After(s, es).holder;
      && a + Holds(h, t) == r + Holds(h', t)
      && i + Pending(h) * Holds(h, t) == r + Pending(h') * Holds(h', t)
      && r + After(s, es).left[t] == s.left[t]
    decreases |es|
  {
    if |es| > 0 {
      RoundsAreWhole(Apply(s, es[0]), es[1..], t);
    }
  }

  /** A run that ends with the lock free and nothing left: every context made all its
      increments, each between an acquisition and a release of its own. */
  lemma EachDoesItsShare(n: nat, k: nat, es: seq<Event>, t: nat)
    requires IsRun(Init(n, k), es) && t < n
    requires After(Init(n, k), es).holder.Free? && forall u :: u in After(Init(n, k), es).left ==> u == 0
    ensures Count(es, t) == (k, k, k)
  {
    RoundsAreWhole(Init(n, k), es, t);
    assert After(Init(n, k), es).left[t] in After(Init(n, k), es).left;
  }
}
