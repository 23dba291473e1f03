/** Contexts that each claim one slot of a shared table by a load and a compare-exchange of
    the next free position, and record their identity there; one step per shared access. */
module SlotClaim {
  import opened Sums

  /** Load     load of the next position (the head of the loop)
      Claim    compare-exchange of the next position, from the value loaded
      Fill     store of the identity in the slot claimed
      Done     the context has returned */
  datatype Pc = Load | Claim(seen: nat) | Fill(slot: nat) | Done

  datatype Slot = Empty | Holds(identity: nat)

  /** `ids[t]` is what context `t` is told its identity is. */
  datatype State = State(next: nat, slots: seq<Slot>, pcs: seq<Pc>, ids: seq<nat>)

  function Init(slots: nat, ids: seq<nat>): State {
    State(0, seq(slots, _ => Empty), seq(|ids|, _ => Load), ids)
  }

  predicate Enabled(s: State, t: nat) {
    && t < |s.pcs| && t < |s.ids| && !s.pcs[t].Done?
    && (s.pcs[t].Fill? ==> s.pcs[t].slot < |s.slots|)
  }

  predicate Succeeds(s: State, t: nat)
    requires Enabled(s, t)
  {
    s.pcs[t] == Claim(s.next)
  }

  predicate Fails(s: State, t: nat)
    requires Enabled(s, t)
  {
    s.pcs[t].Claim? && s.pcs[t].seen != s.next
  }

  function Next(s: State, t: nat): State
    requires Enabled(s, t)
  {
    match s.pcs[t]
    case Load => s.(pcs := s.pcs[t := if s.next < |s.slots| then Claim(s.next) else Done])
    case Claim(seen) =>
      if s.next == seen then s.(next := seen + 1, pcs := s.pcs[t := Fill(seen)])
      else s.(pcs := s.pcs[t := Load])
    case Fill(slot) => s.(slots := s.slots[slot := Holds(s.ids[t])], pcs := s.pcs[t := Done])
  }

  /** A run is the sequence of contexts that move. */
  predicate IsRun(s: State, run: seq<nat>)
    decreases |run|
  {
    |run| == 0 || (Enabled(s, run[0]) && IsRun(Next(s, run[0]), run[1..]))
  }

  function After(s: State, run: seq<nat>): State
    requires IsRun(s, run)
    decreases |run|
  {
    if |run| == 0 then s else After(Next(s, run[0]), run[1..])
  }

  /** The contexts whose compare-exchange succeeded, in the order they did. */
  function Claims(s: State, run: seq<nat>): seq<nat>
    requires IsRun(s, run)
    decreases |run|
  {
    if |run| == 0 then []
    else (if Succeeds(s, run[0]) then [run[0]] else []) + Claims(Next(s, run[0]), run[1..])
  }

  function Failures(s: State, run: seq<nat>): nat
    requires IsRun(s, run)
    decreases |run|
  {
    if |run| == 0 then 0
    else (if Fails(s, run[0]) then 1 else 0) + Failures(Next(s, run[0]), run[1..])
  }

  ghost predicate Distinct(xs: seq<nat>) {
    forall i, j :: 0 <= i < j < |xs| ==> xs[i] != xs[j]
  }

  /** `owner[i]` is the one context that claimed slot `i`. */
  ghost predicate Inv(s: State, owner: seq<nat>) {
    && |s.pcs| == |s.ids| && s.next == |owner| <= |s.slots|
    && Distinct(owner)
    && (forall i :: 0 <= i < |owner| ==> owner[i] < |s.pcs|)
    && (forall i :: 0 <= i < |owner| ==>
          || (s.pcs[owner[i]] == Fill(i) && s.slots[i] == Empty)
          || (s.pcs[owner[i]].Done? && s.slots[i] == Holds(s.ids[owner[i]])))
    && (forall i :: |owner| <= i < |s.slots| ==> s.slots[i] == Empty)
    && (forall t :: 0 <= t < |s.pcs| && s.pcs[t].Fill? ==>
          s.pcs[t].slot < |owner| && owner[s.pcs[t].slot] == t)
    && (forall t :: 0 <= t < |s.pcs| && s.pcs[t].Claim? ==>
          s.pcs[t].seen <= s.next && s.pcs[t].seen < |s.slots|)
    && (forall t :: 0 <= t < |s.pcs| && s.pcs[t].Done? && t !in owner ==> s.next == |s.slots|)
  }

  function OwnersNext(s: State, owner: seq<nat>, t: nat): seq<nat>
    requires Enabled(s, t)
  {
    if Succeeds(s, t) then owner + [t] else owner
  }

  lemma ClaimantOwnsNothing(s: State, owner: seq<nat>, t: nat)
    requires Inv(s, owner) && t < |s.pcs| && (s.pcs[t].Load? || s.pcs[t].Claim?)
    ensures t !in owner
  {}

  lemma LoopKeepsInv(s: State, owner: seq<nat>, t: nat)
    requires Inv(s, owner) && Enabled(s, t) && !s.pcs[t].Fill? && !Succeeds(s, t)
    ensures Inv(Next(s, t), owner)
  {
    ClaimantOwnsNothing(s, owner, t);
  }

  lemma ClaimKeepsInv(s: State, owner: seq<nat>, t: nat)
    requires Inv(s, owner) && Enabled(s, t) && Succeeds(s, t)
    ensures Inv(Next(s, t), owner + [t])
  {
    ClaimantOwnsNothing(s, owner, t);
    assert forall u :: u in owner ==> u in owner + [t];
  }

  lemma FillKeepsInv(s: State, owner: seq<nat>, t: nat)
    requires Inv(s, owner) && Enabled(s, t) && s.pcs[t].Fill?
    ensures Inv(Next(s, t), owner)
  {
    var slot := s.pcs[t].slot;
    assert owner[slot] == t;
    assert forall i :: 0 <= i < |owner| && i != slot ==> owner[i] != t;
  }

  lemma StepKeepsInv(s: State, owner: seq<nat>, t: nat)
    requires Inv(s, owner) && Enabled(s, t)
    ensures Inv(Next(s, t), OwnersNext(s, owner, t))
  {
    if s.pcs[t].Fill? {
      FillKeepsInv(s, owner, t);
    } else if Succeeds(s, t) {
      ClaimKeepsInv(s, owner, t);
    } else {
      LoopKeepsInv(s, owner, t);
    }
  }

  lemma ClaimsShift(s: State, owner: seq<nat>, run: seq<nat>)
    requires |run| > 0 && IsRun(s, run)
    ensures owner + Claims(s, run) == OwnersNext(s, owner, run[0]) + Claims(Next(s, run[0]), run[1..])
  {}

  lemma {:induction false} RunKeepsInv(s: State, owner: seq<nat>, run: seq<nat>)
    requires Inv(s, owner) && IsRun(s, run)
    ensures Inv(After(s, run), owner + Claims(s, run))
    decreases |run|
  {
    if |run| == 0 {
      assert owner + Claims(s, run) == owner;
    } else {
      StepKeepsInv(s, owner, run[0]);
      RunKeepsInv(Next(s, run[0]), OwnersNext(s, owner, run[0]), run[1..]);
      ClaimsShift(s, owner, run);
    }
  }

  /** No slot is claimed twice and no context claims two: in every reachable state the claims
      made so far are of distinct contexts, and a slot that is filled holds its own claimant's
      identity. */
  lemma ClaimsAreInjective(slots: nat, ids: seq<nat>, run: seq<nat>)
    requires IsRun(Init(slots, ids), run)
    ensures var s, owner := After(Init(slots, ids), run), Claims(Init(slots, ids), run);
      && Distinct(owner) && s.next == |owner| <= slots == |s.slots| && s.ids == ids
      && (forall i :: 0 <= i < |owner| ==> owner[i] < |ids|)
      && forall i :: 0 <= i < slots && s.slots[i].Holds? ==>
           i < |owner| && s.slots[i] == Holds(ids[owner[i]])
  {
    var owner := Claims(Init(slots, ids), run);
    RunKeepsInv(Init(slots, ids), [], run);
    assert [] + owner == owner;
    Sizes(Init(slots, ids), run);
  }

  lemma {:induction false} Sizes(s: State, run: seq<nat>)
    requires IsRun(s, run)
    ensures After(s, run).ids == s.ids && |After(s, run).slots| == |s.slots|
    ensures |After(s, run).pcs| == |s.pcs|
    decreases |run|
  {
    if |run| > 0 {
      Sizes(Next(s, run[0]), run[1..]);
    }
  }

  /** A compare-exchange fails only because another context claimed the slot it was after. */
  lemma FailureHasACause(slots: nat, ids: seq<nat>, run: seq<nat>, t: nat)
    requires IsRun(Init(slots, ids), run)
    requires Enabled(After(Init(slots, ids), run), t) && Fails(After(Init(slots, ids), run), t)
    ensures var seen, owner := After(Init(slots, ids), run).pcs[t].seen, Claims(Init(slots, ids), run);
      seen < |owner| && owner[seen] != t
  {
    var owner := Claims(Init(slots, ids), run);
    RunKeepsInv(Init(slots, ids), [], run);
    assert [] + owner == owner;
    ClaimantOwnsNothing(After(Init(slots, ids), run), owner, t);
  }

  lemma InitInv(slots: nat, ids: seq<nat>)
    ensures Inv(Init(slots, ids), [])
  {}

  // ----- How long it takes

  /** What the counting needs: a context tries for a position no later than the next one. */
  ghost predicate Sane(s: State) {
    && |s.pcs| == |s.ids| && s.next <= |s.slots|
    && forall t :: 0 <= t < |s.pcs| && s.pcs[t].Claim? ==>
         s.pcs[t].seen <= s.next && s.pcs[t].seen < |s.slots|
  }

  lemma StepKeepsSane(s: State, t: nat)
    requires Sane(s) && Enabled(s, t)
    ensures Sane(Next(s, t)) && Next(s, t).next >= s.next
  {}

  function Rank(p: Pc, next: nat): (r: nat)
    ensures r <= 4
  {
    match p
    case Load => 3
    case Claim(seen) => if seen == next then 2 else 4
    case Fill(_) => 1
    case Done => 0
  }

  function Ranks(pcs: seq<Pc>, next: nat): (r: seq<nat>)
    ensures |r| == |pcs|
    ensures forall t :: 0 <= t < |r| ==> r[t] == Rank(pcs[t], next)
  {
    seq(|pcs|, t requires 0 <= t < |pcs| => Rank(pcs[t], next))
  }

  /** 1 for a context whose loaded position has been claimed since. */
  function Stale(pcs: seq<Pc>, next: nat): (r: seq<nat>)
    ensures |r| == |pcs|
    ensures forall t :: 0 <= t < |r| ==> r[t] == if pcs[t].Claim? && pcs[t].seen != next then 1 else 0
  {
    seq(|pcs|, t requires 0 <= t < |pcs| => if pcs[t].Claim? && pcs[t].seen != next then 1 else 0)
  }

  function Measure(s: State): int {
    2 * |s.pcs| * (|s.slots| - s.next) + Sum(Ranks(s.pcs, s.next))
  }

  lemma MeasureIsNatural(s: State)
    requires s.next <= |s.slots|
    ensures Measure(s) >= 0
  {}

  /** The contexts that are stale after `t` claims: at most all the others. */
  lemma ClaimCosts(s: State, t: nat)
    requires Sane(s) && Enabled(s, t) && Succeeds(s, t)
    ensures Sum(Ranks(Next(s, t).pcs, s.next + 1)) < Sum(Ranks(s.pcs, s.next)) + 2 * |s.pcs|
    ensures Sum(Stale(Next(s, t).pcs, s.next + 1)) <= |s.pcs| - 1
  {
    var s' := Next(s, t);
    var r, r' := Ranks(s.pcs, s.next), Ranks(s'.pcs, s.next + 1);
    RaisedByTwo(r, r', t);
    var stale := Stale(s'.pcs, s.next + 1);
    SumUpdate(stale, t, 1);
    var all: seq<nat> := stale[t := 1];
    SumBound(all, 1);
  }

  lemma RaisedByTwo(r: seq<nat>, r': seq<nat>, t: nat)
    requires |r| == |r'| && t < |r| && r'[t] < r[t]
    requires forall u :: 0 <= u < |r| ==> r'[u] <= r[u] + 2
    ensures Sum(r') < Sum(r) + 2 * |r|
  {
    SumUpdate(r, t, r'[t]);
    var low: seq<nat> := r[t := r'[t]];
    RaisedBy(low, r', 2);
  }

  lemma {:induction false} RaisedBy(r: seq<nat>, r': seq<nat>, d: nat)
    requires |r| == |r'|
    requires forall u :: 0 <= u < |r| ==> r'[u] <= r[u] + d
    ensures Sum(r') <= Sum(r) + d * |r|
  {
    if |r| > 0 {
      RaisedBy(r[1..], r'[1..], d);
      assert d * |r| == d * |r[1..]| + d;
    }
  }

  lemma OneMoreTimes(c: nat, d: int)
    ensures c * (d + 1) == c * d + c
  {}

  lemma StepDrops(s: State, t: nat)
    requires Sane(s) && Enabled(s, t)
    ensures Measure(Next(s, t)) < Measure(s)
  {
    var s' := Next(s, t);
    if Succeeds(s, t) {
      ClaimCosts(s, t);
      OneMoreTimes(2 * |s.pcs|, |s.slots| - s.next - 1);
    } else {
      var r := Ranks(s.pcs, s.next);
      SumUpdate(r, t, Rank(s'.pcs[t], s.next));
      assert Ranks(s'.pcs, s.next) == r[t := Rank(s'.pcs[t], s.next)];
    }
  }

  lemma {:induction false} LengthBound(s: State, run: seq<nat>)
    requires Sane(s) && IsRun(s, run)
    ensures |run| <= Measure(s)
    decreases |run|
  {
    if |run| > 0 {
      StepDrops(s, run[0]);
      StepKeepsSane(s, run[0]);
      LengthBound(Next(s, run[0]), run[1..]);
    }
  }

  /** The loop ends for every context, however they are interleaved. */
  lemma RunsAreFinite(slots: nat, ids: seq<nat>, run: seq<nat>)
    requires IsRun(Init(slots, ids), run)
    ensures |run| <= 2 * |ids| * slots + 3 * |ids|
  {
    var s := Init(slots, ids);
    LengthBound(s, run);
    SumBound(Ranks(s.pcs, s.next), 3);
  }

  /** A failed attempt uses up one stale context; only a claim makes contexts stale. */
  lemma StaleStep(s: State, t: nat)
    requires Sane(s) && Enabled(s, t) && !Succeeds(s, t)
    ensures Next(s, t).next == s.next
    ensures Sum(Stale(Next(s, t).pcs, s.next)) + (if Fails(s, t) then 1 else 0) <= Sum(Stale(s.pcs, s.next))
  {
    var r, r' := Stale(s.pcs, s.next), Stale(Next(s, t).pcs, s.next);
    SumUpdate(r, t, 0);
    assert r' == r[t := 0];
  }

  function Times(c: nat, n: nat): nat {
    if n == 0 then 0 else c + Times(c, n - 1)
  }

  lemma {:induction false} TimesIsProduct(c: nat, n: nat)
    ensures Times(c, n) == c * n
  {
    if n > 0 {
      TimesIsProduct(c, n - 1);
      assert c * n == c * (n - 1) + c;
    }
  }

  lemma {:induction false} FailuresFrom(s: State, run: seq<nat>, others: nat)
    requires Sane(s) && IsRun(s, run) && |s.pcs| == others + 1
    ensures Failures(s, run) <= Sum(Stale(s.pcs, s.next)) + Times(others, |Claims(s, run)|)
    decreases |run|
  {
    if |run| > 0 {
      var t, s' := run[0], Next(s, run[0]);
      StepKeepsSane(s, t);
      FailuresFrom(s', run[1..], others);
      if Succeeds(s, t) {
        ClaimCosts(s, t);
      } else {
        StaleStep(s, t);
      }
    }
  }

  /** Each claim makes at most one attempt of each other context fail. */
  lemma FailuresAreBounded(slots: nat, ids: seq<nat>, run: seq<nat>)
    requires IsRun(Init(slots, ids), run) && |ids| > 0
    ensures Failures(Init(slots, ids), run) <= (|ids| - 1) * |Claims(Init(slots, ids), run)|
  {
    var s := Init(slots, ids);
    FailuresFrom(s, run, |ids| - 1);
    SumConstant(Stale(s.pcs, s.next), 0);
    TimesIsProduct(|ids| - 1, |Claims(s, run)|);
  }

  // ----- What is left when all have finished

  function Below(n: nat): (r: set<nat>)
    ensures |r| == n && forall x: nat :: x in r <==> x < n
  {
    if n == 0 then {} else
      var rest := Below(n - 1);
      assert n - 1 !in rest;
      rest + {n - 1}
  }

  function Elements(xs: seq<nat>): (r: set<nat>)
    ensures forall x: nat :: x in r <==> x in xs
    ensures Distinct(xs) ==> |r| == |xs|
  {
    if |xs| == 0 then {} else
      assert xs == [xs[0]] + xs[1..];
      Elements(xs[1..]) + {xs[0]}
  }

  lemma SubsetSize(a: set<nat>, b: set<nat>)
    requires a <= b
    ensures |a| <= |b|
  {
    assert b == a + (b - a);
  }

  lemma PigeonHole(xs: seq<nat>, n: nat)
    requires Distinct(xs) && forall i :: 0 <= i < |xs| ==> xs[i] < n
    ensures |xs| <= n
    ensures (forall t :: 0 <= t < n ==> t in xs) ==> |xs| == n
  {
    SubsetSize(Elements(xs), Below(n));
    if forall t :: 0 <= t < n ==> t in xs {
      SubsetSize(Below(n), Elements(xs));
    }
  }

  /** Slot `i` holds the identity of the `i`th claimant, for every slot claimed, and no other
      slot holds anything; as many slots are claimed as there are contexts or slots. */
  ghost predicate FilledUp(s: State, owner: seq<nat>) {
    && |owner| == (if |s.ids| < |s.slots| then |s.ids| else |s.slots|)
    && Distinct(owner)
    && (forall i :: 0 <= i < |owner| ==> owner[i] < |s.ids| && s.slots[i] == Holds(s.ids[owner[i]]))
    && forall i :: |owner| <= i < |s.slots| ==> s.slots[i] == Empty
  }

  lemma DoneIsFilledUp(s: State, owner: seq<nat>)
    requires Inv(s, owner) && forall t :: 0 <= t < |s.pcs| ==> s.pcs[t].Done?
    ensures FilledUp(s, owner)
  {
    PigeonHole(owner, |s.ids|);
    if |owner| < |s.slots| {
      forall t: nat | t < |s.ids| ensures t in owner {
        assert s.pcs[t].Done?;
      }
    }
  }

  /** When every context has finished, exactly min(N, slots) slots hold an identity, each of
      a context of its own, and the rest are empty. */
  lemma AllDoneFillsMin(slots: nat, ids: seq<nat>, run: seq<nat>)
    requires IsRun(Init(slots, ids), run)
    requires forall t: nat :: !Enabled(After(Init(slots, ids), run), t)
    ensures |After(Init(slots, ids), run).slots| == slots && After(Init(slots, ids), run).ids == ids
    ensures FilledUp(After(Init(slots, ids), run), Claims(Init(slots, ids), run))
  {
    var s, owner := After(Init(slots, ids), run), Claims(Init(slots, ids), run);
    RunKeepsInv(Init(slots, ids), [], run);
    assert [] + owner == owner;
    Sizes(Init(slots, ids), run);
    forall t: nat | t < |s.pcs| ensures s.pcs[t].Done? {
      assert !Enabled(s, t);
    }
    DoneIsFilledUp(s, owner);
  }

  /** The table as shared memory, and the contexts' code on it, one access at a time. */
  class Contexts {
    var next: nat
    const slots: array<Slot>
    var pcs: seq<Pc>
    const ids: seq<nat>

    ghost function View(): State
      reads this, slots
    {
      State(next, slots[..], pcs, ids)
    }

    constructor (count: nat, ids: seq<nat>)
      ensures View() == Init(count, ids) && fresh(slots)
    {
      next, pcs := 0, seq(|ids|, _ => Load);
      slots, this.ids := new Slot[count](_ => Empty), ids;
    }

    method Advance(t: nat)
      requires Enabled(View(), t)
      modifies this, slots
      ensures View() == Next(old(View()), t)
    {
      match pcs[t]
      case Load =>
        var slot := next;
        pcs := pcs[t := if slot < slots.Length then Claim(slot) else Done];
      case Claim(slot) =>
        if next == slot {
          next := slot + 1;
          pcs := pcs[t := Fill(slot)];
        } else {
          pcs := pcs[t := Load];
        }
      case Fill(slot) =>
        slots[slot] := Holds(ids[t]);
        pcs := pcs[t := Done];
    }

    /** One turn of the scheduler: any context that has not returned. */
    method ScheduleOne(ghost owner: seq<nat>) returns (ghost owner': seq<nat>)
      requires Inv(View(), owner)
      requires exists t :: 0 <= t < |pcs| && !pcs[t].Done?
      modifies this, slots
      ensures Inv(View(), owner')
      ensures 0 <= Measure(View()) < old(Measure(View()))
    {
      var t :| 0 <= t < |pcs| && !pcs[t].Done?;
      ghost var s := View();
      owner' := OwnersNext(s, owner, t);
      StepKeepsInv(s, owner, t);
      StepDrops(s, t);
      Advance(t);
      MeasureIsNatural(View());
    }

    /** However the contexts are scheduled, all of them return, with the table filled up. */
    method RunAll() returns (ghost owner: seq<nat>)
      requires View() == Init(slots.Length, ids)
      modifies this, slots
      ensures FilledUp(View(), owner)
    {
      owner := [];
      InitInv(slots.Length, ids);
      while exists t :: 0 <= t < |pcs| && !pcs[t].Done?
        invariant Inv(View(), owner)
        decreases Measure(View())
      {
        owner := ScheduleOne(owner);
      }
      DoneIsFilledUp(View(), owner);
    }
  }
}
