/** The order in which a program first executes the pages of the parts it asked about, as it is
    recorded and as it is taken, a batch at a time. */
module TouchLog {

  datatype Outcome = Ok | Invalid | NotSupported | NoMemory

  /** An address or a size: whole pages, and the bytes beyond them. */
  datatype Extent = Extent(page: nat, pos: nat)

  // ----- First occurrences

  /** The elements of `xs` in the order in which each first occurs. */
  function FirstSeen(xs: seq<nat>): seq<nat> {
    if |xs| == 0 then []
    else
      var front, x := FirstSeen(xs[..|xs| - 1]), xs[|xs| - 1];
      if x in front then front else front + [x]
  }

  function FirstIndex(xs: seq<nat>, x: nat): (i: nat)
    requires x in xs
    ensures i < |xs| && xs[i] == x && x !in xs[..i]
  {
    if xs[0] == x then 0 else 1 + FirstIndex(xs[1..], x)
  }

  ghost predicate InOrderOfFirst(ys: seq<nat>, xs: seq<nat>) {
    && (forall i :: 0 <= i < |ys| ==> ys[i] in xs)
    && forall i, j :: 0 <= i < j < |ys| ==> FirstIndex(xs, ys[i]) < FirstIndex(xs, ys[j])
  }

  lemma {:induction false} FirstIndexInFront(xs: seq<nat>, y: nat, x: nat)
    requires x in xs
    ensures x in xs + [y] && FirstIndex(xs + [y], x) == FirstIndex(xs, x)
  {
    assert (xs + [y])[0] == xs[0];
    if xs[0] != x {
      assert (xs + [y])[1..] == xs[1..] + [y];
      FirstIndexInFront(xs[1..], y, x);
    }
  }

  lemma {:induction false} FirstIndexAtEnd(xs: seq<nat>, x: nat)
    requires x !in xs
    ensures x in xs + [x] && FirstIndex(xs + [x], x) == |xs|
  {
    if |xs| > 0 {
      assert (xs + [x])[0] == xs[0];
      assert (xs + [x])[1..] == xs[1..] + [x];
      FirstIndexAtEnd(xs[1..], x);
    }
  }

  /** Every element once, ordered by where it first occurs: strictly increasing first positions
      leave no room for a repetition. */
  lemma {:induction false} FirstSeenIsOrdered(xs: seq<nat>)
    ensures forall x :: x in FirstSeen(xs) <==> x in xs
    ensures InOrderOfFirst(FirstSeen(xs), xs)
  {
    if |xs| > 0 {
      var front, x := xs[..|xs| - 1], xs[|xs| - 1];
      var ys, seen := FirstSeen(xs), FirstSeen(front);
      assert xs == front + [x];
      FirstSeenIsOrdered(front);
      forall y | y in front ensures FirstIndex(xs, y) == FirstIndex(front, y) {
        FirstIndexInFront(front, x, y);
      }
      if x !in front {
        FirstIndexAtEnd(front, x);
      }
    }
  }

  lemma FirstSeenExtends(xs: seq<nat>, x: nat)
    ensures FirstSeen(xs + [x]) == if x in FirstSeen(xs) then FirstSeen(xs) else FirstSeen(xs) + [x]
  {
    assert (xs + [x])[..|xs|] == xs;
  }

  // ----- The record

  /** `log` is what has been recorded and `taken` how much of it has been taken; `watched` and
      `seen` are the pages asked about and those already recorded since. */
  class Touches {
    const supported: bool
    const capacity: nat
    var parts: nat
    var watched: set<nat>
    var seen: set<nat>
    var log: seq<nat>
    var taken: nat

    /** What was recorded before recording last ended, the watched pages executed since, in
        order and with repetitions, and everything handed out so far. */
    ghost var before: seq<nat>
    ghost var executed: seq<nat>
    ghost var delivered: seq<nat>

    ghost predicate Valid()
      reads this
    {
      && log == before + FirstSeen(executed)
      && (forall p :: p in seen <==> p in FirstSeen(executed))
      && taken <= |log| && delivered == log[..taken]
    }

    constructor (supported: bool, capacity: nat)
      ensures this.supported == supported && this.capacity == capacity
      ensures Valid() && log == delivered == before == executed == [] && watched == {} && parts == 0
    {
      this.supported, this.capacity := supported, capacity;
      parts, watched, seen, log, taken := 0, {}, {}, [], 0;
      before, executed, delivered := [], [], [];
    }

    /** `executable` is whether every page of the part may be executed. A refusal changes
        nothing. */
    method Begin(at: Extent, size: Extent, executable: bool) returns (o: Outcome)
      requires Valid()
      modifies this`watched, this`parts
      ensures Valid()
      ensures o == if !supported then NotSupported
                   else if at.pos != 0 || size.pos != 0 || size.page == 0 || !executable then Invalid
                   else if old(parts) >= capacity then NoMemory
                   else Ok
      ensures o != Ok ==> watched == old(watched) && parts == old(parts)
      ensures o == Ok ==> parts == old(parts) + 1
      ensures o == Ok ==> forall p: nat ::
                p in watched <==> p in old(watched) || at.page <= p < at.page + size.page
    {
      if !supported {
        return NotSupported;
      }
      if at.pos != 0 || size.pos != 0 || size.page == 0 || !executable {
        return Invalid;
      }
      if parts >= capacity {
        return NoMemory;
      }
      var i := 0;
      while i < size.page
        invariant i <= size.page && parts == old(parts)
        invariant forall p: nat :: p in watched <==> p in old(watched) || at.page <= p < at.page + i
      {
        watched := watched + {at.page + i};
        i := i + 1;
      }
      parts := parts + 1;
      return Ok;
    }

    /** The program executes an instruction of page `p`. */
    method Execute(p: nat)
      requires Valid()
      modifies this`log, this`seen, this`executed
      ensures Valid()
      ensures executed == if p in watched then old(executed) + [p] else old(executed)
      ensures log == if p in watched && p !in old(seen) then old(log) + [p] else old(log)
    {
      if p in watched {
        FirstSeenExtends(executed, p);
        executed := executed + [p];
        if p !in seen {
          seen := seen + {p};
          log := log + [p];
        }
      }
    }

    /** At most `count` of what was recorded and not yet taken, in order. */
    method Take(count: nat) returns (out: seq<nat>)
      requires Valid()
      modifies this`taken, this`delivered
      ensures Valid()
      ensures |out| == if count < |log| - old(taken) then count else |log| - old(taken)
      ensures out == log[old(taken)..old(taken) + |out|]
      ensures delivered == old(delivered) + out
      ensures delivered + log[taken..] == log
    {
      var n := if count < |log| - taken then count else |log| - taken;
      out := log[taken..taken + n];
      taken := taken + n;
      delivered := delivered + out;
    }

    method End()
      requires Valid()
      modifies this`watched, this`parts, this`seen, this`before, this`executed
      ensures Valid() && watched == {} && parts == 0 && executed == [] && before == log
    {
      watched, seen, parts := {}, {}, 0;
      before, executed := log, [];
    }

    /** Any splitting of a record into takes, until nothing is left. */
    method TakeAll(counts: seq<nat>) returns (batches: seq<seq<nat>>)
      requires Valid()
      modifies this`taken, this`delivered
      ensures Valid() && delivered == old(delivered) + Joined(batches)
      ensures delivered + log[taken..] == log && |batches| == |counts|
    {
      batches := [];
      var i := 0;
      while i < |counts|
        invariant 0 <= i <= |counts| && |batches| == i
        invariant Valid() && delivered == old(delivered) + Joined(batches)
        invariant delivered + log[taken..] == log
      {
        var out := Take(counts[i]);
        JoinedSnoc(batches, out);
        batches := batches + [out];
        i := i + 1;
      }
    }

    /** In every recording, however many came before it: once what the earlier ones recorded has
        been taken, what is delivered after it is the beginning of the pages watched and executed
        since, each once, in the order of their first execution, and all of them once everything
        is taken. Until then, only the earlier record is delivered. */
    lemma DeliveredInFirstOrder()
      requires Valid()
      ensures taken < |before| ==> delivered == before[..taken]
      ensures taken >= |before| ==>
        && delivered == before + FirstSeen(executed)[..taken - |before|]
        && InOrderOfFirst(delivered[|before|..], executed)
        && (taken == |log| ==> forall p :: p in delivered[|before|..] <==> p in executed)
    {
      FirstSeenIsOrdered(executed);
      if taken >= |before| {
        assert delivered[|before|..] == FirstSeen(executed)[..taken - |before|];
      }
    }
  }

  function Joined(batches: seq<seq<nat>>): seq<nat> {
    if |batches| == 0 then [] else Joined(batches[..|batches| - 1]) + batches[|batches| - 1]
  }

  lemma JoinedSnoc(batches: seq<seq<nat>>, last: seq<nat>)
    ensures Joined(batches + [last]) == Joined(batches) + last
  {
    assert (batches + [last])[..|batches|] == batches;
  }
}
