/** Sums of natural numbers over a sequence, used by every counting argument. */
module Sums {

  function Sum(s: seq<nat>): nat {
    if |s| == 0 then 0 else s[0] + Sum(s[1..])
  }

  lemma {:induction false} SumUpdate(s: seq<nat>, i: nat, v: nat)
    requires i < |s|
    ensures Sum(s[i := v]) == Sum(s) - s[i] + v
    ensures s[i] <= Sum(s)
  {
    if i == 0 {
      assert s[i := v][1..] == s[1..];
    } else {
      SumUpdate(s[1..], i - 1, v);
      assert s[i := v][1..] == s[1..][i - 1 := v];
    }
  }

  lemma {:induction false} SumMonotone(s: seq<nat>, t: seq<nat>)
    requires |s| == |t|
    requires forall i :: 0 <= i < |s| ==> s[i] <= t[i]
    ensures Sum(s) <= Sum(t)
  {
    if |s| > 0 {
      SumMonotone(s[1..], t[1..]);
    }
  }

  lemma {:induction false} SumBound(s: seq<nat>, c: nat)
    requires forall i :: 0 <= i < |s| ==> s[i] <= c
    ensures Sum(s) <= c * |s|
  {
    if |s| > 0 {
      SumBound(s[1..], c);
      assert c * |s| == c * |s[1..]| + c;
    }
  }

  lemma {:induction false} SumConstant(s: seq<nat>, c: nat)
    requires forall i :: 0 <= i < |s| ==> s[i] == c
    ensures Sum(s) == c * |s|
  {
    if |s| > 0 {
      SumConstant(s[1..], c);
      assert c * |s| == c * |s[1..]| + c;
    }
  }

  lemma {:induction false} SumAppend(s: seq<nat>, t: seq<nat>)
    ensures Sum(s + t) == Sum(s) + Sum(t)
  {
    if |s| == 0 {
      assert s + t == t;
    } else {
      SumAppend(s[1..], t);
      assert (s + t)[1..] == s[1..] + t;
    }
  }

  lemma {:induction false} MulMonotone(c: nat, x: nat, y: nat)
    requires x <= y
    ensures c * x <= c * y
  {
    if x < y {
      MulMonotone(c, x, y - 1);
      assert c * y == c * (y - 1) + c;
    }
  }

  /** A drop in the leading part of a measure outweighs any rise in the rest. */
  lemma Outweighs(c: nat, x: nat, y: nat, r: nat, r': nat)
    requires x < y && r' < c
    ensures c * x + r' < c * y + r
  {
    MulMonotone(c, x + 1, y);
    assert c * (x + 1) == c * x + c;
  }
}
