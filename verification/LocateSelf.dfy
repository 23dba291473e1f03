/** How the suite finds its own program among the supplied directories: the longest directory
    name that is a prefix of the program's name at a component boundary. */
module LocateSelf {

  const BUFFER: nat := 1024

  /** What a preopen enquiry gives: its name, or a refusal. */
  datatype Preopen = Named(name: string) | Refused

  /** Where the program is: beneath preopen `index`, or beneath the working directory; by the
      part of its name that begins at `at`. */
  datatype Location = Beneath(index: nat, at: nat) | Working

  predicate IsSeparator(c: char) {
    c == '/' || c == '\\'
  }

  /** `name` is a prefix of `whole` that ends at a component boundary. */
  predicate IsBoundaryPrefix(name: string, whole: string) {
    && 0 < |name| <= |whole|
    && whole[..|name|] == name
    && (IsSeparator(name[|name| - 1]) || |name| == |whole| || IsSeparator(whole[|name|]))
  }

  /** A name is such a prefix exactly where what follows it is nothing, or begins with a separator,
      or it ends with one itself. */
  lemma BoundaryIsWhatFollows(name: string, whole: string)
    ensures IsBoundaryPrefix(name, whole) <==> exists rest: string :: Continues(name, rest, whole)
  {
    if IsBoundaryPrefix(name, whole) {
      assert whole == name + whole[|name|..];
      assert Continues(name, whole[|name|..], whole);
    }
  }

  ghost predicate Continues(name: string, rest: string, whole: string) {
    && name != "" && whole == name + rest
    && (rest == "" || rest[0] in "/\\" || name[|name| - 1] in "/\\")
  }

  method PrefixAtBoundary(name: string, whole: string) returns (b: bool)
    ensures b == IsBoundaryPrefix(name, whole)
  {
    if |name| == 0 || |name| > |whole| {
      return false;
    }
    var i := 0;
    while i < |name|
      invariant 0 <= i <= |name|
      invariant whole[..i] == name[..i]
    {
      if name[i] != whole[i] {
        assert whole[..|name|][i] != name[i];
        return false;
      }
      i := i + 1;
    }
    if IsSeparator(name[|name| - 1]) {
      return true;
    }
    return |name| == |whole| || IsSeparator(whole[|name|]);
  }

  /** The preopen has a name that fits the caller's buffer and matches. */
  predicate Matches(p: Preopen, argv0: string) {
    p.Named? && |p.name| < BUFFER && IsBoundaryPrefix(p.name, argv0)
  }

  /** Preopen `i` matches, no match is longer, and no earlier one is as long. */
  ghost predicate IsChosen(ps: seq<Preopen>, argv0: string, i: nat) {
    && i < |ps| && Matches(ps[i], argv0)
    && (forall j :: 0 <= j < |ps| && Matches(ps[j], argv0) ==> |ps[j].name| <= |ps[i].name|)
    && (forall j :: 0 <= j < i && Matches(ps[j], argv0) ==> |ps[j].name| < |ps[i].name|)
  }

  ghost predicate NoneMatches(ps: seq<Preopen>, argv0: string) {
    forall j :: 0 <= j < |ps| ==> !Matches(ps[j], argv0)
  }

  predicate AllSeparators(s: string) {
    forall i :: 0 <= i < |s| ==> IsSeparator(s[i])
  }

  /** The suite's search. `found` is whether the program can be named at all; `relative` is its
      name beneath the directory the location gives. */
  method Locate(argv0: string, preopens: seq<Preopen>)
    returns (found: bool, where: Location, relative: string)
    ensures 0 < |argv0| < BUFFER ==> found == (|relative| > 0)
    ensures !(0 < |argv0| < BUFFER) ==> !found
    ensures 0 < |argv0| < BUFFER && NoneMatches(preopens, argv0) ==> where == Working && relative == argv0
    ensures 0 < |argv0| < BUFFER && !NoneMatches(preopens, argv0) ==>
      && where.Beneath? && IsChosen(preopens, argv0, where.index)
      && |preopens[where.index].name| <= where.at <= |argv0|
      && argv0 == preopens[where.index].name + argv0[|preopens[where.index].name|..where.at] + relative
      && AllSeparators(argv0[|preopens[where.index].name|..where.at])
      && (|relative| > 0 ==> !IsSeparator(relative[0]))
  {
    where, relative := Working, [];
    if |argv0| >= BUFFER || |argv0| == 0 {
      return false, where, relative;
    }
    var best, bestLen, any := 0, 0, false;
    var i := 0;
    while i < |preopens|
      invariant 0 <= i <= |preopens|
      invariant any ==> IsChosen(preopens[..i], argv0, best) && bestLen == |preopens[best].name|
      invariant !any ==> NoneMatches(preopens[..i], argv0)
    {
      assert preopens[..i + 1] == preopens[..i] + [preopens[i]];
      if preopens[i].Named? && |preopens[i].name| < BUFFER {
        var match_ := PrefixAtBoundary(preopens[i].name, argv0);
        if match_ && (!any || |preopens[i].name| > bestLen) {
          any, best, bestLen := true, i, |preopens[i].name|;
        }
      }
      i := i + 1;
    }
    assert preopens[..i] == preopens;
    if !any {
      return |argv0| > 0, Working, argv0;
    }
    var at := bestLen;
    while at < |argv0| && IsSeparator(argv0[at])
      invariant bestLen <= at <= |argv0|
      invariant AllSeparators(argv0[bestLen..at])
    {
      assert argv0[bestLen..at + 1] == argv0[bestLen..at] + [argv0[at]];
      at := at + 1;
    }
    where, relative := Beneath(best, at), argv0[at..];
    found := |relative| > 0;
  }

  // ----- What the choice does not depend on

  /** Two matches of one length are one name, so the name chosen depends only on which names
      there are. */
  lemma ChosenNameIsUnique(ps: seq<Preopen>, qs: seq<Preopen>, argv0: string, i: nat, j: nat)
    requires multiset(ps) == multiset(qs)
    requires IsChosen(ps, argv0, i) && IsChosen(qs, argv0, j)
    ensures ps[i] == qs[j]
  {
    assert ps[i] in multiset(qs) && qs[j] in multiset(ps);
    var k :| 0 <= k < |qs| && qs[k] == ps[i];
    var l :| 0 <= l < |ps| && ps[l] == qs[j];
    assert |ps[i].name| == |qs[j].name|;
  }

  ghost predicate DistinctNames(ps: seq<Preopen>) {
    forall i, j :: 0 <= i < j < |ps| && ps[i].Named? && ps[j].Named? ==> ps[i].name != ps[j].name
  }

  lemma MatchesDifferInLength(a: string, b: string, argv0: string)
    requires IsBoundaryPrefix(a, argv0) && IsBoundaryPrefix(b, argv0) && a != b
    ensures |a| != |b|
  {}

  /** With distinct names every enumeration order gives the same directory: whichever position
      it has in each order, it is the one position that bears the chosen name. */
  lemma OrderDoesNotMatter(ps: seq<Preopen>, qs: seq<Preopen>, argv0: string, i: nat, j: nat)
    requires multiset(ps) == multiset(qs) && DistinctNames(ps)
    requires IsChosen(ps, argv0, i) && IsChosen(qs, argv0, j)
    ensures ps[i] == qs[j]
    ensures forall k :: 0 <= k < |ps| && ps[k] == qs[j] ==> k == i
    ensures forall k :: 0 <= k < |ps| && k != i && Matches(ps[k], argv0) ==> |ps[k].name| < |ps[i].name|
  {
    ChosenNameIsUnique(ps, qs, argv0, i, j);
    forall k | 0 <= k < |ps| && k != i && Matches(ps[k], argv0) ensures |ps[k].name| < |ps[i].name| {
      MatchesDifferInLength(ps[k].name, ps[i].name, argv0);
    }
  }

  // ----- What the result names

  /** The components of a name: the longest runs without a separator, in order. */
  function Components(s: string): seq<string>
    decreases |s|
  {
    if |s| == 0 then []
    else if IsSeparator(s[0]) then Components(s[1..])
    else
      var n := RunLength(s);
      [s[..n]] + Components(s[n..])
  }

  function RunLength(s: string): (n: nat)
    ensures n <= |s| && (forall i :: 0 <= i < n ==> !IsSeparator(s[i]))
    ensures n < |s| ==> IsSeparator(s[n])
    ensures |s| > 0 && !IsSeparator(s[0]) ==> n > 0
  {
    if |s| == 0 || IsSeparator(s[0]) then 0 else 1 + RunLength(s[1..])
  }

  lemma {:induction false} SeparatorsAddNothing(s: string, t: string)
    requires AllSeparators(s)
    ensures Components(s + t) == Components(t)
  {
    if |s| == 0 {
      assert s + t == t;
    } else {
      SeparatorsAddNothing(s[1..], t);
      assert (s + t)[1..] == s[1..] + t;
    }
  }

  lemma {:induction false} RunEndsAtTheJoin(s: string, t: string)
    requires |s| > 0 && (|t| == 0 || IsSeparator(s[|s| - 1]) || IsSeparator(t[0]))
    ensures RunLength(s + t) == RunLength(s)
  {
    assert (s + t)[1..] == s[1..] + t;
    if |s| > 1 {
      RunEndsAtTheJoin(s[1..], t);
    } else {
      assert s[1..] + t == t;
    }
  }

  /** A name whose first component is `n` long: that component, and those of what follows. */
  lemma FirstComponent(u: string, n: nat, rest: string)
    requires |u| > 0 && !IsSeparator(u[0]) && n == RunLength(u) && rest == u[n..]
    ensures Components(u) == [u[..n]] + Components(rest)
  {}

  lemma CutInFront(s: string, t: string, n: nat)
    requires n <= |s|
    ensures (s + t)[..n] == s[..n] && (s + t)[n..] == s[n..] + t
  {}

  /** Names joined at a boundary have the components of both. */
  lemma {:induction false} ComponentsJoin(s: string, t: string)
    requires |s| == 0 || |t| == 0 || IsSeparator(s[|s| - 1]) || IsSeparator(t[0])
    ensures Components(s + t) == Components(s) + Components(t)
    decreases |s|
  {
    if |s| == 0 {
      assert s + t == t;
    } else if IsSeparator(s[0]) {
      assert (s + t)[1..] == s[1..] + t;
      ComponentsJoin(s[1..], t);
    } else {
      var n := RunLength(s);
      RunEndsAtTheJoin(s, t);
      CutInFront(s, t, n);
      ComponentsJoin(s[n..], t);
      FirstComponent(s, n, s[n..]);
      FirstComponent(s + t, n, s[n..] + t);
    }
  }

  /** Where a directory matches, the program's name has the components of the directory's name
      followed by those of the result. */
  lemma ComponentsAreSplit(argv0: string, name: string, at: nat)
    requires IsBoundaryPrefix(name, argv0) && |name| <= at <= |argv0|
    requires AllSeparators(argv0[|name|..at]) && (at < |argv0| ==> !IsSeparator(argv0[at]))
    ensures Components(argv0) == Components(name) + Components(argv0[at..])
  {
    var rest, gap, tail := argv0[|name|..], argv0[|name|..at], argv0[at..];
    assert argv0 == name + rest && rest == gap + tail;
    assert |rest| == 0 || IsSeparator(name[|name| - 1]) || IsSeparator(rest[0]);
    ComponentsJoin(name, rest);
    SeparatorsAddNothing(gap, tail);
  }
}
