/** What a change does and when it is granted, as a program can tell: by the enquiries it makes
    before and after. */
module Changes {
  import opened Attenuation

  // ----- The enquiries agree with each other

  predicate IsThere(t: Tree, p: Path) {
    InfoAnswer(t, p) != Kind(Absent)
  }

  predicate IsDir(t: Tree, p: Path) {
    InfoAnswer(t, p) == Kind(ADirectory)
  }

  predicate Lists(t: Tree, p: Path, x: Component) {
    ListAnswer(t, p).Listing? && x in ListAnswer(t, p).names
  }

  /** Reading, asking, listing and opening answer of one thing: a name is absent, or a file of the length of
      its content, or a directory that lists exactly the names there are beneath it. */
  lemma EnquiriesAgree(t: Tree, p: Path)
    requires IsTree(t)
    ensures IsThere(t, p) <==> ReadAnswer(t, p) != Failed(NotFound)
    ensures IsThere(t, p) <==> ListAnswer(t, p) != Failed(NotFound)
    ensures forall text :: ReadAnswer(t, p) == Content(text) ==> InfoAnswer(t, p) == Kind(AFile(|text|))
    ensures IsDir(t, p) <==> ListAnswer(t, p).Listing?
    ensures IsDir(t, p) ==> ReadAnswer(t, p) == Failed(WrongKind)
    ensures IsThere(t, p) && !IsDir(t, p) ==> ReadAnswer(t, p).Content? && ListAnswer(t, p) == Failed(WrongKind)
    ensures IsDir(t, p) ==> forall x :: Lists(t, p, x) <==> IsThere(t, p + [x])
    ensures forall o: Call :: o.OpenDir? ==>
      EnquiryAnswer(t, o, p) ==
        if IsDir(t, p) then Done else if IsThere(t, p) then Failed(WrongKind) else Failed(NotFound)
  {
    if IsDir(t, p) {
      forall x ensures Lists(t, p, x) <==> IsThere(t, p + [x]) {
        ListedIsThere(t, p, x);
      }
    }
  }

  lemma ListedIsThere(t: Tree, p: Path, x: Component)
    requires IsDir(t, p)
    ensures Lists(t, p, x) <==> IsThere(t, p + [x])
  {
    var r := p + [x];
    assert |r| == |p| + 1 && r[..|p|] == p && r[|p|] == x;
    if Lists(t, p, x) {
      var q :| q in t && |q| == |p| + 1 && Prefix(p, q) && q[|p|] == x;
      assert q == q[..|p|] + [q[|p|]] == r;
    }
  }

  // ----- What a granted change does

  /** Neither at nor beneath a name the change is of. */
  predicate Elsewhere(c: Call, p: Path, q: Path, r: Path) {
    !Prefix(p, r) && (c.Rename? ==> !Prefix(q, r))
  }

  predicate SameNode(t: Tree, r: Path, t': Tree, r': Path) {
    InfoAnswer(t', r') == InfoAnswer(t, r) && ReadAnswer(t', r') == ReadAnswer(t, r)
  }

  /** After a removal the name is absent; after a write it reads as written; after a making it is a
      directory and empty; after a rename the old name is absent, and whatever is beneath, and the
      new name is what the old was, and so beneath. */
  lemma NamedIsChanged(t: Tree, c: Call, p: Path, q: Path)
    requires IsTree(t) && Changed(t, c, p, q).0 == Done
    ensures var t' := Changed(t, c, p, q).1;
      match c
      case Remove(_, _) => !IsThere(t', p)
      case WriteFile(_, _, content, _, _) =>
        ReadAnswer(t', p) == Content(content) && InfoAnswer(t', p) == Kind(AFile(|content|))
      case MakeDir(_, _) => IsDir(t', p) && ListAnswer(t', p) == Listing({})
      case Rename(_, _, _, _, _) =>
        && (forall r :: Prefix(p, r) ==> !IsThere(t', r))
        && forall x :: SameNode(t, p + x, t', q + x) && ListAnswer(t', q + x) == ListAnswer(t, p + x)
      case _ => false
  {
    match c
    case MakeDir(_, _) => NothingInNew(t, p);
    case Rename(_, _, _, _, _) =>
      forall r | Prefix(p, r) ensures r !in Moved(t, p, q) {
        OldPlaceIsEmpty(t, p, q, r);
      }
      forall x
        ensures SameNode(t, p + x, Moved(t, p, q), q + x)
        ensures ListAnswer(Moved(t, p, q), q + x) == ListAnswer(t, p + x)
      {
        RenamedIsSame(t, p, q, x);
      }
    case _ =>
  }

  lemma NothingInNew(t: Tree, p: Path)
    requires IsTree(t) && p != [] && p !in t && IsDirectory(t, Parent(p))
    ensures ListAnswer(t[p := Directory], p) == Listing({})
  {
    forall q | q in t[p := Directory] && |q| == |p| + 1 ensures !Prefix(p, q) {
      if Prefix(p, q) {
        NothingBeneath(t, p, q);
      }
    }
    assert (set q | q in t[p := Directory] && |q| == |p| + 1 && Prefix(p, q) :: q[|p|]) == {};
  }

  /** What is at a place that moved is what was at the place it moved from. */
  lemma MovedAt(t: Tree, p: Path, q: Path, x: Path)
    requires IsTree(t) && p in t && q != [] && !Prefix(p, q) && !HasChildren(t, q)
    ensures p + x in t <==> q + x in Moved(t, p, q)
    ensures p + x in t ==> Moved(t, p, q)[q + x] == t[p + x]
  {
    assert (p + x)[|p|..] == x && (q + x)[|q|..] == x;
    if p + x in t {
      assert Prefix(p, p + x);
      MovedNodes(t, p, q, p + x);
    }
    if q + x in Moved(t, p, q) && p + x !in t {
      NothingElseAppears(t, p, q, q + x);
      NothingBeneath(t, q, q + x);
    }
  }

  lemma RenamedIsSame(t: Tree, p: Path, q: Path, x: Path)
    requires IsTree(t) && p in t && q != [] && p != [] && !Prefix(p, q) && !HasChildren(t, q)
    ensures SameNode(t, p + x, Moved(t, p, q), q + x)
    ensures ListAnswer(Moved(t, p, q), q + x) == ListAnswer(t, p + x)
  {
    var t' := Moved(t, p, q);
    MovedAt(t, p, q, x);
    if ListAnswer(t, p + x).Listing? {
      SameListing(t, p + x, t', q + x, p, q, x);
    }
  }

  lemma SameListing(t: Tree, r: Path, t': Tree, r': Path, p: Path, q: Path, x: Path)
    requires IsTree(t) && p in t && q != [] && !Prefix(p, q) && !HasChildren(t, q)
    requires t' == Moved(t, p, q) && r == p + x && r' == q + x && IsDir(t, r) && IsDir(t', r')
    ensures ListAnswer(t', r') == ListAnswer(t, r)
  {
    forall y ensures Lists(t', r', y) <==> Lists(t, r, y) {
      ListedIsThere(t, r, y);
      ListedIsThere(t', r', y);
      MovedAt(t, p, q, x + [y]);
      assert p + (x + [y]) == r + [y] && q + (x + [y]) == r' + [y];
    }
    SameNames(t, r, t', r');
  }

  lemma SameNames(t: Tree, r: Path, t': Tree, r': Path)
    requires IsDir(t, r) && IsDir(t', r') && forall y :: Lists(t', r', y) <==> Lists(t, r, y)
    ensures ListAnswer(t', r') == ListAnswer(t, r)
  {
    var names, names' := ListAnswer(t, r).names, ListAnswer(t', r').names;
    forall y ensures y in names <==> y in names' {
      assert Lists(t', r', y) <==> Lists(t, r, y);
    }
    assert names == names';
  }

  /** And every name elsewhere is as it was, and lists what it did, but for the directory that is
      just above a name the change is of. */
  lemma ElsewhereIsSame(t: Tree, c: Call, p: Path, q: Path, r: Path)
    requires IsTree(t) && Elsewhere(c, p, q, r)
    ensures var t' := Changed(t, c, p, q).1;
      && SameNode(t, r, t', r)
      && ((p == [] || r != Parent(p)) && (c.Rename? && q != [] ==> r != Parent(q)) ==>
            ListAnswer(t', r) == ListAnswer(t, r))
  {
    var t' := Changed(t, c, p, q).1;
    NodeElsewhere(t, c, p, q, r);
    if (p == [] || r != Parent(p)) && (c.Rename? && q != [] ==> r != Parent(q)) && IsDir(t, r) {
      forall y ensures Lists(t', r, y) <==> Lists(t, r, y) {
        ListedIsThere(t, r, y);
        ListedIsThere(t', r, y);
        StillElsewhere(p, r, y);
        if c.Rename? {
          StillElsewhere(q, r, y);
        }
        NodeElsewhere(t, c, p, q, r + [y]);
      }
      SameNames(t, r, t', r);
    }
  }

  lemma PrefixOfLonger(p: Path, r: Path, y: Component)
    ensures Prefix(p, r + [y]) <==> Prefix(p, r) || p == r + [y]
  {
    if |p| <= |r| {
      assert (r + [y])[..|p|] == r[..|p|];
    } else if |p| == |r| + 1 {
      assert (r + [y])[..|p|] == r + [y];
    }
  }

  lemma StillElsewhere(p: Path, r: Path, y: Component)
    requires !Prefix(p, r) && (p == [] || r != Parent(p))
    ensures !Prefix(p, r + [y])
  {
    PrefixOfLonger(p, r, y);
    assert Parent(r + [y]) == r;
  }

  lemma NodeElsewhere(t: Tree, c: Call, p: Path, q: Path, r: Path)
    requires IsTree(t) && Elsewhere(c, p, q, r)
    ensures var t' := Changed(t, c, p, q).1; (r in t' <==> r in t) && (r in t ==> t'[r] == t[r])
  {
    if c.Rename? && Changed(t, c, p, q).0 == Done {
      RoomToMove(t, p, q);
      RenamedElsewhere(t, p, q, r);
    }
  }

  /** What has a directory above it and is not there, or is there without children, has none. */
  lemma RoomToMove(t: Tree, p: Path, q: Path)
    requires IsTree(t) && (q in t ==> !HasChildren(t, q)) && q != []
    ensures !HasChildren(t, q)
  {
    assert forall r :: r in t && |r| == |q| + 1 && Prefix(q, r) ==> Parent(r) == q;
  }

  lemma RenamedElsewhere(t: Tree, p: Path, q: Path, r: Path)
    requires IsTree(t) && p in t && q != [] && !Prefix(p, q) && !HasChildren(t, q)
    requires !Prefix(p, r) && !Prefix(q, r)
    ensures var t' := Moved(t, p, q); (r in t' <==> r in t) && (r in t ==> t'[r] == t[r])
  {
    if r in t {
      MovedNodes(t, p, q, r);
    } else if r in Moved(t, p, q) {
      NothingElseAppears(t, p, q, r);
    }
  }

  // ----- When it is granted

  /** What each change is answered, by what is there. The root cannot be written, made or removed,
      and nothing is moved to itself or beneath itself. */
  lemma AnsweredByWhatIsThere(t: Tree, c: Call, p: Path, q: Path)
    requires IsTree(t) && IsChange(c)
    ensures Changed(t, c, p, q).0 ==
      match c
      case WriteFile(_, _, _, create, exclusive) =>
        if IsDir(t, p) then Failed(WrongKind)
        else if IsThere(t, p) then (if exclusive then Failed(Exists) else Done)
        else if create && IsDir(t, Parent(p)) then Done else Failed(NotFound)
      case MakeDir(_, _) =>
        if IsThere(t, p) then Failed(Exists) else if IsDir(t, Parent(p)) then Done else Failed(NotFound)
      case Remove(_, _) =>
        if p == [] then Failed(Invalid)
        else if !IsThere(t, p) then Failed(NotFound)
        else if IsDir(t, p) && ListAnswer(t, p) != Listing({}) then Failed(NotEmpty)
        else Done
      case Rename(_, _, _, _, replace) =>
        if p == [] || q == [] || Prefix(p, q) then Failed(Invalid)
        else if !IsThere(t, p) || !IsDir(t, Parent(q)) then Failed(NotFound)
        else if IsThere(t, q) && (!replace || (IsDir(t, q) && ListAnswer(t, q) != Listing({}))) then Failed(Exists)
        else Done
      case _ => Failed(Invalid)
  {
    if IsDir(t, p) {
      ChildrenAreListed(t, p);
    } else if IsThere(t, p) {
      FilesHoldNothing(t, p);
    }
    if IsDir(t, q) {
      ChildrenAreListed(t, q);
    } else if IsThere(t, q) {
      FilesHoldNothing(t, q);
    }
  }

  lemma ChildrenAreListed(t: Tree, p: Path)
    requires IsDir(t, p)
    ensures HasChildren(t, p) <==> ListAnswer(t, p) != Listing({})
  {
    var names := ListAnswer(t, p).names;
    if HasChildren(t, p) {
      var r :| r in t && |r| == |p| + 1 && Prefix(p, r);
      assert r[|p|] in names;
    }
    if names != {} {
      var x :| x in names;
      var r :| r in t && |r| == |p| + 1 && Prefix(p, r) && r[|p|] == x;
      assert HasChildren(t, p);
    }
  }

  lemma FilesHoldNothing(t: Tree, p: Path)
    requires IsTree(t) && IsThere(t, p) && !IsDir(t, p)
    ensures !HasChildren(t, p)
  {
    assert forall r :: r in t && |r| == |p| + 1 && Prefix(p, r) ==> Parent(r) == p;
  }

  // ----- As the calls see it

  /** What the call is answered. */
  function Asked(w: World, hs: seq<Handle>, c: Call): Answer {
    Do(w, hs, c).answer
  }

  /** A change answered `Done` has its effect, and no other, in every enquiry made afterwards
      through any handle that reaches the name. */
  lemma DoneIsSeen(w: World, hs: seq<Handle>, c: Call, g: nat, name: Name)
    requires IsTree(w.tree) && IsChange(c) && Do(w, hs, c).answer == Done
    requires g < |hs| && !hs[g].unchanging && NameAllowed(name)
    ensures c.h < |hs| && (c.Rename? ==> c.to < |hs|)
    ensures var w' := Do(w, hs, c).world; var (p, q) := Resolved(hs, c); var r := hs[g].dir + name;
      && (c.Remove? && r == p ==>
            Asked(w', hs, Info(g, name, 0)) == Kind(Absent) && Asked(w', hs, ReadFile(g, name, 0)) == Failed(NotFound))
      && (c.WriteFile? && r == p ==> Asked(w', hs, ReadFile(g, name, 0)) == Content(c.content))
      && (c.MakeDir? && r == p ==> Asked(w', hs, List(g, name, 0)) == Listing({}))
      && (c.Rename? && Prefix(p, r) ==> Asked(w', hs, Info(g, name, 0)) == Kind(Absent))
      && (c.Rename? && Prefix(q, r) ==>
            Asked(w', hs, ReadFile(g, name, 0)) == ReadAnswer(w.tree, p + r[|q|..])
            && Asked(w', hs, List(g, name, 0)) == ListAnswer(w.tree, p + r[|q|..]))
      && (Elsewhere(c, p, q, r) ==>
            Asked(w', hs, ReadFile(g, name, 0)) == Asked(w, hs, ReadFile(g, name, 0))
            && Asked(w', hs, Info(g, name, 0)) == Asked(w, hs, Info(g, name, 0)))
  {
    var (p, q) := Resolved(hs, c);
    var r, w' := hs[g].dir + name, Do(w, hs, c).world;
    assert Changed(w.tree, c, p, q).0 == Done && w'.tree == Changed(w.tree, c, p, q).1;
    AsksTheTree(w, hs, g, name);
    AsksTheTree(w', hs, g, name);
    DoneIsSeenAt(w.tree, c, p, q, r);
  }

  lemma DoneIsSeenAt(t: Tree, c: Call, p: Path, q: Path, r: Path)
    requires IsTree(t) && Changed(t, c, p, q).0 == Done
    ensures var t' := Changed(t, c, p, q).1;
      && (c.Remove? && r == p ==> InfoAnswer(t', r) == Kind(Absent) && ReadAnswer(t', r) == Failed(NotFound))
      && (c.WriteFile? && r == p ==> ReadAnswer(t', r) == Content(c.content))
      && (c.MakeDir? && r == p ==> ListAnswer(t', r) == Listing({}))
      && (c.Rename? && Prefix(p, r) ==> InfoAnswer(t', r) == Kind(Absent))
      && (c.Rename? && Prefix(q, r) ==>
            ReadAnswer(t', r) == ReadAnswer(t, p + r[|q|..]) && ListAnswer(t', r) == ListAnswer(t, p + r[|q|..]))
      && (Elsewhere(c, p, q, r) ==> SameNode(t, r, t', r))
  {
    NamedIsChanged(t, c, p, q);
    ChangeKeepsTree(t, c, p, q);
    EnquiriesAgree(Changed(t, c, p, q).1, r);
    if Elsewhere(c, p, q, r) {
      ElsewhereIsSame(t, c, p, q, r);
    }
    if c.Rename? && Prefix(q, r) {
      assert r == q + r[|q|..];
      assert SameNode(t, p + r[|q|..], Changed(t, c, p, q).1, q + r[|q|..]);
    }
  }

  lemma AsksTheTree(w: World, hs: seq<Handle>, g: nat, name: Name)
    requires g < |hs| && !hs[g].unchanging && NameAllowed(name)
    ensures var r := hs[g].dir + name;
      && Asked(w, hs, Info(g, name, 0)) == InfoAnswer(w.tree, r)
      && Asked(w, hs, ReadFile(g, name, 0)) == ReadAnswer(w.tree, r)
      && Asked(w, hs, List(g, name, 0)) == ListAnswer(w.tree, r)
  {
    EnquiryIsAnswered(w, hs, Info(g, name, 0));
    EnquiryIsAnswered(w, hs, ReadFile(g, name, 0));
    EnquiryIsAnswered(w, hs, List(g, name, 0));
  }
}
