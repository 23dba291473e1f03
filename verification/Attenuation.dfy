/** Directory handles and what may be derived from them: what one call, through one party's
    handles, answers, changes and derives. */
module Attenuation {
  import Record

  /** Names are bytes, component by component. */
  type Component = Record.Bytes
  type Name = seq<Component>
  type Path = seq<Component>

  const ASCENDING: Component := [46, 46]

  datatype Node = File(content: string) | Directory

  type Tree = map<Path, Node>

  datatype Error = Invalid | Permission | NotSupported | NotFound | Exists | NotEmpty | WrongKind

  /** A record: the file it is appended to, and the directory its names are relative to. */
  datatype Recording = Recording(file: nat, base: Path)

  /** What a handle reaches, with what rights, and the records it is reached under; `since` is
      how many changes the tree had seen when the statement that nothing changes was first made
      of the handle. */
  datatype Handle = Handle(dir: Path, readOnly: bool, unchanging: bool, since: nat, records: seq<Recording>)

  /** The argument of an attenuation: whether the size given reaches the fixed fields, which
      positions are set, whether one is set that this version does not assign, and whether a
      record that may be written is given. */
  datatype Rights = Rights(longEnough: bool, readOnly: bool, unchanging: bool, recorded: bool,
                           unassigned: bool, writableRecord: bool, record: nat)

  /** Names are sequences of components; the empty one is the reserved name of the directory
      itself. `moment` is the tree an answer is given from, where the handle states that
      nothing changes and the implementation may answer from what it has read before. */
  datatype Call =
    | OpenDir(h: nat, name: Name, moment: nat)
    | Attenuate(h: nat, rights: Rights)
    | ReadFile(h: nat, name: Name, moment: nat)
    | Info(h: nat, name: Name, moment: nat)
    | List(h: nat, name: Name, moment: nat)
    | WriteFile(h: nat, name: Name, content: string, create: bool, exclusive: bool)
    | MakeDir(h: nat, name: Name)
    | Remove(h: nat, name: Name)
    | Rename(h: nat, name: Name, to: nat, newName: Name, replace: bool)

  datatype Answer =
    | Failed(e: Error)
    | Done
    | Opened(handle: nat)
    | Content(text: string)
    | Kind(node: Found)
    | Listing(names: set<Component>)
    | Recorded(bytes: Record.Bytes)

  datatype Found = Absent | AFile(size: nat) | ADirectory

  /** The tree, and the trees it was before each change. `attenuates` is the volume's property. */
  datatype World = World(tree: Tree, past: seq<Tree>, attenuates: bool)

  predicate Prefix(p: Path, q: Path) {
    |p| <= |q| && q[..|p|] == p
  }

  predicate HasChildren(t: Tree, p: Path) {
    exists q :: q in t && |q| == |p| + 1 && Prefix(p, q)
  }

  function Parent(p: Path): Path
    requires |p| > 0
  {
    p[..|p| - 1]
  }

  predicate IsDirectory(t: Tree, p: Path) {
    p == [] || (p in t && t[p].Directory?)
  }

  // ----- Answers, from one tree

  function ReadAnswer(t: Tree, p: Path): Answer {
    if p !in t then (if p == [] then Failed(WrongKind) else Failed(NotFound))
    else match t[p]
      case File(content) => Content(content)
      case Directory => Failed(WrongKind)
  }

  function InfoAnswer(t: Tree, p: Path): Answer {
    if p == [] then Kind(ADirectory)
    else if p !in t then Kind(Absent)
    else match t[p]
      case File(content) => Kind(AFile(|content|))
      case Directory => Kind(ADirectory)
  }

  function ListAnswer(t: Tree, p: Path): Answer {
    if IsDirectory(t, p) then
      Listing(set q | q in t && |q| == |p| + 1 && Prefix(p, q) :: q[|p|])
    else Failed(if p in t then WrongKind else NotFound)
  }

  // ----- Changes, from one tree

  /** What a change asked for through a handle with the right to make it does to the tree, and
      what it answers. `p` and `q` are the names it resolves to. */
  function Changed(t: Tree, c: Call, p: Path, q: Path): (Answer, Tree)
  {
    match c
    case WriteFile(_, _, content, create, exclusive) =>
      if p == [] || (p in t && t[p].Directory?) then (Failed(WrongKind), t)
      else if p in t then (if exclusive then (Failed(Exists), t) else (Done, t[p := File(content)]))
      else if !create || !IsDirectory(t, Parent(p)) then (Failed(NotFound), t)
      else (Done, t[p := File(content)])
    case MakeDir(_, _) =>
      if p == [] || p in t then (Failed(Exists), t)
      else if !IsDirectory(t, Parent(p)) then (Failed(NotFound), t)
      else (Done, t[p := Directory])
    case Remove(_, _) =>
      if p == [] then (Failed(Invalid), t)
      else if p !in t then (Failed(NotFound), t)
      else if HasChildren(t, p) then (Failed(NotEmpty), t)
      else (Done, t - {p})
    case Rename(_, _, _, _, replace) =>
      if p == [] || q == [] || Prefix(p, q) then (Failed(Invalid), t)
      else if p !in t || !IsDirectory(t, Parent(q)) then (Failed(NotFound), t)
      else if q in t && (!replace || HasChildren(t, q)) then (Failed(Exists), t)
      else (Done, Moved(t, p, q))
    case _ => (Failed(Invalid), t)
  }

  /** The node at `p` and everything beneath it, at `q` instead. */
  function Moved(t: Tree, p: Path, q: Path): Tree {
    var arrived := set r | r in t && Prefix(p, r) :: q + r[|p|..];
    var stayed := set r | r in t && !Prefix(p, r) && r != q;
    map r | r in arrived + stayed ::
      if r in arrived then (var from := p + r[|q|..]; if from in t then t[from] else Directory)
      else t[r]
  }

  // ----- The tree stays a tree

  /** Every node but the root has a directory above it. */
  ghost predicate IsTree(t: Tree) {
    && [] !in t
    && forall p :: p in t ==> |p| > 0 && IsDirectory(t, Parent(p))
  }

  lemma {:induction false} AncestorsAreThere(t: Tree, r: Path, k: nat)
    requires IsTree(t) && r in t && 0 < k <= |r|
    ensures r[..k] in t
    decreases |r| - k
  {
    if k < |r| {
      AncestorsAreThere(t, r, k + 1);
      assert Parent(r[..k + 1]) == r[..k];
    } else {
      assert r[..k] == r;
    }
  }

  lemma NothingBeneath(t: Tree, q: Path, r: Path)
    requires IsTree(t) && r in t && Prefix(q, r) && r != q && |q| > 0
    ensures HasChildren(t, q) && q in t
  {
    AncestorsAreThere(t, r, |q| + 1);
    AncestorsAreThere(t, r, |q|);
    assert r[..|q| + 1] in t && Prefix(q, r[..|q| + 1]);
  }

  /** What is moved keeps its contents and its place beneath what it moved with; what is not
      moved stays. */
  lemma MovedNodes(t: Tree, p: Path, q: Path, r: Path)
    requires IsTree(t) && p in t && q != [] && !Prefix(p, q) && !HasChildren(t, q)
    requires r in t && r != q
    ensures Prefix(p, r) ==> q + r[|p|..] in Moved(t, p, q) && Moved(t, p, q)[q + r[|p|..]] == t[r]
    ensures !Prefix(p, r) ==> r in Moved(t, p, q) && Moved(t, p, q)[r] == t[r]
  {
    if Prefix(p, r) {
      var to := q + r[|p|..];
      assert p + to[|q|..] == r;
    } else if exists x :: x in t && Prefix(p, x) && r == q + x[|p|..] {
      var x :| x in t && Prefix(p, x) && r == q + x[|p|..];
      assert Prefix(q, r);
      NothingBeneath(t, q, r);
    }
  }

  /** Every node there is after a move was there before, at its place or at the place it moved
      from. */
  lemma NothingElseAppears(t: Tree, p: Path, q: Path, r: Path)
    requires r in Moved(t, p, q)
    ensures (r in t && !Prefix(p, r) && r != q && Moved(t, p, q)[r] == t[r])
            || (Prefix(q, r) && p + r[|q|..] in t && Moved(t, p, q)[r] == t[p + r[|q|..]])
  {
    if exists x :: x in t && Prefix(p, x) && r == q + x[|p|..] {
      var x :| x in t && Prefix(p, x) && r == q + x[|p|..];
      assert p + r[|q|..] == x;
    }
  }

  lemma PrefixesOfOne(p: Path, q: Path, r: Path)
    requires Prefix(p, r) && Prefix(q, r)
    ensures Prefix(p, q) || Prefix(q, p)
  {
    if |p| <= |q| {
      assert q[..|p|] == r[..|p|];
    } else {
      assert p[..|q|] == r[..|q|];
    }
  }

  /** And nothing is left where it was, or beneath. */
  lemma OldPlaceIsEmpty(t: Tree, p: Path, q: Path, r: Path)
    requires IsTree(t) && p in t && q != [] && !Prefix(p, q) && !HasChildren(t, q)
    requires Prefix(p, r)
    ensures r !in Moved(t, p, q)
  {
    if r in Moved(t, p, q) {
      NothingElseAppears(t, p, q, r);
      PrefixesOfOne(p, q, r);
      NothingBeneath(t, q, p);
    }
  }

  lemma ParentMoves(p: Path, q: Path, x: Path)
    requires Prefix(p, x) && |p| < |x|
    ensures Prefix(p, Parent(x)) && Parent(q + x[|p|..]) == q + Parent(x)[|p|..]
  {
    assert Parent(x)[..|p|] == x[..|p|];
    assert x[|p|..] == Parent(x)[|p|..] + [x[|x| - 1]];
    assert q + x[|p|..] == (q + Parent(x)[|p|..]) + [x[|x| - 1]];
  }

  lemma ArrivedIsBelow(t: Tree, p: Path, q: Path, x: Path)
    requires IsTree(t) && p in t && p != [] && q != [] && !Prefix(p, q) && !HasChildren(t, q)
    requires IsDirectory(t, Parent(q)) && x in t && Prefix(p, x)
    ensures IsDirectory(Moved(t, p, q), Parent(q + x[|p|..]))
  {
    if |x| == |p| {
      assert q + x[|p|..] == q;
      StaysDirectory(t, p, q, Parent(q));
    } else {
      ParentMoves(p, q, x);
      MovedNodes(t, p, q, Parent(x));
    }
  }

  lemma MovedIsTree(t: Tree, p: Path, q: Path)
    requires IsTree(t) && p in t && p != [] && q != [] && !Prefix(p, q) && !HasChildren(t, q)
    requires IsDirectory(t, Parent(q))
    ensures IsTree(Moved(t, p, q))
  {
    forall r | r in Moved(t, p, q) ensures |r| > 0 && IsDirectory(Moved(t, p, q), Parent(r)) {
      if exists x :: x in t && Prefix(p, x) && r == q + x[|p|..] {
        var x :| x in t && Prefix(p, x) && r == q + x[|p|..];
        ArrivedIsBelow(t, p, q, x);
      } else {
        assert r in t && !Prefix(p, r) && r != q;
        assert !Prefix(p, Parent(r));
        assert Parent(r) == q ==> Prefix(q, r);
        StaysDirectory(t, p, q, Parent(r));
      }
    }
  }

  /** The directory above a node that is not moved, or above where a node moves to, stays. */
  lemma StaysDirectory(t: Tree, p: Path, q: Path, d: Path)
    requires IsTree(t) && p in t && q != [] && !Prefix(p, q) && !HasChildren(t, q)
    requires IsDirectory(t, d) && !Prefix(p, d) && d != q
    ensures IsDirectory(Moved(t, p, q), d)
  {
    if d != [] {
      MovedNodes(t, p, q, d);
    }
  }

  /** Every change leaves a tree. */
  lemma ChangeKeepsTree(t: Tree, c: Call, p: Path, q: Path)
    requires IsTree(t)
    ensures IsTree(Changed(t, c, p, q).1)
    ensures Changed(t, c, p, q).0.Failed? ==> Changed(t, c, p, q).1 == t
  {
    if Changed(t, c, p, q).0 == Done {
      match c
      case Rename(_, _, _, _, _) => MovedIsTree(t, p, q);
      case Remove(_, _) => RemovedIsTree(t, p);
      case WriteFile(_, _, content, _, _) => AddedIsTree(t, p, File(content));
      case MakeDir(_, _) => AddedIsTree(t, p, Directory);
      case _ =>
    }
  }

  lemma RemovedIsTree(t: Tree, p: Path)
    requires IsTree(t) && p in t && !HasChildren(t, p)
    ensures IsTree(t - {p})
  {
    forall r | r in t && r != p ensures IsDirectory(t - {p}, Parent(r)) {
      assert Parent(r) == p ==> Prefix(p, r);
    }
  }

  lemma AddedIsTree(t: Tree, p: Path, n: Node)
    requires IsTree(t) && |p| > 0 && IsDirectory(t, Parent(p)) && (p in t ==> t[p].File?)
    ensures IsTree(t[p := n])
  {}

  // ----- One call, through one party's handles

  /** No component ascends, and none is empty. */
  predicate NameAllowed(name: Name) {
    forall i :: 0 <= i < |name| ==> name[i] != ASCENDING && name[i] != []
  }

  predicate IsChange(c: Call) {
    c.WriteFile? || c.MakeDir? || c.Remove? || c.Rename?
  }

  /** The tree an answer through the handle is given from: the tree as it is, or one it was
      since the handle was said to see no change. */
  function Seen(w: World, h: Handle, moment: nat): Tree {
    if h.unchanging && h.since <= moment < |w.past| then w.past[moment] else w.tree
  }

  function EnquiryAnswer(t: Tree, c: Call, p: Path): Answer {
    match c
    case ReadFile(_, _, _) => ReadAnswer(t, p)
    case Info(_, _, _) => InfoAnswer(t, p)
    case List(_, _, _) => ListAnswer(t, p)
    case OpenDir(_, _, _) => if IsDirectory(t, p) then Done else Failed(if p in t then WrongKind else NotFound)
    case _ => Failed(Invalid)
  }

  function MomentOf(c: Call): nat {
    match c
    case ReadFile(_, _, m) => m
    case Info(_, _, m) => m
    case List(_, _, m) => m
    case OpenDir(_, _, m) => m
    case _ => 0
  }

  /** The handle an attenuation gives: the rights less what is withdrawn, the statements and
      those added. */
  function Attenuated(w: World, h: Handle, r: Rights): Handle {
    Handle(h.dir, h.readOnly || r.readOnly, h.unchanging || r.unchanging,
           if h.unchanging then h.since else |w.past|,
           if r.recorded then h.records + [Recording(r.record, h.dir)] else h.records)
  }

  function Resolved(hs: seq<Handle>, c: Call): (Path, Path)
    requires c.h < |hs| && !c.Attenuate? && (c.Rename? ==> c.to < |hs|)
  {
    (hs[c.h].dir + c.name, if c.Rename? then hs[c.to].dir + c.newName else [])
  }

  predicate ReadOnlyFor(hs: seq<Handle>, c: Call)
    requires c.h < |hs| && (c.Rename? ==> c.to < |hs|)
  {
    hs[c.h].readOnly || (c.Rename? && hs[c.to].readOnly)
  }

  datatype Result = Result(answer: Answer, world: World, handles: seq<Handle>)

  function Do(w: World, hs: seq<Handle>, c: Call): Result {
    if c.h >= |hs| || (c.Rename? && c.to >= |hs|) then Result(Failed(Invalid), w, hs)
    else if c.Attenuate? then
      if !w.attenuates then Result(Failed(NotSupported), w, hs)
      else if !c.rights.longEnough || c.rights.unassigned || (c.rights.recorded && !c.rights.writableRecord)
      then Result(Failed(Invalid), w, hs)
      else Result(Opened(|hs|), w, hs + [Attenuated(w, hs[c.h], c.rights)])
    else if !NameAllowed(c.name) || (c.Rename? && !NameAllowed(c.newName)) then Result(Failed(Invalid), w, hs)
    else
      var (p, q) := Resolved(hs, c);
      if IsChange(c) then
        if ReadOnlyFor(hs, c) then Result(Failed(Permission), w, hs)
        else
          var (answer, tree) := Changed(w.tree, c, p, q);
          Result(answer, if tree == w.tree then w else World(tree, w.past + [w.tree], w.attenuates), hs)
      else
        var answer := EnquiryAnswer(Seen(w, hs[c.h], MomentOf(c)), c, p);
        if c.OpenDir? && answer == Done then Result(Opened(|hs|), w, hs + [hs[c.h].(dir := p)])
        else Result(answer, w, hs)
  }

  // ----- What read-only handles and every handle keep

  ghost predicate AllReadOnly(hs: seq<Handle>) {
    forall i :: 0 <= i < |hs| ==> hs[i].readOnly
  }

  /** Through read-only handles a call changes nothing of the tree, and what it derives is read-only. */
  lemma ReadOnlyCall(w: World, hs: seq<Handle>, c: Call)
    requires AllReadOnly(hs)
    ensures Do(w, hs, c).world == w
    ensures AllReadOnly(Do(w, hs, c).handles)
  {}

  lemma CallKeepsTree(w: World, hs: seq<Handle>, c: Call)
    requires IsTree(w.tree)
    ensures IsTree(Do(w, hs, c).world.tree)
  {
    if IsChange(c) && c.h < |hs| && (c.Rename? ==> c.to < |hs|) {
      var (p, q) := Resolved(hs, c);
      ChangeKeepsTree(w.tree, c, p, q);
    }
  }

  // ----- Derivation only takes away

  /** `h` reaches no more than `r` does, with no right `r` lacks and every statement it has. */
  ghost predicate Derives(r: Handle, h: Handle) {
    && Prefix(r.dir, h.dir) && NameAllowed(h.dir[|r.dir|..])
    && (r.readOnly ==> h.readOnly)
    && (r.unchanging ==> h.unchanging && h.since == r.since)
    && r.records <= h.records
  }

  /** And if `h` states that nothing changes, where `r` does not, it has stated it since the
      tree had seen `start` changes or later. */
  ghost predicate DerivesSince(r: Handle, h: Handle, start: nat) {
    Derives(r, h) && (h.unchanging && !r.unchanging ==> h.since >= start)
  }

  ghost predicate HasRoot(roots: seq<Handle>, h: Handle, start: nat) {
    exists k :: 0 <= k < |roots| && DerivesSince(roots[k], h, start)
  }

  /** Every handle held derives from one of the roots. */
  ghost predicate AllDerive(roots: seq<Handle>, hs: seq<Handle>, start: nat) {
    forall i :: 0 <= i < |hs| ==> HasRoot(roots, hs[i], start)
  }

  /** What a call derives, if anything, is one handle more, and derives from the handle asked. */
  lemma NewHandle(w: World, hs: seq<Handle>, c: Call)
    requires Do(w, hs, c).handles != hs
    ensures c.h < |hs| && |Do(w, hs, c).handles| == |hs| + 1 && Do(w, hs, c).handles[..|hs|] == hs
    ensures DerivesSince(hs[c.h], Do(w, hs, c).handles[|hs|], |w.past|)
    ensures Do(w, hs, c).answer == Opened(|hs|)
  {}

  lemma DerivesFurther(r: Handle, h: Handle, g: Handle, start: nat, now: nat)
    requires DerivesSince(r, h, start) && DerivesSince(h, g, now) && start <= now
    ensures DerivesSince(r, g, start)
  {
    assert g.dir[|r.dir|..] == h.dir[|r.dir|..] + g.dir[|h.dir|..];
    assert Prefix(r.dir, g.dir) by {
      assert g.dir[..|r.dir|] == h.dir[..|r.dir|];
    }
    LongerNameAllowed(h.dir[|r.dir|..], g.dir[|h.dir|..]);
  }

  lemma DerivationStep(w: World, roots: seq<Handle>, hs: seq<Handle>, c: Call, start: nat)
    requires AllDerive(roots, hs, start) && start <= |w.past|
    ensures AllDerive(roots, Do(w, hs, c).handles, start)
  {
    var hs' := Do(w, hs, c).handles;
    if hs' != hs {
      NewHandle(w, hs, c);
      var k :| 0 <= k < |roots| && DerivesSince(roots[k], hs[c.h], start);
      DerivesFurther(roots[k], hs[c.h], hs'[|hs|], start, |w.past|);
      forall i | 0 <= i < |hs'| ensures HasRoot(roots, hs'[i], start) {
        assert i < |hs| ==> hs'[i] == hs'[..|hs|][i];
      }
    }
  }

  lemma PastGrows(w: World, hs: seq<Handle>, c: Call)
    ensures |Do(w, hs, c).world.past| >= |w.past|
  {}

  // ----- A derived handle answers as the original

  predicate IsEnquiry(c: Call) {
    c.ReadFile? || c.Info? || c.List? || c.OpenDir?
  }

  /** The same enquiry of handle `j`, by the longer name. */
  function Longer(c: Call, j: nat, rel: Path): Call
    requires IsEnquiry(c)
  {
    match c
    case ReadFile(_, name, m) => ReadFile(j, rel + name, m)
    case Info(_, name, m) => Info(j, rel + name, m)
    case List(_, name, m) => List(j, rel + name, m)
    case OpenDir(_, name, m) => OpenDir(j, rel + name, m)
  }

  ghost predicate SameAnswer(w: World, hs: seq<Handle>, c: Call, j: nat)
    requires IsEnquiry(c) && c.h < |hs| && j < |hs| && Prefix(hs[j].dir, hs[c.h].dir)
  {
    Do(w, hs, c).answer == Do(w, hs, Longer(c, j, hs[c.h].dir[|hs[j].dir|..])).answer
  }

  /** Every enquiry of handle `i` is answered as it would be of handle `j`. */
  ghost predicate AnswersAs(w: World, hs: seq<Handle>, i: nat, j: nat)
    requires i < |hs| && j < |hs| && Prefix(hs[j].dir, hs[i].dir)
  {
    forall c: Call :: IsEnquiry(c) && c.h == i ==> SameAnswer(w, hs, c, j)
  }

  /** Beneath the directory the two trees are one. */
  ghost predicate SameBeneath(t: Tree, u: Tree, d: Path) {
    forall p :: Prefix(d, p) && (p in t || p in u) ==> p in t && p in u && t[p] == u[p]
  }

  /** Where `h` states that nothing changes and `r` does not, nothing beneath `h` has differed,
      since the statement was made, from what it is now. */
  ghost predicate StatementHeld(w: World, h: Handle, r: Handle) {
    h.unchanging && !r.unchanging ==>
      forall m :: h.since <= m < |w.past| ==> SameBeneath(w.past[m], w.tree, h.dir)
  }

  lemma BeneathDecides(t: Tree, u: Tree, d: Path, c: Call, p: Path)
    requires SameBeneath(t, u, d) && Prefix(d, p)
    ensures EnquiryAnswer(t, c, p) == EnquiryAnswer(u, c, p)
  {
    assert (p in t) == (p in u);
    var inT := set q | q in t && |q| == |p| + 1 && Prefix(p, q) :: q[|p|];
    var inU := set q | q in u && |q| == |p| + 1 && Prefix(p, q) :: q[|p|];
    forall q | |q| == |p| + 1 && Prefix(p, q) ensures (q in t) == (q in u) {
      assert Prefix(d, q);
    }
    assert inT == inU;
  }

  /** What an enquiry of handle `i` is answered, from the tree seen through it. */
  lemma EnquiryIsAnswered(w: World, hs: seq<Handle>, c: Call)
    requires IsEnquiry(c) && c.h < |hs|
    ensures Do(w, hs, c).answer ==
      if !NameAllowed(c.name) then Failed(Invalid)
      else Opening(hs, EnquiryAnswer(Seen(w, hs[c.h], MomentOf(c)), c, hs[c.h].dir + c.name))
  {}

  /** A directory opened is answered with its handle; no other enquiry is answered `Done`. */
  function Opening(hs: seq<Handle>, answer: Answer): Answer {
    if answer == Done then Opened(|hs|) else answer
  }

  /** A derived handle answers what the handle it derives from answers of the longer name, as
      long as what it states has held. */
  lemma AnswersAgree(w: World, hs: seq<Handle>, c: Call, j: nat)
    requires IsEnquiry(c) && c.h < |hs| && j < |hs| && Derives(hs[j], hs[c.h])
    requires StatementHeld(w, hs[c.h], hs[j])
    ensures SameAnswer(w, hs, c, j)
  {
    var r, h := hs[j], hs[c.h];
    var rel := h.dir[|r.dir|..];
    assert h.dir + c.name == r.dir + (rel + c.name);
    LongerNameAllowed(rel, c.name);
    EnquiryIsAnswered(w, hs, c);
    EnquiryIsAnswered(w, hs, Longer(c, j, rel));
    SeenAlike(w, h, r, c, h.dir + c.name);
  }

  lemma SeenAlike(w: World, h: Handle, r: Handle, c: Call, p: Path)
    requires Derives(r, h) && StatementHeld(w, h, r) && Prefix(h.dir, p)
    ensures EnquiryAnswer(Seen(w, h, MomentOf(c)), c, p) == EnquiryAnswer(Seen(w, r, MomentOf(c)), c, p)
  {
    if Seen(w, h, MomentOf(c)) != Seen(w, r, MomentOf(c)) {
      BeneathDecides(Seen(w, h, MomentOf(c)), w.tree, h.dir, c, p);
    }
  }

  lemma LongerNameAllowed(rel: Name, name: Name)
    requires NameAllowed(rel)
    ensures NameAllowed(rel + name) <==> NameAllowed(name)
  {
    if NameAllowed(rel + name) {
      forall i | 0 <= i < |name| ensures name[i] != ASCENDING && name[i] != [] {
        assert name[i] == (rel + name)[|rel| + i];
      }
    }
  }

  // ----- What is derived is what was asked for

  /** The same change through handle `j`, by the longer name. */
  function Through(c: Call, j: nat, rel: Path): Call
    requires IsChange(c)
  {
    match c
    case WriteFile(_, name, content, create, exclusive) => WriteFile(j, rel + name, content, create, exclusive)
    case MakeDir(_, name) => MakeDir(j, rel + name)
    case Remove(_, name) => Remove(j, rel + name)
    case Rename(_, name, to, newName, replace) => Rename(j, rel + name, to, newName, replace)
  }

  ghost predicate SameChange(w: World, hs: seq<Handle>, c: Call, d: Call) {
    Do(w, hs, c).answer == Do(w, hs, d).answer && Do(w, hs, c).world == Do(w, hs, d).world
  }

  /** A handle on the directory `rel` beneath another, with the same rights, makes the changes the
      other makes by the longer name. */
  lemma ChangesAlike(w: World, hs: seq<Handle>, c: Call, j: nat, rel: Path)
    requires IsChange(c) && c.h < |hs| && j < |hs| && NameAllowed(rel)
    requires hs[c.h].dir == hs[j].dir + rel && hs[c.h].readOnly == hs[j].readOnly
    ensures SameChange(w, hs, c, Through(c, j, rel))
  {
    var d := Through(c, j, rel);
    LongerNameAllowed(rel, c.name);
    assert hs[c.h].dir + c.name == hs[j].dir + (rel + c.name);
    if c.Rename? ==> c.to < |hs| {
      ChangeIsDone(w, hs, c);
      ChangeIsDone(w, hs, d);
      var (p, q) := Resolved(hs, c);
      assert Resolved(hs, d) == (p, q);
      ChangedAlike(w.tree, c, j, rel, p, q);
    }
  }

  lemma ChangedAlike(t: Tree, c: Call, j: nat, rel: Path, p: Path, q: Path)
    requires IsChange(c)
    ensures Changed(t, Through(c, j, rel), p, q) == Changed(t, c, p, q)
  {}

  /** What a change asked of the handles is answered and does. */
  lemma ChangeIsDone(w: World, hs: seq<Handle>, c: Call)
    requires IsChange(c) && c.h < |hs| && (c.Rename? ==> c.to < |hs|)
    ensures var allowed := NameAllowed(c.name) && (c.Rename? ==> NameAllowed(c.newName));
      && (!allowed ==> Do(w, hs, c) == Result(Failed(Invalid), w, hs))
      && (allowed && ReadOnlyFor(hs, c) ==> Do(w, hs, c) == Result(Failed(Permission), w, hs))
      && (allowed && !ReadOnlyFor(hs, c) ==>
            var (p, q) := Resolved(hs, c); var (answer, tree) := Changed(w.tree, c, p, q);
            Do(w, hs, c).answer == answer
            && Do(w, hs, c).world == if tree == w.tree then w else World(tree, w.past + [w.tree], w.attenuates))
  {}

  /** An attenuated handle reaches what the handle it was derived from does, by the same names. */
  lemma AttenuatedReachesTheSame(w: World, hs: seq<Handle>, a: Call, c: Call)
    requires a.Attenuate? && Do(w, hs, a).answer.Opened? && IsEnquiry(c) && c.h == Do(w, hs, a).answer.handle
    ensures var hs' := Do(w, hs, a).handles;
      a.h < |hs| && c.h < |hs'| && Do(w, hs', c).answer == Do(w, hs', Longer(c, a.h, [])).answer
  {
    var hs' := Do(w, hs, a).handles;
    NewHandle(w, hs, a);
    assert [] + c.name == c.name;
    EnquiryIsAnswered(w, hs', c);
    EnquiryIsAnswered(w, hs', Longer(c, a.h, []));
  }

  /** Unless it was derived read-only, it makes the same changes. */
  lemma AttenuatedChangesTheSame(w: World, hs: seq<Handle>, a: Call, c: Call)
    requires a.Attenuate? && Do(w, hs, a).answer.Opened? && IsChange(c) && c.h == Do(w, hs, a).answer.handle
    requires !a.rights.readOnly
    ensures var hs' := Do(w, hs, a).handles;
      a.h < |hs| && c.h < |hs'| && SameChange(w, hs', c, Through(c, a.h, []))
  {
    ChangesAlike(w, Do(w, hs, a).handles, c, a.h, []);
  }

  /** A directory opened is that directory: its handle answers, and changes, what the handle it was
      opened from does by the longer name. */
  lemma OpenedIsTheDirectory(w: World, hs: seq<Handle>, o: Call, c: Call)
    requires o.OpenDir? && Do(w, hs, o).answer.Opened? && c.h == Do(w, hs, o).answer.handle
    ensures var hs' := Do(w, hs, o).handles;
      && o.h < |hs| && c.h < |hs'|
      && (IsEnquiry(c) ==> Do(w, hs', c).answer == Do(w, hs', Longer(c, o.h, o.name)).answer)
      && (IsChange(c) ==> SameChange(w, hs', c, Through(c, o.h, o.name)))
  {
    var hs' := Do(w, hs, o).handles;
    NewHandle(w, hs, o);
    assert hs'[c.h].dir == hs'[o.h].dir + o.name;
    if IsChange(c) {
      ChangesAlike(w, hs', c, o.h, o.name);
    }
    if IsEnquiry(c) {
      assert hs'[c.h].dir + c.name == hs'[o.h].dir + (o.name + c.name);
      LongerNameAllowed(o.name, c.name);
      EnquiryIsAnswered(w, hs', c);
      EnquiryIsAnswered(w, hs', Longer(c, o.h, o.name));
    }
  }

  /** What an attenuation is answered: an error the header names, or a new handle. */
  lemma AttenuationIsAnswered(w: World, hs: seq<Handle>, a: Call)
    requires a.Attenuate? && a.h < |hs|
    ensures Do(w, hs, a).answer ==
      if !w.attenuates then Failed(NotSupported)
      else if !a.rights.longEnough || a.rights.unassigned then Failed(Invalid)
      else if a.rights.recorded && !a.rights.writableRecord then Failed(Invalid)
      else Opened(|hs|)
    ensures Do(w, hs, a).answer.Failed? ==> Do(w, hs, a).handles == hs
    ensures Do(w, hs, a).world == w
  {}

  /** Every node below the root can be named. */
  predicate Nameable(t: Tree) {
    forall p :: p in t ==> p != [] && NameAllowed(p)
  }

  ghost predicate AllNameable(w: World) {
    Nameable(w.tree) && forall m :: 0 <= m < |w.past| ==> Nameable(w.past[m])
  }

  ghost predicate DirsAllowed(hs: seq<Handle>) {
    forall i :: 0 <= i < |hs| ==> NameAllowed(hs[i].dir)
  }

  /** And only as long: if every enquiry is answered alike, what the handle states has held. */
  lemma AnswersTell(w: World, hs: seq<Handle>, i: nat, j: nat)
    requires i < |hs| && j < |hs| && Derives(hs[j], hs[i]) && AnswersAs(w, hs, i, j) && AllNameable(w)
    ensures StatementHeld(w, hs[i], hs[j])
  {
    var r, h := hs[j], hs[i];
    if h.unchanging && !r.unchanging {
      forall m | h.since <= m < |w.past| ensures SameBeneath(w.past[m], w.tree, h.dir) {
        forall p | Prefix(h.dir, p) && (p in w.past[m] || p in w.tree)
          ensures p in w.past[m] && p in w.tree && w.past[m][p] == w.tree[p]
        {
          assert Nameable(w.past[m]);
          ReadTells(w, hs, i, j, m, p);
        }
      }
    }
  }

  lemma AllowedAfter(d: Path, p: Path)
    requires Prefix(d, p) && NameAllowed(p)
    ensures NameAllowed(p[|d|..])
  {
    forall k | 0 <= k < |p| - |d| ensures p[|d|..][k] != ASCENDING && p[|d|..][k] != [] {
      assert p[|d|..][k] == p[|d| + k];
    }
  }

  /** The answer to reading a name tells whether there is a node and which. */
  lemma ReadTells(w: World, hs: seq<Handle>, i: nat, j: nat, m: nat, p: Path)
    requires i < |hs| && j < |hs| && Derives(hs[j], hs[i]) && AnswersAs(w, hs, i, j)
    requires hs[i].unchanging && !hs[j].unchanging && hs[i].since <= m < |w.past|
    requires Prefix(hs[i].dir, p) && p != [] && NameAllowed(p)
    ensures ReadAnswer(w.past[m], p) == ReadAnswer(w.tree, p)
  {
    var rel := hs[i].dir[|hs[j].dir|..];
    var name := p[|hs[i].dir|..];
    assert p == hs[i].dir + name == hs[j].dir + (rel + name);
    AllowedAfter(hs[i].dir, p);
    LongerNameAllowed(rel, name);
    EnquiryIsAnswered(w, hs, ReadFile(i, name, m));
    EnquiryIsAnswered(w, hs, ReadFile(j, rel + name, m));
    assert SameAnswer(w, hs, ReadFile(i, name, m), j);
  }

  // ----- Names stay allowed

  lemma ChangeKeepsNames(t: Tree, c: Call, p: Path, q: Path)
    requires Nameable(t) && NameAllowed(p) && NameAllowed(q)
    ensures Nameable(Changed(t, c, p, q).1)
  {
    if c.Rename? && Changed(t, c, p, q).0 == Done {
      forall r | r in Moved(t, p, q) ensures r != [] && NameAllowed(r) {
        NothingElseAppears(t, p, q, r);
        if Prefix(q, r) {
          forall k | 0 <= k < |r| ensures r[k] != ASCENDING && r[k] != [] {
            assert k >= |q| && p + r[|q|..] in t ==> r[k] == (p + r[|q|..])[|p| + k - |q|];
          }
        }
      }
    }
  }

  lemma CallKeepsNames(w: World, hs: seq<Handle>, c: Call)
    requires AllNameable(w) && DirsAllowed(hs)
    ensures AllNameable(Do(w, hs, c).world) && DirsAllowed(Do(w, hs, c).handles)
  {
    if c.h < |hs| && (c.Rename? ==> c.to < |hs|) && !c.Attenuate? && NameAllowed(c.name)
       && (c.Rename? ==> NameAllowed(c.newName)) {
      var (p, q) := Resolved(hs, c);
      LongerNameAllowed(hs[c.h].dir, c.name);
      if c.Rename? {
        LongerNameAllowed(hs[c.to].dir, c.newName);
      }
      ChangeKeepsNames(w.tree, c, p, q);
    }
  }

  /** One party's handles and the tree they reach, as the calls change them. */
  class Holder {
    var tree: Tree
    var past: seq<Tree>
    var handles: seq<Handle>
    const attenuates: bool

    ghost function View(): World
      reads this
    {
      World(tree, past, attenuates)
    }

    constructor (tree: Tree, given: seq<Handle>, attenuates: bool)
      ensures View() == World(tree, [], attenuates) && handles == given
    {
      this.tree, past, handles, this.attenuates := tree, [], given, attenuates;
    }

    /** kal_fs_dir_attenuate: on a refusal nothing is derived. */
    method Attenuate(h: nat, rights: Rights) returns (answer: Answer)
      modifies this`handles
      ensures Result(answer, View(), handles) == Do(old(View()), old(handles), Call.Attenuate(h, rights))
      ensures answer.Failed? ==> handles == old(handles)
      ensures answer.Opened? ==>
        && h < |old(handles)| && answer.handle == |old(handles)|
        && |handles| == |old(handles)| + 1 && handles[..|old(handles)|] == old(handles)
        && var was, made := old(handles)[h], handles[|old(handles)|];
           && made.dir == was.dir
           && (made.readOnly <==> was.readOnly || rights.readOnly)
           && (made.unchanging <==> was.unchanging || rights.unchanging)
           && made.since == (if was.unchanging then was.since else |past|)
           && made.records == was.records + (if rights.recorded then [Recording(rights.record, was.dir)] else [])
    {
      if h >= |handles| {
        return Failed(Invalid);
      }
      if !attenuates {
        return Failed(NotSupported);
      }
      if !rights.longEnough || rights.unassigned || (rights.recorded && !rights.writableRecord) {
        return Failed(Invalid);
      }
      var d := handles[h];
      var since := if d.unchanging then d.since else |past|;
      answer := Opened(|handles|);
      var records := if rights.recorded then d.records + [Recording(rights.record, d.dir)] else d.records;
      handles := handles + [Handle(d.dir, d.readOnly || rights.readOnly, d.unchanging || rights.unchanging,
                                   since, records)];
    }

    /** A change asked for through a handle: a name that ascends or has an empty component is
        refused, and so is any other where a handle it is asked through is read-only, whatever
        else is wrong with it. */
    method Change(c: Call) returns (answer: Answer)
      requires IsChange(c)
      modifies this`tree, this`past
      ensures Result(answer, View(), handles) == Do(old(View()), old(handles), c)
      ensures answer.Failed? ==> tree == old(tree)
      ensures c.h < |handles| && (c.Rename? ==> c.to < |handles| && NameAllowed(c.newName))
              && NameAllowed(c.name) && ReadOnlyFor(handles, c) ==>
                answer == Failed(Permission) && View() == old(View())
    {
      if c.h >= |handles| || (c.Rename? && c.to >= |handles|) {
        return Failed(Invalid);
      }
      if !NameAllowed(c.name) || (c.Rename? && !NameAllowed(c.newName)) {
        return Failed(Invalid);
      }
      if handles[c.h].readOnly || (c.Rename? && handles[c.to].readOnly) {
        return Failed(Permission);
      }
      var (p, q) := Resolved(handles, c);
      var (result, changed) := Changed(tree, c, p, q);
      answer := result;
      if changed != tree {
        past := past + [tree];
        tree := changed;
      }
    }
  }
}
