/** Two programs on one tree, over any interleaving of their calls and of the writing of their
    records: what a guest that holds only what it derived from read-only handles can do, see and
    leave behind. */
module Parties {
  import opened Attenuation
  import opened Notes
  import opened Record

  /** A call of one party; the writing of what one party has waiting for its records, in one
      batch; one party reading a record. */
  datatype Act = Act(who: Party, call: Call) | Flush(who: Party) | ReadRecord(who: Party, file: nat)

  /** The host holds what it was given; the guest only what it derives. `log` is what the records
      hold, `pending` what waits to be written to them. */
  datatype State = State(world: World, host: seq<Handle>, guest: seq<Handle>,
                         log: seq<Line>, pending: seq<Line>, unlisted: Unlisted)

  function HandlesOf(s: State, who: Party): seq<Handle> {
    if who.Host? then s.host else s.guest
  }

  function Step(s: State, a: Act): (Answer, State) {
    match a
    case Act(Host, call) =>
      var r := Do(s.world, s.host, call);
      (r.answer, s.(world := r.world, host := r.handles,
                    pending := Noted(s.log, s.pending, Host, NotesOf(s.unlisted, s.host, call, r.answer))))
    case Act(Guest, call) =>
      var r := Do(s.world, s.guest, call);
      (r.answer, s.(world := r.world, guest := r.handles,
                    pending := Noted(s.log, s.pending, Guest, NotesOf(s.unlisted, s.guest, call, r.answer))))
    case Flush(who) =>
      (Done, s.(log := s.log + LinesOf(s.pending, who), pending := LinesOf(s.pending, Other(who))))
    case ReadRecord(_, file) => (Recorded(RecordBytes(s.log, file)), s)
  }

  function After(s: State, acts: seq<Act>): State
    decreases |acts|
  {
    if |acts| == 0 then s else After(Step(s, acts[0]).1, acts[1..])
  }

  /** What the host is answered, in order. */
  function HostSees(s: State, acts: seq<Act>): seq<Answer>
    decreases |acts|
  {
    if |acts| == 0 then []
    else
      var (answer, s') := Step(s, acts[0]);
      (if acts[0].who.Host? then [answer] else []) + HostSees(s', acts[1..])
  }

  /** The same, but for what it reads in records. */
  function HostSeesOfTree(s: State, acts: seq<Act>): seq<Answer>
    decreases |acts|
  {
    if |acts| == 0 then []
    else
      var (answer, s') := Step(s, acts[0]);
      (if acts[0].who.Host? && !acts[0].ReadRecord? then [answer] else []) + HostSeesOfTree(s', acts[1..])
  }

  function HostActs(acts: seq<Act>): seq<Act> {
    if |acts| == 0 then []
    else (if acts[0].who.Host? then [acts[0]] else []) + HostActs(acts[1..])
  }

  /** What a call does to the world and to the handles of either party, and no other act does. */
  lemma StepOfTree(s: State, a: Act)
    ensures var s' := Step(s, a).1;
      match a
      case Act(Host, call) =>
        s'.world == Do(s.world, s.host, call).world && s'.host == Do(s.world, s.host, call).handles
        && s'.guest == s.guest
      case Act(Guest, call) =>
        s'.world == Do(s.world, s.guest, call).world && s'.guest == Do(s.world, s.guest, call).handles
        && s'.host == s.host
      case _ => s'.world == s.world && s'.host == s.host && s'.guest == s.guest
  {}

  /** The tree is a tree after every interleaving. */
  lemma {:induction false} AlwaysATree(s: State, acts: seq<Act>)
    requires IsTree(s.world.tree)
    ensures IsTree(After(s, acts).world.tree)
    decreases |acts|
  {
    if |acts| > 0 {
      StepOfTree(s, acts[0]);
      if acts[0].Act? {
        CallKeepsTree(s.world, HandlesOf(s, acts[0].who), acts[0].call);
      }
      AlwaysATree(Step(s, acts[0]).1, acts[1..]);
    }
  }

  // ----- A guest of read-only handles leaves its records and nothing else

  /** The state as it would be with another guest that has written nothing. */
  function Without(s: State, guest: seq<Handle>): State {
    s.(guest := guest, log := LinesOf(s.log, Host), pending := LinesOf(s.pending, Host))
  }

  /** An act of the guest makes no difference to what there is without it. */
  lemma GuestStep(s: State, a: Act, guest: seq<Handle>)
    requires AllReadOnly(s.guest) && a.who.Guest?
    ensures Without(Step(s, a).1, guest) == Without(s, guest) && AllReadOnly(Step(s, a).1.guest)
  {
    match a
    case Act(who, call) =>
      ReadOnlyCall(s.world, s.guest, call);
      NotedOfOwn(s.log, s.pending, Guest, NotesOf(s.unlisted, s.guest, call, Do(s.world, s.guest, call).answer));
    case Flush(who) =>
      LinesConcat(s.log, LinesOf(s.pending, Guest), Host);
      LinesOfLines(s.pending, Guest);
      LinesOfLines(s.pending, Host);
    case ReadRecord(who, file) =>
  }

  /** An act of the host does the same without the guest, and is answered the same, unless it
      reads a record that the guest has written to. */
  lemma HostStep(s: State, a: Act, guest: seq<Handle>)
    requires a.who.Host?
    ensures Step(Without(s, guest), a).1 == Without(Step(s, a).1, guest) && Step(s, a).1.guest == s.guest
    ensures Step(Without(s, guest), a).0 == Step(s, a).0 <==> !(a.ReadRecord? && Wrote(s.log, Guest, a.file))
  {
    match a
    case Act(who, call) =>
      NotedOfOwn(s.log, s.pending, Host, NotesOf(s.unlisted, s.host, call, Do(s.world, s.host, call).answer));
    case Flush(who) =>
      LinesConcat(s.log, LinesOf(s.pending, Host), Host);
      LinesOfLines(s.pending, Host);
      LinesOfLines(s.pending, Guest);
    case ReadRecord(who, file) =>
      GuestLengthens(s.log, file);
  }

  /** At no point does the host read a record that the guest has written to. */
  ghost predicate ReadsNoneOfGuest(s: State, acts: seq<Act>)
    decreases |acts|
  {
    |acts| == 0
    || (!(acts[0].ReadRecord? && acts[0].who.Host? && Wrote(s.log, Guest, acts[0].file))
        && ReadsNoneOfGuest(Step(s, acts[0]).1, acts[1..]))
  }

  /** With the acts of a guest of read-only handles erased from any interleaving, the tree goes
      through the same changes, the host ends with the same handles and the same lines in the
      records, and is given the same answers of the tree; and the same answers altogether if and
      only if it reads no record when the guest has written to it. */
  lemma {:induction false} GuestLeavesNoTrace(s: State, acts: seq<Act>, guest: seq<Handle>)
    requires AllReadOnly(s.guest)
    ensures AllReadOnly(After(s, acts).guest)
    ensures After(Without(s, guest), HostActs(acts)) == Without(After(s, acts), guest)
    ensures HostSeesOfTree(Without(s, guest), HostActs(acts)) == HostSeesOfTree(s, acts)
    ensures HostSees(Without(s, guest), HostActs(acts)) == HostSees(s, acts) <==> ReadsNoneOfGuest(s, acts)
    decreases |acts|
  {
    if |acts| > 0 {
      var a, s' := acts[0], Step(s, acts[0]).1;
      if a.who.Host? {
        assert HostActs(acts)[0] == a && HostActs(acts)[1..] == HostActs(acts[1..]);
        HostStep(s, a, guest);
        GuestLeavesNoTrace(s', acts[1..], guest);
        OneAnswerMore(Without(s, guest), HostActs(acts));
        OneAnswerMore(s, acts);
      } else {
        assert HostActs(acts) == HostActs(acts[1..]);
        GuestStep(s, a, guest);
        GuestLeavesNoTrace(s', acts[1..], guest);
        assert HostSees(s, acts) == HostSees(s', acts[1..]);
        assert HostSeesOfTree(s, acts) == HostSeesOfTree(s', acts[1..]);
      }
    }
  }

  lemma OneAnswerMore(s: State, acts: seq<Act>)
    requires |acts| > 0 && acts[0].who.Host?
    ensures var (answer, s') := Step(s, acts[0]);
      && HostSees(s, acts)[0] == answer && HostSees(s, acts)[1..] == HostSees(s', acts[1..])
  {}

  /** The guest's calls record nothing. */
  predicate Unrecorded(acts: seq<Act>) {
    forall i :: 0 <= i < |acts| && acts[i].Act? && acts[i].who.Guest? && acts[i].call.Attenuate? ==>
      !acts[i].call.rights.recorded
  }

  ghost predicate NoRecords(hs: seq<Handle>) {
    forall i :: 0 <= i < |hs| ==> hs[i].records == []
  }

  /** A guest whose handles are not recorded, and that asks for no record itself, leaves nothing
      at all for the host to see. */
  lemma {:induction false} UnrecordedGuestIsNotSeen(s: State, acts: seq<Act>)
    requires NoRecords(s.guest) && Unrecorded(acts)
    requires LinesOf(s.log, Guest) == [] && LinesOf(s.pending, Guest) == []
    ensures ReadsNoneOfGuest(s, acts)
    decreases |acts|
  {
    if |acts| > 0 {
      var a, s' := acts[0], Step(s, acts[0]).1;
      if a.ReadRecord? && Wrote(s.log, Guest, a.file) {
        var l :| l in s.log && l.who == Guest && l.note.file == a.file;
        LinesIn(s.log, Guest, l);
      }
      UnrecordedStep(s, a);
      UnrecordedGuestIsNotSeen(s', acts[1..]);
    }
  }

  lemma UnrecordedStep(s: State, a: Act)
    requires NoRecords(s.guest) && Unrecorded([a])
    requires LinesOf(s.log, Guest) == [] && LinesOf(s.pending, Guest) == []
    ensures var s' := Step(s, a).1;
      NoRecords(s'.guest) && LinesOf(s'.log, Guest) == [] && LinesOf(s'.pending, Guest) == []
  {
    StepOfTree(s, a);
    match a
    case Act(Host, call) =>
      NotedOfOwn(s.log, s.pending, Host, NotesOf(s.unlisted, s.host, call, Do(s.world, s.host, call).answer));
    case Act(Guest, call) =>
      assert a == [a][0];
      NoRecordsNoNotes(s, call);
    case Flush(who) =>
      LinesConcat(s.log, LinesOf(s.pending, who), Guest);
      LinesOfLines(s.pending, who);
      LinesOfLines(s.pending, Other(who));
    case ReadRecord(who, file) =>
  }

  lemma NoRecordsNoNotes(s: State, call: Call)
    requires NoRecords(s.guest) && (call.Attenuate? ==> !call.rights.recorded)
    ensures NotesOf(s.unlisted, s.guest, call, Do(s.world, s.guest, call).answer) == []
    ensures NoRecords(Do(s.world, s.guest, call).handles)
  {}

  // ----- Derivation only takes away

  /** Over any run, by any mixture and depth of attenuating and opening, every handle the guest
      holds derives from one it began with. */
  lemma {:induction false} DerivationOnlyTakesAway(s: State, acts: seq<Act>, roots: seq<Handle>, start: nat)
    requires AllDerive(roots, s.guest, start) && start <= |s.world.past|
    ensures AllDerive(roots, After(s, acts).guest, start)
    decreases |acts|
  {
    if |acts| > 0 {
      var s' := Step(s, acts[0]).1;
      StepOfTree(s, acts[0]);
      if acts[0].Act? {
        if acts[0].who.Guest? {
          DerivationStep(s.world, roots, s.guest, acts[0].call, start);
        }
        PastGrows(s.world, HandlesOf(s, acts[0].who), acts[0].call);
      }
      DerivationOnlyTakesAway(s', acts[1..], roots, start);
    }
  }

  /** Names and directories are allowed to begin with. */
  ghost predicate WellNamed(s: State) {
    AllNameable(s.world) && DirsAllowed(s.host) && DirsAllowed(s.guest)
  }

  lemma {:induction false} StaysWellNamed(s: State, acts: seq<Act>)
    requires WellNamed(s)
    ensures WellNamed(After(s, acts))
    decreases |acts|
  {
    if |acts| > 0 {
      StepOfTree(s, acts[0]);
      if acts[0].Act? {
        CallKeepsNames(s.world, HandlesOf(s, acts[0].who), acts[0].call);
      }
      StaysWellNamed(Step(s, acts[0]).1, acts[1..]);
    }
  }

  // ----- Over whole runs

  lemma {:induction false} HandlesStay(s: State, acts: seq<Act>)
    ensures |After(s, acts).guest| >= |s.guest| && After(s, acts).guest[..|s.guest|] == s.guest
    decreases |acts|
  {
    if |acts| > 0 {
      var s' := Step(s, acts[0]).1;
      StepOfTree(s, acts[0]);
      assert |s'.guest| >= |s.guest| && s'.guest[..|s.guest|] == s.guest;
      HandlesStay(s', acts[1..]);
    }
  }

  lemma {:induction false} GuestAlone(s: State, acts: seq<Act>)
    requires AllReadOnly(s.guest) && forall i :: 0 <= i < |acts| ==> acts[i].who.Guest?
    ensures After(s, acts).world == s.world
    decreases |acts|
  {
    if |acts| > 0 {
      StepOfTree(s, acts[0]);
      if acts[0].Act? {
        ReadOnlyCall(s.world, s.guest, acts[0].call);
      }
      GuestAlone(Step(s, acts[0]).1, acts[1..]);
    }
  }

  lemma AllDeriveFromThemselves(hs: seq<Handle>, start: nat)
    ensures AllDerive(hs, hs, start)
  {
    forall i | 0 <= i < |hs| ensures HasRoot(hs, hs[i], start) {
      assert hs[i].dir[|hs[i].dir|..] == [];
      assert DerivesSince(hs[i], hs[i], start);
    }
  }

  /** Handle `i` derives from handle `j`, which the guest was given and still holds. */
  ghost predicate HoldsFrom(s: State, s': State, i: nat, j: nat) {
    && j < |s.guest| <= |s'.guest| && i < |s'.guest| && s'.guest[j] == s.guest[j]
    && DerivesSince(s.guest[j], s'.guest[i], |s.world.past|)
  }

  lemma RootOf(roots: seq<Handle>, h: Handle, start: nat) returns (j: nat)
    requires HasRoot(roots, h, start)
    ensures j < |roots| && DerivesSince(roots[j], h, start)
  {
    j :| 0 <= j < |roots| && DerivesSince(roots[j], h, start);
  }

  lemma HeldFrom(s: State, acts: seq<Act>, i: nat) returns (j: nat)
    requires i < |After(s, acts).guest|
    ensures HoldsFrom(s, After(s, acts), i, j)
  {
    var s', start := After(s, acts), |s.world.past|;
    HandlesStay(s, acts);
    AllDeriveFromThemselves(s.guest, start);
    DerivationOnlyTakesAway(s, acts, s.guest, start);
    j := RootOf(s.guest, s'.guest[i], start);
    assert s'.guest[j] == s'.guest[..|s.guest|][j];
  }

  /** After any run of both parties, whatever the host changes in between, each handle the guest
      holds derives from one it was given and is answered, in every enquiry, as that one is, if
      and only if what it states and that one does not has held. */
  lemma GuestReadsAsTheOriginal(s: State, acts: seq<Act>, i: nat)
    requires i < |After(s, acts).guest|
    ensures var s' := After(s, acts); exists j: nat ::
      && HoldsFrom(s, s', i, j)
      && (StatementHeld(s'.world, s'.guest[i], s'.guest[j]) ==> AnswersAs(s'.world, s'.guest, i, j))
      && (WellNamed(s) && AnswersAs(s'.world, s'.guest, i, j) ==>
            StatementHeld(s'.world, s'.guest[i], s'.guest[j]))
  {
    var s' := After(s, acts);
    var j := HeldFrom(s, acts, i);
    if StatementHeld(s'.world, s'.guest[i], s'.guest[j]) {
      forall c: Call | IsEnquiry(c) && c.h == i ensures SameAnswer(s'.world, s'.guest, c, j) {
        AnswersAgree(s'.world, s'.guest, c, j);
      }
    }
    if WellNamed(s) && AnswersAs(s'.world, s'.guest, i, j) {
      StaysWellNamed(s, acts);
      AnswersTell(s'.world, s'.guest, i, j);
    }
    assert HoldsFrom(s, s', i, j);
  }

  /** A guest of read-only handles that acts alone, deriving as it likes, leaves the tree as it
      was and is answered through every handle as through the one it derives from. */
  lemma GuestAloneReadsAsTheOriginal(s: State, acts: seq<Act>, i: nat)
    requires AllReadOnly(s.guest) && forall k :: 0 <= k < |acts| ==> acts[k].who.Guest?
    requires i < |After(s, acts).guest|
    ensures After(s, acts).world == s.world && After(s, acts).guest[i].readOnly
    ensures exists j: nat :: HoldsFrom(s, After(s, acts), i, j) && AnswersAs(s.world, After(s, acts).guest, i, j)
  {
    var s' := After(s, acts);
    GuestAlone(s, acts);
    var j := HeldFrom(s, acts, i);
    forall c: Call | IsEnquiry(c) && c.h == i ensures SameAnswer(s.world, s'.guest, c, j) {
      AnswersAgree(s.world, s'.guest, c, j);
    }
    assert HoldsFrom(s, s', i, j);
  }

  const A: Component := [97]

  /** What the statement costs where it does not hold: a handle that newly states that nothing
      changes answers that a name is absent which the original reads. */
  lemma StaleAnswer() returns (s: State, acts: seq<Act>, s': State, c: Call)
    ensures WellNamed(s) && AllReadOnly(s.guest) && s' == After(s, acts)
    ensures |s.guest| == 1 && |s'.guest| == 2 && HoldsFrom(s, s', 1, 0)
    ensures IsEnquiry(c) && c.h == 1 && !SameAnswer(s'.world, s'.guest, c, 0)
  {
    var host, given, stated := Handle([], false, false, 0, []), Handle([], true, false, 0, []),
                               Handle([], true, true, 0, []);
    var rights, write := Rights(true, false, true, false, false, false, 0), WriteFile(0, [A], "x", true, false);
    s := State(World(map[], [], true), [host], [given], [], [], (c, a) => []);
    acts := [Act(Guest, Call.Attenuate(0, rights)), Act(Host, write)];
    c := ReadFile(1, [A], 0);
    s' := After(s, acts);
    StatedThenWritten(s, acts[0], acts[1], given, stated, host);
    assert acts == [acts[0], acts[1]];
    AnswersDiffer(s'.world, s'.guest);
  }

  lemma AfterTwo(s: State, a: Act, b: Act)
    ensures After(s, [a, b]) == Step(Step(s, a).1, b).1
  {
    var s2 := Step(Step(s, a).1, b).1;
    assert [a, b][1..] == [b] && After(s2, [b][1..]) == s2;
  }

  lemma StatedThenWritten(s: State, a: Act, b: Act, given: Handle, stated: Handle, host: Handle)
    requires s.world == World(map[], [], true) && s.host == [host] && s.guest == [given]
    requires host == Handle([], false, false, 0, []) && given == Handle([], true, false, 0, [])
    requires stated == Handle([], true, true, 0, [])
    requires a == Act(Guest, Call.Attenuate(0, Rights(true, false, true, false, false, false, 0)))
    requires b == Act(Host, WriteFile(0, [A], "x", true, false))
    ensures var s' := After(s, [a, b]);
      && s'.world == World(map[[A] := File("x")], [map[]], true) && s'.guest == [given, stated]
      && HoldsFrom(s, s', 1, 0)
  {
    StepOfTree(s, a);
    StepOfTree(Step(s, a).1, b);
    Written(s.world, host, b.call);
    assert Attenuated(s.world, given, a.call.rights) == stated;
    AfterTwo(s, a, b);
    assert stated.dir[|given.dir|..] == [];
  }

  lemma Written(w: World, host: Handle, write: Call)
    requires w == World(map[], [], true) && host == Handle([], false, false, 0, [])
    requires write == WriteFile(0, [A], "x", true, false)
    ensures Do(w, [host], write).world == World(map[[A] := File("x")], [map[]], true)
    ensures Do(w, [host], write).handles == [host]
  {
    assert [] + [A] == [A] && Parent([A]) == [];
    assert Changed(w.tree, write, [A], []) == (Done, map[[A] := File("x")]);
    assert [A] in w.tree[[A] := File("x")];
  }

  lemma AnswersDiffer(w: World, hs: seq<Handle>)
    requires w == World(map[[A] := File("x")], [map[]], true)
    requires hs == [Handle([], true, false, 0, []), Handle([], true, true, 0, [])]
    ensures !SameAnswer(w, hs, ReadFile(1, [A], 0), 0)
  {
    EnquiryIsAnswered(w, hs, ReadFile(1, [A], 0));
    EnquiryIsAnswered(w, hs, ReadFile(0, [A], 0));
    assert hs[1].dir[|hs[0].dir|..] == [] && [] + [A] == [A];
  }

  /** Nothing is said not to change. */
  ghost predicate NothingStated(hs: seq<Handle>) {
    forall i :: 0 <= i < |hs| ==> !hs[i].unchanging
  }

  predicate StatesNothing(acts: seq<Act>, who: Party) {
    forall i :: 0 <= i < |acts| && acts[i].Act? && acts[i].who == who && acts[i].call.Attenuate? ==>
      !acts[i].call.rights.unchanging
  }

  lemma {:induction false} StaysUnstated(s: State, acts: seq<Act>, who: Party)
    requires NothingStated(HandlesOf(s, who)) && StatesNothing(acts, who)
    ensures NothingStated(HandlesOf(After(s, acts), who))
    decreases |acts|
  {
    if |acts| > 0 {
      StepOfTree(s, acts[0]);
      StaysUnstated(Step(s, acts[0]).1, acts[1..], who);
    }
  }

  /** A party that states nothing, with handles of which nothing is stated, is answered from the
      tree as it is, whatever has changed and however its handles were derived. */
  lemma UnstatedIsCurrent(s: State, acts: seq<Act>, who: Party, c: Call)
    requires NothingStated(HandlesOf(s, who)) && StatesNothing(acts, who)
    requires IsEnquiry(c) && c.h < |HandlesOf(After(s, acts), who)| && NameAllowed(c.name)
    ensures var s' := After(s, acts); var hs' := HandlesOf(s', who);
      Step(s', Act(who, c)).0 == Opening(hs', EnquiryAnswer(s'.world.tree, c, hs'[c.h].dir + c.name))
  {
    var s' := After(s, acts);
    StaysUnstated(s, acts, who);
    EnquiryIsAnswered(s'.world, HandlesOf(s', who), c);
    assert Step(s', Act(who, c)).0 == Do(s'.world, HandlesOf(s', who), c).answer;
  }

  // ----- The records are exact

  /** What one party's calls reach, as its records have it. */
  function Reached(s: State, acts: seq<Act>, who: Party): set<Note>
    decreases |acts|
  {
    if |acts| == 0 then {}
    else Told(s, acts[0], who) + Reached(Step(s, acts[0]).1, acts[1..], who)
  }

  function Told(s: State, a: Act, who: Party): set<Note> {
    if !a.Act? || a.who != who then {}
    else
      var hs := HandlesOf(s, who);
      set n | n in NotesOf(s.unlisted, hs, a.call, Do(s.world, hs, a.call).answer)
  }

  /** A line is written or waits exactly if it did before or its party has reached it, and none is
      there twice. */
  ghost predicate Exact(s: State, s': State, reached: Party -> set<Note>) {
    && EachOnce(s'.log + s'.pending)
    && forall l :: l in s'.log || l in s'.pending <==> l in s.log || l in s.pending || l.note in reached(l.who)
  }

  lemma WritingIsExact(log: seq<Line>, pending: seq<Line>, who: Party)
    requires EachOnce(log + pending)
    ensures var log', pending' := log + LinesOf(pending, who), LinesOf(pending, Other(who));
      EachOnce(log' + pending') && forall l :: l in log' || l in pending' <==> l in log || l in pending
  {
    LinesSplit(pending);
    assert multiset(log + LinesOf(pending, who) + LinesOf(pending, Other(who))) == multiset(log + pending);
    forall l ensures l in LinesOf(pending, who) || l in LinesOf(pending, Other(who)) <==> l in pending {
      LinesIn(pending, who, l);
      LinesIn(pending, Other(who), l);
    }
  }

  lemma StepIsExact(s: State, a: Act)
    requires EachOnce(s.log + s.pending)
    ensures Exact(s, Step(s, a).1, who => Told(s, a, who))
  {
    match a
    case Act(Host, call) =>
      NotedHas(s.log, s.pending, Host, NotesOf(s.unlisted, s.host, call, Do(s.world, s.host, call).answer));
    case Act(Guest, call) =>
      NotedHas(s.log, s.pending, Guest, NotesOf(s.unlisted, s.guest, call, Do(s.world, s.guest, call).answer));
    case Flush(who) =>
      WritingIsExact(s.log, s.pending, who);
    case ReadRecord(who, file) =>
  }

  /** Over every run, the records hold, or have waiting, each entry its party reached through a
      recorded handle, once, and nothing else. */
  lemma {:induction false} RecordsAreExact(s: State, acts: seq<Act>)
    requires EachOnce(s.log + s.pending)
    ensures Exact(s, After(s, acts), who => Reached(s, acts, who))
    decreases |acts|
  {
    if |acts| > 0 {
      StepIsExact(s, acts[0]);
      RecordsAreExact(Step(s, acts[0]).1, acts[1..]);
    }
  }

  function One(b: bool): nat {
    if b then 1 else 0
  }

  /** What the suite's scanner counts in a record, after any run and once all that waits has been
      written: one for each of the programs that reached the entry. */
  lemma CountIsReached(s: State, acts: seq<Act>, file: nat, e: Entry)
    requires s.log == [] && s.pending == [] && After(s, acts).pending == []
    requires forall l :: l in After(s, acts).log ==> EntryValid(l.note.entry)
    ensures Occurrences(Pieces(RecordBytes(After(s, acts).log, file)), [e.kind] + e.name)
         == One(Note(file, e) in Reached(s, acts, Host)) + One(Note(file, e) in Reached(s, acts, Guest))
  {
    var log, n := After(s, acts).log, Note(file, e);
    RecordsAreExact(s, acts);
    forall i | 0 <= i < |EntriesOf(log, file)| ensures EntryValid(EntriesOf(log, file)[i]) {
      EntriesIn(log, file, EntriesOf(log, file)[i]);
    }
    CountIsMultiplicity(EntriesOf(log, file), e);
    LinesCount(log, file, e);
    assert log + [] == log;
    OnceIsOne(log, Line(Host, n));
    OnceIsOne(log, Line(Guest, n));
  }

  lemma OnceIsOne(lines: seq<Line>, l: Line)
    requires EachOnce(lines)
    ensures multiset(lines)[l] == One(l in lines)
  {}

  // ----- Nothing reached escapes a record

  /** The base of every record of a handle is at or above its directory. */
  ghost predicate Rooted(hs: seq<Handle>) {
    forall i, k :: 0 <= i < |hs| && 0 <= k < |hs[i].records| ==> Prefix(hs[i].records[k].base, hs[i].dir)
  }

  lemma RootedStep(w: World, hs: seq<Handle>, c: Call)
    requires Rooted(hs)
    ensures Rooted(Do(w, hs, c).handles)
  {
    var hs' := Do(w, hs, c).handles;
    if hs' != hs {
      NewHandle(w, hs, c);
      forall i, k | 0 <= i < |hs'| && 0 <= k < |hs'[i].records| ensures Prefix(hs'[i].records[k].base, hs'[i].dir) {
        if i < |hs| {
          assert hs'[i] == hs'[..|hs|][i];
        } else if k < |hs[c.h].records| {
          var base := hs[c.h].records[k].base;
          assert hs'[i].records[k] == hs[c.h].records[k];
          assert hs'[i].dir[..|base|] == hs[c.h].dir[..|base|];
        }
      }
    }
  }

  lemma StepStaysRooted(s: State, a: Act, who: Party)
    requires Rooted(HandlesOf(s, who))
    ensures Rooted(HandlesOf(Step(s, a).1, who))
  {
    StepOfTree(s, a);
    if a.Act? && a.who == who {
      RootedStep(s.world, HandlesOf(s, who), a.call);
    }
  }

  lemma {:induction false} StaysRooted(s: State, acts: seq<Act>, who: Party)
    requires Rooted(HandlesOf(s, who))
    ensures Rooted(HandlesOf(After(s, acts), who))
    decreases |acts|
  {
    if |acts| > 0 {
      StepStaysRooted(s, acts[0], who);
      StaysRooted(Step(s, acts[0]).1, acts[1..], who);
    }
  }

  /** The call is of the name `p` through handle `k`: a rename is of two. */
  predicate OfName(hs: seq<Handle>, c: Call, k: nat, p: Path) {
    k < |hs| && !c.Attenuate?
    && ((c.h == k && p == hs[k].dir + c.name) || (c.Rename? && c.to == k && p == hs[k].dir + c.newName))
  }

  /** The names are allowed, and the handles there are. */
  predicate Sound(hs: seq<Handle>, c: Call) {
    !c.Attenuate? && c.h < |hs| && NameAllowed(c.name) && (c.Rename? ==> c.to < |hs| && NameAllowed(c.newName))
  }

  /** What the call adds to the records has the kind, in the record, by the name less its base. */
  ghost predicate NotedIn(s: State, who: Party, c: Call, p: Path, rec: Recording, mark: Mark) {
    Prefix(rec.base, p) && Note(rec.file, Entry(mark, JoinedName(p[|rec.base|..]))) in Told(s, Act(who, c), who)
  }

  /** What is found by a name is noted in every record of the handle. */
  lemma FoundIsNoted(s: State, who: Party, c: Call, k: nat, p: Path, i: nat, mark: Mark)
    requires Rooted(HandlesOf(s, who)) && OfName(HandlesOf(s, who), c, k, p) && Sound(HandlesOf(s, who), c)
    requires i < |HandlesOf(s, who)[k].records| && Tells(s.unlisted, c, Step(s, Act(who, c)).0, mark)
    ensures NotedIn(s, who, c, p, HandlesOf(s, who)[k].records[i], mark)
  {
    var hs, answer := HandlesOf(s, who), Step(s, Act(who, c)).0;
    var rec, marks := hs[k].records[i], MarksOf(s.unlisted, c, answer);
    assert answer == Do(s.world, hs, c).answer;
    assert p[..|rec.base|] == hs[k].dir[..|rec.base|];
    var n := Note(rec.file, Entry(mark, JoinedName(p[|rec.base|..])));
    MarksAreAsFound(s.unlisted, c, answer, mark);
    assert IsNoteOf(hs[k].records, p, marks, n);
    OfRecordsHas(hs[k].records, p, marks, n);
    OneOfTheNotes(s.unlisted, hs, c, answer, k, p, n);
  }

  lemma OneOfTheNotes(unlisted: Unlisted, hs: seq<Handle>, c: Call, answer: Answer, k: nat, p: Path, n: Note)
    requires OfName(hs, c, k, p) && Sound(hs, c) && n in OfRecords(hs[k].records, p, MarksOf(unlisted, c, answer))
    ensures n in NotesOf(unlisted, hs, c, answer)
  {}

  /** After any run, whatever the guest finds through a handle it derived, by any path of
      derivations, is noted in every record of the handle it was given, by the name relative to
      the directory that was attenuated. */
  lemma NothingEscapesTheRecord(s: State, acts: seq<Act>, c: Call, k: nat, p: Path)
    requires Rooted(s.guest) && OfName(After(s, acts).guest, c, k, p) && Sound(After(s, acts).guest, c)
    ensures var s' := After(s, acts); exists j: nat :: HoldsFrom(s, s', k, j) && forall i, mark ::
      0 <= i < |s.guest[j].records| && Tells(s.unlisted, c, Step(s', Act(Guest, c)).0, mark) ==>
        NotedIn(s', Guest, c, p, s.guest[j].records[i], mark)
  {
    var s' := After(s, acts);
    var j := HeldFrom(s, acts, k);
    StaysRooted(s, acts, Guest);
    UnlistedStays(s, acts);
    forall i, mark | 0 <= i < |s.guest[j].records| && Tells(s.unlisted, c, Step(s', Act(Guest, c)).0, mark)
      ensures NotedIn(s', Guest, c, p, s.guest[j].records[i], mark)
    {
      assert s'.guest[k].records[i] == s.guest[j].records[i];
      FoundIsNoted(s', Guest, c, k, p, i, mark);
    }
  }

  lemma {:induction false} UnlistedStays(s: State, acts: seq<Act>)
    ensures After(s, acts).unlisted == s.unlisted
    decreases |acts|
  {
    if |acts| > 0 {
      UnlistedStays(Step(s, acts[0]).1, acts[1..]);
    }
  }

  // ----- By what was asked and found

  /** One of the records has the name. */
  ghost predicate Names(records: seq<Recording>, p: Path, file: nat, name: Bytes) {
    exists k :: 0 <= k < |records| && NamesIn(records[k], p, file, name)
  }

  ghost predicate NamesIn(rec: Recording, p: Path, file: nat, name: Bytes) {
    rec.file == file && Prefix(rec.base, p) && name == JoinedName(p[|rec.base|..])
  }

  /** The act is a call that reaches the name through a handle recorded in the file, and what it
      found is recorded as `mark`: as the header says, and where it does not say, as the
      implementation does. */
  ghost predicate Shows(s: State, a: Act, who: Party, file: nat, e: Entry) {
    && a.Act? && a.who == who
    && var hs, c, answer := HandlesOf(s, who), a.call, Step(s, a).0;
       && Sound(hs, c) && Tells(s.unlisted, c, answer, e.kind)
       && (Names(hs[c.h].records, hs[c.h].dir + c.name, file, e.name)
           || (c.Rename? && Names(hs[c.to].records, hs[c.to].dir + c.newName, file, e.name)))
  }

  lemma {:induction false} RecordsOfName(records: seq<Recording>, dir: Path, name: Path, marks: seq<Mark>, n: Note)
    requires forall k :: 0 <= k < |records| ==> Prefix(records[k].base, dir)
    ensures n in OfRecords(records, dir + name, marks) <==>
              n.entry.kind in marks && Names(records, dir + name, n.file, n.entry.name)
  {
    var p := dir + name;
    OfRecordsHas(records, p, marks, n);
    forall k | 0 <= k < |records|
      ensures Prefix(records[k].base, p) && Relative(records[k].base, p) == p[|records[k].base|..]
    {
      assert p[..|records[k].base|] == dir[..|records[k].base|];
    }
    if IsNoteOf(records, p, marks, n) {
      var k :| 0 <= k < |records| && n.file == records[k].file && n.entry.kind in marks
        && n.entry.name == JoinedName(Relative(records[k].base, p));
      assert NamesIn(records[k], p, n.file, n.entry.name);
    }
    if n.entry.kind in marks && Names(records, p, n.file, n.entry.name) {
      var k :| 0 <= k < |records| && NamesIn(records[k], p, n.file, n.entry.name);
      assert n.entry.name == JoinedName(Relative(records[k].base, p));
    }
  }

  lemma ToldIsShown(s: State, a: Act, who: Party, file: nat, e: Entry)
    requires Rooted(HandlesOf(s, who)) && EntryValid(e)
    ensures Note(file, e) in Told(s, a, who) <==> Shows(s, a, who, file, e)
  {
    if a.Act? && a.who == who && !a.call.Attenuate? {
      var hs, c, answer, n := HandlesOf(s, who), a.call, Step(s, a).0, Note(file, e);
      assert answer == Do(s.world, hs, c).answer;
      if Sound(hs, c) {
        var marks := MarksOf(s.unlisted, c, answer);
        MarksAreAsFound(s.unlisted, c, answer, e.kind);
        RecordsOfName(hs[c.h].records, hs[c.h].dir, c.name, marks, n);
        if c.Rename? {
          RecordsOfName(hs[c.to].records, hs[c.to].dir, c.newName, marks, n);
        }
      }
    }
  }

  /** Some act of the run shows the entry. */
  ghost predicate Shown(s: State, acts: seq<Act>, who: Party, file: nat, e: Entry)
    decreases |acts|
  {
    |acts| > 0
    && (Shows(s, acts[0], who, file, e) || Shown(Step(s, acts[0]).1, acts[1..], who, file, e))
  }

  lemma {:induction false} ReachedIsShown(s: State, acts: seq<Act>, who: Party, file: nat, e: Entry)
    requires Rooted(HandlesOf(s, who)) && EntryValid(e)
    ensures Note(file, e) in Reached(s, acts, who) <==> Shown(s, acts, who, file, e)
    decreases |acts|
  {
    if |acts| > 0 {
      StepStaysRooted(s, acts[0], who);
      ToldIsShown(s, acts[0], who, file, e);
      ReachedIsShown(Step(s, acts[0]).1, acts[1..], who, file, e);
    }
  }

  /** Both programs write what waits. */
  const WRITTEN_OUT: seq<Act> := [Flush(Host), Flush(Guest)]

  lemma {:induction false} Continued(s: State, acts: seq<Act>, more: seq<Act>)
    ensures After(s, acts + more) == After(After(s, acts), more)
    decreases |acts|
  {
    if |acts| == 0 {
      assert acts + more == more;
    } else {
      assert (acts + more)[0] == acts[0] && (acts + more)[1..] == acts[1..] + more;
      Continued(Step(s, acts[0]).1, acts[1..], more);
    }
  }

  lemma {:induction false} WritingShowsNothing(s: State, acts: seq<Act>, who: Party, file: nat, e: Entry)
    ensures Shown(s, acts + WRITTEN_OUT, who, file, e) <==> Shown(s, acts, who, file, e)
    decreases |acts|
  {
    var all := acts + WRITTEN_OUT;
    if |acts| == 0 {
      assert all == WRITTEN_OUT && all[1..][1..] == [];
    } else {
      assert all[0] == acts[0] && all[1..] == acts[1..] + WRITTEN_OUT;
      WritingShowsNothing(Step(s, acts[0]).1, acts[1..], who, file, e);
    }
  }

  /** Nothing waits then, and the records hold what they did and what waited. */
  lemma WrittenOut(s: State)
    requires EachOnce(s.log + s.pending)
    ensures var s' := After(s, WRITTEN_OUT);
      s'.pending == [] && forall l :: l in s'.log <==> l in s.log || l in s.pending
  {
    var s1 := Step(s, Flush(Host)).1;
    var s2 := Step(s1, Flush(Guest)).1;
    assert WRITTEN_OUT[1..][1..] == [];
    assert After(s, WRITTEN_OUT) == After(s1, WRITTEN_OUT[1..]) == After(s2, []) == s2;
    LinesOfLines(s.pending, Guest);
    WritingIsExact(s.log, s.pending, Host);
    WritingIsExact(s1.log, s1.pending, Guest);
  }

  /** What the suite's scanner counts in a record after any run and the writing of all that waits: one
      for each of the programs some call of which reached the name through a handle recorded there
      and found what the kind says; and nothing for a kind that no call of that name gave. */
  lemma CountIsAsFound(s: State, acts: seq<Act>, file: nat, e: Entry)
    requires s.log == [] && s.pending == []
    requires Rooted(s.host) && Rooted(s.guest) && EntryValid(e)
    requires forall l :: l in After(s, acts).log || l in After(s, acts).pending ==> EntryValid(l.note.entry)
    ensures Occurrences(Pieces(RecordBytes(After(s, acts + WRITTEN_OUT).log, file)), [e.kind] + e.name)
         == One(Shown(s, acts, Host, file, e)) + One(Shown(s, acts, Guest, file, e))
  {
    Continued(s, acts, WRITTEN_OUT);
    RecordsAreExact(s, acts);
    WrittenOut(After(s, acts));
    CountIsReached(s, acts + WRITTEN_OUT, file, e);
    ReachedIsShown(s, acts + WRITTEN_OUT, Host, file, e);
    ReachedIsShown(s, acts + WRITTEN_OUT, Guest, file, e);
    WritingShowsNothing(s, acts, Host, file, e);
    WritingShowsNothing(s, acts, Guest, file, e);
  }

  // ----- What an attenuation withdraws stays withdrawn

  /** The handles derived from these, directly or not, in the course of the run, and these. */
  function Descendants(s: State, acts: seq<Act>, who: Party, from: set<nat>): set<nat>
    decreases |acts|
  {
    if |acts| == 0 then from
    else
      var (answer, s') := Step(s, acts[0]);
      var born := acts[0].Act? && acts[0].who == who && answer.Opened? && acts[0].call.h in from;
      Descendants(s', acts[1..], who, if born then from + {answer.handle} else from)
  }

  /** What was asked of an attenuation: nothing may be changed, nothing is said to change since the
      tree had seen `since` changes, and what is reached is recorded. */
  ghost predicate Bound(hs: seq<Handle>, i: nat, r: Rights, since: nat, base: Path) {
    && i < |hs|
    && (r.readOnly ==> hs[i].readOnly)
    && (r.unchanging ==> hs[i].unchanging && hs[i].since <= since)
    && (r.recorded ==> Recording(r.record, base) in hs[i].records)
  }

  ghost predicate AllBound(hs: seq<Handle>, from: set<nat>, r: Rights, since: nat, base: Path) {
    forall i :: i in from ==> Bound(hs, i, r, since, base)
  }

  lemma DerivedIsBound(w: World, hs: seq<Handle>, c: Call, from: set<nat>, r: Rights, since: nat, base: Path)
    requires AllBound(hs, from, r, since, base)
    ensures var d := Do(w, hs, c);
      && AllBound(d.handles, from, r, since, base)
      && (d.answer.Opened? && c.h in from ==> AllBound(d.handles, from + {d.answer.handle}, r, since, base))
  {
    var hs' := Do(w, hs, c).handles;
    if hs' != hs {
      NewHandle(w, hs, c);
      forall i | i in from ensures Bound(hs', i, r, since, base) {
        assert hs'[i] == hs'[..|hs|][i];
      }
      if c.h in from && r.recorded {
        assert hs[c.h].records <= hs'[|hs|].records;
      }
    } else {
      NoneOpened(w, hs, c);
    }
  }

  lemma NoneOpened(w: World, hs: seq<Handle>, c: Call)
    requires Do(w, hs, c).handles == hs
    ensures !Do(w, hs, c).answer.Opened?
  {}

  lemma {:induction false} DescendantsAreBound(s: State, acts: seq<Act>, who: Party, from: set<nat>, r: Rights,
                                               since: nat, base: Path)
    requires AllBound(HandlesOf(s, who), from, r, since, base)
    ensures AllBound(HandlesOf(After(s, acts), who), Descendants(s, acts, who, from), r, since, base)
    decreases |acts|
  {
    if |acts| > 0 {
      var (answer, s') := Step(s, acts[0]);
      StepOfTree(s, acts[0]);
      if acts[0].Act? && acts[0].who == who {
        DerivedIsBound(s.world, HandlesOf(s, who), acts[0].call, from, r, since, base);
        assert answer == Do(s.world, HandlesOf(s, who), acts[0].call).answer;
      }
      var born := acts[0].Act? && acts[0].who == who && answer.Opened? && acts[0].call.h in from;
      DescendantsAreBound(s', acts[1..], who, if born then from + {answer.handle} else from, r, since, base);
    }
  }

  /** The attenuation asked for is granted, and handle `k` is what it gave, or derived from that in
      the run after it. */
  ghost predicate Withdrew(s: State, who: Party, h: nat, r: Rights, acts: seq<Act>, k: nat) {
    var (answer, s') := Step(s, Act(who, Call.Attenuate(h, r)));
    answer.Opened? && k in Descendants(s', acts, who, {answer.handle})
  }

  /** The state after the attenuation and the run after it. */
  function Later(s: State, who: Party, h: nat, r: Rights, acts: seq<Act>): State {
    After(Step(s, Act(who, Call.Attenuate(h, r))).1, acts)
  }

  /** Since when nothing is said to change, if it is said now. */
  function SaidSince(w: World, h: Handle): nat {
    if h.unchanging then h.since else |w.past|
  }

  lemma WithdrewIsBound(s: State, who: Party, h: nat, r: Rights, acts: seq<Act>, k: nat)
    requires Withdrew(s, who, h, r, acts, k)
    ensures var hs := HandlesOf(s, who);
      h < |hs| && Bound(HandlesOf(Later(s, who, h, r, acts), who), k, r, SaidSince(s.world, hs[h]), hs[h].dir)
  {
    var hs, a := HandlesOf(s, who), Call.Attenuate(h, r);
    var (answer, s') := Step(s, Act(who, a));
    StepOfTree(s, Act(who, a));
    assert answer == Do(s.world, hs, a).answer;
    GivenIsBound(s.world, hs, a);
    DescendantsAreBound(s', acts, who, {answer.handle}, r, SaidSince(s.world, hs[h]), hs[h].dir);
  }

  lemma GivenIsBound(w: World, hs: seq<Handle>, a: Call)
    requires a.Attenuate? && Do(w, hs, a).answer.Opened?
    ensures a.h < |hs|
    ensures Bound(Do(w, hs, a).handles, Do(w, hs, a).answer.handle, a.rights, SaidSince(w, hs[a.h]), hs[a.h].dir)
  {}

  /** Once a handle was derived without the right to change anything, every change asked through it
      or through any handle derived from it, at any time and whatever both programs do, is refused,
      as lacking permission where the names are allowed, and the tree is as it was. */
  lemma WithdrawnForGood(s: State, who: Party, h: nat, r: Rights, acts: seq<Act>, k: nat, c: Call)
    requires Withdrew(s, who, h, r, acts, k) && r.readOnly
    requires IsChange(c) && (c.h == k || (c.Rename? && c.to == k))
    ensures var s' := Later(s, who, h, r, acts); var (answer, s'') := Step(s', Act(who, c));
      && answer.Failed? && s''.world == s'.world
      && (NameAllowed(c.name) && c.h < |HandlesOf(s', who)|
          && (c.Rename? ==> NameAllowed(c.newName) && c.to < |HandlesOf(s', who)|) ==>
            answer == Failed(Permission))
  {
    var s' := Later(s, who, h, r, acts);
    var hs' := HandlesOf(s', who);
    WithdrewIsBound(s, who, h, r, acts, k);
    StepOfTree(s', Act(who, c));
    if c.h < |hs'| && (c.Rename? ==> c.to < |hs'|) {
      ChangeIsDone(s'.world, hs', c);
    }
  }

  /** Once a handle was derived with the statement that nothing changes, an enquiry through it or
      through any handle derived from it may be answered from any tree there has been since, whatever
      has changed. */
  lemma StatedForGood(s: State, who: Party, h: nat, r: Rights, acts: seq<Act>, k: nat, c: Call)
    requires Withdrew(s, who, h, r, acts, k) && r.unchanging
    requires IsEnquiry(c) && c.h == k && NameAllowed(c.name)
    ensures var s' := Later(s, who, h, r, acts); var hs, hs' := HandlesOf(s, who), HandlesOf(s', who);
      && h < |hs| && k < |hs'|
      && (SaidSince(s.world, hs[h]) <= c.moment < |s'.world.past| ==>
            Step(s', Act(who, c)).0
            == Opening(hs', EnquiryAnswer(s'.world.past[c.moment], c, hs'[k].dir + c.name)))
  {
    WithdrewIsBound(s, who, h, r, acts, k);
    var s' := Later(s, who, h, r, acts);
    EnquiryIsAnswered(s'.world, HandlesOf(s', who), c);
    assert Step(s', Act(who, c)).0 == Do(s'.world, HandlesOf(s', who), c).answer;
  }

  /** Once a handle was derived with a record, what is found through it or through any handle derived
      from it is noted in that record, by the name relative to the directory that was attenuated. */
  lemma RecordedFromThere(s: State, who: Party, h: nat, r: Rights, acts: seq<Act>, k: nat, c: Call, p: Path,
                          mark: Mark)
    requires Withdrew(s, who, h, r, acts, k) && r.recorded && Rooted(HandlesOf(s, who))
    requires var s' := Later(s, who, h, r, acts);
      OfName(HandlesOf(s', who), c, k, p) && Gives(c, Step(s', Act(who, c)).0, mark)
    ensures h < |HandlesOf(s, who)|
    ensures NotedIn(Later(s, who, h, r, acts), who, c, p, Recording(r.record, HandlesOf(s, who)[h].dir), mark)
  {
    var s', a := Later(s, who, h, r, acts), Act(who, Call.Attenuate(h, r));
    WithdrewIsBound(s, who, h, r, acts, k);
    StaysRooted(s, [a] + acts, who);
    assert ([a] + acts)[1..] == acts && After(s, [a] + acts) == s';
    NotFoundAstray(s', who, c, mark);
    var rec := Recording(r.record, HandlesOf(s, who)[h].dir);
    var i :| 0 <= i < |HandlesOf(s', who)[k].records| && HandlesOf(s', who)[k].records[i] == rec;
    FoundIsNoted(s', who, c, k, p, i, mark);
  }

  lemma NotFoundAstray(s: State, who: Party, c: Call, mark: Mark)
    requires !c.Attenuate? && Gives(c, Step(s, Act(who, c)).0, mark)
    ensures Sound(HandlesOf(s, who), c)
  {
    assert Step(s, Act(who, c)).0 == Do(s.world, HandlesOf(s, who), c).answer;
  }
}
