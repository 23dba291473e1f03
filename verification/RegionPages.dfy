/** A reserved range of the address space, backed part by part: what the header says each
    call does to pages, for an implementation that charges backing and for one that
    overcommits, against what the history of the calls says a byte must read. */
module RegionPages {

  type Byte = b: int | 0 <= b < 256

  /** An address in the range, or a length: whole pages of kal_memory_granularity bytes, and
      the bytes beyond them. */
  datatype Extent = Extent(page: nat, pos: nat)

  /** `granted` is whether the environment has the backing to give. `Reclaim` is the
      environment taking back what a discard gave up, at any time it likes: the bytes of the
      page not written since read as zero from then on. */
  datatype Event =
    | Commit(addr: Extent, len: Extent, granted: bool)
    | Decommit(addr: Extent, len: Extent)
    | Discard(addr: Extent, len: Extent)
    | Write(at: Extent, value: Byte)
    | Read(at: Extent)
    | Reclaim(page: nat)

  /** The range: its pages, their size, and whether it was backed when it was reserved. */
  datatype Range = Range(pages: nat, gran: nat, atOnce: bool)

  predicate IsCall(e: Event) {
    e.Commit? || e.Decommit? || e.Discard?
  }

  predicate Aligned(e: Event)
    requires IsCall(e)
  {
    e.addr.pos == 0 && e.len.pos == 0
  }

  /** The call is of whole pages, `page` among them. */
  predicate Covers(e: Event, page: nat)
    requires IsCall(e)
  {
    Aligned(e) && e.addr.page <= page < e.addr.page + e.len.page
  }

  /** The part or the byte lies in the range. */
  predicate InRange(r: Range, e: Event) {
    match e
    case Write(at, _) => at.page < r.pages && at.pos < r.gran
    case Read(at) => at.page < r.pages && at.pos < r.gran
    case Reclaim(page) => page < r.pages
    case _ => Aligned(e) ==> e.addr.page + e.len.page <= r.pages
  }

  /** Every event of the history is in the range. */
  predicate StaysInRange(r: Range, history: seq<Event>) {
    forall i :: 0 <= i < |history| ==> InRange(r, history[i])
  }

  // ----- The history: what a program may rely on

  datatype Reading = Unbacked | Known(value: Byte) | Unspecified

  /** A page is backed by the last granted commit or decommit that covers it, and by the
      reservation where there is none. */
  predicate BackedBy(r: Range, history: seq<Event>, page: nat) {
    if |history| == 0 then r.atOnce
    else
      var e := history[|history| - 1];
      if e.Commit? && e.granted && Covers(e, page) then true
      else if e.Decommit? && Covers(e, page) then false
      else BackedBy(r, history[..|history| - 1], page)
  }

  /** The events that decide what a byte holds: a write to it, and a decommit or a discard of
      its page. A commit and the environment's reclaiming decide nothing. */
  predicate Decides(e: Event, a: Extent) {
    match e
    case Write(at, _) => at == a
    case Decommit(_, _) => Covers(e, a.page)
    case Discard(_, _) => Covers(e, a.page)
    case _ => false
  }

  function LastDeciding(history: seq<Event>, a: Extent): (i: int)
    ensures -1 <= i < |history|
    ensures i >= 0 ==> Decides(history[i], a)
    ensures forall j :: i < j < |history| ==> !Decides(history[j], a)
  {
    if |history| == 0 then -1
    else if Decides(history[|history| - 1], a) then |history| - 1
    else LastDeciding(history[..|history| - 1], a)
  }

  /** What a deciding event says of the byte once its page is backed. */
  function Decided(history: seq<Event>, a: Extent): Reading {
    var i := LastDeciding(history, a);
    if i < 0 then Known(0)
    else
      match history[i]
      case Write(_, v) => Known(v)
      case Discard(_, _) => Unspecified
      case _ => Known(0)
  }

  /** The last write to the byte since its page was last decommitted, zero if there is none,
      whether or not it has been discarded since. */
  function HeldBefore(history: seq<Event>, a: Extent): Byte {
    if |history| == 0 then 0
    else
      var e := history[|history| - 1];
      if e.Write? && e.at == a then e.value
      else if e.Decommit? && Covers(e, a.page) then 0
      else HeldBefore(history[..|history| - 1], a)
  }

  /** A backed byte reads its last write since its page was last decommitted, zero if there is
      none, and is unspecified after a discard until it is written. */
  function Meaning(r: Range, history: seq<Event>, a: Extent): Reading {
    if BackedBy(r, history, a.page) then Decided(history, a) else Unbacked
  }

  /** The program stays in the range and touches only what is backed. */
  predicate Allowed(r: Range, history: seq<Event>, e: Event) {
    && InRange(r, e)
    && match e
       case Write(at, _) => BackedBy(r, history, at.page)
       case Read(at) => BackedBy(r, history, at.page)
       case Discard(_, _) => forall p :: 0 <= p < r.pages && Covers(e, p) ==> BackedBy(r, history, p)
       case _ => true
  }

  predicate WellBehaved(r: Range, history: seq<Event>) {
    |history| == 0
    || (WellBehaved(r, history[..|history| - 1])
        && Allowed(r, history[..|history| - 1], history[|history| - 1]))
  }

  // ----- The page machine

  /** One byte: what it holds, and whether a discard has given it up since its last write. */
  datatype Cell = Cell(value: Byte, loose: bool)

  /** `backed` is what the environment charges for. A page that is not backed may still hold
      bytes that nothing may read. */
  datatype Machine = Machine(overcommits: bool, backed: seq<bool>, cells: seq<seq<Cell>>)

  datatype Answer = Done | Invalid | NoMemory | Value(value: Byte)

  ghost predicate Shaped(r: Range, m: Machine) {
    && |m.backed| == |m.cells| == r.pages
    && forall p :: 0 <= p < |m.cells| ==> |m.cells[p]| == r.gran
  }

  function Zeros(n: nat): (z: seq<Cell>)
    ensures |z| == n && forall i :: 0 <= i < n ==> z[i] == Cell(0, false)
  {
    seq(n, _ => Cell(0, false))
  }

  function Loosened(cells: seq<Cell>): (z: seq<Cell>)
    ensures |z| == |cells| && forall i :: 0 <= i < |z| ==> z[i] == Cell(cells[i].value, true)
  {
    seq(|cells|, i requires 0 <= i < |cells| => Cell(cells[i].value, true))
  }

  function Reclaimed(cells: seq<Cell>): (z: seq<Cell>)
    ensures |z| == |cells|
    ensures forall i :: 0 <= i < |z| ==> z[i] == if cells[i].loose then Cell(0, true) else cells[i]
  {
    seq(|cells|, i requires 0 <= i < |cells| => if cells[i].loose then Cell(0, true) else cells[i])
  }

  /** What a call does to one page it covers. A charging commit zeroes a page it backs and a
      charging decommit only drops the charge; an overcommitting commit makes no request, and
      its decommit gives the memory back at once. */
  function PageAfter(overcommits: bool, e: Event, backed: bool, cells: seq<Cell>): (bool, seq<Cell>)
    requires IsCall(e)
  {
    match e
    case Commit(_, _, _) =>
      if overcommits || backed then (backed, cells) else (true, Zeros(|cells|))
    case Decommit(_, _) =>
      if overcommits then (backed, Zeros(|cells|)) else (false, cells)
    case Discard(_, _) => (backed, Loosened(cells))
  }

  /** Whether the call changes the pages it covers. */
  predicate Takes(m: Machine, e: Event)
    requires IsCall(e)
  {
    Aligned(e) && (e.Commit? && !m.overcommits ==> e.granted)
  }

  function OnPages(m: Machine, e: Event): Machine
    requires IsCall(e) && |m.backed| == |m.cells|
  {
    var page := (p: nat) requires p < |m.cells| =>
      if Covers(e, p) then PageAfter(m.overcommits, e, m.backed[p], m.cells[p]) else (m.backed[p], m.cells[p]);
    m.(backed := seq(|m.cells|, p requires 0 <= p < |m.cells| => page(p).0),
       cells := seq(|m.cells|, p requires 0 <= p < |m.cells| => page(p).1))
  }

  function Next(r: Range, m: Machine, e: Event): (m': Machine)
    requires Shaped(r, m) && InRange(r, e)
    ensures Shaped(r, m') && m'.overcommits == m.overcommits
  {
    match e
    case Write(at, v) => m.(cells := m.cells[at.page := m.cells[at.page][at.pos := Cell(v, false)]])
    case Read(_) => m
    case Reclaim(page) => m.(cells := m.cells[page := Reclaimed(m.cells[page])])
    case _ => if Takes(m, e) then OnPages(m, e) else m
  }

  function AnswerTo(r: Range, m: Machine, e: Event): Answer
    requires Shaped(r, m) && InRange(r, e)
  {
    match e
    case Read(at) => Value(m.cells[at.page][at.pos].value)
    case Write(_, _) => Done
    case Reclaim(_) => Done
    case _ => if !Aligned(e) then Invalid else if Takes(m, e) then Done else NoMemory
  }

  /** A range as it is reserved: what is backed at once reads as zero, and the memory of an
      overcommitting range is zero where it was never touched. */
  ghost predicate Initial(r: Range, m: Machine) {
    && Shaped(r, m)
    && (forall p :: 0 <= p < r.pages ==> m.backed[p] == r.atOnce)
    && (r.atOnce || m.overcommits ==> forall p :: 0 <= p < r.pages ==> m.cells[p] == Zeros(r.gran))
  }

  function After(r: Range, m: Machine, history: seq<Event>): (m': Machine)
    requires Shaped(r, m) && StaysInRange(r, history)
    ensures Shaped(r, m') && m'.overcommits == m.overcommits
  {
    if |history| == 0 then m
    else Next(r, After(r, m, history[..|history| - 1]), history[|history| - 1])
  }

  // ----- The machine refines the history

  /** The machine holds what the history says. */
  ghost predicate Conforms(r: Range, m: Machine, history: seq<Event>) {
    && Shaped(r, m)
    && (!m.overcommits ==> forall p :: 0 <= p < r.pages ==> m.backed[p] == BackedBy(r, history, p))
    && (forall p, i :: 0 <= p < r.pages && 0 <= i < r.gran ==>
          CellConforms(m.overcommits, Meaning(r, history, Extent(p, i)), HeldBefore(history, Extent(p, i)),
                       m.cells[p][i]))
    && (forall p, i :: 0 <= p < r.pages && 0 <= i < r.gran && !BackedBy(r, history, p) ==>
          Decided(history, Extent(p, i)) == Known(0) && HeldBefore(history, Extent(p, i)) == 0)
  }

  /** A discarded byte holds what it held before, or zero. */
  ghost predicate CellConforms(overcommits: bool, reading: Reading, before: Byte, c: Cell) {
    match reading
    case Known(v) => c == Cell(v, false) && v == before
    case Unbacked => overcommits ==> c == Cell(0, false)
    case Unspecified => c.loose && (c.value == 0 || c.value == before)
  }

  lemma MeaningStep(r: Range, history: seq<Event>, e: Event, a: Extent)
    ensures BackedBy(r, history + [e], a.page) ==
      if e.Commit? && e.granted && Covers(e, a.page) then true
      else if e.Decommit? && Covers(e, a.page) then false
      else BackedBy(r, history, a.page)
    ensures Decided(history + [e], a) ==
      if !Decides(e, a) then Decided(history, a)
      else if e.Write? then Known(e.value)
      else if e.Discard? then Unspecified
      else Known(0)
    ensures HeldBefore(history + [e], a) ==
      if e.Write? && e.at == a then e.value
      else if e.Decommit? && Covers(e, a.page) then 0
      else HeldBefore(history, a)
  {
    assert (history + [e])[..|history|] == history;
  }

  lemma StepConforms(r: Range, m: Machine, history: seq<Event>, e: Event)
    requires Conforms(r, m, history) && Allowed(r, history, e)
    ensures Conforms(r, Next(r, m, e), history + [e])
  {
    forall p, i | 0 <= p < r.pages && 0 <= i < r.gran
      ensures CellConforms(m.overcommits, Meaning(r, history + [e], Extent(p, i)),
                           HeldBefore(history + [e], Extent(p, i)), Next(r, m, e).cells[p][i])
      ensures !BackedBy(r, history + [e], p) ==> Decided(history + [e], Extent(p, i)) == Known(0)
      ensures !BackedBy(r, history + [e], p) ==> HeldBefore(history + [e], Extent(p, i)) == 0
    {
      MeaningStep(r, history, e, Extent(p, i));
    }
    forall p | 0 <= p < r.pages && !m.overcommits
      ensures Next(r, m, e).backed[p] == BackedBy(r, history + [e], p)
    {
      MeaningStep(r, history, e, Extent(p, 0));
    }
  }

  /** What a call of whole pages means for a byte: of a page it covers, and of any other. */
  lemma CallIsOfItsPages(r: Range, history: seq<Event>, e: Event, a: Extent)
    requires IsCall(e)
    ensures var covered := e.addr.pos == 0 && e.len.pos == 0 && e.addr.page <= a.page < e.addr.page + e.len.page;
      && (e.Commit? && covered && e.granted ==> Meaning(r, history + [e], a) == Decided(history, a))
      && (e.Decommit? && covered ==> Meaning(r, history + [e], a) == Unbacked && Decided(history + [e], a) == Known(0))
      && (e.Discard? && covered && BackedBy(r, history, a.page) ==> Meaning(r, history + [e], a) == Unspecified)
      && (!covered || (e.Commit? && !e.granted) ==> Meaning(r, history + [e], a) == Meaning(r, history, a))
  {
    MeaningStep(r, history, e, a);
  }

  /** A discarded byte may read as either: as it was until the environment takes it back, and as
      zero from then on. */
  lemma EitherMayBeRead(r: Range, m: Machine, e: Event, a: Extent)
    requires Shaped(r, m) && InRange(r, e) && e.Discard? && Covers(e, a.page) && InRange(r, Read(a))
    ensures var m1 := Next(r, m, e); var m2 := Next(r, m1, Reclaim(a.page));
      && AnswerTo(r, m1, Read(a)) == AnswerTo(r, m, Read(a))
      && AnswerTo(r, m2, Read(a)) == Value(0)
  {}

  lemma {:induction false} InRangeThroughout(r: Range, history: seq<Event>)
    requires WellBehaved(r, history)
    ensures StaysInRange(r, history)
  {
    if |history| > 0 {
      InRangeThroughout(r, history[..|history| - 1]);
    }
  }

  lemma {:induction false} RunConforms(r: Range, m: Machine, history: seq<Event>)
    requires Initial(r, m) && WellBehaved(r, history)
    requires StaysInRange(r, history)
    ensures Conforms(r, After(r, m, history), history)
  {
    if |history| > 0 {
      var last := |history| - 1;
      RunConforms(r, m, history[..last]);
      StepConforms(r, After(r, m, history[..last]), history[..last], history[last]);
      assert history[..last] + [history[last]] == history;
    } else {
      forall p, i | 0 <= p < r.pages && 0 <= i < r.gran && (r.atOnce || m.overcommits)
        ensures m.cells[p][i] == Cell(0, false)
      {
        assert m.cells[p] == Zeros(r.gran);
      }
    }
  }

  /** Whether it charges or overcommits, and whatever the environment reclaims and when, a
      range answers every read as the history says; after a discard it answers what the byte
      held or zero. */
  lemma ReadsWhatTheHistorySays(r: Range, m: Machine, history: seq<Event>, at: Extent)
    requires Initial(r, m) && WellBehaved(r, history + [Read(at)])
    ensures StaysInRange(r, history)
    ensures InRange(r, Read(at))
    ensures var answer := AnswerTo(r, After(r, m, history), Read(at));
      match Meaning(r, history, at)
      case Known(v) => answer == Value(v)
      case Unspecified => answer == Value(0) || answer == Value(HeldBefore(history, at))
      case Unbacked => false
  {
    assert (history + [Read(at)])[..|history|] == history;
    InRangeThroughout(r, history);
    RunConforms(r, m, history);
    assert Extent(at.page, at.pos) == at;
  }

  // ----- Charging and overcommitting, side by side

  /** The two hold the same bytes wherever the program may look. */
  ghost predicate Twins(r: Range, c: Machine, o: Machine, history: seq<Event>) {
    && Conforms(r, c, history) && Conforms(r, o, history)
    && !c.overcommits && o.overcommits
    && forall p :: 0 <= p < r.pages && BackedBy(r, history, p) ==> c.cells[p] == o.cells[p]
  }

  /** What the program is told of an event: nothing of the environment's reclaiming. */
  function Told(r: Range, m: Machine, e: Event): seq<Answer>
    requires Shaped(r, m) && InRange(r, e)
  {
    if e.Reclaim? then [] else [AnswerTo(r, m, e)]
  }

  lemma StepKeepsTwins(r: Range, c: Machine, o: Machine, history: seq<Event>, e: Event)
    requires Twins(r, c, o, history) && Allowed(r, history, e)
    ensures Twins(r, Next(r, c, e), Next(r, o, e), history + [e])
    ensures Told(r, c, e) == Told(r, o, e) <==> !(e.Commit? && Aligned(e) && !e.granted)
  {
    StepConforms(r, c, history, e);
    StepConforms(r, o, history, e);
    forall p | 0 <= p < r.pages && BackedBy(r, history + [e], p)
      ensures Next(r, c, e).cells[p] == Next(r, o, e).cells[p]
    {
      MeaningStep(r, history, e, Extent(p, 0));
      if !BackedBy(r, history, p) {
        forall i | 0 <= i < r.gran ensures o.cells[p][i] == Cell(0, false) {
          assert Meaning(r, history, Extent(p, i)) == Unbacked;
        }
        assert o.cells[p] == Zeros(r.gran);
      }
    }
  }

  function Answers(r: Range, m: Machine, history: seq<Event>): seq<Answer>
    requires Shaped(r, m) && StaysInRange(r, history)
  {
    if |history| == 0 then []
    else
      var rest := history[..|history| - 1];
      Answers(r, m, rest) + Told(r, After(r, m, rest), history[|history| - 1])
  }

  lemma OneMoreAnswer(r: Range, m: Machine, rest: seq<Event>, e: Event)
    requires Shaped(r, m) && StaysInRange(r, rest + [e])
    ensures StaysInRange(r, rest) && InRange(r, e)
    ensures Answers(r, m, rest + [e]) == Answers(r, m, rest) + Told(r, After(r, m, rest), e)
    ensures After(r, m, rest + [e]) == Next(r, After(r, m, rest), e)
  {
    assert (rest + [e])[..|rest + [e]| - 1] == rest && (rest + [e])[|rest|] == e;
    forall i | 0 <= i < |rest| ensures InRange(r, rest[i]) {
      assert (rest + [e])[i] == rest[i];
    }
  }

  predicate AllGranted(history: seq<Event>) {
    forall i :: 0 <= i < |history| && history[i].Commit? && Aligned(history[i]) ==> history[i].granted
  }

  lemma OneMoreGranted(history: seq<Event>, e: Event)
    ensures AllGranted(history + [e]) <==> AllGranted(history) && !(e.Commit? && Aligned(e) && !e.granted)
  {
    var all := history + [e];
    assert all[|history|] == e;
    if AllGranted(all) {
      forall i | 0 <= i < |history| && history[i].Commit? && Aligned(history[i]) ensures history[i].granted {
        assert all[i] == history[i];
      }
    }
  }

  lemma {:induction false} TwinRuns(r: Range, c: Machine, o: Machine, history: seq<Event>)
    requires Initial(r, c) && Initial(r, o) && !c.overcommits && o.overcommits
    requires WellBehaved(r, history) && StaysInRange(r, history)
    ensures Twins(r, After(r, c, history), After(r, o, history), history)
    ensures |Answers(r, c, history)| == |Answers(r, o, history)|
    ensures Answers(r, c, history) == Answers(r, o, history) <==> AllGranted(history)
  {
    if |history| == 0 {
      RunConforms(r, c, history);
      RunConforms(r, o, history);
    } else {
      var rest, e := history[..|history| - 1], history[|history| - 1];
      assert rest + [e] == history;
      TwinRuns(r, c, o, rest);
      OneMoreAnswer(r, c, rest, e);
      OneMoreAnswer(r, o, rest, e);
      StepKeepsTwins(r, After(r, c, rest), After(r, o, rest), rest, e);
      AppendEqual(Answers(r, c, rest), Answers(r, o, rest),
                  Told(r, After(r, c, rest), e), Told(r, After(r, o, rest), e));
      OneMoreGranted(rest, e);
    }
  }

  lemma AppendEqual<T>(s: seq<T>, t: seq<T>, x: seq<T>, y: seq<T>)
    requires |s| == |t|
    ensures s + x == t + y <==> s == t && x == y
  {
    if s + x == t + y {
      assert s == (s + x)[..|s|] == (t + y)[..|t|] == t;
      assert x == (s + x)[|s|..] == (t + y)[|t|..] == y;
    }
  }

  /** A sequence of calls that touches only what is backed is answered alike by an overcommitting
      range, whose commit makes no request, and by a charging one, under the same reclaiming,
      exactly when the charging one has the backing to give each time it is asked. */
  lemma OvercommitIsIndistinguishable(r: Range, c: Machine, o: Machine, history: seq<Event>)
    requires Initial(r, c) && Initial(r, o) && !c.overcommits && o.overcommits
    requires WellBehaved(r, history)
    ensures StaysInRange(r, history)
    ensures Answers(r, c, history) == Answers(r, o, history) <==> AllGranted(history)
  {
    InRangeThroughout(r, history);
    TwinRuns(r, c, o, history);
  }

  // ----- Programs that choose by the answers

  /** What a program asks for; it cannot ask for reclaiming. */
  type Request = e: Event | !e.Reclaim? witness Read(Extent(0, 0))

  /** A program chooses its next request by every answer it has been given. */
  type Program = seq<Answer> -> Request

  /** What the environment does at one point of a run: let the program make its next request, with
      or without backing to give, or take back what was discarded of a page. */
  datatype Turn = Ask(granted: bool) | Take(page: nat)

  function EventOf(turn: Turn, request: Request): Event {
    match turn
    case Take(page) => Reclaim(page)
    case Ask(granted) => if request.Commit? then Commit(request.addr, request.len, granted) else request
  }

  /** The next event; a program that has left the range is not run further. */
  function NextEvent(r: Range, m: Machine, program: Program, before: seq<Event>, turn: Turn): Event
    requires Shaped(r, m)
  {
    EventOf(turn, if StaysInRange(r, before) then program(Answers(r, m, before)) else Read(Extent(0, 0)))
  }

  /** What happens when the program runs on the machine under the environment's turns. */
  function Played(r: Range, m: Machine, program: Program, turns: seq<Turn>): (history: seq<Event>)
    requires Shaped(r, m)
    ensures |history| == |turns|
  {
    if |turns| == 0 then []
    else
      var before := Played(r, m, program, turns[..|turns| - 1]);
      before + [NextEvent(r, m, program, before, turns[|turns| - 1])]
  }

  lemma FrontBehaves(r: Range, before: seq<Event>, e: Event)
    requires WellBehaved(r, before + [e])
    ensures WellBehaved(r, before) && StaysInRange(r, before)
  {
    assert (before + [e])[..|before + [e]| - 1] == before;
    InRangeThroughout(r, before);
  }

  /** As long as every commit is granted, the overcommitting run is the charging run. */
  lemma {:induction false} GrantedRunsAreOne(r: Range, c: Machine, o: Machine, program: Program, turns: seq<Turn>)
    requires Initial(r, c) && Initial(r, o) && !c.overcommits && o.overcommits
    requires WellBehaved(r, Played(r, c, program, turns)) && AllGranted(Played(r, c, program, turns))
    ensures Played(r, o, program, turns) == Played(r, c, program, turns)
  {
    if |turns| > 0 {
      var rest := turns[..|turns| - 1];
      var before, all := Played(r, c, program, rest), Played(r, c, program, turns);
      FrontBehaves(r, before, NextEvent(r, c, program, before, turns[|rest|]));
      OneMoreGranted(before, all[|before|]);
      GrantedRunsAreOne(r, c, o, program, rest);
      OvercommitIsIndistinguishable(r, c, o, before);
    }
  }

  /** And as long as the answers have been the same. */
  lemma {:induction false} LikeAnsweredRunsAreOne(r: Range, c: Machine, o: Machine, program: Program, turns: seq<Turn>)
    requires Initial(r, c) && Initial(r, o) && !c.overcommits && o.overcommits
    requires WellBehaved(r, Played(r, c, program, turns))
    requires StaysInRange(r, Played(r, c, program, turns)) && StaysInRange(r, Played(r, o, program, turns))
    requires Answers(r, c, Played(r, c, program, turns)) == Answers(r, o, Played(r, o, program, turns))
    ensures Played(r, o, program, turns) == Played(r, c, program, turns)
  {
    if |turns| > 0 {
      var rest, turn := turns[..|turns| - 1], turns[|turns| - 1];
      var bc, bo := Played(r, c, program, rest), Played(r, o, program, rest);
      var ec, eo := NextEvent(r, c, program, bc, turn), NextEvent(r, o, program, bo, turn);
      FrontBehaves(r, bc, ec);
      OneMoreAnswer(r, c, bc, ec);
      OneMoreAnswer(r, o, bo, eo);
      AnswersLength(r, c, program, rest);
      AnswersLength(r, o, program, rest);
      AppendEqual(Answers(r, c, bc), Answers(r, o, bo), Told(r, After(r, c, bc), ec), Told(r, After(r, o, bo), eo));
      LikeAnsweredRunsAreOne(r, c, o, program, rest);
    }
  }

  function Asks(turns: seq<Turn>): nat {
    if |turns| == 0 then 0
    else Asks(turns[..|turns| - 1]) + if turns[|turns| - 1].Ask? then 1 else 0
  }

  lemma {:induction false} AnswersLength(r: Range, m: Machine, program: Program, turns: seq<Turn>)
    requires Shaped(r, m) && StaysInRange(r, Played(r, m, program, turns))
    ensures |Answers(r, m, Played(r, m, program, turns))| == Asks(turns)
  {
    if |turns| > 0 {
      var rest := turns[..|turns| - 1];
      var before := Played(r, m, program, rest);
      OneMoreAnswer(r, m, before, NextEvent(r, m, program, before, turns[|turns| - 1]));
      AnswersLength(r, m, program, rest);
    }
  }

  /** Any program, choosing each request by the answers so far, that touches only what is backed
      when it runs on a charging range: under the same environment it makes the same requests of
      an overcommitting range and is given the same answers, if and only if the charging range is
      granted every backing it asks for. */
  lemma NoProgramCanTell(r: Range, c: Machine, o: Machine, program: Program, turns: seq<Turn>)
    requires Initial(r, c) && Initial(r, o) && !c.overcommits && o.overcommits
    requires WellBehaved(r, Played(r, c, program, turns))
    ensures StaysInRange(r, Played(r, c, program, turns))
    ensures AllGranted(Played(r, c, program, turns)) <==>
              StaysInRange(r, Played(r, o, program, turns))
              && Answers(r, o, Played(r, o, program, turns)) == Answers(r, c, Played(r, c, program, turns))
    ensures AllGranted(Played(r, c, program, turns)) ==>
              Played(r, o, program, turns) == Played(r, c, program, turns)
  {
    var hc, ho := Played(r, c, program, turns), Played(r, o, program, turns);
    InRangeThroughout(r, hc);
    OvercommitIsIndistinguishable(r, c, o, hc);
    if AllGranted(hc) {
      GrantedRunsAreOne(r, c, o, program, turns);
    }
    if StaysInRange(r, ho) && Answers(r, o, ho) == Answers(r, c, hc) {
      LikeAnsweredRunsAreOne(r, c, o, program, turns);
    }
  }

  // ----- The calls as code on one range

  class ReservedRange {
    const range: Range
    const overcommits: bool
    var backed: seq<bool>
    var cells: seq<seq<Cell>>
    /** Every event so far. */
    ghost var history: seq<Event>

    ghost function View(): Machine
      reads this
    {
      Machine(overcommits, backed, cells)
    }

    ghost predicate Valid()
      reads this
    {
      Conforms(range, View(), history)
    }

    constructor (range: Range, overcommits: bool)
      ensures Valid() && this.range == range && this.overcommits == overcommits && history == []
    {
      this.range, this.overcommits := range, overcommits;
      backed := seq(range.pages, _ => range.atOnce);
      cells := seq(range.pages, _ => Zeros(range.gran));
      history := [];
      new;
      RunConforms(range, View(), []);
    }

    /** kal_region_commit, kal_region_decommit or kal_region_discard. */
    method Perform(e: Event) returns (answer: Answer)
      requires Valid() && IsCall(e) && Allowed(range, history, e)
      modifies this
      ensures Valid() && history == old(history) + [e]
      ensures answer == AnswerTo(range, old(View()), e)
      ensures answer == if e.addr.pos != 0 || e.len.pos != 0 then Invalid
                        else if e.Commit? && !e.granted && !overcommits then NoMemory
                        else Done
      ensures answer != Done ==> View() == old(View())
      ensures |cells| == |backed| == range.pages
      ensures forall p: nat :: p < range.pages && !(e.addr.page <= p < e.addr.page + e.len.page) ==>
                backed[p] == old(backed)[p] && cells[p] == old(cells)[p]
      ensures answer == Done ==> forall p: nat :: e.addr.page <= p < e.addr.page + e.len.page ==>
                && (e.Commit? && !overcommits ==>
                      backed[p] && cells[p] == if old(backed)[p] then old(cells)[p] else Zeros(range.gran))
                && (e.Decommit? ==> if overcommits then cells[p] == Zeros(range.gran) else !backed[p])
    {
      ghost var before := View();
      StepConforms(range, before, history, e);
      history := history + [e];
      if !Aligned(e) {
        return Invalid;
      }
      if e.Commit? && !overcommits && !e.granted {
        return NoMemory;
      }
      answer := Done;
      if e.Commit? && overcommits {
        assert View().cells == Next(range, before, e).cells;
        assert View().backed == Next(range, before, e).backed;
        return;
      }
      var i := 0;
      while i < e.len.page
        invariant i <= e.len.page && |cells| == |backed| == range.pages
        invariant forall p :: 0 <= p < range.pages ==>
                    (backed[p], cells[p]) == if e.addr.page <= p < e.addr.page + i
                                             then PageAfter(overcommits, e, before.backed[p], before.cells[p])
                                             else (before.backed[p], before.cells[p])
        invariant history == old(history) + [e]
      {
        var p := e.addr.page + i;
        if e.Commit? {
          if !backed[p] {
            cells := cells[p := Zeros(|cells[p]|)];
          }
          backed := backed[p := true];
        } else if e.Decommit? {
          if overcommits {
            cells := cells[p := Zeros(|cells[p]|)];
          } else {
            backed := backed[p := false];
          }
        } else {
          cells := cells[p := Loosened(cells[p])];
        }
        i := i + 1;
      }
      assert View().cells == Next(range, before, e).cells;
      assert View().backed == Next(range, before, e).backed;
    }

    method Store(at: Extent, value: Byte)
      requires Valid() && Allowed(range, history, Write(at, value))
      modifies this
      ensures Valid() && history == old(history) + [Write(at, value)]
    {
      StepConforms(range, View(), history, Write(at, value));
      cells := cells[at.page := cells[at.page][at.pos := Cell(value, false)]];
      history := history + [Write(at, value)];
    }

    /** A read of a backed byte answers what the history says of it. */
    method Load(at: Extent) returns (value: Byte)
      requires Valid() && Allowed(range, history, Read(at))
      ensures match Meaning(range, history, at)
        case Known(v) => value == v
        case Unspecified => value == 0 || value == HeldBefore(history, at)
        case Unbacked => false
    {
      value := cells[at.page][at.pos].value;
      assert Extent(at.page, at.pos) == at;
    }

    /** The environment takes back what was discarded of a page, whenever it likes. */
    method Reclaims(page: nat)
      requires Valid() && page < range.pages
      modifies this
      ensures Valid() && history == old(history) + [Reclaim(page)]
    {
      StepConforms(range, View(), history, Reclaim(page));
      cells := cells[page := Reclaimed(cells[page])];
      history := history + [Reclaim(page)];
    }
  }
}
