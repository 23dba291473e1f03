/** What calls through recorded handles add to the records: which entries, to which file, once
    for each kind and name in a program, and written in batches. */
module Notes {
  import opened Attenuation
  import opened Record

  /** A kind in a record. */
  type Mark = b: Byte | b != 0 witness 114

  const READ: Mark := 114
  const WRITTEN: Mark := 119
  const PRESENT: Mark := 115
  const ABSENT: Mark := 97
  const LISTED: Mark := 108

  /** What an implementation records, if anything, of a name in the cases the header does not
      list: a directory opened, and a call that fails for another reason than absence. */
  type Unlisted = (Call, Answer) -> seq<Mark>

  /** An entry, and the record it is for. */
  datatype Note = Note(file: nat, entry: Entry)

  /** The name as the record has it: components and separators, `.` for the directory itself. */
  function JoinedName(p: Path): Bytes {
    if |p| == 0 then [46] else Joined(p)
  }

  function Joined(p: Path): Bytes
    requires |p| > 0
  {
    if |p| == 1 then p[0] else p[0] + [47] + Joined(p[1..])
  }

  /** The name relative to the directory that was attenuated. */
  function Relative(base: Path, p: Path): Path {
    if Prefix(base, p) then p[|base|..] else p
  }

  /** The kinds of the entries made of a name, by what it was asked and what was found. */
  function MarksOf(unlisted: Unlisted, c: Call, answer: Answer): seq<Mark> {
    match c
    case Attenuate(_, _) => []
    case Info(_, _, _) =>
      if answer == Kind(Absent) then [ABSENT] else if answer.Kind? then [PRESENT] else unlisted(c, answer)
    case ReadFile(_, _, _) =>
      if answer.Content? then [READ] else if answer == Failed(NotFound) then [ABSENT] else unlisted(c, answer)
    case List(_, _, _) =>
      if answer.Listing? then [LISTED] else if answer == Failed(NotFound) then [ABSENT] else unlisted(c, answer)
    case OpenDir(_, _, _) => if answer == Failed(NotFound) then [ABSENT] else unlisted(c, answer)
    case WriteFile(_, _, _, _, _) =>
      if answer == Done then [WRITTEN] else if answer == Failed(NotFound) then [ABSENT] else unlisted(c, answer)
    case _ => if answer == Done then [WRITTEN] else unlisted(c, answer)
  }

  /** What was asked and what was found give the kind: `r` read, `a` absent, `s` present, `l` listed,
      `w` changed. */
  predicate Gives(c: Call, answer: Answer, mark: Byte) {
    || (mark == 114 && c.ReadFile? && answer.Content?)
    || (mark == 97 && c.Info? && answer == Kind(Absent))
    || (mark == 97 && (c.ReadFile? || c.List? || c.OpenDir? || c.WriteFile?) && answer == Failed(NotFound))
    || (mark == 115 && c.Info? && (answer == Kind(ADirectory) || (answer.Kind? && answer.node.AFile?)))
    || (mark == 108 && c.List? && answer.Listing?)
    || (mark == 119 && (c.WriteFile? || c.MakeDir? || c.Remove? || c.Rename?) && answer == Done)
  }

  /** The header says what is recorded. */
  predicate Settled(c: Call, answer: Answer) {
    Gives(c, answer, 114) || Gives(c, answer, 97) || Gives(c, answer, 115) || Gives(c, answer, 108)
    || Gives(c, answer, 119)
  }

  /** The kind is what was found, or where the header does not say what the implementation makes of it. */
  predicate Tells(unlisted: Unlisted, c: Call, answer: Answer, mark: Byte) {
    Gives(c, answer, mark) || (!Settled(c, answer) && mark in unlisted(c, answer))
  }

  /** The kinds recorded are those found and no others. */
  lemma MarksAreAsFound(unlisted: Unlisted, c: Call, answer: Answer, mark: Mark)
    requires !c.Attenuate?
    ensures mark in MarksOf(unlisted, c, answer) <==> Tells(unlisted, c, answer, mark)
  {}

  /** A name as the record has it, taken apart at its separators. */
  function Split(b: Bytes): Path {
    if |b| == 0 then [[]]
    else
      var rest := Split(b[1..]);
      if b[0] == 47 then [[]] + rest
      else if |rest| == 0 then [[b[0]]]
      else [[b[0]] + rest[0]] + rest[1..]
  }

  ghost predicate NoSeparator(b: Bytes) {
    forall i :: 0 <= i < |b| ==> b[i] != 47
  }

  lemma {:induction false} SplitOne(b: Bytes)
    requires NoSeparator(b)
    ensures Split(b) == [b]
  {
    if |b| > 0 {
      SplitOne(b[1..]);
      assert [b[0]] + b[1..] == b;
    }
  }

  lemma {:induction false} SplitAfterOne(b: Bytes, rest: Bytes)
    requires NoSeparator(b)
    ensures Split(b + [47] + rest) == [b] + Split(rest)
  {
    var all := b + [47] + rest;
    if |b| == 0 {
      assert all[1..] == rest;
    } else {
      SplitAfterOne(b[1..], rest);
      assert all[1..] == b[1..] + [47] + rest && all[0] == b[0];
      assert [b[0]] + b[1..] == b;
    }
  }

  /** The record's name is the components, and they can be told from it; the directory itself is `.`. */
  lemma {:induction false} JoinedIsSplit(p: Path)
    requires forall i :: 0 <= i < |p| ==> NoSeparator(p[i])
    ensures Split(JoinedName(p)) == if p == [] then [[46]] else p
    decreases |p|
  {
    if |p| == 0 {
      SplitOne([46]);
    } else if |p| == 1 {
      SplitOne(p[0]);
      assert [p[0]] == p;
    } else {
      JoinedIsSplit(p[1..]);
      SplitAfterOne(p[0], Joined(p[1..]));
      assert [p[0]] + p[1..] == p;
    }
  }

  function OfMarks(rec: Recording, p: Path, marks: seq<Mark>): seq<Note> {
    if |marks| == 0 then []
    else [Note(rec.file, Entry(marks[0], JoinedName(Relative(rec.base, p))))] + OfMarks(rec, p, marks[1..])
  }

  /** One entry for each kind, in every record of the handle. */
  function OfRecords(records: seq<Recording>, p: Path, marks: seq<Mark>): seq<Note> {
    if |records| == 0 then [] else OfMarks(records[0], p, marks) + OfRecords(records[1..], p, marks)
  }

  /** What a call adds: of its name to the records of its handle, and of a rename's new name to
      the records of the handle that is relative to. */
  function NotesOf(unlisted: Unlisted, hs: seq<Handle>, c: Call, answer: Answer): seq<Note> {
    if c.Attenuate? || c.h >= |hs| || !NameAllowed(c.name) then []
    else if c.Rename? && (c.to >= |hs| || !NameAllowed(c.newName)) then []
    else
      var (p, q) := Resolved(hs, c);
      var marks := MarksOf(unlisted, c, answer);
      OfRecords(hs[c.h].records, p, marks) + if c.Rename? then OfRecords(hs[c.to].records, q, marks) else []
  }

  lemma {:induction false} OfMarksHas(rec: Recording, p: Path, marks: seq<Mark>, n: Note)
    ensures n in OfMarks(rec, p, marks) <==>
      n.file == rec.file && n.entry.kind in marks && n.entry.name == JoinedName(Relative(rec.base, p))
  {
    if |marks| > 0 {
      OfMarksHas(rec, p, marks[1..], n);
      assert n.entry.kind in marks <==> n.entry.kind == marks[0] || n.entry.kind in marks[1..];
    }
  }

  /** The note is the name's, in one of the records, of one of the kinds. */
  ghost predicate IsNoteOf(records: seq<Recording>, p: Path, marks: seq<Mark>, n: Note) {
    exists k :: 0 <= k < |records| && n.file == records[k].file && n.entry.kind in marks
      && n.entry.name == JoinedName(Relative(records[k].base, p))
  }

  lemma {:induction false} OfRecordsHas(records: seq<Recording>, p: Path, marks: seq<Mark>, n: Note)
    ensures n in OfRecords(records, p, marks) <==> IsNoteOf(records, p, marks, n)
  {
    if |records| > 0 {
      OfMarksHas(records[0], p, marks, n);
      OfRecordsHas(records[1..], p, marks, n);
      if IsNoteOf(records, p, marks, n) {
        var k :| 0 <= k < |records| && n.file == records[k].file && n.entry.kind in marks
          && n.entry.name == JoinedName(Relative(records[k].base, p));
        assert k > 0 ==> records[1..][k - 1] == records[k];
      }
      if IsNoteOf(records[1..], p, marks, n) {
        var k :| 0 <= k < |records[1..]| && n.file == records[1..][k].file && n.entry.kind in marks
          && n.entry.name == JoinedName(Relative(records[1..][k].base, p));
        assert records[k + 1] == records[1..][k];
      }
    }
  }

  // ----- The lines of the records

  datatype Party = Host | Guest

  function Other(who: Party): Party {
    if who.Host? then Guest else Host
  }

  /** An entry as one program writes it. */
  datatype Line = Line(who: Party, note: Note)

  /** The lines of one program, in order. */
  function LinesOf(lines: seq<Line>, who: Party): seq<Line> {
    if |lines| == 0 then []
    else (if lines[0].who == who then [lines[0]] else []) + LinesOf(lines[1..], who)
  }

  /** What waits to be written, with these notes added, each once in the program. */
  function Noted(log: seq<Line>, pending: seq<Line>, who: Party, notes: seq<Note>): seq<Line>
    decreases |notes|
  {
    if |notes| == 0 then pending
    else
      var line := Line(who, notes[0]);
      Noted(log, if line in log || line in pending then pending else pending + [line], who, notes[1..])
  }

  function EntriesOf(log: seq<Line>, file: nat): seq<Entry> {
    if |log| == 0 then []
    else (if log[0].note.file == file then [log[0].note.entry] else []) + EntriesOf(log[1..], file)
  }

  /** What the record holds. */
  function RecordBytes(log: seq<Line>, file: nat): Bytes {
    EncodeAll(EntriesOf(log, file))
  }

  lemma {:induction false} LinesConcat(a: seq<Line>, b: seq<Line>, who: Party)
    ensures LinesOf(a + b, who) == LinesOf(a, who) + LinesOf(b, who)
  {
    if |a| == 0 {
      assert a + b == b;
    } else {
      assert (a + b)[0] == a[0] && (a + b)[1..] == a[1..] + b;
      LinesConcat(a[1..], b, who);
      if a[0].who == who {
        assert LinesOf(a + b, who) == [a[0]] + (LinesOf(a[1..], who) + LinesOf(b, who));
      } else {
        assert LinesOf(a, who) == LinesOf(a[1..], who);
      }
    }
  }

  lemma {:induction false} LinesIn(a: seq<Line>, who: Party, l: Line)
    ensures l in LinesOf(a, who) <==> l in a && l.who == who
  {
    if |a| > 0 {
      LinesIn(a[1..], who, l);
    }
  }

  lemma {:induction false} LinesOfLines(a: seq<Line>, who: Party)
    ensures LinesOf(LinesOf(a, who), who) == LinesOf(a, who)
    ensures LinesOf(LinesOf(a, who), Other(who)) == []
  {
    if |a| > 0 {
      LinesOfLines(a[1..], who);
      if a[0].who == who {
        assert LinesOf(a, who)[1..] == LinesOf(a[1..], who);
      } else {
        assert LinesOf(a, who) == LinesOf(a[1..], who);
      }
    }
  }

  /** Every line is of one of the two. */
  lemma {:induction false} LinesSplit(a: seq<Line>)
    ensures multiset(LinesOf(a, Host)) + multiset(LinesOf(a, Guest)) == multiset(a)
  {
    if |a| > 0 {
      LinesSplit(a[1..]);
      assert a == [a[0]] + a[1..];
    }
  }

  lemma LineAdded(lines: seq<Line>, line: Line)
    ensures LinesOf(lines + [line], line.who) == LinesOf(lines, line.who) + [line]
    ensures LinesOf(lines + [line], Other(line.who)) == LinesOf(lines, Other(line.who))
  {
    LinesConcat(lines, [line], line.who);
    LinesConcat(lines, [line], Other(line.who));
    assert [line][1..] == [];
  }

  /** A program's own lines decide what it adds, and it adds to no other's. */
  lemma {:induction false} NotedOfOwn(log: seq<Line>, pending: seq<Line>, who: Party, notes: seq<Note>)
    ensures LinesOf(Noted(log, pending, who, notes), who)
         == Noted(LinesOf(log, who), LinesOf(pending, who), who, notes)
    ensures LinesOf(Noted(log, pending, who, notes), Other(who)) == LinesOf(pending, Other(who))
    decreases |notes|
  {
    if |notes| > 0 {
      var line := Line(who, notes[0]);
      LinesIn(log, who, line);
      LinesIn(pending, who, line);
      var pending' := if line in log || line in pending then pending else pending + [line];
      LineAdded(pending, line);
      NotedOfOwn(log, pending', who, notes[1..]);
    }
  }

  /** No line twice. */
  ghost predicate EachOnce(lines: seq<Line>) {
    forall l :: multiset(lines)[l] <= 1
  }

  lemma AddedOnce(log: seq<Line>, pending: seq<Line>, line: Line)
    requires EachOnce(log + pending) && line !in log && line !in pending
    ensures EachOnce(log + (pending + [line]))
  {
    assert log + (pending + [line]) == (log + pending) + [line];
    assert line !in log + pending;
  }

  /** What waits grows by exactly the notes that are new. */
  lemma {:induction false} NotedHas(log: seq<Line>, pending: seq<Line>, who: Party, notes: seq<Note>)
    requires EachOnce(log + pending)
    ensures EachOnce(log + Noted(log, pending, who, notes))
    ensures forall l :: l in Noted(log, pending, who, notes) || l in log <==>
              l in pending || l in log || (l.who == who && l.note in notes)
    decreases |notes|
  {
    if |notes| > 0 {
      var line := Line(who, notes[0]);
      var pending' := if line in log || line in pending then pending else pending + [line];
      if pending' != pending {
        AddedOnce(log, pending, line);
      }
      NotedHas(log, pending', who, notes[1..]);
    }
  }

  // ----- One program's lines among the other's

  ghost predicate Wrote(log: seq<Line>, who: Party, file: nat) {
    exists l :: l in log && l.who == who && l.note.file == file
  }

  /** The record holds what it would without the guest exactly where the guest has written
      nothing to it. */
  lemma {:induction false} GuestLengthens(log: seq<Line>, file: nat)
    ensures |RecordBytes(LinesOf(log, Host), file)| <= |RecordBytes(log, file)|
    ensures Wrote(log, Guest, file) ==> |RecordBytes(LinesOf(log, Host), file)| < |RecordBytes(log, file)|
    ensures !Wrote(log, Guest, file) ==> RecordBytes(LinesOf(log, Host), file) == RecordBytes(log, file)
  {
    if |log| > 0 {
      var rest := log[1..];
      GuestLengthens(rest, file);
      assert Wrote(log, Guest, file) <==>
        (log[0].who.Guest? && log[0].note.file == file) || Wrote(rest, Guest, file) by {
        assert log[0] in log && forall l :: l in rest ==> l in log;
      }
      OneEntryMore(log, file);
      if log[0].who.Host? {
        assert LinesOf(log, Host)[1..] == LinesOf(rest, Host);
        OneEntryMore(LinesOf(log, Host), file);
      } else {
        assert LinesOf(log, Host) == LinesOf(rest, Host);
      }
    }
  }

  lemma OneEntryMore(log: seq<Line>, file: nat)
    requires |log| > 0
    ensures RecordBytes(log, file)
         == (if log[0].note.file == file then Encode(log[0].note.entry) else []) + RecordBytes(log[1..], file)
  {
    if log[0].note.file == file {
      assert EntriesOf(log, file)[1..] == EntriesOf(log[1..], file);
    } else {
      assert EntriesOf(log, file) == EntriesOf(log[1..], file);
    }
  }

  lemma OneLineCounts(log: seq<Line>, file: nat, e: Entry)
    requires |log| > 0
    ensures Multiplicity(EntriesOf(log, file), e)
         == (if log[0].note == Note(file, e) then 1 else 0) + Multiplicity(EntriesOf(log[1..], file), e)
  {
    if log[0].note.file == file {
      assert EntriesOf(log, file)[1..] == EntriesOf(log[1..], file);
    } else {
      assert EntriesOf(log, file) == EntriesOf(log[1..], file);
    }
  }

  lemma FirstCounts(log: seq<Line>, l: Line)
    requires |log| > 0
    ensures multiset(log)[l] == (if log[0] == l then 1 else 0) + multiset(log[1..])[l]
  {
    assert log == [log[0]] + log[1..];
  }

  /** How often an entry is in a record: once for each line of either program. */
  lemma {:induction false} LinesCount(log: seq<Line>, file: nat, e: Entry)
    ensures Multiplicity(EntriesOf(log, file), e)
         == multiset(log)[Line(Host, Note(file, e))] + multiset(log)[Line(Guest, Note(file, e))]
  {
    if |log| > 0 {
      LinesCount(log[1..], file, e);
      OneLineCounts(log, file, e);
      FirstCounts(log, Line(Host, Note(file, e)));
      FirstCounts(log, Line(Guest, Note(file, e)));
      assert log[0].who.Host? || log[0].who.Guest?;
    } else {
      assert log == [];
    }
  }

  lemma {:induction false} EntriesIn(log: seq<Line>, file: nat, e: Entry)
    requires e in EntriesOf(log, file)
    ensures exists l :: l in log && l.note == Note(file, e)
  {
    if log[0].note == Note(file, e) {
      assert log[0] in log;
    } else {
      EntriesIn(log[1..], file, e);
      var l :| l in log[1..] && l.note == Note(file, e);
      assert l in log;
    }
  }
}
