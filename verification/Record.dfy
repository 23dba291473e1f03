/** The record an attenuated handle keeps of the names reached through it, and the suite's
    scanner that counts an entry in it. */
module Record {

  /** A byte of the record; 0 ends an entry. */
  type Byte = b: int | 0 <= b < 256

  type Bytes = seq<Byte>

  predicate NulFree(s: Bytes) {
    forall i :: 0 <= i < |s| ==> s[i] != 0
  }

  /** An entry is a kind that is not NUL and a name without NUL. */
  datatype Entry = Entry(kind: Byte, name: Bytes)

  predicate EntryValid(e: Entry) {
    e.kind != 0 && NulFree(e.name)
  }

  function Encode(e: Entry): Bytes {
    [e.kind] + e.name + [0]
  }

  function EncodeAll(es: seq<Entry>): Bytes {
    if |es| == 0 then [] else Encode(es[0]) + EncodeAll(es[1..])
  }

  function Multiplicity(es: seq<Entry>, e: Entry): nat {
    if |es| == 0 then 0 else (if es[0] == e then 1 else 0) + Multiplicity(es[1..], e)
  }

  /** The first NUL at or after `at`, or the end. */
  function EndOf(rec: Bytes, at: nat): (end: nat)
    requires at <= |rec|
    ensures at <= end <= |rec|
    ensures end < |rec| ==> rec[end] == 0
    decreases |rec| - at
  {
    if at == |rec| || rec[at] == 0 then at else EndOf(rec, at + 1)
  }

  /** The pieces the record falls into at its NULs, from position `at` on; what follows the last
      NUL is a piece where it is not empty. */
  function PiecesFrom(rec: Bytes, at: nat): seq<Bytes>
    decreases |rec| - at
  {
    if at >= |rec| then []
    else
      var end := EndOf(rec, at);
      [rec[at..end]] + PiecesFrom(rec, end + 1)
  }

  function Pieces(rec: Bytes): seq<Bytes> {
    PiecesFrom(rec, 0)
  }

  function Occurrences(pieces: seq<Bytes>, p: Bytes): nat {
    if |pieces| == 0 then 0 else (if pieces[0] == p then 1 else 0) + Occurrences(pieces[1..], p)
  }

  /** The scanner's search for the end of an entry. */
  method FindEnd(rec: Bytes, at: nat) returns (end: nat)
    requires at <= |rec|
    ensures end == EndOf(rec, at)
  {
    end := at;
    while end < |rec| && rec[end] != 0
      invariant at <= end <= |rec|
      invariant EndOf(rec, end) == EndOf(rec, at)
    {
      end := end + 1;
    }
  }

  /** The scanner's test of what lies between two positions: its length, its kind, and then
      its name, byte by byte. */
  method IsEntry(rec: Bytes, at: nat, end: nat, kind: Byte, name: Bytes) returns (same: bool)
    requires at < |rec| && at <= end <= |rec|
    ensures same <==> rec[at..end] == [kind] + name
  {
    ghost var piece := rec[at..end];
    if end - at != |name| + 1 || rec[at] != kind {
      assert |piece| == end - at && (|piece| > 0 ==> piece[0] == rec[at]);
      return false;
    }
    same := true;
    var i := 0;
    while i < |name| && same
      invariant 0 <= i <= |name|
      invariant same ==> forall j :: 0 <= j < i ==> piece[1 + j] == name[j]
      invariant !same ==> piece != [kind] + name
    {
      same := rec[at + 1 + i] == name[i];
      assert piece[1 + i] == rec[at + 1 + i] && ([kind] + name)[1 + i] == name[i];
      i := i + 1;
    }
  }

  /** How many pieces from `at` on are the one looked for, as a scan from `at` meets them. */
  function Hits(rec: Bytes, at: nat, piece: Bytes): nat
    decreases |rec| - at
  {
    if at >= |rec| then 0
    else
      var end := EndOf(rec, at);
      (if rec[at..end] == piece then 1 else 0) + Hits(rec, end + 1, piece)
  }

  /** The scanner, over any bytes at all: how many pieces are the kind followed by the name. */
  method CountEntry(rec: Bytes, kind: Byte, name: Bytes) returns (seen: nat)
    ensures seen == Occurrences(Pieces(rec), [kind] + name)
  {
    ghost var piece := [kind] + name;
    seen := 0;
    var at := 0;
    while at < |rec|
      invariant 0 <= at <= |rec| + 1
      invariant seen + Hits(rec, at, piece) == Hits(rec, 0, piece)
    {
      var end := FindEnd(rec, at);
      var same := IsEntry(rec, at, end, kind, name);
      if same {
        seen := seen + 1;
      }
      at := end + 1;
    }
    HitsArePieces(rec, 0, piece);
  }

  lemma OccurrencesAhead(first: Bytes, rest: seq<Bytes>, p: Bytes)
    ensures Occurrences([first] + rest, p) == Occurrences(rest, p) + if first == p then 1 else 0
  {
    assert ([first] + rest)[1..] == rest;
  }

  lemma {:induction false} HitsArePieces(rec: Bytes, at: nat, piece: Bytes)
    ensures Hits(rec, at, piece) == Occurrences(PiecesFrom(rec, at), piece)
    decreases |rec| - at
  {
    if at < |rec| {
      var end := EndOf(rec, at);
      HitsArePieces(rec, end + 1, piece);
      OccurrencesAhead(rec[at..end], PiecesFrom(rec, end + 1), piece);
    }
  }

  lemma {:induction false} EndAfterPrefix(a: Bytes, b: Bytes, k: nat)
    requires k <= |b|
    ensures EndOf(a + b, |a| + k) == |a| + EndOf(b, k)
    decreases |b| - k
  {
    if k < |b| {
      assert (a + b)[|a| + k] == b[k];
      if b[k] != 0 {
        EndAfterPrefix(a, b, k + 1);
      }
    }
  }

  lemma SliceAfterPrefix(a: Bytes, b: Bytes, k: nat, end: nat)
    requires k <= end <= |b|
    ensures (a + b)[|a| + k..|a| + end] == b[k..end]
  {}

  /** What comes before does not change what is found from there on. */
  lemma {:induction false} HitsAfterPrefix(a: Bytes, b: Bytes, k: nat, piece: Bytes)
    ensures Hits(a + b, |a| + k, piece) == Hits(b, k, piece)
    decreases |b| - k
  {
    if k < |b| {
      var end := EndOf(b, k);
      EndAfterPrefix(a, b, k);
      HitsAfterPrefix(a, b, end + 1, piece);
      SliceAfterPrefix(a, b, k, end);
    }
  }

  // ----- What the count means

  lemma {:induction false} EndAfter(rec: Bytes, at: nat, end: nat)
    requires at <= end < |rec| && rec[end] == 0
    requires forall i :: at <= i < end ==> rec[i] != 0
    ensures EndOf(rec, at) == end
    decreases end - at
  {
    if at < end {
      EndAfter(rec, at + 1, end);
    }
  }

  /** A whole entry in front of a record is its first piece. */
  lemma HitsOfEntry(e: Entry, rest: Bytes, piece: Bytes)
    requires EntryValid(e)
    ensures Hits(Encode(e) + rest, 0, piece) == Hits(rest, 0, piece) + if [e.kind] + e.name == piece then 1 else 0
  {
    var rec, end := Encode(e) + rest, |e.name| + 1;
    EndAfter(rec, 0, end);
    assert rec[0..end] == [e.kind] + e.name;
    HitsAfterPrefix(Encode(e), rest, 0, piece);
  }

  lemma {:induction false} CountAhead(es: seq<Entry>, rest: Bytes, e: Entry)
    requires forall i :: 0 <= i < |es| ==> EntryValid(es[i])
    ensures Hits(EncodeAll(es) + rest, 0, [e.kind] + e.name)
         == Multiplicity(es, e) + Hits(rest, 0, [e.kind] + e.name)
  {
    if |es| == 0 {
      assert EncodeAll(es) + rest == rest;
    } else {
      var more := EncodeAll(es[1..]) + rest;
      HitsOfEntry(es[0], more, [e.kind] + e.name);
      Associates(Encode(es[0]), EncodeAll(es[1..]), rest);
      CountAhead(es[1..], rest, e);
      SamePiece(es[0], e);
    }
  }

  lemma SamePiece(d: Entry, e: Entry)
    ensures [d.kind] + d.name == [e.kind] + e.name <==> d == e
  {
    if [d.kind] + d.name == [e.kind] + e.name {
      assert d.name == ([d.kind] + d.name)[1..] == ([e.kind] + e.name)[1..] == e.name;
      assert d.kind == ([d.kind] + d.name)[0];
    }
  }

  /** On the encoding of any entries the count is the entry's multiplicity. */
  lemma CountIsMultiplicity(es: seq<Entry>, e: Entry)
    requires forall i :: 0 <= i < |es| ==> EntryValid(es[i])
    ensures Occurrences(Pieces(EncodeAll(es)), [e.kind] + e.name) == Multiplicity(es, e)
  {
    CountAhead(es, [], e);
    assert EncodeAll(es) + [] == EncodeAll(es);
    HitsArePieces(EncodeAll(es), 0, [e.kind] + e.name);
  }

  lemma Associates(a: Bytes, b: Bytes, c: Bytes)
    ensures (a + b) + c == a + (b + c)
  {}

  lemma {:induction false} EncodeConcat(es: seq<Entry>, fs: seq<Entry>)
    ensures EncodeAll(es + fs) == EncodeAll(es) + EncodeAll(fs)
  {
    if |es| == 0 {
      assert es + fs == fs;
    } else {
      EncodeConcat(es[1..], fs);
      assert (es + fs)[1..] == es[1..] + fs && (es + fs)[0] == es[0];
      Associates(Encode(es[0]), EncodeAll(es[1..]), EncodeAll(fs));
    }
  }

  /** The batches of several programs, each of whole entries, in whatever order they were
      written: the count of the record is the sum of the counts of the batches. */
  function CountOfBatches(batches: seq<seq<Entry>>, e: Entry): nat {
    if |batches| == 0 then 0
    else Occurrences(Pieces(EncodeAll(batches[0])), [e.kind] + e.name) + CountOfBatches(batches[1..], e)
  }

  function Appended(batches: seq<seq<Entry>>): Bytes {
    if |batches| == 0 then [] else EncodeAll(batches[0]) + Appended(batches[1..])
  }

  lemma {:induction false} CountIsAdditive(batches: seq<seq<Entry>>, e: Entry)
    requires forall b, i :: 0 <= b < |batches| && 0 <= i < |batches[b]| ==> EntryValid(batches[b][i])
    ensures Occurrences(Pieces(Appended(batches)), [e.kind] + e.name) == CountOfBatches(batches, e)
  {
    if |batches| > 0 {
      CountIsAdditive(batches[1..], e);
      CountAhead(batches[0], Appended(batches[1..]), e);
      CountIsMultiplicity(batches[0], e);
      HitsArePieces(Appended(batches[1..]), 0, [e.kind] + e.name);
      HitsArePieces(Appended(batches), 0, [e.kind] + e.name);
    }
  }

  // ----- Where the count is more than the terminated entries

  /** Occurrences of the entry with its NUL, from position `at` on, where an entry may begin. */
  function Terminated(rec: Bytes, at: nat, e: Entry): nat
    decreases |rec| - at
  {
    if at >= |rec| then 0
    else
      var end := EndOf(rec, at);
      if end == |rec| then 0
      else (if rec[at..end + 1] == Encode(e) then 1 else 0) + Terminated(rec, end + 1, e)
  }

  /** What follows the last NUL. */
  function Tail(rec: Bytes, at: nat): Bytes
    decreases |rec| - at
  {
    if at >= |rec| then []
    else
      var end := EndOf(rec, at);
      if end == |rec| then rec[at..] else Tail(rec, end + 1)
  }

  lemma WholeEntry(rec: Bytes, at: nat, end: nat, e: Entry)
    requires at <= end < |rec| && rec[end] == 0
    ensures rec[at..end + 1] == Encode(e) <==> rec[at..end] == [e.kind] + e.name
  {
    assert rec[at..end + 1] == rec[at..end] + [0];
    if rec[at..end + 1] == Encode(e) {
      assert rec[at..end] == Encode(e)[..|e.name| + 1] == [e.kind] + e.name;
    }
  }

  lemma {:induction false} TruncatedHits(rec: Bytes, at: nat, e: Entry)
    ensures Hits(rec, at, [e.kind] + e.name)
         == Terminated(rec, at, e) + (if Tail(rec, at) == [e.kind] + e.name then 1 else 0)
    decreases |rec| - at
  {
    if at < |rec| {
      var end := EndOf(rec, at);
      if end < |rec| {
        TruncatedHits(rec, end + 1, e);
        WholeEntry(rec, at, end, e);
      } else {
        assert rec[at..end] == rec[at..];
      }
    }
  }

  /** The scanner counts the terminated entries, and one more exactly when the record breaks
      off in the middle of an entry right where its NUL should be. */
  lemma CountsATruncatedEntry(rec: Bytes, e: Entry)
    ensures Occurrences(Pieces(rec), [e.kind] + e.name)
         == Terminated(rec, 0, e) + (if Tail(rec, 0) == [e.kind] + e.name then 1 else 0)
  {
    TruncatedHits(rec, 0, e);
    HitsArePieces(rec, 0, [e.kind] + e.name);
  }

  /** A record cut short by its last NUL is counted as if it had it. */
  lemma TruncatedRecordIsCounted()
    ensures Occurrences(Pieces([114, 97]), [114, 97]) == 1 && Terminated([114, 97], 0, Entry(114, [97])) == 0
  {
    var rec: Bytes := [114, 97];
    assert EndOf(rec, 2) == 2 && EndOf(rec, 1) == 2 && EndOf(rec, 0) == 2;
    assert rec[0..2] == rec;
    assert Pieces(rec) == [rec] + [];
    OccurrencesAhead(rec, [], rec);
  }

  // ----- One program that records

  /** Appends each distinct kind and name once. */
  class Recorder {
    var record: Bytes
    var reached: set<Entry>
    /** The entries appended, in order. */
    ghost var entries: seq<Entry>

    ghost predicate Valid()
      reads this
    {
      && record == EncodeAll(entries)
      && (forall i :: 0 <= i < |entries| ==> EntryValid(entries[i]))
      && (forall e :: Multiplicity(entries, e) == if e in reached then 1 else 0)
    }

    constructor ()
      ensures Valid() && reached == {} && record == []
    {
      record, reached, entries := [], {}, [];
    }

    method Reach(e: Entry)
      requires Valid() && EntryValid(e)
      modifies this
      ensures Valid() && reached == old(reached) + {e}
      ensures record == old(record) + if e in old(reached) then [] else Encode(e)
    {
      if e !in reached {
        EncodeConcat(entries, [e]);
        assert EncodeAll([e]) == Encode(e) + EncodeAll([]);
        forall d ensures Multiplicity(entries + [e], d) == Multiplicity(entries, d) + if d == e then 1 else 0 {
          MultiplicityConcat(entries, [e], d);
        }
        record := record + Encode(e);
        reached := reached + {e};
        entries := entries + [e];
      }
    }

    /** The suite's observation: an entry is counted once if it was reached and not otherwise. */
    method Observe(e: Entry) returns (seen: nat)
      requires Valid()
      ensures seen == if e in reached then 1 else 0
    {
      seen := CountEntry(record, e.kind, e.name);
      CountIsMultiplicity(entries, e);
    }
  }

  lemma {:induction false} MultiplicityConcat(es: seq<Entry>, fs: seq<Entry>, e: Entry)
    ensures Multiplicity(es + fs, e) == Multiplicity(es, e) + Multiplicity(fs, e)
  {
    if |es| == 0 {
      assert es + fs == fs;
    } else {
      MultiplicityConcat(es[1..], fs, e);
      assert (es + fs)[1..] == es[1..] + fs;
    }
  }
}
