/** The kit's channel between two contexts: one ring of bytes, one context that writes and one
    that reads, either of which may close; one step per access to a shared word or byte, in any
    interleaving. */
module Channel {

  type Byte = b: int | 0 <= b < 256

  const CAPACITY: nat := 4096
  const WRAP: nat := 0x1_0000_0000

  /** What the words that are waited upon hold. */
  type Index = n: int | 0 <= n < 0x1_0000_0000

  /** Where the writer stands; each value but the first names the access it makes next.
        Idle       between calls
        Test       load of `closed`
        Head       load of `head`
        Tail       load of `tail`, and the choice it decides
        Wait       kal_task_wait on the `tail` loaded
        Asleep     suspended on `tail`
        Copy       store of one byte
        Publish    store of `head`
        Wake       kal_task_wake on `head`
        Shut       store of 1 to `closed`
        WakeHead   kal_task_wake on `head`, in close
        WakeTail   kal_task_wake on `tail`, in close
      `data` is the caller's buffer and `done` how much of it has been written. */
  datatype Writer =
    | Idle(wrote: nat)
    | Test(data: seq<Byte>, done: nat)
    | Head(data: seq<Byte>, done: nat)
    | Tail(data: seq<Byte>, done: nat, head: Index)
    | Wait(data: seq<Byte>, done: nat, tail: Index)
    | Asleep(data: seq<Byte>, done: nat)
    | Copy(data: seq<Byte>, done: nat, head: Index, n: nat, i: nat)
    | Publish(data: seq<Byte>, done: nat, head: Index, n: nat)
    | Wake(data: seq<Byte>, done: nat)
    | Shut | WakeHead | WakeTail

  /** And the reader.
        RIdle      between calls; `got` is what the last call returned
        RHead      load of `head`
        RTail      load of `tail`, and the choice it decides
        RTest      load of `closed`, where nothing was held
        RWait      kal_task_wait on the `head` loaded
        RAsleep    suspended on `head`
        RCopy      load of one byte
        Consume    store of `tail`
        RWake      kal_task_wake on `tail`
      `len` is the room in the caller's buffer, and `buf` what has been put there. */
  datatype Reader =
    | RIdle(got: nat)
    | RHead(len: nat)
    | RTail(len: nat, head: Index)
    | RTest(len: nat, head: Index)
    | RWait(len: nat, head: Index)
    | RAsleep(len: nat)
    | RCopy(len: nat, head: Index, tail: Index, n: nat, buf: seq<Byte>)
    | Consume(len: nat, head: Index, tail: Index, buf: seq<Byte>)
    | RWake(len: nat, head: Index, buf: seq<Byte>)
    | RShut | RWakeHead | RWakeTail

  /** The shared words and bytes, the two contexts, and all that has been published and consumed. */
  datatype State = State(head: Index, tail: Index, closed: bool, bytes: seq<Byte>,
                         writer: Writer, reader: Reader, sent: seq<Byte>, taken: seq<Byte>)

  /** A call begins, a context makes its next access, or a suspended context returns although
      nobody woke it. `takes` is whether a wake takes the sleeper, where there is one. */
  datatype Step =
    | Write(data: seq<Byte>)
    | Read(len: nat)
    | WriterCloses
    | ReaderCloses
    | WriterStep(takes: bool)
    | ReaderStep(takes: bool)
    | WriterSpurious
    | ReaderSpurious

  function Zeros(n: nat): (z: seq<Byte>)
    ensures |z| == n
  {
    seq(n, _ => 0)
  }

  function Init(): State {
    State(0, 0, false, Zeros(CAPACITY), Idle(0), RIdle(0), [], [])
  }

  predicate Enabled(s: State, step: Step) {
    match step
    case Write(_) => s.writer.Idle?
    case WriterCloses => s.writer.Idle?
    case Read(_) => s.reader.RIdle?
    case ReaderCloses => s.reader.RIdle?
    case WriterStep(_) => !s.writer.Idle? && !s.writer.Asleep?
    case ReaderStep(_) => !s.reader.RIdle? && !s.reader.RAsleep?
    case WriterSpurious => s.writer.Asleep?
    case ReaderSpurious => s.reader.RAsleep?
  }

  /** The place of the `k`th byte in the ring. */
  function Slot(k: nat): (i: nat)
    ensures i < CAPACITY
  {
    if k < CAPACITY then k else Slot(k - CAPACITY)
  }

  /** An index as the words hold it. */
  function Word(k: nat): Index {
    if k < WRAP then k else Word(k - WRAP)
  }

  /** How far `head` is ahead of `tail`, in thirty-two bits. */
  function Used(head: Index, tail: Index): Index {
    if head >= tail then head - tail else head + WRAP - tail
  }

  /** The writer goes on, or returns what it wrote. */
  function Onward(data: seq<Byte>, done: nat): Writer {
    if done < |data| then Test(data, done) else Idle(done)
  }

  function WokenReader(r: Reader, takes: bool): Reader {
    if r.RAsleep? && takes then RHead(r.len) else r
  }

  function WokenWriter(w: Writer, takes: bool): Writer {
    if w.Asleep? && takes then Onward(w.data, w.done) else w
  }

  function Min(a: nat, b: nat): nat {
    if a < b then a else b
  }

  predicate Shaped(s: State) {
    |s.bytes| == CAPACITY
  }

  function WriterNext(s: State, takes: bool): State
    requires Shaped(s) && !s.writer.Idle? && !s.writer.Asleep?
  {
    match s.writer
    case Test(data, done) => s.(writer := if s.closed then Idle(done) else Head(data, done))
    case Head(data, done) => s.(writer := Tail(data, done, s.head))
    case Tail(data, done, head) =>
      var used := Used(head, s.tail);
      if used == CAPACITY then s.(writer := Wait(data, done, s.tail))
      else
        var n := if done <= |data| && used <= CAPACITY then Min(|data| - done, CAPACITY - used) else 0;
        s.(writer := Copy(data, done, head, n, 0))
    case Wait(data, done, tail) =>
      s.(writer := if s.tail == tail then Asleep(data, done) else Onward(data, done))
    case Copy(data, done, head, n, i) =>
      if i < n && done + i < |data| then
        s.(bytes := s.bytes[Slot(head + i) := data[done + i]], writer := Copy(data, done, head, n, i + 1))
      else s.(writer := Publish(data, done, head, n))
    case Publish(data, done, head, n) =>
      s.(head := Word(head + n), writer := Wake(data, done + n),
         sent := s.sent + if done + n <= |data| then data[done..done + n] else [])
    case Wake(data, done) => s.(writer := Onward(data, done), reader := WokenReader(s.reader, takes))
    case Shut => s.(closed := true, writer := WakeHead)
    case WakeHead => s.(writer := WakeTail, reader := WokenReader(s.reader, takes))
    case WakeTail => s.(writer := Idle(0))
  }

  function ReaderNext(s: State, takes: bool): State
    requires Shaped(s) && !s.reader.RIdle? && !s.reader.RAsleep?
  {
    match s.reader
    case RHead(len) => s.(reader := RTail(len, s.head))
    case RTail(len, head) =>
      var used := Used(head, s.tail);
      s.(reader := if used == 0 then RTest(len, head) else RCopy(len, head, s.tail, Min(used, len), []))
    case RTest(len, head) => s.(reader := if s.closed then RIdle(0) else RWait(len, head))
    case RWait(len, head) => s.(reader := if s.head == head then RAsleep(len) else RHead(len))
    case RCopy(len, head, tail, n, buf) =>
      if |buf| < n then s.(reader := RCopy(len, head, tail, n, buf + [s.bytes[Slot(tail + |buf|)]]))
      else s.(reader := Consume(len, head, tail, buf))
    case Consume(len, head, tail, buf) =>
      s.(tail := Word(tail + |buf|), reader := RWake(len, head, buf), taken := s.taken + buf)
    case RWake(_, _, buf) => s.(reader := RIdle(|buf|), writer := WokenWriter(s.writer, takes))
    case RShut => s.(closed := true, reader := RWakeHead)
    case RWakeHead => s.(reader := RWakeTail)
    case RWakeTail => s.(reader := RIdle(0), writer := WokenWriter(s.writer, takes))
  }

  function Next(s: State, step: Step): State
    requires Shaped(s) && Enabled(s, step)
  {
    match step
    case Write(data) => s.(writer := Onward(data, 0))
    case Read(len) => s.(reader := if len == 0 then RIdle(0) else RHead(len))
    case WriterCloses => s.(writer := Shut)
    case ReaderCloses => s.(reader := RShut)
    case WriterStep(takes) => WriterNext(s, takes)
    case ReaderStep(takes) => ReaderNext(s, takes)
    case WriterSpurious => s.(writer := Onward(s.writer.data, s.writer.done))
    case ReaderSpurious => s.(reader := RHead(s.reader.len))
  }

  // ----- The words, in thirty-two bits

  /** The mask of a power of two, and the width of a word, are remainders. */
  lemma {:induction false} SlotIsRemainder(k: nat)
    ensures Slot(k) == k % CAPACITY
  {
    if k >= CAPACITY {
      SlotIsRemainder(k - CAPACITY);
    }
  }

  lemma {:induction false} WordIsRemainder(k: nat)
    ensures Word(k) == k % WRAP
  {
    if k >= WRAP {
      WordIsRemainder(k - WRAP);
    }
  }

  lemma {:induction false} WordAhead(a: nat, b: nat)
    requires b <= a < b + WRAP
    ensures Used(Word(a), Word(b)) == a - b
  {
    if b >= WRAP {
      WordAhead(a - WRAP, b - WRAP);
    }
  }

  lemma {:induction false} WordOnward(a: nat, n: nat)
    ensures Word(Word(a) + n) == Word(a + n)
  {
    if a >= WRAP {
      WordOnward(a - WRAP, n);
    }
  }

  lemma {:induction false} SlotBack(k: nat, times: nat)
    ensures Slot(k + CAPACITY * times) == Slot(k)
  {
    if times > 0 {
      SlotBack(k, times - 1);
    }
  }

  /** The wrap of the words is one of the ring as well. */
  lemma {:induction false} SlotOfWord(a: nat, i: nat)
    ensures Slot(Word(a) + i) == Slot(a + i)
  {
    if a >= WRAP {
      SlotOfWord(a - WRAP, i);
      SlotBack(a - WRAP + i, 1048576);
    }
  }

  lemma {:induction false} SlotsDiffer(a: nat, b: nat)
    requires a < b < a + CAPACITY
    ensures Slot(a) != Slot(b)
  {
    if a >= CAPACITY {
      SlotsDiffer(a - CAPACITY, b - CAPACITY);
    }
  }

  // ----- What the ring holds

  /** From the `lo`th byte on, the ring holds these. */
  ghost predicate Holds(bytes: seq<Byte>, lo: nat, what: seq<Byte>) {
    |bytes| == CAPACITY && forall i: nat :: i < |what| ==> HoldsAt(bytes, lo + i, what[i])
  }

  predicate HoldsAt(bytes: seq<Byte>, k: nat, b: Byte)
    requires |bytes| == CAPACITY
  {
    bytes[Slot(k)] == b
  }

  /** A byte put after those held, where there is room, joins them. */
  lemma PutAfter(bytes: seq<Byte>, lo: nat, what: seq<Byte>, b: Byte)
    requires Holds(bytes, lo, what) && |what| < CAPACITY
    ensures Holds(bytes[Slot(lo + |what|) := b], lo, what + [b])
  {
    var bytes' := bytes[Slot(lo + |what|) := b];
    forall i: nat | i < |what| + 1 ensures HoldsAt(bytes', lo + i, (what + [b])[i]) {
      if i < |what| {
        assert HoldsAt(bytes, lo + i, what[i]);
        SlotsDiffer(lo + i, lo + |what|);
      }
    }
  }

  /** A byte put further on, where there is room, disturbs nothing. */
  lemma PutBeyond(bytes: seq<Byte>, lo: nat, what: seq<Byte>, at: nat, b: Byte)
    requires Holds(bytes, lo, what) && lo + |what| <= at < lo + CAPACITY
    ensures Holds(bytes[Slot(at) := b], lo, what)
  {
    forall i: nat | i < |what| ensures HoldsAt(bytes[Slot(at) := b], lo + i, what[i]) {
      assert HoldsAt(bytes, lo + i, what[i]);
      SlotsDiffer(lo + i, at);
    }
  }

  lemma HoldsBoth(bytes: seq<Byte>, lo: nat, a: seq<Byte>, b: seq<Byte>)
    requires Holds(bytes, lo, a) && Holds(bytes, lo + |a|, b)
    ensures Holds(bytes, lo, a + b)
  {
    forall i: nat | i < |a| + |b| ensures HoldsAt(bytes, lo + i, (a + b)[i]) {
      if i < |a| {
        assert HoldsAt(bytes, lo + i, a[i]);
      } else {
        assert HoldsAt(bytes, lo + |a| + (i - |a|), b[i - |a|]);
      }
    }
  }

  lemma HoldsRest(bytes: seq<Byte>, lo: nat, a: seq<Byte>, b: seq<Byte>)
    requires Holds(bytes, lo, a + b)
    ensures Holds(bytes, lo + |a|, b)
  {
    forall i: nat | i < |b| ensures HoldsAt(bytes, lo + |a| + i, b[i]) {
      assert HoldsAt(bytes, lo + (|a| + i), (a + b)[|a| + i]);
    }
  }

  // ----- What every step keeps

  /** What has been published is what has been consumed and what is held. */
  ghost predicate RingOk(s: State, held: seq<Byte>) {
    && s.sent == s.taken + held && |held| <= CAPACITY
    && s.head == Word(|s.sent|) && s.tail == Word(|s.taken|)
    && Holds(s.bytes, |s.taken|, held)
  }

  /** There is room for `n` bytes, and the first `i` of them are in their places. */
  ghost predicate Placed(s: State, held: seq<Byte>, data: seq<Byte>, done: nat, head: Index, n: nat, i: nat) {
    && head == s.head && 0 < n && done + n <= |data| && |held| + n <= CAPACITY && i <= n
    && Holds(s.bytes, |s.sent|, data[done..done + i])
  }

  ghost predicate WriterOk(s: State, held: seq<Byte>) {
    match s.writer
    case Test(data, done) => done < |data|
    case Head(data, done) => done < |data|
    case Tail(data, done, head) => done < |data| && head == s.head
    case Wait(data, done, tail) => done < |data| && Used(s.head, tail) == CAPACITY
    case Asleep(data, done) => done < |data|
    case Copy(data, done, head, n, i) => Placed(s, held, data, done, head, n, i)
    case Publish(data, done, head, n) => Placed(s, held, data, done, head, n, n)
    case Wake(data, done) => done <= |data|
    case _ => true
  }

  /** The next bytes to consume have been read into the buffer. */
  ghost predicate Copied(s: State, held: seq<Byte>, tail: Index, n: nat, buf: seq<Byte>) {
    tail == s.tail && 0 < n <= |held| && |buf| <= n && buf == held[..|buf|]
  }

  ghost predicate ReaderOk(s: State, held: seq<Byte>) {
    match s.reader
    case RTail(len, head) => len > 0 && Used(head, s.tail) <= |held|
    case RTest(len, head) => len > 0 && head == s.tail
    case RWait(len, head) => len > 0 && head == s.tail
    case RHead(len) => len > 0
    case RAsleep(len) => len > 0
    case RCopy(_, _, tail, n, buf) => Copied(s, held, tail, n, buf)
    case Consume(_, _, tail, buf) => Copied(s, held, tail, |buf|, buf)
    case _ => true
  }

  ghost predicate Inv(s: State, held: seq<Byte>) {
    RingOk(s, held) && WriterOk(s, held) && ReaderOk(s, held)
  }

  lemma InitInv()
    ensures Inv(Init(), [])
  {}

  /** What is held after a step. */
  ghost function HeldAfter(s: State, held: seq<Byte>, step: Step): seq<Byte> {
    if step.WriterStep? && s.writer.Publish? && s.writer.done + s.writer.n <= |s.writer.data| then
      held + s.writer.data[s.writer.done..s.writer.done + s.writer.n]
    else if step.ReaderStep? && s.reader.Consume? && |s.reader.buf| <= |held| then held[|s.reader.buf|..]
    else held
  }

  lemma UsedNow(s: State, held: seq<Byte>)
    requires RingOk(s, held)
    ensures Used(s.head, s.tail) == |held|
  {
    WordAhead(|s.sent|, |s.taken|);
  }

  /** The words, the bytes and what was published and consumed are the same. */
  ghost predicate SameRing(s: State, s': State) {
    && s'.head == s.head && s'.tail == s.tail && s'.bytes == s.bytes
    && s'.sent == s.sent && s'.taken == s.taken
  }

  lemma RingStays(s: State, s': State, held: seq<Byte>)
    requires Inv(s, held) && SameRing(s, s')
    ensures RingOk(s', held)
    ensures s'.writer == s.writer ==> WriterOk(s', held)
    ensures s'.reader == s.reader ==> ReaderOk(s', held)
  {}

  /** A byte copied in goes where nothing is held. */
  lemma BytesCopiedIn(bytes: seq<Byte>, taken: nat, held: seq<Byte>, data: seq<Byte>, done: nat, i: nat)
    requires Holds(bytes, taken, held) && done + i < |data| && |held| + i < CAPACITY
    requires Holds(bytes, taken + |held|, data[done..done + i])
    ensures var bytes' := bytes[Slot(Word(taken + |held|) + i) := data[done + i]];
      Holds(bytes', taken, held) && Holds(bytes', taken + |held|, data[done..done + (i + 1)])
  {
    var lo, b := taken + |held|, data[done + i];
    SlotOfWord(lo, i);
    PutBeyond(bytes, taken, held, lo + i, b);
    PutAfter(bytes, lo, data[done..done + i], b);
    assert data[done..done + i] + [b] == data[done..done + (i + 1)];
  }

  lemma CopyStep(s: State, takes: bool)
    requires Shaped(s) && s.writer.Copy? && s.writer.i < s.writer.n && s.writer.done + s.writer.i < |s.writer.data|
    ensures var w := s.writer;
      WriterNext(s, takes)
      == s.(bytes := s.bytes[Slot(w.head + w.i) := w.data[w.done + w.i]], writer := w.(i := w.i + 1))
  {}

  lemma CopyIn(s: State, held: seq<Byte>, takes: bool)
    requires Inv(s, held) && s.writer.Copy?
    ensures Inv(WriterNext(s, takes), held)
  {
    var w := s.writer;
    if w.i < w.n {
      BytesCopiedIn(s.bytes, |s.taken|, held, w.data, w.done, w.i);
      CopyStep(s, takes);
      BytesReplaced(s, held, s.bytes[Slot(w.head + w.i) := w.data[w.done + w.i]], w.(i := w.i + 1));
    } else {
      CopyDone(s, held, takes);
    }
  }

  lemma CopyDone(s: State, held: seq<Byte>, takes: bool)
    requires Inv(s, held) && s.writer.Copy? && s.writer.i == s.writer.n
    ensures Inv(WriterNext(s, takes), held)
  {
    RingStays(s, WriterNext(s, takes), held);
  }

  lemma BytesReplaced(s: State, held: seq<Byte>, bytes: seq<Byte>, w: Writer)
    requires Inv(s, held) && s.writer.Copy? && s.writer.i < s.writer.n && w == s.writer.(i := s.writer.i + 1)
    requires Holds(bytes, |s.taken|, held)
    requires Holds(bytes, |s.sent|, w.data[w.done..w.done + w.i])
    ensures Inv(s.(bytes := bytes, writer := w), held)
  {}

  lemma Published(s: State, held: seq<Byte>, takes: bool)
    requires Inv(s, held) && s.writer.Publish?
    ensures Inv(WriterNext(s, takes), HeldAfter(s, held, WriterStep(takes)))
  {
    var w := s.writer;
    var more := w.data[w.done..w.done + w.n];
    HoldsBoth(s.bytes, |s.taken|, held, more);
    WordOnward(|s.sent|, w.n);
    MorePublished(s, held, more, WriterNext(s, takes));
  }

  lemma MorePublished(s: State, held: seq<Byte>, more: seq<Byte>, s': State)
    requires Inv(s, held) && |held| + |more| <= CAPACITY && Holds(s.bytes, |s.taken|, held + more)
    requires s' == s.(head := Word(|s.sent + more|), writer := s'.writer, sent := s.sent + more)
    requires s'.writer.Wake? && s'.writer.done <= |s'.writer.data|
    ensures Inv(s', held + more)
  {
    Regrouped(s.taken, held, more);
    if s.reader.RCopy? || s.reader.Consume? {
      assert held[..|s.reader.buf|] == (held + more)[..|s.reader.buf|];
    }
  }

  lemma TailLoaded(s: State, held: seq<Byte>, takes: bool)
    requires Inv(s, held) && s.writer.Tail?
    ensures Inv(WriterNext(s, takes), held)
  {
    UsedNow(s, held);
  }

  lemma CopyOut(s: State, held: seq<Byte>, takes: bool)
    requires Inv(s, held) && s.reader.RCopy?
    ensures Inv(ReaderNext(s, takes), held)
  {
    var buf := s.reader.buf;
    if |buf| < s.reader.n {
      SlotOfWord(|s.taken|, |buf|);
      assert HoldsAt(s.bytes, |s.taken| + |buf|, held[|buf|]);
      assert held[..|buf| + 1] == held[..|buf|] + [held[|buf|]];
    }
  }

  lemma Consumed(s: State, held: seq<Byte>, takes: bool)
    requires Inv(s, held) && s.reader.Consume?
    ensures Inv(ReaderNext(s, takes), HeldAfter(s, held, ReaderStep(takes)))
  {
    var buf := s.reader.buf;
    var rest := held[|buf|..];
    assert held == buf + rest;
    HoldsRest(s.bytes, |s.taken|, buf, rest);
    WordOnward(|s.taken|, |buf|);
    SomeTaken(s, buf, rest, ReaderNext(s, takes));
  }

  lemma SomeTaken(s: State, buf: seq<Byte>, rest: seq<Byte>, s': State)
    requires Inv(s, buf + rest) && s.reader.Consume? && Holds(s.bytes, |s.taken + buf|, rest)
    requires s' == s.(tail := Word(|s.taken + buf|), reader := RWake(s.reader.len, s.reader.head, buf),
                      taken := s.taken + buf)
    ensures Inv(s', rest)
  {
    Regrouped(s.taken, buf, rest);
  }

  lemma Regrouped(a: seq<Byte>, b: seq<Byte>, c: seq<Byte>)
    ensures a + (b + c) == (a + b) + c
  {}

  lemma WriterElsewhere(s: State, held: seq<Byte>, takes: bool)
    requires Inv(s, held) && Enabled(s, WriterStep(takes))
    requires !s.writer.Copy? && !s.writer.Publish? && !s.writer.Tail?
    ensures Inv(WriterNext(s, takes), held)
  {
    RingStays(s, WriterNext(s, takes), held);
  }

  lemma ReaderElsewhere(s: State, held: seq<Byte>, takes: bool)
    requires Inv(s, held) && Enabled(s, ReaderStep(takes))
    requires !s.reader.RCopy? && !s.reader.Consume? && !s.reader.RHead? && !s.reader.RTail?
    ensures Inv(ReaderNext(s, takes), held)
  {
    RingStays(s, ReaderNext(s, takes), held);
  }

  lemma IndicesLoaded(s: State, held: seq<Byte>, takes: bool)
    requires Inv(s, held) && (s.reader.RHead? || s.reader.RTail?)
    ensures Inv(ReaderNext(s, takes), held)
  {
    RingStays(s, ReaderNext(s, takes), held);
    if s.reader.RHead? {
      UsedNow(s, held);
    }
  }

  lemma WriterKeeps(s: State, held: seq<Byte>, takes: bool)
    requires Inv(s, held) && Enabled(s, WriterStep(takes))
    ensures Inv(WriterNext(s, takes), HeldAfter(s, held, WriterStep(takes)))
  {
    if s.writer.Copy? {
      CopyIn(s, held, takes);
    } else if s.writer.Publish? {
      Published(s, held, takes);
    } else if s.writer.Tail? {
      TailLoaded(s, held, takes);
    } else {
      WriterElsewhere(s, held, takes);
    }
  }

  lemma ReaderKeeps(s: State, held: seq<Byte>, takes: bool)
    requires Inv(s, held) && Enabled(s, ReaderStep(takes))
    ensures Inv(ReaderNext(s, takes), HeldAfter(s, held, ReaderStep(takes)))
  {
    if s.reader.RCopy? {
      CopyOut(s, held, takes);
    } else if s.reader.Consume? {
      Consumed(s, held, takes);
    } else if s.reader.RHead? || s.reader.RTail? {
      IndicesLoaded(s, held, takes);
    } else {
      ReaderElsewhere(s, held, takes);
    }
  }

  lemma StepKeeps(s: State, held: seq<Byte>, step: Step)
    requires Inv(s, held) && Enabled(s, step)
    ensures Inv(Next(s, step), HeldAfter(s, held, step))
  {
    if step.WriterStep? {
      WriterKeeps(s, held, step.takes);
    } else if step.ReaderStep? {
      ReaderKeeps(s, held, step.takes);
    } else {
      RingStays(s, Next(s, step), held);
    }
  }

  // ----- Over every run

  predicate IsRun(s: State, steps: seq<Step>)
    decreases |steps|
  {
    Shaped(s) && (|steps| == 0 || (Enabled(s, steps[0]) && IsRun(Next(s, steps[0]), steps[1..])))
  }

  function After(s: State, steps: seq<Step>): (s': State)
    requires IsRun(s, steps)
    ensures Shaped(s')
    decreases |steps|
  {
    if |steps| == 0 then s else After(Next(s, steps[0]), steps[1..])
  }

  lemma {:induction false} RunKeeps(s: State, held: seq<Byte>, steps: seq<Step>) returns (held': seq<Byte>)
    requires Inv(s, held) && IsRun(s, steps)
    ensures Inv(After(s, steps), held')
    decreases |steps|
  {
    if |steps| == 0 {
      held' := held;
    } else {
      StepKeeps(s, held, steps[0]);
      held' := RunKeeps(Next(s, steps[0]), HeldAfter(s, held, steps[0]), steps[1..]);
    }
  }

  /** In every run, whatever the bytes and however far the words have wrapped: the bytes consumed
      are the first of those published, in order, each once, and never more than the ring holds
      lie between the two. */
  lemma FirstInFirstOut(steps: seq<Step>)
    requires IsRun(Init(), steps)
    ensures var s := After(Init(), steps);
      && |s.taken| <= |s.sent| <= |s.taken| + CAPACITY && s.taken == s.sent[..|s.taken|]
      && s.head == Word(|s.sent|) && s.tail == Word(|s.taken|)
  {
    InitInv();
    var held := RunKeeps(Init(), [], steps);
    var s := After(Init(), steps);
    assert s.taken == (s.taken + held)[..|s.taken|];
  }

  /** The reader reports the end of the input where it finds the channel closed and found nothing
      held before that: there is nothing unread at that moment if and only if `head` has not
      moved since the reader loaded it. */
  lemma EndOfInputIsTrue(steps: seq<Step>, takes: bool)
    requires IsRun(Init(), steps)
    requires After(Init(), steps).reader.RTest? && After(Init(), steps).closed
    ensures var s := After(Init(), steps);
      && Shaped(s) && ReaderNext(s, takes).reader == RIdle(0)
      && (s.taken == s.sent <==> s.head == s.reader.head)
  {
    InitInv();
    var held := RunKeeps(Init(), [], steps);
    var s := After(Init(), steps);
    UsedNow(s, held);
    if s.head == s.reader.head {
      assert Used(s.head, s.tail) == 0;
    }
  }

  // ----- What a write reports

  /** The last bytes published are those of the buffer that have been written. */
  ghost predicate Ends(sent: seq<Byte>, part: seq<Byte>) {
    |part| <= |sent| && sent[|sent| - |part|..] == part
  }

  ghost predicate WrittenOf(sent: seq<Byte>, data: seq<Byte>, done: nat) {
    done <= |data| && Ends(sent, data[..done])
  }

  /** The writer is in a write. */
  predicate Writing(w: Writer) {
    !w.Idle? && !w.Shut? && !w.WakeHead? && !w.WakeTail?
  }

  ghost predicate Reported(s: State) {
    Writing(s.writer) ==> WrittenOf(s.sent, s.writer.data, s.writer.done)
  }

  lemma MoreWritten(sent: seq<Byte>, data: seq<Byte>, done: nat, n: nat)
    requires WrittenOf(sent, data, done) && done + n <= |data|
    ensures WrittenOf(sent + data[done..done + n], data, done + n)
  {
    var part, more := data[..done], data[done..done + n];
    assert data[..done + n] == part + more;
    assert (sent + more)[|sent| - |part|..] == sent[|sent| - |part|..] + more;
  }

  lemma StepKeepsReported(s: State, step: Step)
    requires Shaped(s) && Reported(s) && Enabled(s, step)
    requires s.writer.Publish? ==> s.writer.done + s.writer.n <= |s.writer.data|
    ensures Reported(Next(s, step))
  {
    if step.WriterStep? && s.writer.Publish? {
      MoreWritten(s.sent, s.writer.data, s.writer.done, s.writer.n);
    } else if step.Write? {
      assert step.data[..0] == [] && s.sent[|s.sent|..] == [];
    } else {
      SameWrite(s, step);
    }
  }

  /** Nothing else is published, and the write stays where it was or is over. */
  lemma SameWrite(s: State, step: Step)
    requires Shaped(s) && Enabled(s, step) && !step.Write? && !(step.WriterStep? && s.writer.Publish?)
    ensures var s' := Next(s, step);
      && s'.sent == s.sent
      && (Writing(s'.writer) ==>
            Writing(s.writer) && s'.writer.data == s.writer.data && s'.writer.done == s.writer.done)
  {}

  lemma {:induction false} RunKeepsReported(s: State, held: seq<Byte>, steps: seq<Step>)
    requires Inv(s, held) && Reported(s) && IsRun(s, steps)
    ensures Reported(After(s, steps))
    decreases |steps|
  {
    if |steps| > 0 {
      StepKeeps(s, held, steps[0]);
      StepKeepsReported(s, steps[0]);
      RunKeepsReported(Next(s, steps[0]), HeldAfter(s, held, steps[0]), steps[1..]);
    }
  }

  // ----- What a read reports

  /** The reader is in a read. */
  predicate Reading(r: Reader) {
    !r.RIdle? && !r.RShut? && !r.RWakeHead? && !r.RWakeTail?
  }

  /** A read takes what there is room for, and no less than was held when it looked. */
  ghost predicate Measured(s: State) {
    match s.reader
    case RHead(len) => len > 0
    case RTail(len, _) => len > 0
    case RTest(len, _) => len > 0
    case RWait(len, _) => len > 0
    case RAsleep(len) => len > 0
    case RCopy(len, head, tail, n, buf) =>
      tail == s.tail && 0 < n <= len && |buf| <= n && (n < len ==> n == Used(head, tail))
    case Consume(len, head, tail, buf) =>
      tail == s.tail && 0 < |buf| <= len && (|buf| < len ==> |buf| == Used(head, tail))
    case RWake(len, head, buf) =>
      0 < |buf| <= len && Ends(s.taken, buf) && (|buf| < len ==> s.tail == head)
    case _ => true
  }

  lemma UsedUp(head: Index, tail: Index)
    ensures Word(tail + Used(head, tail)) == head
  {}

  lemma StepKeepsMeasured(s: State, step: Step)
    requires Shaped(s) && Measured(s) && Enabled(s, step)
    ensures Measured(Next(s, step))
  {
    if step.ReaderStep? && s.reader.Consume? {
      UsedUp(s.reader.head, s.tail);
      assert (s.taken + s.reader.buf)[|s.taken|..] == s.reader.buf;
    } else if step.WriterStep? || step.ReaderStep? {
      SameRead(s, step);
    }
  }

  /** Nothing else is consumed. */
  lemma SameRead(s: State, step: Step)
    requires Shaped(s) && Enabled(s, step) && !(step.ReaderStep? && s.reader.Consume?)
    ensures Next(s, step).taken == s.taken && Next(s, step).tail == s.tail
  {}

  /** The length of the last read begun, and the buffer of the last write. */
  function LastRead(before: nat, steps: seq<Step>): nat
    decreases |steps|
  {
    if |steps| == 0 then before
    else LastRead(if steps[0].Read? then steps[0].len else before, steps[1..])
  }

  function LastWritten(before: seq<Byte>, steps: seq<Step>): seq<Byte>
    decreases |steps|
  {
    if |steps| == 0 then before
    else LastWritten(if steps[0].Write? then steps[0].data else before, steps[1..])
  }

  /** A call in progress is of what its caller gave. */
  ghost predicate AsGiven(s: State, len: nat, data: seq<Byte>) {
    && (Reading(s.reader) ==> s.reader.len == len)
    && (Writing(s.writer) ==> s.writer.data == data)
  }

  lemma StepKeepsGiven(s: State, step: Step, len: nat, data: seq<Byte>)
    requires Shaped(s) && AsGiven(s, len, data) && Enabled(s, step)
    ensures AsGiven(Next(s, step), if step.Read? then step.len else len, if step.Write? then step.data else data)
  {}

  lemma {:induction false} RunKeepsRead(s: State, steps: seq<Step>, len: nat, data: seq<Byte>)
    requires IsRun(s, steps) && Measured(s) && AsGiven(s, len, data)
    ensures Measured(After(s, steps)) && AsGiven(After(s, steps), LastRead(len, steps), LastWritten(data, steps))
    decreases |steps|
  {
    if |steps| > 0 {
      var step := steps[0];
      StepKeepsMeasured(s, step);
      StepKeepsGiven(s, step, len, data);
      RunKeepsRead(Next(s, step), steps[1..], if step.Read? then step.len else len,
                   if step.Write? then step.data else data);
    }
  }

  /** In every run, where a read returns bytes it reports how many: at least one, no more than its
      caller gave room for, and the last consumed, which are those in the caller's buffer; and
      fewer than there was room for only where all that was there when it looked is consumed. */
  lemma ReadReportsWhatItTook(steps: seq<Step>, takes: bool)
    requires IsRun(Init(), steps) && After(Init(), steps).reader.RWake?
    ensures var s, s' := After(Init(), steps), ReaderNext(After(Init(), steps), takes);
      && s'.reader == RIdle(|s.reader.buf|) && s'.taken == s.taken
      && 1 <= |s.reader.buf| <= LastRead(0, steps) && Ends(s.taken, s.reader.buf)
      && (|s.reader.buf| < LastRead(0, steps) ==> s.tail == s.reader.head)
  {
    RunKeepsRead(Init(), steps, 0, []);
  }

  /** In every run, whatever ends it, a read that there is room for returns nothing only where it
      finds the channel closed. */
  lemma NothingReadIsTheEnd(steps: seq<Step>, step: Step)
    requires IsRun(Init(), steps) && Enabled(After(Init(), steps), step)
    requires Reading(After(Init(), steps).reader) && Next(After(Init(), steps), step).reader == RIdle(0)
    ensures After(Init(), steps).closed && After(Init(), steps).reader.RTest?
  {
    RunKeepsRead(Init(), steps, 0, []);
  }

  /** In every run, whatever ends it, where a write returns, the last bytes published are as many of
      the caller's, from the first, as it reports; and it reports fewer than it was given only where
      it finds the channel closed. */
  lemma WriteReportsWhatItWrote(steps: seq<Step>, step: Step)
    requires IsRun(Init(), steps) && Enabled(After(Init(), steps), step)
    requires Writing(After(Init(), steps).writer) && Next(After(Init(), steps), step).writer.Idle?
    ensures var s, s' := After(Init(), steps), Next(After(Init(), steps), step);
      && WrittenOf(s'.sent, LastWritten([], steps), s'.writer.wrote)
      && (s'.writer.wrote < |LastWritten([], steps)| ==> s.closed && s.writer.Test?)
  {
    InitInv();
    RunKeepsRead(Init(), steps, 0, []);
    RunKeepsReported(Init(), [], steps);
    var held := RunKeeps(Init(), [], steps);
  }

  /** A write publishes at once all that is left of it, or all that there is room for. */
  lemma RoomIsFilled(steps: seq<Step>, takes: bool)
    requires IsRun(Init(), steps) && After(Init(), steps).writer.Tail?
    ensures var s, s' := After(Init(), steps), WriterNext(After(Init(), steps), takes);
      && Used(s.head, s.tail) <= CAPACITY
      && (Used(s.head, s.tail) < CAPACITY ==>
            s'.writer.Copy?
            && (s'.writer.n == |LastWritten([], steps)| - s.writer.done
                || Used(s.head, s.tail) + s'.writer.n == CAPACITY))
  {
    InitInv();
    RunKeepsRead(Init(), steps, 0, []);
    var held := RunKeeps(Init(), [], steps);
    UsedNow(After(Init(), steps), held);
  }

  // ----- Once closed

  /** One end is closing, and has gone so far as to wake the other. */
  predicate Closing(s: State) {
    s.writer.WakeHead? || s.writer.WakeTail? || s.reader.RWakeHead? || s.reader.RWakeTail?
  }

  /** Nothing is being written, and nothing has been since `sent`. */
  ghost predicate Stopped(s: State, sent: seq<Byte>) {
    && s.closed && s.sent == sent
    && (Writing(s.writer) ==> s.writer.Test? && s.writer.done == 0)
  }

  /** Either end closes the channel before it wakes anyone, and it stays closed. */
  lemma {:induction false} ClosedForGood(s: State, steps: seq<Step>)
    requires IsRun(s, steps) && (Closing(s) ==> s.closed)
    ensures Closing(After(s, steps)) || s.closed ==> After(s, steps).closed
    decreases |steps|
  {
    if |steps| > 0 {
      ClosedForGood(Next(s, steps[0]), steps[1..]);
    }
  }

  /** Once an end that closes has gone so far as to wake the other, and the writer is between its
      calls, no byte is published in any run that follows, and every write returns 0. */
  lemma NothingIsWrittenOnceClosed(before: seq<Step>, steps: seq<Step>, step: Step)
    requires IsRun(Init(), before) && IsRun(After(Init(), before), steps)
    requires var s := After(Init(), before); !Writing(s.writer) && (s.closed || Closing(s))
    requires Enabled(After(After(Init(), before), steps), step)
    ensures var s, s' := After(Init(), before), After(After(Init(), before), steps);
      && s'.sent == s.sent
      && (Writing(s'.writer) && Next(s', step).writer.Idle? ==> Next(s', step).writer.wrote == 0)
  {
    ClosedForGood(Init(), before);
    StaysStopped(After(Init(), before), steps, After(Init(), before).sent);
  }

  lemma {:induction false} StaysStopped(s: State, steps: seq<Step>, sent: seq<Byte>)
    requires IsRun(s, steps) && Stopped(s, sent)
    ensures Stopped(After(s, steps), sent)
    decreases |steps|
  {
    if |steps| > 0 {
      StaysStopped(Next(s, steps[0]), steps[1..], sent);
    }
  }

  // ----- Who sleeps, and why

  /** A wake takes the sleeper, where there is one. */
  predicate WakesTake(steps: seq<Step>) {
    forall i :: 0 <= i < |steps| ==>
      (steps[i].WriterStep? ==> steps[i].takes) && (steps[i].ReaderStep? ==> steps[i].takes)
  }

  ghost predicate NoLostWakeUp(s: State, held: seq<Byte>) {
    && (s.reader.RAsleep? ==> held == [] || s.writer.Wake?)
    && (s.writer.Asleep? ==> |held| == CAPACITY || s.reader.RWake?)
  }

  lemma WordsApart(a: Index, b: Index, c: Index)
    requires Used(a, b) == Used(a, c)
    ensures b == c
  {}

  lemma WriterKeepsWakeUp(s: State, held: seq<Byte>)
    requires Inv(s, held) && NoLostWakeUp(s, held) && Enabled(s, WriterStep(true))
    ensures NoLostWakeUp(WriterNext(s, true), HeldAfter(s, held, WriterStep(true)))
  {
    UsedNow(s, held);
  }

  lemma ReaderKeepsWakeUp(s: State, held: seq<Byte>)
    requires Inv(s, held) && NoLostWakeUp(s, held) && Enabled(s, ReaderStep(true))
    ensures NoLostWakeUp(ReaderNext(s, true), HeldAfter(s, held, ReaderStep(true)))
  {
    UsedNow(s, held);
  }

  lemma {:induction false} RunKeepsWakeUp(s: State, held: seq<Byte>, steps: seq<Step>) returns (held': seq<Byte>)
    requires Inv(s, held) && NoLostWakeUp(s, held) && IsRun(s, steps) && WakesTake(steps)
    ensures Inv(After(s, steps), held') && NoLostWakeUp(After(s, steps), held')
    decreases |steps|
  {
    if |steps| == 0 {
      held' := held;
    } else {
      StepKeeps(s, held, steps[0]);
      if steps[0].WriterStep? {
        WriterKeepsWakeUp(s, held);
      } else if steps[0].ReaderStep? {
        ReaderKeepsWakeUp(s, held);
      }
      held' := RunKeepsWakeUp(Next(s, steps[0]), HeldAfter(s, held, steps[0]), steps[1..]);
    }
  }

  /** While the reader sleeps there is nothing to read, or the writer is about to wake it; while
      the writer sleeps there is no room, or the reader is about to wake it; and never do both
      sleep. */
  lemma NoByteStrands(steps: seq<Step>)
    requires IsRun(Init(), steps) && WakesTake(steps)
    ensures var s := After(Init(), steps);
      && (s.reader.RAsleep? ==> s.taken == s.sent || s.writer.Wake?)
      && (s.writer.Asleep? ==> |s.sent| == |s.taken| + CAPACITY || s.reader.RWake?)
      && !(s.reader.RAsleep? && s.writer.Asleep?)
  {
    InitInv();
    var held := RunKeepsWakeUp(Init(), [], steps);
    var s := After(Init(), steps);
    if held == [] {
      assert s.taken + held == s.taken;
    }
  }

  // ----- What a close misses

  /** The reader sleeps, or will: it has found the channel open, and `head` is as it was. */
  predicate ReaderBound(s: State) {
    s.reader.RAsleep? || (s.reader.RWait? && s.head == s.reader.head)
  }

  /** The writer will sleep: it has found the channel open before it looked for room, and there is
      none, with `tail` as it is. */
  predicate WriterWillSleep(s: State) {
    || (s.writer.Head? && Used(s.head, s.tail) == CAPACITY)
    || (s.writer.Tail? && Used(s.writer.head, s.tail) == CAPACITY)
    || (s.writer.Wait? && s.tail == s.writer.tail)
  }

  predicate WriterBound(s: State) {
    s.writer.Asleep? || WriterWillSleep(s)
  }

  /** The step neither moves `head` nor lets a sleeping reader go on. */
  predicate LeavesReader(s: State, step: Step) {
    !step.ReaderSpurious? && (step.WriterStep? ==> !s.writer.Publish? && !s.writer.Wake? && !s.writer.WakeHead?)
  }

  /** The step neither moves `tail` nor lets a sleeping writer go on. */
  predicate LeavesWriter(s: State, step: Step) {
    !step.WriterSpurious? && (step.ReaderStep? ==> !s.reader.Consume? && !s.reader.RWake? && !s.reader.RWakeTail?)
  }

  predicate AllLeave(s: State, steps: seq<Step>, reader: bool)
    requires IsRun(s, steps)
    decreases |steps|
  {
    |steps| == 0
    || ((if reader then LeavesReader(s, steps[0]) else LeavesWriter(s, steps[0]))
        && AllLeave(Next(s, steps[0]), steps[1..], reader))
  }

  lemma LeftStep(s: State, step: Step)
    requires Shaped(s) && s.closed && Enabled(s, step)
    ensures Next(s, step).closed
    ensures LeavesReader(s, step) ==> ReaderBound(Next(s, step)) == ReaderBound(s)
    ensures LeavesWriter(s, step) ==> WriterBound(Next(s, step)) == WriterBound(s)
  {}

  lemma {:induction false} LeftRun(s: State, steps: seq<Step>, reader: bool)
    requires IsRun(s, steps) && s.closed && AllLeave(s, steps, reader)
    ensures reader ==> ReaderBound(After(s, steps)) == ReaderBound(s)
    ensures !reader ==> WriterBound(After(s, steps)) == WriterBound(s)
    decreases |steps|
  {
    if |steps| > 0 {
      LeftStep(s, steps[0]);
      LeftRun(Next(s, steps[0]), steps[1..], reader);
    }
  }

  /** A writer that closes wakes the reader for the last time. Whatever follows, if nothing more is
      published and no suspended context returns for nothing, the reader ends asleep for ever, if
      it does not end its call, exactly where at that moment it lay between its test of `closed`
      and its wait and `head` was as it had loaded it. */
  lemma CloseStrandsReader(s: State, steps: seq<Step>)
    requires Shaped(s) && s.closed && s.writer.WakeHead?
    requires IsRun(WriterNext(s, true), steps) && AllLeave(WriterNext(s, true), steps, true)
    requires var r := After(WriterNext(s, true), steps).reader; r.RIdle? || r.RAsleep?
    ensures After(WriterNext(s, true), steps).reader.RAsleep? <==> s.reader.RWait? && s.head == s.reader.head
  {
    LeftRun(WriterNext(s, true), steps, true);
  }

  /** And a reader that closes wakes the writer for the last time: the writer ends asleep exactly
      where at that moment it lay between its test of `closed` and its wait, with no room. */
  lemma CloseStrandsWriter(s: State, steps: seq<Step>)
    requires Shaped(s) && s.closed && s.reader.RWakeTail?
    requires s.writer.Asleep? ==> s.writer.done < |s.writer.data|
    requires IsRun(ReaderNext(s, true), steps) && AllLeave(ReaderNext(s, true), steps, false)
    requires var w := After(ReaderNext(s, true), steps).writer; w.Idle? || w.Asleep?
    ensures After(ReaderNext(s, true), steps).writer.Asleep? <==> WriterWillSleep(s)
  {
    LeftRun(ReaderNext(s, true), steps, false);
  }

  // ----- Two runs

  lemma {:induction false} Joined(s: State, steps: seq<Step>, more: seq<Step>)
    requires IsRun(s, steps) && IsRun(After(s, steps), more)
    ensures IsRun(s, steps + more) && After(s, steps + more) == After(After(s, steps), more)
    decreases |steps|
  {
    if |steps| == 0 {
      assert steps + more == more;
    } else {
      assert (steps + more)[1..] == steps[1..] + more;
      Joined(Next(s, steps[0]), steps[1..], more);
    }
  }

  lemma OneMore(s: State, steps: seq<Step>, step: Step) returns (more: seq<Step>, s': State)
    requires IsRun(s, steps) && Enabled(After(s, steps), step)
    ensures IsRun(s, more) && After(s, more) == s' == Next(After(s, steps), step)
    ensures WakesTake(steps) && (step.WriterStep? || step.ReaderStep? ==> step.takes) ==> WakesTake(more)
  {
    more := steps + [step];
    s' := Next(After(s, steps), step);
    assert Shaped(s') && After(s', []) == s' && [step][1..] == [];
    Joined(s, steps, [step]);
  }

  /** The reader has found nothing held and is about to test whether the channel is closed. */
  lemma ReaderAtTest() returns (steps: seq<Step>, s: State)
    ensures WakesTake(steps)
    ensures IsRun(Init(), steps) && s == After(Init(), steps) == Init().(reader := RTest(1, 0))
  {
    steps, s := OneMore(Init(), [], Read(1));
    steps, s := OneMore(Init(), steps, ReaderStep(true));
    steps, s := OneMore(Init(), steps, ReaderStep(true));
  }

  /** A byte is published and the channel closed between the reader's loads of the indices and its
      test: it reports the end of the input with the byte unread. */
  lemma EndWithAByteUnread() returns (steps: seq<Step>, s: State)
    ensures IsRun(Init(), steps) && s == After(Init(), steps)
    ensures s.reader == RIdle(0) && s.closed && s.sent == [7] && s.taken == []
  {
    steps, s := ReaderAtTest();
    steps, s := OneMore(Init(), steps, Write([7]));
    steps, s := OneByteWritten(steps, s);
    steps, s := OneMore(Init(), steps, WriterCloses);
    steps, s := OneMore(Init(), steps, WriterStep(true));
    steps, s := OneMore(Init(), steps, ReaderStep(true));
  }

  /** The steps of a write of one byte, to an empty ring. */
  lemma OneByteWritten(before: seq<Step>, b: State) returns (steps: seq<Step>, s: State)
    requires IsRun(Init(), before) && b == After(Init(), before)
    requires b.writer == Test([7], 0) && !b.closed && b.head == b.tail == 0 && b.sent == [] && b.taken == []
    requires b.reader == RTest(1, 0)
    ensures IsRun(Init(), steps) && s == After(Init(), steps)
    ensures s.writer == Idle(1) && !s.closed && s.sent == [7] && s.taken == [] && s.reader == b.reader
  {
    steps, s := OneByteCopied(before, b);
    steps, s := OneMore(Init(), steps, WriterStep(true));
    steps, s := OneMore(Init(), steps, WriterStep(true));
    assert s.writer == Wake([7], 1);
    steps, s := OneMore(Init(), steps, WriterStep(true));
  }

  lemma OneByteCopied(before: seq<Step>, b: State) returns (steps: seq<Step>, s: State)
    requires IsRun(Init(), before) && b == After(Init(), before)
    requires b.writer == Test([7], 0) && !b.closed && b.head == b.tail == 0 && b.sent == [] && b.taken == []
    ensures IsRun(Init(), steps) && s == After(Init(), steps)
    ensures s == b.(writer := Copy([7], 0, 0, 1, 1), bytes := b.bytes[0 := 7])
  {
    steps, s := OneMore(Init(), before, WriterStep(true));
    steps, s := OneMore(Init(), steps, WriterStep(true));
    steps, s := OneMore(Init(), steps, WriterStep(true));
    assert s.writer == Copy([7], 0, 0, 1, 0);
    steps, s := OneMore(Init(), steps, WriterStep(true));
  }

  /** The reader has found the channel open and is about to wait; then the writer closes. */
  lemma ReaderAtWait() returns (steps: seq<Step>, s: State)
    ensures WakesTake(steps) && IsRun(Init(), steps) && s == After(Init(), steps)
    ensures s == Init().(reader := RWait(1, 0), writer := WakeHead, closed := true)
  {
    steps, s := ReaderAtTest();
    steps, s := OneMore(Init(), steps, ReaderStep(true));
    steps, s := OneMore(Init(), steps, WriterCloses);
    steps, s := OneMore(Init(), steps, WriterStep(true));
  }

  /** The channel is closed between the reader's test and its wait: the reader sleeps with no step
      left to wake it, whoever closed it being done. */
  lemma AsleepThroughTheClose() returns (steps: seq<Step>, s: State)
    ensures IsRun(Init(), steps) && s == After(Init(), steps)
    ensures s.reader.RAsleep? && s.closed && s.writer.Idle? && WakesTake(steps)
    ensures forall step :: Enabled(s, step) ==> step.Write? || step.WriterCloses? || step.ReaderSpurious?
  {
    steps, s := ReaderAtWait();
    steps, s := OneMore(Init(), steps, WriterStep(true));
    steps, s := OneMore(Init(), steps, WriterStep(true));
    steps, s := OneMore(Init(), steps, ReaderStep(true));
  }
}
