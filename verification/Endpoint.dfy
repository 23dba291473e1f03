/** The kit's endpoints as text: what the parser accepts, what the formatter writes, and when the
    one undoes the other. */
module Endpoint {
  import opened Printers

  /** An octet of an address. */
  type Octet = n: int | 0 <= n < 256

  datatype Option<T> = None | Some(value: T)

  /** An address of four octets and a port; port 0 is no port. */
  datatype V4 = V4(addr: seq<Octet>, port: nat)

  datatype Number = Number(value: nat, end: nat)

  // ----- What is written down

  function Point(m: nat): string {
    if m == 0 then "" else "."
  }

  /** The octets from the `m`th on, with a point before each but the first. */
  function Octets(a: seq<Octet>, m: nat): string
    requires m <= |a|
    decreases |a| - m
  {
    if m == |a| then "" else Point(m) + (Digits(a[m], Ten) + Octets(a, m + 1))
  }

  function Address(a: seq<Octet>): string {
    Octets(a, 0)
  }

  /** The text stands for the endpoint: the address alone, or the address, a colon and the port,
      each number without a zero in front. */
  ghost predicate StandsFor(text: string, e: V4) {
    && |e.addr| == 4 && e.port <= 65535
    && (text == Address(e.addr) + ":" + Digits(e.port, Ten) || (e.port == 0 && text == Address(e.addr)))
  }

  // ----- A number in a text

  /** Where the digits that begin at `i` end. */
  function Run(text: string, i: nat): (j: nat)
    requires i <= |text|
    ensures i <= j <= |text| && (j < |text| ==> !IsDigit(text[j], Ten))
    ensures forall k :: i <= k < j ==> IsDigit(text[k], Ten)
    decreases |text| - i
  {
    if i < |text| && IsDigit(text[i], Ten) then Run(text, i + 1) else i
  }

  /** The number at `i`, if there is one, no greater than `max` and written without a zero in
      front. */
  ghost function NumberAt(text: string, i: nat, max: nat): Option<Number>
    requires i <= |text|
  {
    var s := text[i..Run(text, i)];
    if Canonical(s, Ten) && Parse(s, Ten) <= max then Some(Number(Parse(s, Ten), Run(text, i))) else None
  }

  lemma {:induction false} RunIs(text: string, i: nat, j: nat)
    requires i <= j <= |text| && (forall k :: i <= k < j ==> IsDigit(text[k], Ten))
    requires j < |text| ==> !IsDigit(text[j], Ten)
    ensures Run(text, i) == j
    decreases j - i
  {
    if i < j {
      RunIs(text, i + 1, j);
    }
  }

  /** A number is at `i` exactly where its digits are, and no further digit. */
  lemma NumberIsDigits(text: string, i: nat, max: nat, n: Number)
    requires i <= |text|
    ensures NumberAt(text, i, max) == Some(n) <==>
      && i <= n.end <= |text| && n.value <= max && text[i..n.end] == Digits(n.value, Ten)
      && (n.end < |text| ==> !IsDigit(text[n.end], Ten))
  {
    if NumberAt(text, i, max) == Some(n) {
      ParseDigits(text[i..n.end], Ten);
    }
    if i <= n.end <= |text| && text[i..n.end] == Digits(n.value, Ten)
       && (n.end < |text| ==> !IsDigit(text[n.end], Ten)) {
      DigitsParse(n.value, Ten);
      forall k | i <= k < n.end ensures IsDigit(text[k], Ten) {
        assert text[k] == text[i..n.end][k - i];
      }
      RunIs(text, i, n.end);
    }
  }

  lemma {:induction false} LongerIsGreater(s: string, t: string)
    ensures Parse(s + t, Ten) >= Parse(s, Ten)
    decreases |t|
  {
    if |t| == 0 {
      assert s + t == s;
    } else {
      assert (s + t)[..|s + t| - 1] == s + t[..|t| - 1];
      LongerIsGreater(s, t[..|t| - 1]);
    }
  }

  /** Four digits without a zero in front are more than any octet. */
  lemma FourDigits(s: string)
    requires Canonical(s, Ten) && |s| >= 4
    ensures Parse(s, Ten) >= 1000
  {
    ParseDigits(s, Ten);
    assert Power(1, Ten) == 10 && Power(2, Ten) == 100 && Power(3, Ten) == 1000;
    if Parse(s, Ten) < 1000 {
      DigitsFit(Parse(s, Ten), 3, Ten);
    }
  }

  lemma SliceInTwo(text: string, a: nat, b: nat, c: nat)
    requires a <= b <= c <= |text|
    ensures text[a..c] == text[a..b] + text[b..c]
  {}

  /** Where the digits so far are more than `max`, the number is. */
  lemma PastMax(text: string, start: nat, i: nat, max: nat)
    requires start <= |text| && start <= i <= Run(text, start) && Parse(text[start..i], Ten) > max
    ensures NumberAt(text, start, max) == None
  {
    var run := text[start..Run(text, start)];
    SliceInTwo(text, start, i, Run(text, start));
    LongerIsGreater(text[start..i], text[i..Run(text, start)]);
  }

  lemma PastThreeDigits(text: string, start: nat, max: nat)
    requires start <= |text| && Run(text, start) - start > 3 && max < 1000
    ensures NumberAt(text, start, max) == None
  {
    var run := text[start..Run(text, start)];
    if Canonical(run, Ten) {
      FourDigits(run);
    }
  }

  lemma ParseOneMore(text: string, start: nat, i: nat)
    requires start <= i < |text|
    ensures Parse(text[start..i + 1], Ten) == Parse(text[start..i], Ten) * 10 + DigitValue(text[i])
  {
    assert text[start..i + 1][..i - start] == text[start..i];
  }

  /** Where the digits end, the number is there unless there are none, or a zero in front. */
  lemma RunRead(text: string, start: nat, i: nat, max: nat)
    requires start <= i <= |text| && i == Run(text, start) && Parse(text[start..i], Ten) <= max
    ensures NumberAt(text, start, max) ==
      if i == start || (i - start > 1 && text[start] == '0') then None
      else Some(Number(Parse(text[start..i], Ten), i))
  {
    if i > start {
      assert text[start..i][0] == text[start];
    }
  }

  /** The parser's loop over one number: it gives up as soon as the value passes `max`, or after
      three digits where they are limited. */
  method ReadNumber(text: string, start: nat, max: nat, limited: bool) returns (r: Option<Number>)
    requires start <= |text| && (limited ==> max < 1000)
    ensures r == NumberAt(text, start, max)
  {
    var i: nat, value: nat := start, 0;
    while i < |text| && '0' <= text[i] <= '9'
      invariant start <= i <= |text| && Run(text, start) == Run(text, i)
      invariant value == Parse(text[start..i], Ten) && value <= max
    {
      ParseOneMore(text, start, i);
      value := value * 10 + DigitValue(text[i]);
      if value > max {
        PastMax(text, start, i + 1, max);
        return None;
      }
      i := i + 1;
      if limited && i - start > 3 {
        PastThreeDigits(text, start, max);
        return None;
      }
    }
    RunRead(text, start, i, max);
    if i == start {
      return None;
    }
    if i - start > 1 && text[start] == '0' {
      return None;
    }
    return Some(Number(value, i));
  }

  // ----- The parser

  /** The octets from `i` on, with a point before each but the first, after those read already. */
  ghost function OctetsFrom(text: string, i: nat, read: seq<Octet>): (r: Option<(seq<Octet>, nat)>)
    requires i <= |text| && |read| <= 4
    ensures r.Some? ==> |r.value.0| == 4 && read <= r.value.0 && i <= r.value.1 <= |text|
    decreases 4 - |read|
  {
    if |read| == 4 then Some((read, i))
    else if |read| > 0 && (i == |text| || text[i] != '.') then None
    else
      match NumberAt(text, if |read| == 0 then i else i + 1, 255)
      case None => None
      case Some(n) => OctetsFrom(text, n.end, read + [n.value])
  }

  /** What follows the address: nothing, or a colon and the port. */
  ghost function PortAt(text: string, i: nat, addr: seq<Octet>): Option<V4>
    requires i <= |text|
  {
    if i == |text| then Some(V4(addr, 0))
    else if text[i] != ':' then None
    else
      match NumberAt(text, i + 1, 65535)
      case None => None
      case Some(n) => if n.end == |text| then Some(V4(addr, n.value)) else None
  }

  ghost function Parsed(text: string): Option<V4> {
    match OctetsFrom(text, 0, [])
    case None => None
    case Some(o) => PortAt(text, o.1, o.0)
  }

  /** The parser's loop over the octets. */
  method ReadAddress(text: string) returns (r: Option<(seq<Octet>, nat)>)
    ensures r == OctetsFrom(text, 0, [])
  {
    var i: nat, addr: seq<Octet> := 0, [];
    while |addr| < 4
      invariant i <= |text| && |addr| <= 4
      invariant OctetsFrom(text, i, addr) == OctetsFrom(text, 0, [])
    {
      if |addr| > 0 {
        if i >= |text| || text[i] != '.' {
          return None;
        }
        i := i + 1;
      }
      var n := ReadNumber(text, i, 255, true);
      if n.None? {
        return None;
      }
      addr, i := addr + [n.value.value], n.value.end;
    }
    return Some((addr, i));
  }

  method ParseV4(text: string) returns (r: Option<V4>)
    ensures r == Parsed(text)
  {
    if |text| == 0 {
      return None;
    }
    var o := ReadAddress(text);
    if o.None? {
      return None;
    }
    r := ReadPort(text, o.value.1, o.value.0);
  }

  method ReadPort(text: string, i: nat, addr: seq<Octet>) returns (r: Option<V4>)
    requires i <= |text|
    ensures r == PortAt(text, i, addr)
  {
    if i == |text| {
      return Some(V4(addr, 0));
    }
    if text[i] != ':' {
      return None;
    }
    var port := ReadNumber(text, i + 1, 65535, false);
    if port.None? || port.value.end != |text| {
      return None;
    }
    return Some(V4(addr, port.value.value));
  }

  // ----- What the parser accepts

  /** A slice that is a head and a tail. */
  lemma HeadAndTail(text: string, i: nat, j: nat, d: string, tail: string)
    requires i <= j <= |text| && text[i..j] == d + tail
    ensures i + |d| <= j && text[i..i + |d|] == d && text[i + |d|..j] == tail
  {
    assert text[i..i + |d|] == text[i..j][..|d|];
    assert text[i + |d|..j] == text[i..j][|d|..];
  }

  lemma Begins(text: string, i: nat, j: nat, c: string)
    requires i < j <= |text| && text[i..j] == c
    ensures text[i] == c[0]
  {}

  lemma OneOctetRead(text: string, i: nat, read: seq<Octet>, n: Number, read': seq<Octet>)
    requires i <= |text| && |read| < 4 && n.value < 256 && read' == read + [n.value] && n.end <= |text|
    requires |read| > 0 ==> i < |text| && text[i] == '.'
    requires NumberAt(text, if |read| == 0 then i else i + 1, 255) == Some(n)
    ensures OctetsFrom(text, i, read) == OctetsFrom(text, n.end, read')
  {}

  lemma OneOctetWritten(text: string, i: nat, read: seq<Octet>, o: (seq<Octet>, nat)) returns (n: Number)
    requires i <= |text| && |read| < 4 && OctetsFrom(text, i, read) == Some(o)
    ensures n.value < 256 && i <= n.end <= o.1 && read + [n.value] <= o.0
    ensures OctetsFrom(text, n.end, read + [n.value]) == Some(o)
    ensures text[i..n.end] == Point(|read|) + Digits(n.value, Ten) && (n.end < |text| ==> !IsDigit(text[n.end], Ten))
  {
    var start := if |read| == 0 then i else i + 1;
    n := NumberAt(text, start, 255).value;
    NumberIsDigits(text, start, 255, n);
    assert text[i..start] == Point(|read|);
    SliceInTwo(text, i, start, n.end);
  }

  lemma {:induction false} AcceptedIsWritten(text: string, i: nat, read: seq<Octet>, a: seq<Octet>, j: nat)
    requires i <= |text| && |read| <= 4 && OctetsFrom(text, i, read) == Some((a, j))
    requires |read| == 4 ==> i < |text| ==> !IsDigit(text[i], Ten)
    ensures text[i..j] == Octets(a, |read|) && (j < |text| ==> !IsDigit(text[j], Ten))
    decreases 4 - |read|
  {
    if |read| < 4 {
      var n := OneOctetWritten(text, i, read, (a, j));
      AcceptedIsWritten(text, n.end, read + [n.value], a, j);
      SliceInTwo(text, i, n.end, j);
      assert a[|read|] == (read + [n.value])[|read|];
      Regroup(Point(|read|), Digits(n.value, Ten), Octets(a, |read| + 1));
    }
  }

  lemma Regroup(a: string, b: string, c: string)
    ensures (a + b) + c == a + (b + c)
  {}

  /** A slice of three parts, the first of one character at most. */
  lemma ThreeParts(text: string, i: nat, j: nat, point: string, d: string, tail: string)
    requires i <= j <= |text| && text[i..j] == point + (d + tail) && |point| <= 1
    ensures var start := i + |point|; var end := start + |d|;
      && end <= j && text[start..end] == d && text[end..j] == tail
      && (|point| == 1 ==> text[i] == point[0]) && (tail != "" ==> end < j && text[end] == tail[0])
  {
    var start := i + |point|;
    HeadAndTail(text, i, j, point, d + tail);
    HeadAndTail(text, start, j, d, tail);
    if |point| == 1 {
      Begins(text, i, start, point);
    }
    if tail != "" {
      Begins(text, start + |d|, j, tail);
    }
  }

  lemma NumberIsThere(text: string, start: nat, end: nat, max: nat, v: nat, d: string)
    requires start <= end <= |text| && text[start..end] == d && d == Digits(v, Ten) && v <= max
    requires end < |text| ==> !IsDigit(text[end], Ten)
    ensures NumberAt(text, start, max) == Some(Number(v, end))
  {
    NumberIsDigits(text, start, max, Number(v, end));
  }

  /** An octet that is written is read. */
  lemma OctetIsRead(text: string, i: nat, start: nat, end: nat, read: seq<Octet>, v: Octet, read': seq<Octet>,
                    d: string)
    requires start == (if |read| == 0 then i else i + 1) && start <= end <= |text| && |read| < 4
    requires read' == read + [v] && (|read| > 0 ==> text[i] == '.')
    requires text[start..end] == d && d == Digits(v, Ten) && (end < |text| ==> !IsDigit(text[end], Ten))
    ensures OctetsFrom(text, i, read) == OctetsFrom(text, end, read')
  {
    NumberIsThere(text, start, end, 255, v, d);
    OneOctetRead(text, i, read, Number(v, end), read');
  }

  lemma OneMore(a: seq<Octet>, m: nat)
    requires m < |a|
    ensures a[..m + 1] == a[..m] + [a[m]]
  {}

  lemma OctetsBegin(a: seq<Octet>, m: nat)
    requires 0 < m <= |a|
    ensures Octets(a, m) == "" || Octets(a, m)[0] == '.'
  {}

  /** One octet of what is written: where it ends, and what is left. */
  lemma OneWritten(text: string, i: nat, a: seq<Octet>, m: nat, j: nat) returns (start: nat, end: nat)
    requires i <= j <= |text| && |a| == 4 && m < 4 && (j < |text| ==> !IsDigit(text[j], Ten))
    requires text[i..j] == Octets(a, m)
    ensures start == (if m == 0 then i else i + 1) && start <= end <= j
    ensures text[start..end] == Digits(a[m], Ten) && text[end..j] == Octets(a, m + 1)
    ensures (m > 0 ==> text[i] == '.') && (end < |text| ==> !IsDigit(text[end], Ten))
  {
    var d, tail := Digits(a[m], Ten), Octets(a, m + 1);
    OctetsBegin(a, m + 1);
    ThreeParts(text, i, j, Point(m), d, tail);
    start, end := i + |Point(m)|, i + |Point(m)| + |d|;
  }

  lemma {:induction false} WrittenIsAccepted(text: string, i: nat, a: seq<Octet>, m: nat, j: nat)
    requires i <= j <= |text| && |a| == 4 && m <= 4 && (j < |text| ==> !IsDigit(text[j], Ten))
    requires text[i..j] == Octets(a, m)
    ensures OctetsFrom(text, i, a[..m]) == Some((a, j))
    decreases 4 - m
  {
    if m == 4 {
      assert a[..4] == a;
    } else {
      var start, end := OneWritten(text, i, a, m, j);
      WrittenIsAccepted(text, end, a, m + 1, j);
      OneMore(a, m);
      OctetIsRead(text, i, start, end, a[..m], a[m], a[..m + 1], Digits(a[m], Ten));
    }
  }

  /** The parser accepts exactly the texts that stand for an endpoint, and reads the endpoint
      each stands for: every component and every bound is required, and no zero in front. */
  lemma ParsesExactly(text: string, e: V4)
    ensures Parsed(text) == Some(e) <==> StandsFor(text, e)
  {
    if Parsed(text) == Some(e) {
      ParsedStands(text, e);
    }
    if StandsFor(text, e) {
      StandingIsParsed(text, e);
    }
  }

  lemma ParsedStands(text: string, e: V4)
    requires Parsed(text) == Some(e)
    ensures StandsFor(text, e)
  {
    var (a, j) := OctetsFrom(text, 0, []).value;
    AcceptedIsWritten(text, 0, [], a, j);
    AddressThenPort(text, j, a, e);
  }

  lemma AddressThenPort(text: string, j: nat, a: seq<Octet>, e: V4)
    requires j <= |text| && |a| == 4 && text[0..j] == Address(a) && PortAt(text, j, a) == Some(e)
    ensures StandsFor(text, e)
  {
    assert text == text[0..j] + text[j..];
    if j < |text| {
      PortIsWritten(text, j, a, e);
    } else {
      assert text[j..] == "";
    }
  }

  lemma PortIsWritten(text: string, j: nat, a: seq<Octet>, e: V4)
    requires j < |text| && PortAt(text, j, a) == Some(e)
    ensures e.addr == a && e.port <= 65535 && text[j..] == ":" + Digits(e.port, Ten)
  {
    var n := NumberAt(text, j + 1, 65535).value;
    NumberIsDigits(text, j + 1, 65535, n);
    assert text[j + 1..n.end] == text[j + 1..];
    assert text[j..] == [text[j]] + text[j + 1..];
  }

  lemma StandingIsParsed(text: string, e: V4)
    requires StandsFor(text, e)
    ensures Parsed(text) == Some(e)
  {
    var none: seq<Octet> := [];
    var written, d := Address(e.addr), Digits(e.port, Ten);
    var j, rest := |written|, if text == written then "" else ":" + d;
    assert text == written + rest && text[0..|text|] == text;
    HeadAndTail(text, 0, |text|, written, rest);
    assert e.addr[..0] == none;
    if rest != "" {
      PortIsParsed(text, j, e, d);
    }
    WrittenIsAccepted(text, 0, e.addr, 0, j);
    assert OctetsFrom(text, 0, none) == Some((e.addr, j));
  }

  lemma PortIsParsed(text: string, j: nat, e: V4, d: string)
    requires j <= |text| && text[j..|text|] == ":" + d && d == Digits(e.port, Ten) && e.port <= 65535
    ensures j < |text| && text[j] == ':' && PortAt(text, j, e.addr) == Some(e)
  {
    HeadAndTail(text, j, |text|, ":", d);
    assert text[j] == text[j..j + 1][0];
    NumberIsDigits(text, j + 1, 65535, Number(e.port, |text|));
  }

  // ----- The formatter

  /** What the formatter writes of a number: its last three digits, fewer where it is small. */
  function LastDigits(v: nat): string {
    (if v >= 100 then [DigitChar(v / 100 % 10)] else [])
    + (if v >= 10 then [DigitChar(v / 10 % 10)] else [])
    + [DigitChar(v % 10)]
  }

  function PortText(port: nat): string {
    if port == 0 then "" else ":" + LastDigits(port)
  }

  function Formatted(e: V4): string {
    Address(e.addr) + PortText(e.port)
  }

  lemma DigitsOf(v: nat)
    ensures v < 10 ==> Digits(v, Ten) == [DigitChar(v)]
    ensures v >= 10 ==> Digits(v, Ten) == Digits(v / 10, Ten) + [DigitChar(v % 10)]
  {}

  /** Below 1000 those are the number's digits. */
  lemma SmallDigits(v: nat)
    requires v < 1000
    ensures LastDigits(v) == Digits(v, Ten)
  {
    DigitsOf(v);
    DigitsOf(v / 10);
    DigitsOf(v / 100);
    assert v / 10 / 10 == v / 100;
  }

  /** From 1000 on there are more of them. */
  lemma ManyDigits(v: nat)
    requires v >= 1000
    ensures |Digits(v, Ten)| >= 4
  {
    DigitsOf(v);
    DigitsOf(v / 10);
    DigitsOf(v / 100);
    assert v / 10 / 10 == v / 100;
    DigitsParse(v / 1000, Ten);
    assert v / 100 / 10 == v / 1000;
  }

  method PutDigits(out: array<char>, at: nat, v: nat) returns (n: nat)
    requires at + 3 <= out.Length
    modifies out
    ensures n == at + |LastDigits(v)| && n <= at + 3
    ensures out[..n] == old(out[..at]) + LastDigits(v) && out[n..] == old(out[n..])
  {
    n := at;
    if v >= 100 {
      out[n] := DigitChar(v / 100 % 10);
      n := n + 1;
    }
    if v >= 10 {
      out[n] := DigitChar(v / 10 % 10);
      n := n + 1;
    }
    out[n] := DigitChar(v % 10);
    n := n + 1;
  }

  method PutChar(out: array<char>, at: nat, c: char) returns (n: nat)
    requires at < out.Length
    modifies out
    ensures n == at + 1 && out[..n] == old(out[..at]) + [c] && out[n..] == old(out[n..])
  {
    out[at] := c;
    n := at + 1;
  }

  /** The octets before the `m`th. */
  function Before(a: seq<Octet>, m: nat): string
    requires m <= |a|
  {
    if m == 0 then "" else Before(a, m - 1) + Point(m - 1) + Digits(a[m - 1], Ten)
  }

  lemma {:induction false} BeforeAndAfter(a: seq<Octet>, m: nat)
    requires m <= |a|
    ensures Before(a, m) + Octets(a, m) == Address(a)
  {
    if m > 0 {
      BeforeAndAfter(a, m - 1);
      var b, p, d, rest := Before(a, m - 1), Point(m - 1), Digits(a[m - 1], Ten), Octets(a, m);
      FourParts(b, p, d, rest);
    }
  }

  lemma FourParts(b: string, p: string, d: string, rest: string)
    ensures b + (p + (d + rest)) == (b + p + d) + rest
  {}

  method PutOctet(out: array<char>, at: nat, a: seq<Octet>, m: nat) returns (n: nat)
    requires at + 4 <= out.Length && m < |a| && out[..at] == Before(a, m)
    modifies out
    ensures n <= at + 4 && out[..n] == Before(a, m + 1) && out[n..] == old(out[n..])
  {
    n := at;
    if m > 0 {
      n := PutChar(out, n, '.');
    }
    SmallDigits(a[m]);
    n := PutDigits(out, n, a[m]);
  }

  method PutAddress(out: array<char>, a: seq<Octet>) returns (n: nat)
    requires out.Length >= 16 && |a| == 4
    modifies out
    ensures n <= 16 && out[..n] == Address(a) && out[n..] == old(out[n..])
  {
    n := 0;
    var octet: nat := 0;
    while octet < 4
      invariant octet <= 4 && n <= 4 * octet && n <= out.Length
      invariant out[..n] == Before(a, octet) && out[n..] == old(out[n..])
    {
      n := PutOctet(out, n, a, octet);
      octet := octet + 1;
    }
    BeforeAndAfter(a, 4);
    assert out[..n] == Address(a);
  }

  /** The formatter: refused where there is nowhere to write, the endpoint is of another kind, or
      the room is short of 22; and otherwise at most 22 characters, and nothing beyond them. */
  method FormatV4(addrLen: nat, e: V4, out: array<char>, cap: nat) returns (ok: bool, n: nat)
    requires |e.addr| == 4 && cap <= out.Length
    modifies out
    ensures ok <==> addrLen == 4 && cap >= 22
    ensures !ok ==> n == 0 && out[..] == old(out[..])
    ensures ok ==> n <= 22 && out[..n] == Formatted(e) && out[n..] == old(out[n..])
  {
    if addrLen != 4 || cap < 22 {
      return false, 0;
    }
    n := PutAddress(out, e.addr);
    if e.port != 0 {
      n := PutChar(out, n, ':');
      n := PutDigits(out, n, e.port);
    }
    return true, n;
  }

  // ----- The one undoes the other

  lemma ShortIsWritten(e: V4)
    requires |e.addr| == 4 && e.port < 1000
    ensures StandsFor(Formatted(e), e)
  {
    SmallDigits(e.port);
    var a, d := Address(e.addr), Digits(e.port, Ten);
    assert a + (":" + d) == a + ":" + d && a + "" == a;
  }

  lemma LongIsNotWritten(e: V4)
    requires e.port >= 1000
    ensures !StandsFor(Formatted(e), e)
  {
    ManyDigits(e.port);
    assert |Formatted(e)| == |Address(e.addr)| + 4;
  }

  /** What is formatted parses back to the endpoint if and only if the port is below 1000. */
  lemma RoundTrips(e: V4)
    requires |e.addr| == 4
    ensures Parsed(Formatted(e)) == Some(e) <==> e.port < 1000
  {
    if e.port < 1000 {
      ShortIsWritten(e);
      StandingIsParsed(Formatted(e), e);
    } else {
      LongIsNotWritten(e);
      ParsesExactly(Formatted(e), e);
    }
  }

  /** A port of 1000 or more is read as its last three digits, or the text is refused where they
      begin with a zero. */
  lemma LongPortIsLost(e: V4)
    requires |e.addr| == 4 && e.port >= 1000
    ensures Parsed(Formatted(e)) == if e.port % 1000 >= 100 then Some(V4(e.addr, e.port % 1000)) else None
  {
    if e.port % 1000 >= 100 {
      LastThree(e.port);
      SmallDigits(e.port % 1000);
      var a, d := Address(e.addr), LastDigits(e.port);
      assert a + (":" + d) == a + ":" + d;
      StandingIsParsed(Formatted(e), V4(e.addr, e.port % 1000));
    } else {
      ZeroIsRefused(Formatted(e), e);
    }
  }

  lemma ZeroIsRefused(text: string, e: V4)
    requires |e.addr| == 4 && e.port >= 1000 && e.port % 1000 < 100 && text == Formatted(e)
    ensures Parsed(text) == None
  {
    var a, d := Address(e.addr), LastDigits(e.port);
    assert text[0..|text|] == a + (":" + d);
    HeadAndTail(text, 0, |text|, a, ":" + d);
    HeadAndTail(text, |a|, |text|, ":", d);
    Begins(text, |a|, |a| + 1, ":");
    assert e.addr[..0] == [];
    WrittenIsAccepted(text, 0, e.addr, 0, |a|);
    ZeroFirst(e.port);
    ZeroInFront(text, |a| + 1, d);
  }

  lemma Thousands(q: nat, r: nat)
    requires r < 1000
    ensures (1000 * q + r) / 100 == 10 * q + r / 100 && (1000 * q + r) / 10 == 100 * q + r / 10
    ensures (1000 * q + r) % 10 == r % 10
  {}

  lemma TensAside(q: nat, x: nat)
    ensures (10 * q + x) % 10 == x % 10
  {}

  /** The last three digits are those of what is left over of thousands. */
  lemma LastOnes(v: nat)
    ensures var r := v % 1000;
      v / 100 % 10 == r / 100 % 10 && v / 10 % 10 == r / 10 % 10 && v % 10 == r % 10
  {
    var q, r := v / 1000, v % 1000;
    Thousands(q, r);
    TensAside(q, r / 100);
    TensAside(10 * q, r / 10);
  }

  lemma LastThree(v: nat)
    requires v >= 1000 && v % 1000 >= 100
    ensures LastDigits(v) == LastDigits(v % 1000)
  {
    LastOnes(v);
  }

  lemma ZeroFirst(v: nat)
    requires v >= 1000 && v % 1000 < 100
    ensures |LastDigits(v)| == 3 && LastDigits(v)[0] == '0'
    ensures forall k :: 0 <= k < 3 ==> IsDigit(LastDigits(v)[k], Ten)
  {
    LastOnes(v);
  }

  lemma ZeroInFront(text: string, i: nat, d: string)
    requires i <= |text| && text[i..|text|] == d && |d| > 1 && d[0] == '0'
    requires forall k :: 0 <= k < |d| ==> IsDigit(d[k], Ten)
    ensures NumberAt(text, i, 65535) == None
  {
    forall k | i <= k < |text| ensures IsDigit(text[k], Ten) {
      assert text[k] == text[i..|text|][k - i];
    }
    RunIs(text, i, |text|);
  }

  /** And a text that is parsed is formatted back as it was, if and only if its port is below 1000
      and is not written out as 0. */
  lemma FormatsBack(text: string, e: V4)
    requires Parsed(text) == Some(e)
    ensures Formatted(e) == text <==> e.port < 1000 && text != Address(e.addr) + ":0"
  {
    ParsedStands(text, e);
    var a, d := Address(e.addr), Digits(e.port, Ten);
    assert a + (":" + d) == a + ":" + d;
    if e.port == 0 {
      DigitsOf(0);
    } else if e.port < 1000 {
      SmallDigits(e.port);
      DigitsParse(e.port, Ten);
      assert (a + ":" + d)[|a| + 1] == d[0] != '0';
    } else {
      ManyDigits(e.port);
      assert |Formatted(e)| == |a| + 4;
    }
  }
}
