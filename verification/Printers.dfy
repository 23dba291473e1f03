/** The number printers of the suite and of the portable example: each fills a buffer from its
    end while it divides the value down, and writes what it filled. */
module Printers {

  const TWO_TO_63: int := 0x8000_0000_0000_0000
  const TWO_TO_64: int := 0x1_0000_0000_0000_0000

  datatype Base = Ten | Sixteen

  function Rest(u: nat, base: Base): nat {
    if base.Ten? then u / 10 else u / 16
  }

  function LastDigit(u: nat, base: Base): (d: nat)
    ensures d < 16 && (base.Ten? ==> d < 10)
  {
    if base.Ten? then u % 10 else u % 16
  }

  function Shifted(u: nat, base: Base): nat {
    if base.Ten? then u * 10 else u * 16
  }

  function DigitChar(d: nat): char
    requires d < 16
  {
    if d < 10 then '0' + d as char else 'a' + (d - 10) as char
  }

  predicate IsDigit(c: char, base: Base) {
    '0' <= c <= '9' || (base.Sixteen? && 'a' <= c <= 'f')
  }

  function DigitValue(c: char): nat {
    if '0' <= c <= '9' then (c - '0') as nat
    else if 'a' <= c <= 'f' then (c - 'a') as nat + 10
    else 0
  }

  /** The usual way to write a number: no zero in front, at least one digit. */
  function Digits(u: nat, base: Base): string
    decreases u
  {
    (if Rest(u, base) == 0 then [] else Digits(Rest(u, base), base)) + [DigitChar(LastDigit(u, base))]
  }

  /** What a string of digits stands for. */
  function Parse(s: string, base: Base): nat {
    if |s| == 0 then 0
    else Shifted(Parse(s[..|s| - 1], base), base) + DigitValue(s[|s| - 1])
  }

  ghost predicate Canonical(s: string, base: Base) {
    && |s| > 0
    && (forall i :: 0 <= i < |s| ==> IsDigit(s[i], base))
    && (s[0] == '0' ==> |s| == 1)
  }

  lemma {:induction false} DigitsParse(u: nat, base: Base)
    ensures Parse(Digits(u, base), base) == u
    ensures Canonical(Digits(u, base), base)
    ensures Digits(u, base)[0] == '0' <==> u == 0
    decreases u
  {
    var s, last := Digits(u, base), |Digits(u, base)| - 1;
    if Rest(u, base) != 0 {
      DigitsParse(Rest(u, base), base);
      assert s[..last] == Digits(Rest(u, base), base);
    } else {
      assert s[..last] == [];
    }
  }

  lemma AppendedDigit(x: nat, d: nat, base: Base)
    requires d < if base.Ten? then 10 else 16
    ensures Rest(Shifted(x, base) + d, base) == x && LastDigit(Shifted(x, base) + d, base) == d
  {}

  lemma DigitOfChar(c: char, base: Base)
    requires IsDigit(c, base)
    ensures DigitValue(c) < (if base.Ten? then 10 else 16) && DigitChar(DigitValue(c)) == c
    ensures DigitValue(c) == 0 <==> c == '0'
  {}

  /** Every canonical string is the way its value is written. */
  lemma {:induction false} ParseDigits(s: string, base: Base)
    requires Canonical(s, base)
    ensures Digits(Parse(s, base), base) == s
    ensures Parse(s, base) == 0 <==> s[0] == '0'
    decreases |s|
  {
    var front, c := s[..|s| - 1], s[|s| - 1];
    var x := Parse(front, base);
    assert s == front + [c];
    DigitOfChar(c, base);
    AppendedDigit(x, DigitValue(c), base);
    if |s| > 1 {
      ParseDigits(front, base);
    } else {
      assert front == [];
    }
  }

  function Power(e: nat, base: Base): nat {
    if e == 0 then 1 else Shifted(Power(e - 1, base), base)
  }

  lemma {:induction false} DigitsFit(u: nat, k: nat, base: Base)
    requires k > 0 && u < Power(k, base)
    ensures |Digits(u, base)| <= k
    decreases u
  {
    if Rest(u, base) != 0 {
      assert k > 1 by {
        assert Power(1, base) == Shifted(1, base);
      }
      DigitsFit(Rest(u, base), k - 1, base);
    }
  }

  lemma Powers()
    ensures Power(20, Ten) > TWO_TO_64 && Power(16, Sixteen) == TWO_TO_64
  {
    assert Power(5, Ten) == 100000;
    assert Power(10, Ten) == 100000_00000;
    assert Power(15, Ten) == 100000_00000_00000;
    assert Power(20, Ten) == 100000_00000_00000_00000;
    assert Power(4, Sixteen) == 0x1_0000;
    assert Power(8, Sixteen) == 0x1_0000_0000;
    assert Power(12, Sixteen) == 0x1_0000_0000_0000;
  }

  /** What the loop leaves in the buffer, given what is there already. */
  function Prepended(rest: nat, base: Base, tail: string): (r: string)
    ensures |r| >= |tail| && (rest > 0 ==> |r| > |tail|)
    decreases rest
  {
    if rest == 0 then tail
    else Prepended(Rest(rest, base), base, [DigitChar(LastDigit(rest, base))] + tail)
  }

  lemma {:induction false} PrependedIsDigits(v: nat, base: Base, tail: string)
    requires v > 0
    ensures Prepended(v, base, tail) == Digits(v, base) + tail
    decreases v
  {
    var c := [DigitChar(LastDigit(v, base))];
    if Rest(v, base) != 0 {
      PrependedIsDigits(Rest(v, base), base, c + tail);
      assert Digits(Rest(v, base), base) + (c + tail) == (Digits(Rest(v, base), base) + c) + tail;
    }
  }

  /** The loop the three printers have: the digits of `v` at the end of the buffer. */
  method FillFromTheEnd(buf: array<char>, v: nat, base: Base) returns (i: nat)
    requires |Digits(v, base)| <= buf.Length
    modifies buf
    ensures i == buf.Length - |Digits(v, base)| && buf[i..] == Digits(v, base)
    ensures buf[..i] == old(buf[..buf.Length - |Digits(v, base)|])
  {
    i := buf.Length;
    if v == 0 {
      i := i - 1;
      buf[i] := '0';
    }
    ghost var all := Prepended(v, base, buf[i..]);
    if v > 0 {
      PrependedIsDigits(v, base, []);
    }
    assert all == Digits(v, base);
    var rest := v;
    while rest > 0
      invariant 0 <= i <= buf.Length
      invariant Prepended(rest, base, buf[i..]) == all
      invariant forall k :: 0 <= k < i ==> buf[k] == old(buf[k])
    {
      ghost var tail := buf[i..];
      var c := DigitChar(LastDigit(rest, base));
      i := i - 1;
      buf[i] := c;
      assert buf[i..] == [c] + tail;
      rest := Rest(rest, base);
    }
  }

  /** The value in 64 unsigned bits, negated there if it is negative. */
  function Magnitude(v: int): (u: nat)
    requires -TWO_TO_63 <= v < TWO_TO_63
    ensures u == if v < 0 then -v else v
  {
    var bits := if v < 0 then v + TWO_TO_64 else v;
    if v < 0 then (TWO_TO_64 - bits) % TWO_TO_64 else bits
  }

  /** The most negative value included. */
  method PutSigned(v: int) returns (out: string)
    requires -TWO_TO_63 <= v < TWO_TO_63
    ensures v >= 0 ==> Canonical(out, Ten) && Parse(out, Ten) == v
    ensures v < 0 ==> |out| > 1 && out[0] == '-' && Canonical(out[1..], Ten) && Parse(out[1..], Ten) == -v
    ensures |out| <= 21
  {
    var buf := new char[24];
    var u := Magnitude(v);
    DigitsParse(u, Ten);
    Powers();
    DigitsFit(u, 20, Ten);
    var i := FillFromTheEnd(buf, u, Ten);
    ghost var digits := buf[i..];
    if v < 0 {
      i := i - 1;
      buf[i] := '-';
      assert buf[i..][1..] == digits;
    }
    out := buf[i..];
  }

  /** The digits only; the caller writes "0x" in front. */
  method PutHex(v: nat) returns (out: string)
    requires v < TWO_TO_64
    ensures Canonical(out, Sixteen) && Parse(out, Sixteen) == v
    ensures |out| <= 16
  {
    var buf := new char[18];
    DigitsParse(v, Sixteen);
    Powers();
    DigitsFit(v, 16, Sixteen);
    var i := FillFromTheEnd(buf, v, Sixteen);
    out := buf[i..];
  }

  method SayUnsigned(v: nat) returns (out: string)
    requires v < TWO_TO_64
    ensures Canonical(out, Ten) && Parse(out, Ten) == v
    ensures |out| <= 20
  {
    var buf := new char[24];
    DigitsParse(v, Ten);
    Powers();
    DigitsFit(v, 20, Ten);
    var i := FillFromTheEnd(buf, v, Ten);
    out := buf[i..];
  }
}
