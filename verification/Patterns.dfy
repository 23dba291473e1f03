/** The byte patterns the suite writes and looks for, in the width the machine computes them,
    and the loops that write and check them. */
module Patterns {

  type Byte = b: int | 0 <= b < 256

  const WORD: int := 0x1_0000_0000_0000_0000
  const MAP_ALIGNMENT: nat := 65536
  const BLOCK: nat := 4096

  /** The pattern of a mapped file and the pattern of an executed one. */
  datatype Pattern = OfMap | OfExec

  function Product(p: Pattern, i: nat): nat {
    if p.OfMap? then i * 7 + 3 else i * 13 + 5
  }

  /** The byte at position `i` of the file: the product is a machine word. */
  function At(p: Pattern, i: nat): Byte {
    (Product(p, i) % WORD) % 251 + 1
  }

  /** How often the product wraps around the word. */
  function Wraps(p: Pattern, i: nat): nat {
    Product(p, i) / WORD
  }

  lemma SameResidue(a: int, b: int, k: int)
    requires a == b + 251 * k
    ensures a % 251 == b % 251
  {}

  /** The position modulo 251 can be read off the byte, once the wraps are known. */
  function Position(p: Pattern, byte: int, wraps: nat): int {
    if p.OfMap? then (36 * (byte - 1 + 69 * wraps - 3)) % 251
    else (58 * (byte - 1 + 69 * wraps - 5)) % 251
  }

  lemma ByteTellsPosition(p: Pattern, i: nat)
    ensures Position(p, At(p, i), Wraps(p, i)) == i % 251
  {
    var word, wraps := Product(p, i) % WORD, Wraps(p, i);
    var q, r := word / 251, word % 251;
    assert Product(p, i) == WORD * wraps + word && word == 251 * q + r;
    assert WORD == 251 * 73493004277727297 + 69;
    var t := q + 73493004277727297 * wraps;
    assert Product(p, i) == 251 * t + (r + 69 * wraps);
    if p.OfMap? {
      assert 36 * (r + 69 * wraps - 3) == i + 251 * (i - 36 * t);
      SameResidue(36 * (r + 69 * wraps - 3), i, i - 36 * t);
    } else {
      assert 58 * (r + 69 * wraps - 5) == i + 251 * (3 * i - 58 * t);
      SameResidue(58 * (r + 69 * wraps - 5), i, 3 * i - 58 * t);
    }
  }

  lemma MapPositionsDiffer(u: int, v: int)
    requires -250 <= u - v <= 250 && (36 * u) % 251 == (36 * v) % 251
    ensures u == v
  {
    var m := (36 * u) / 251 - (36 * v) / 251;
    assert 36 * (u - v) == 251 * m;
    assert u - v == 251 * (7 * m - (u - v));
  }

  lemma ExecPositionsDiffer(u: int, v: int)
    requires -250 <= u - v <= 250 && (58 * u) % 251 == (58 * v) % 251
    ensures u == v
  {
    var m := (58 * u) / 251 - (58 * v) / 251;
    assert 58 * (u - v) == 251 * m;
    assert u - v == 251 * (13 * m - 3 * (u - v));
  }

  lemma PositionsDiffer(p: Pattern, x: int, y: int, wraps: nat)
    requires 1 <= x <= 251 && 1 <= y <= 251 && Position(p, x, wraps) == Position(p, y, wraps)
    ensures x == y
  {
    if p.OfMap? {
      MapPositionsDiffer(x - 1 + 69 * wraps - 3, y - 1 + 69 * wraps - 3);
    } else {
      ExecPositionsDiffer(x - 1 + 69 * wraps - 5, y - 1 + 69 * wraps - 5);
    }
  }

  /** No byte of the file is zero. Where the product has wrapped as often at both positions, and
      so wherever it has not wrapped, two positions hold the same byte exactly when they agree
      modulo 251; where it has not, positions that agree modulo 251 hold different bytes. */
  lemma AgreeModulo251(p: Pattern, i: nat, j: nat)
    requires i < WORD && j < WORD
    ensures At(p, i) != 0
    ensures Wraps(p, i) == Wraps(p, j) ==> (At(p, i) == At(p, j) <==> i % 251 == j % 251)
    ensures Wraps(p, i) != Wraps(p, j) && i % 251 == j % 251 ==> At(p, i) != At(p, j)
  {
    ByteTellsPosition(p, i);
    ByteTellsPosition(p, j);
    if Wraps(p, i) == Wraps(p, j) {
      if i % 251 == j % 251 {
        PositionsDiffer(p, At(p, i), At(p, j), Wraps(p, i));
      }
    } else if i % 251 == j % 251 && At(p, i) == At(p, j) {
      WrapsTell(p, At(p, i), Wraps(p, i), Wraps(p, j));
    }
  }

  lemma WrapsTell(p: Pattern, byte: int, v: nat, w: nat)
    requires v <= 12 && w <= 12 && Position(p, byte, v) == Position(p, byte, w)
    ensures v == w
  {
    var d := v - w;
    if p.OfMap? {
      var x, y := 36 * (byte - 4 + 69 * v), 36 * (byte - 4 + 69 * w);
      var m := x / 251 - y / 251;
      assert x - y == 36 * (69 * d) == 251 * m;
      NoSmallMultiple(d, 7 * m - 69 * d);
    } else {
      var x, y := 58 * (byte - 6 + 69 * v), 58 * (byte - 6 + 69 * w);
      var m := x / 251 - y / 251;
      assert x - y == 58 * (69 * d) == 251 * m;
      NoSmallMultiple(d, 13 * m - 3 * (69 * d));
    }
  }

  lemma NoSmallMultiple(d: int, k: int)
    requires -12 <= d <= 12 && 69 * d == 251 * k
    ensures d == 0
  {
    assert d == 251 * (211 * k - 58 * d);
  }

  /** A region that holds the file from one alignment too far, or too short, differs from what
      is expected at every byte, also where the product wraps between the two. */
  lemma OneAlignmentOffDiffers(p: Pattern, i: nat)
    requires i + MAP_ALIGNMENT < WORD
    ensures At(p, i) != At(p, i + MAP_ALIGNMENT)
  {
    var j := i + MAP_ALIGNMENT;
    ByteTellsPosition(p, i);
    ByteTellsPosition(p, j);
    WrapsOnceAtMost(p, i);
    if At(p, i) == At(p, j) {
      var base := At(p, i) - 1 + 69 * Wraps(p, i);
      var wrapped := Wraps(p, j) - Wraps(p, i);
      if p.OfMap? {
        Apart(36 * (base - 3), 36 * 69 * wrapped, i);
      } else {
        Apart(58 * (base - 5), 58 * 69 * wrapped, i);
      }
    }
  }

  lemma WrapsOnceAtMost(p: Pattern, i: nat)
    ensures Wraps(p, i + MAP_ALIGNMENT) == Wraps(p, i) || Wraps(p, i + MAP_ALIGNMENT) == Wraps(p, i) + 1
  {}

  /** What a wrap moves the pattern by is not, modulo 251, what an alignment moves it by. */
  lemma Apart(x: int, moved: int, i: int)
    requires moved == 0 || moved == 36 * 69 || moved == 58 * 69
    requires x % 251 == i % 251
    ensures (x + moved) % 251 != (i + MAP_ALIGNMENT) % 251
  {
    var k := (x + moved) / 251 - x / 251 - (i + MAP_ALIGNMENT) / 251 + i / 251;
    assert (x + moved) % 251 == (i + MAP_ALIGNMENT) % 251 ==> moved - MAP_ALIGNMENT == 251 * k;
  }

  /** Past the width of the word the period breaks: these two positions agree modulo 251 and
      hold different bytes. */
  lemma PeriodBreaksAtTheWord()
    ensures exists i: nat :: i < WORD && i % 251 == 0 && At(OfMap, i) != At(OfMap, 0)
  {
    var i: nat := 251 * 10499000611104000;
    assert WORD <= 7 * i + 3 < 2 * WORD;
    assert i % 251 == 0 && i < WORD;
    AgreeModulo251(OfMap, i, 0);
    assert At(OfMap, i) != At(OfMap, 0);
  }

  // ----- The files

  /** `map.cpp`: the file is written in blocks, the last one short. A write the volume takes
      only in part, or not at all, ends it. */
  method MakeMapFile(size: nat) returns (ok: bool, file: seq<Byte>)
    ensures forall i :: 0 <= i < |file| ==> file[i] == At(OfMap, i)
    ensures |file| <= size && (ok ==> |file| == size)
  {
    var block := new Byte[BLOCK];
    ok, file := true, [];
    var at := 0;
    while ok && at < size
      invariant at <= size + BLOCK && (ok ==> |file| == if at < size then at else size)
      invariant |file| <= size
      invariant forall i :: 0 <= i < |file| ==> file[i] == At(OfMap, i)
      decreases ok, size - at
    {
      var n := if size - at < BLOCK then size - at else BLOCK;
      FillBlock(block, OfMap, at, n);
      var taken: nat :| taken <= n;
      file := file + block[..taken];
      ok := taken == n;
      at := at + BLOCK;
    }
  }

  method FillBlock(block: array<Byte>, p: Pattern, at: nat, n: nat)
    requires n <= block.Length
    modifies block
    ensures forall i :: 0 <= i < n ==> block[i] == At(p, at + i)
  {
    var i := 0;
    while i < n
      invariant 0 <= i <= n
      invariant forall k :: 0 <= k < i ==> block[k] == At(p, at + k)
    {
      block[i] := At(p, at + i);
      i := i + 1;
    }
  }

  /** `exec.cpp`: two alignments long, the second beginning with a function. */
  method MakeExecFile(code: seq<Byte>) returns (ok: bool, file: seq<Byte>)
    requires |code| <= BLOCK
    ensures ok ==> |file| == 2 * MAP_ALIGNMENT
    ensures forall i :: 0 <= i < |file| ==>
      file[i] == if MAP_ALIGNMENT <= i < MAP_ALIGNMENT + |code| then code[i - MAP_ALIGNMENT] else At(OfExec, i)
  {
    var block := new Byte[BLOCK];
    ok, file := true, [];
    var at := 0;
    while ok && at < 2 * MAP_ALIGNMENT
      invariant at % BLOCK == 0 && at <= 2 * MAP_ALIGNMENT && (ok ==> |file| == at)
      invariant forall i :: 0 <= i < |file| ==>
        file[i] == if MAP_ALIGNMENT <= i < MAP_ALIGNMENT + |code| then code[i - MAP_ALIGNMENT] else At(OfExec, i)
      decreases ok, 2 * MAP_ALIGNMENT - at
    {
      FillBlock(block, OfExec, at, BLOCK);
      if at == MAP_ALIGNMENT {
        var i := 0;
        while i < |code|
          invariant 0 <= i <= |code|
          invariant forall k :: 0 <= k < i ==> block[k] == code[k]
          invariant forall k :: i <= k < BLOCK ==> block[k] == At(OfExec, at + k)
        {
          block[i] := code[i];
          i := i + 1;
        }
      }
      var taken: nat :| taken <= BLOCK;
      file := file + block[..taken];
      ok := taken == BLOCK;
      at := at + BLOCK;
    }
  }

  // ----- The bytes of a range

  /** The byte `fill` writes at distance `i`, in the width it is computed in. */
  function FillByte(seed: Byte, i: nat): Byte {
    ((seed + i * 13 % WORD) % WORD) % 256
  }

  lemma SameByte(a: int, b: int, k: int)
    requires a == b + 256 * k
    ensures a % 256 == b % 256
  {}

  lemma WordThenByte(x: nat)
    ensures (x % WORD) % 256 == x % 256
  {
    var q, r := x / WORD, x % WORD;
    assert x == WORD * q + r;
    SameByte(x, r, 0x100_0000_0000_0000 * q);
  }

  /** The narrowing to a byte makes the width irrelevant. */
  lemma FillByteIsModulo256(seed: Byte, i: nat)
    ensures FillByte(seed, i) == (seed + 13 * i) % 256
  {
    var q, r := i * 13 / WORD, i * 13 % WORD;
    WordThenByte(seed + r);
    assert i * 13 == WORD * q + r;
    SameByte(seed + 13 * i, seed + r, 0x100_0000_0000_0000 * q);
  }

  ghost predicate Filled(s: seq<Byte>, seed: Byte) {
    forall i :: 0 <= i < |s| ==> s[i] == FillByte(seed, i)
  }

  method Fill(p: array<Byte>, from: nat, n: nat, seed: Byte)
    requires from + n <= p.Length
    modifies p
    ensures Filled(p[from..from + n], seed)
    ensures p[..from] == old(p[..from]) && p[from + n..] == old(p[from + n..])
  {
    var i := 0;
    while i < n
      invariant 0 <= i <= n
      invariant forall k :: 0 <= k < i ==> p[from + k] == FillByte(seed, k)
      invariant p[..from] == old(p[..from]) && p[from + n..] == old(p[from + n..])
    {
      p[from + i] := FillByte(seed, i);
      i := i + 1;
    }
  }

  method Holds(p: array<Byte>, from: nat, n: nat, seed: Byte) returns (b: bool)
    requires from + n <= p.Length
    ensures b <==> Filled(p[from..from + n], seed)
  {
    var i := 0;
    while i < n
      invariant 0 <= i <= n
      invariant Filled(p[from..from + i], seed)
    {
      if p[from + i] != FillByte(seed, i) {
        assert p[from..from + n][i] == p[from + i];
        return false;
      }
      assert p[from..from + i + 1] == p[from..from + i] + [p[from + i]];
      i := i + 1;
    }
    return true;
  }

  method ReadsZero(p: array<Byte>, from: nat, n: nat) returns (b: bool)
    requires from + n <= p.Length
    ensures b <==> forall i :: from <= i < from + n ==> p[i] == 0
  {
    var i := 0;
    while i < n
      invariant 0 <= i <= n
      invariant forall k :: from <= k < from + i ==> p[k] == 0
    {
      if p[from + i] != 0 {
        return false;
      }
      i := i + 1;
    }
    return true;
  }

  lemma FillByteShifts(seed: Byte, k: nat, i: nat)
    ensures FillByte((seed + 13 * k) % 256, i) == FillByte(seed, k + i)
  {
    var q := (seed + 13 * k) / 256;
    FillByteIsModulo256((seed + 13 * k) % 256, i);
    FillByteIsModulo256(seed, k + i);
    SameByte(seed + 13 * (k + i), (seed + 13 * k) % 256 + 13 * i, q);
  }

  /** What was filled with a seed holds, from its `k`th byte on, with one seed and no other:
      13k more, in a byte. */
  lemma FilledFromTheMiddle(s: seq<Byte>, seed: Byte, k: nat, seed': Byte)
    requires Filled(s, seed) && k < |s|
    ensures Filled(s[k..], seed') <==> seed' == (seed + 13 * k) % 256
  {
    FillByteIsModulo256(seed', 0);
    FillByteIsModulo256(seed, k);
    assert s[k..][0] == s[k];
    if seed' == (seed + 13 * k) % 256 {
      forall i | 0 <= i < |s| - k ensures s[k..][i] == FillByte(seed', i) {
        FillByteShifts(seed, k, i);
      }
    }
  }

  lemma ThirteenIsInvertible(d: int, m: int)
    requires 13 * d == 256 * m
    ensures d == 256 * (197 * m - 10 * d)
  {}

  /** Two places of one fill hold the same byte exactly when they are whole multiples of 256
      apart, so every page of a fill is like every other and a check of the bytes cannot tell
      two pages that were exchanged. */
  lemma FillRepeatsEvery256(seed: Byte, i: nat, j: nat)
    ensures FillByte(seed, i) == FillByte(seed, j) <==> i % 256 == j % 256
  {
    FillByteIsModulo256(seed, i);
    FillByteIsModulo256(seed, j);
    if FillByte(seed, i) == FillByte(seed, j) {
      var m := (seed + 13 * i) / 256 - (seed + 13 * j) / 256;
      ThirteenIsInvertible(i - j, m);
      SameByte(i, j, 197 * m - 10 * (i - j));
    }
    if i % 256 == j % 256 {
      SameByte(seed + 13 * i, seed + 13 * j, 13 * (i / 256 - j / 256));
    }
  }
}
