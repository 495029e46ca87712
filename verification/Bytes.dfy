/** Big- and little-endian fields and in-place patches of byte strings. */
module Bytes {
  import opened Words

  function Join(b0: int, b1: int, b2: int, b3: int): int {
    b0 * 0x100_0000 + b1 * 0x1_0000 + b2 * 0x100 + b3
  }

  function Be32(b: seq<Byte>, off: nat): Word
    requires off + 4 <= |b|
  {
    Join(b[off], b[off + 1], b[off + 2], b[off + 3])
  }

  function Be16(b: seq<Byte>, off: nat): (v: Word)
    requires off + 2 <= |b|
    ensures v < 0x1_0000
  {
    Join(0, 0, b[off], b[off + 1])
  }

  function Pack32(v: Word): (r: seq<Byte>)
    ensures |r| == 4
  {
    [v / 0x100_0000, v / 0x1_0000 % 0x100, v / 0x100 % 0x100, v % 0x100]
  }

  function Pack16(v: Word): (r: seq<Byte>)
    requires v < 0x1_0000
    ensures |r| == 2
  {
    [v / 0x100, v % 0x100]
  }

  function Zeros(n: nat): (r: seq<Byte>)
    ensures |r| == n
  {
    seq(n, _ => 0)
  }

  /** `b` with `field` written at `off`. */
  function Patch(b: seq<Byte>, off: nat, field: seq<Byte>): (r: seq<Byte>)
    requires off + |field| <= |b|
    ensures |r| == |b|
    ensures forall i :: 0 <= i < |b| ==> r[i] == if off <= i < off + |field| then field[i - off] else b[i]
  {
    b[..off] + field + b[off + |field|..]
  }

  /** Writes a field into a buffer in place. */
  method Put(a: array<Byte>, off: nat, field: seq<Byte>)
    requires off + |field| <= a.Length
    modifies a
    ensures a[..] == Patch(old(a[..]), off, field)
  {
    var i := 0;
    while i < |field|
      invariant 0 <= i <= |field|
      invariant forall k :: 0 <= k < a.Length ==> a[k] == if off <= k < off + i then field[k - off] else old(a[k])
    {
      a[off + i] := field[i];
      i := i + 1;
    }
    assert a[..] == Patch(old(a[..]), off, field);
  }

  /** Reading back a packed word, wherever it stands. */
  lemma Pack32RoundTrip(b: seq<Byte>, off: nat, v: Word)
    requires off + 4 <= |b| && b[off..off + 4] == Pack32(v)
    ensures Be32(b, off) == v
  {
    assert b[off..off + 4][0] == b[off] && b[off..off + 4][1] == b[off + 1];
    assert b[off..off + 4][2] == b[off + 2] && b[off..off + 4][3] == b[off + 3];
    JoinSplit(v);
  }

  lemma JoinSplit(v: Word)
    ensures Join(v / 0x100_0000, v / 0x1_0000 % 0x100, v / 0x100 % 0x100, v % 0x100) == v
  {
    assert v / 0x1_0000 == v / 0x100 / 0x100;
    assert v / 0x100_0000 == v / 0x1_0000 / 0x100;
  }

  lemma Pack16RoundTrip(b: seq<Byte>, off: nat, v: Word)
    requires v < 0x1_0000 && off + 2 <= |b| && b[off..off + 2] == Pack16(v)
    ensures Be16(b, off) == v
  {
    assert b[off..off + 2][0] == b[off] && b[off..off + 2][1] == b[off + 1];
  }

  /** A packed word between other bytes. */
  lemma WordBetween(a: seq<Byte>, v: Word, c: seq<Byte>)
    ensures Be32(a + Pack32(v) + c, |a|) == v
  {
    var s := a + Pack32(v) + c;
    assert s[|a|..|a| + 4] == Pack32(v);
    Pack32RoundTrip(s, |a|, v);
  }

  lemma HalfWordBetween(a: seq<Byte>, v: Word, c: seq<Byte>)
    requires v < 0x1_0000
    ensures Be16(a + Pack16(v) + c, |a|) == v
  {
    var s := a + Pack16(v) + c;
    assert s[|a|..|a| + 2] == Pack16(v);
    Pack16RoundTrip(s, |a|, v);
  }

  lemma DropFront(front: seq<Byte>, rest: seq<Byte>)
    ensures (front + rest)[|front|..] == rest
  {
  }

  lemma SubSlice(b: seq<Byte>, off: nat, n: nat, i: nat, j: nat)
    requires off + n <= |b| && i <= j <= n
    ensures b[off + i..off + j] == b[off..off + n][i..j]
  {
    var x, y := b[off + i..off + j], b[off..off + n][i..j];
    forall k | 0 <= k < j - i ensures x[k] == y[k] {
      assert x[k] == b[off + i + k];
    }
  }

  /** A 32-bit field determines its four bytes. */
  lemma Be32Unique(b: seq<Byte>, off: nat, v: Word)
    requires off + 4 <= |b| && Be32(b, off) == v
    ensures b[off..off + 4] == Pack32(v)
  {
    SplitJoin(b[off], b[off + 1], b[off + 2], b[off + 3]);
  }

  lemma SplitJoin(b0: int, b1: int, b2: int, b3: int)
    requires 0 <= b0 < 0x100 && 0 <= b1 < 0x100 && 0 <= b2 < 0x100 && 0 <= b3 < 0x100
    ensures var v := Join(b0, b1, b2, b3);
            v / 0x100_0000 == b0 && v / 0x1_0000 % 0x100 == b1 && v / 0x100 % 0x100 == b2 && v % 0x100 == b3
  {
    var v := Join(b0, b1, b2, b3);
    assert v / 0x100 == b0 * 0x1_0000 + b1 * 0x100 + b2;
    assert v / 0x1_0000 == b0 * 0x100 + b1;
  }

  // ---------------------------------------------------------------- little-endian

  function Le32(b: seq<Byte>, off: nat): Word
    requires off + 4 <= |b|
  {
    Join(b[off + 3], b[off + 2], b[off + 1], b[off])
  }

  function Le16(b: seq<Byte>, off: nat): (v: Word)
    requires off + 2 <= |b|
    ensures v < 0x1_0000
  {
    Join(0, 0, b[off + 1], b[off])
  }

  function PackLittle(v: Word): (r: seq<Byte>)
    ensures |r| == 4
  {
    [v % 0x100, v / 0x100 % 0x100, v / 0x1_0000 % 0x100, v / 0x100_0000]
  }

  function PackLittle16(v: Word): (r: seq<Byte>)
    requires v < 0x1_0000
    ensures |r| == 2
  {
    [v % 0x100, v / 0x100]
  }

  lemma LittleRoundTrip(b: seq<Byte>, off: nat, v: Word)
    requires off + 4 <= |b| && b[off..off + 4] == PackLittle(v)
    ensures Le32(b, off) == v
  {
    var f := b[off..off + 4];
    assert f[0] == b[off] && f[1] == b[off + 1] && f[2] == b[off + 2] && f[3] == b[off + 3];
    JoinSplit(v);
  }

  lemma LittleRoundTrip16(b: seq<Byte>, off: nat, v: Word)
    requires v < 0x1_0000 && off + 2 <= |b| && b[off..off + 2] == PackLittle16(v)
    ensures Le16(b, off) == v
  {
    var f := b[off..off + 2];
    assert f[0] == b[off] && f[1] == b[off + 1];
  }

  lemma SameWord(b: seq<Byte>, b': seq<Byte>, off: nat)
    requires off + 4 <= |b| == |b'| && forall i :: off <= i < off + 4 ==> b'[i] == b[i]
    ensures Le32(b', off) == Le32(b, off)
  {
  }

  lemma SameHalf(b: seq<Byte>, b': seq<Byte>, off: nat)
    requires off + 2 <= |b| == |b'| && forall i :: off <= i < off + 2 ==> b'[i] == b[i]
    ensures Le16(b', off) == Le16(b, off)
  {
  }

  lemma PatchedWord(b: seq<Byte>, off: nat, v: Word)
    requires off + 4 <= |b|
    ensures Le32(Patch(b, off, PackLittle(v)), off) == v
  {
    hide PackLittle, Le32;
    LittleRoundTrip(Patch(b, off, PackLittle(v)), off, v);
  }

  lemma PatchedHalf(b: seq<Byte>, off: nat, v: Word)
    requires off + 2 <= |b| && v < 0x1_0000
    ensures Le16(Patch(b, off, PackLittle16(v)), off) == v
  {
    hide PackLittle16, Le16;
    LittleRoundTrip16(Patch(b, off, PackLittle16(v)), off, v);
  }

  // ---------------------------------------------------------------- place value

  /** The number that `n` bytes spell, the most significant first. */
  function Big(b: seq<Byte>, off: nat, n: nat): nat
    requires off + n <= |b|
  {
    if n == 0 then 0 else 0x100 * Big(b, off, n - 1) + b[off + n - 1]
  }

  /** The number that `n` bytes spell, the least significant first. */
  function Little(b: seq<Byte>, off: nat, n: nat): nat
    requires off + n <= |b|
    decreases n
  {
    if n == 0 then 0 else b[off] + 0x100 * Little(b, off + 1, n - 1)
  }

  lemma BigFields(b: seq<Byte>, off: nat)
    requires off + 4 <= |b|
    ensures Big(b, off, 4) == Be32(b, off) && Big(b, off, 2) == Be16(b, off)
  {
    BigHalf(b, off);
    var b0: int, b1: int, b2: int := b[off], b[off + 1], b[off + 2];
    assert Big(b, off, 3) == 0x1_0000 * b0 + 0x100 * b1 + b2;
  }

  lemma BigHalf(b: seq<Byte>, off: nat)
    requires off + 2 <= |b|
    ensures Big(b, off, 2) == Be16(b, off)
  {
    assert Big(b, off, 1) == b[off];
  }

  lemma LittleHalf(b: seq<Byte>, off: nat)
    requires off + 2 <= |b|
    ensures Little(b, off, 2) == Le16(b, off)
  {
    assert Little(b, off + 1, 1) == b[off + 1];
  }

  lemma LittleFields(b: seq<Byte>, off: nat)
    requires off + 4 <= |b|
    ensures Little(b, off, 4) == Le32(b, off) && Little(b, off, 2) == Le16(b, off)
  {
    LittleHalf(b, off);
    LittleHalf(b, off + 2);
    var b1: int, b2: int, b3: int := b[off + 1], b[off + 2], b[off + 3];
    assert Little(b, off + 1, 3) == b1 + 0x100 * b2 + 0x1_0000 * b3;
  }

  lemma BigDouble(b: seq<Byte>, off: nat)
    requires off + 8 <= |b|
    ensures Big(b, off, 8) == 0x1_0000_0000 * Big(b, off, 4) + Big(b, off + 4, 4)
  {
    var h := Big(b, off, 4);
    var b4: int, b5: int, b6: int := b[off + 4], b[off + 5], b[off + 6];
    BigFields(b, off + 4);
    assert Big(b, off, 5) == 0x100 * h + b4;
    assert Big(b, off, 6) == 0x1_0000 * h + 0x100 * b4 + b5;
    assert Big(b, off, 7) == 0x100_0000 * h + 0x1_0000 * b4 + 0x100 * b5 + b6;
  }
}
