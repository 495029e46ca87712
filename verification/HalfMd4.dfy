/** The name hash of hashed directories: its round functions, its input packing and the
    values it never returns. */
module HalfMd4 {

  // ---------------------------------------------------------------- round functions

  function F(x: bv32, y: bv32, z: bv32): bv32 { z ^ (x & (y ^ z)) }

  function G(x: bv32, y: bv32, z: bv32): bv32 { (x & y) + ((x ^ y) & z) }

  function H(x: bv32, y: bv32, z: bv32): bv32 { x ^ y ^ z }

  lemma FIsSelection(x: bv32, y: bv32, z: bv32)
    ensures F(x, y, z) == (x & y) | (!x & z)
  {
  }

  lemma NoCommonBits(x: bv32, y: bv32, z: bv32)
    ensures (x & y) & ((x ^ y) & z) == 0
  {
  }

  lemma NoCarry(a: bv32, b: bv32)
    requires a & b == 0
    ensures a + b == a | b
  {
  }

  lemma Majority(x: bv32, y: bv32, z: bv32)
    ensures (x & y) | ((x ^ y) & z) == (x & y) | (x & z) | (y & z)
  {
  }

  /** The addition in G never carries. */
  lemma GIsMajority(x: bv32, y: bv32, z: bv32)
    ensures G(x, y, z) == (x & y) | (x & z) | (y & z)
  {
    NoCommonBits(x, y, z);
    NoCarry(x & y, (x ^ y) & z);
    Majority(x, y, z);
  }

  /** A bit of H is set when an odd number of the three is. */
  lemma HIsParity(x: bv32, y: bv32, z: bv32)
    ensures H(x, y, z) == (x & !y & !z) | (!x & y & !z) | (!x & !y & z) | (x & y & z)
  {
  }

  /** They are the selection, majority and parity of section 3.4 of RFC 1320, the first two
      computed with fewer operations. */
  lemma RoundFunctions(x: bv32, y: bv32, z: bv32)
    ensures F(x, y, z) == (x & y) | (!x & z)
    ensures G(x, y, z) == (x & y) | (x & z) | (y & z)
    ensures H(x, y, z) == (x & !y & !z) | (!x & y & !z) | (!x & !y & z) | (x & y & z)
  {
    hide F, G, H;
    FIsSelection(x, y, z);
    GIsMajority(x, y, z);
    HIsParity(x, y, z);
  }

  // ---------------------------------------------------------------- input packing

  const WORDS := 8

  /** A name byte as a 32-bit word: sign-extended for the signed hash versions. */
  function Extend(b: bv8, unsigned: bool): bv32 {
    if unsigned || b < 0x80 then b as bv32 else (b as bv32) | 0xFFFF_FF00
  }

  function Padding(slen: bv32): bv32 { slen | (slen << 8) | (slen << 16) | (slen << 24) }

  function Shift(acc: bv32, byte: bv32): bv32 { (acc << 8) + byte }

  /** Bytes `lo..hi` shifted into `acc`. */
  function Fold(src: seq<bv8>, lo: nat, hi: nat, acc: bv32, unsigned: bool): bv32
    requires lo <= hi <= |src|
    decreases hi - lo
  {
    if lo == hi then acc else Shift(Fold(src, lo, hi - 1, acc, unsigned), Extend(src[hi - 1], unsigned))
  }

  function Min(a: nat, b: nat): nat { if a < b then a else b }

  /** Word `k` of the packed input: its four bytes, or fewer at the end of the string, after
      the padding. */
  function PackedWord(src: seq<bv8>, pad: bv32, k: nat, unsigned: bool): bv32 {
    var used := Min(|src|, 4 * WORDS);
    Fold(src, Min(4 * k, used), Min(4 * k + 4, used), pad, unsigned)
  }

  /** Known words: the name "ab" and the padding after it, and a byte above 0x7F, read unsigned
      and signed. */
  lemma KnownWords(unsigned: bool)
    ensures PackedWord([0x61, 0x62], Padding(2), 0, unsigned) == 0x0202_6162
    ensures PackedWord([0x61, 0x62], Padding(2), 1, unsigned) == 0x0202_0202
    ensures PackedWord([0xE9], Padding(1), 0, true) == 0x0101_01E9 && PackedWord([0xE9], Padding(1), 0, false) == 0x0101_00E9
  {
    var ab: seq<bv8>, e: seq<bv8> := [0x61, 0x62], [0xE9];
    assert Fold(ab, 0, 1, 0x0202_0202, unsigned) == 0x0202_0261;
    assert Fold(ab, 0, 2, 0x0202_0202, unsigned) == 0x0202_6162;
    assert Fold(e, 0, 1, 0x0101_0101, true) == 0x0101_01E9 && Fold(e, 0, 1, 0x0101_0101, false) == 0x0101_00E9;
  }

  /** Packs a string of any length: exactly eight words are filled. */
  method PrepHashbuf(src: seq<bv8>, slen: bv32, unsigned: bool, dst: array<bv32>)
    requires dst.Length == WORDS
    modifies dst
    ensures forall k :: 0 <= k < WORDS ==> dst[k] == PackedWord(src, Padding(slen), k, unsigned)
  {
    hide Shift, Extend, Padding;
    var pad := Padding(slen);
    var buf, consume, n := pad, Min(|src|, 4 * WORDS), 0;
    var i := 0;
    while i < consume
      invariant 0 <= i <= consume && n == i / 4 <= WORDS
      invariant buf == Fold(src, 4 * n, i, pad, unsigned)
      invariant forall k :: 0 <= k < n ==> dst[k] == PackedWord(src, pad, k, unsigned)
    {
      if i % 4 == 0 { buf := pad; }
      buf := Shift(buf, Extend(src[i], unsigned));
      if i % 4 == 3 {
        dst[n] := buf;
        n := n + 1;
        buf := pad;
      }
      i := i + 1;
    }
    if n < WORDS {
      dst[n] := buf;
      n := n + 1;
    }
    while n < WORDS
      invariant consume / 4 <= n <= WORDS && 4 * n >= consume
      invariant forall k :: 0 <= k < n ==> dst[k] == PackedWord(src, pad, k, unsigned)
    {
      dst[n] := pad;
      n := n + 1;
    }
  }

  // ---------------------------------------------------------------- the major hash

  const END_MARK: bv32 := 0xFFFF_FFFE
  const LAST_HASH: bv32 := 0xFFFF_FFFC

  function Even(h: bv32): bv32 { h & 0xFFFF_FFFE }

  /** The low bit is reserved, and the end-of-directory value is avoided. */
  function Major(h: bv32): bv32 {
    if Even(h) == END_MARK then LAST_HASH else Even(h)
  }

  lemma EvenFacts(h: bv32)
    ensures Even(h) & 1 == 0 && Even(Even(h)) == Even(h) && Even(LAST_HASH) == LAST_HASH
    ensures Even(h) != END_MARK ==> Even(h) <= LAST_HASH
    ensures (Even(h) == END_MARK <==> h >= 0xFFFF_FFFE) && (Even(h) == h || Even(h) == h - 1)
  {
  }

  lemma EvenOrder(h: bv32, g: bv32)
    requires h <= g
    ensures Even(h) <= Even(g)
    ensures Even(h) == END_MARK ==> Even(g) == END_MARK
  {
  }

  /** Directory hashes are the raw values rounded down to even ones, the end mark further,
      and keep their order. */
  lemma MajorIsUsable(h: bv32, g: bv32)
    ensures Major(h) & 1 == 0 && Major(h) <= LAST_HASH && Major(h) != END_MARK
    ensures Major(Major(h)) == Major(h)
    ensures h <= g ==> Major(h) <= Major(g)
    ensures if h < 0xFFFF_FFFE then Major(h) == h || Major(h) == h - 1 else Major(h) == 0xFFFF_FFFC
  {
    hide Even;
    EvenFacts(h);
    EvenFacts(g);
    if h <= g {
      EvenOrder(h, g);
    }
  }
}
