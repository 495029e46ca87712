/** CRC-32C: the table-driven form against bit-by-bit division. */
module Crc32c {

  /** The reflected generator of section 12.1 of RFC 3720. */
  const POLYNOMIAL: bv32 := 0x82F63B78

  function Xor(x: bv32, y: bv32): bv32 { x ^ y }

  function Half(x: bv32): bv32 { x >> 1 }

  predicate Odd(x: bv32) { x & 1 == 1 }

  function Low8(x: bv32): bv32 { x & 0xFF }

  function High24(x: bv32): bv32 { x & 0xFFFF_FF00 }

  function Word(b: bv8): bv32 { b as bv32 }

  // ---------------------------------------------------------------- the definition

  /** Divides one message bit into the reflected remainder. */
  function DivideBit(r: bv32, bit: bool): bv32 {
    if Odd(r) != bit then Xor(Half(r), POLYNOMIAL) else Half(r)
  }

  /** Divides the low `n` bits of `w`, least significant first. */
  function DivideBits(r: bv32, w: bv32, n: nat): bv32
    decreases n
  {
    if n == 0 then r else DivideBits(DivideBit(r, Odd(w)), Half(w), n - 1)
  }

  /** The remainder after the message, starting from `seed`. */
  function Remainder(seed: bv32, bytes: seq<bv8>): bv32
    decreases |bytes|
  {
    if bytes == [] then seed else Remainder(DivideBits(seed, Word(bytes[0]), 8), bytes[1..])
  }

  // ---------------------------------------------------------------- shifting

  /** One turn of the table builder's inner loop. */
  function Shift(c: bv32): bv32 {
    if Odd(c) then Xor(Half(c), POLYNOMIAL) else Half(c)
  }

  function Shifts(c: bv32, n: nat): bv32
    decreases n
  {
    if n == 0 then c else Shifts(Shift(c), n - 1)
  }

  function TableStep(c: bv32, b: bv8): bv32 {
    Xor(Shifts(Low8(Xor(c, Word(b))), 8), c >> 8)
  }

  lemma XorHalf(x: bv32, y: bv32)
    ensures Half(Xor(x, y)) == Xor(Half(x), Half(y))
    ensures Odd(Xor(x, y)) == (Odd(x) != Odd(y))
  {
  }

  lemma XorAssociative(x: bv32, y: bv32, z: bv32)
    ensures Xor(x, Xor(y, z)) == Xor(Xor(x, y), z)
  {
  }

  lemma XorCommutes(x: bv32, y: bv32)
    ensures Xor(x, y) == Xor(y, x)
  {
  }

  lemma XorSwap(x: bv32, y: bv32, z: bv32)
    ensures Xor(Xor(x, z), y) == Xor(Xor(x, y), z)
  {
    hide Xor;
    XorAssociative(x, z, y);
    XorCommutes(y, z);
    XorAssociative(x, y, z);
  }

  lemma XorCancel(x: bv32, z: bv32)
    ensures Xor(Xor(x, z), z) == x
    ensures Xor(x, 0) == x
  {
  }

  /** Xoring `z` into either or both operands. */
  lemma XorAlgebra(x: bv32, y: bv32, z: bv32)
    ensures Xor(Xor(x, z), y) == Xor(Xor(x, y), z)
    ensures Xor(x, Xor(y, z)) == Xor(Xor(x, y), z)
    ensures Xor(Xor(x, z), Xor(y, z)) == Xor(x, y)
  {
    hide Xor;
    XorSwap(x, y, z);
    XorAssociative(x, y, z);
    XorAssociative(Xor(x, z), y, z);
    XorCancel(Xor(x, y), z);
  }

  lemma ShiftXor(x: bv32, y: bv32)
    ensures Shift(Xor(x, y)) == Xor(Shift(x), Shift(y))
  {
    hide Xor, Half, Odd;
    XorHalf(x, y);
    XorAlgebra(Half(x), Half(y), POLYNOMIAL);
  }

  lemma BitIntoShift(c: bv32, w: bv32)
    ensures Xor(DivideBit(c, Odd(w)), Half(w)) == Shift(Xor(c, w))
  {
    hide Xor, Half, Odd;
    XorHalf(c, w);
    XorAlgebra(Half(c), Half(w), POLYNOMIAL);
  }

  lemma {:induction false} ShiftsXor(x: bv32, y: bv32, n: nat)
    ensures Shifts(Xor(x, y), n) == Xor(Shifts(x, n), Shifts(y, n))
    decreases n
  {
    hide Xor, Shift;
    if n > 0 {
      ShiftXor(x, y);
      ShiftsXor(Shift(x), Shift(y), n - 1);
    }
  }

  /** `w` with `n` bits shifted out. */
  function Dropped(w: bv32, n: nat): bv32
    decreases n
  {
    if n == 0 then w else Dropped(Half(w), n - 1)
  }

  /** Dividing `n` bits in equals xoring them in and shifting `n` times. */
  lemma {:induction false} BitsAsShifts(c: bv32, w: bv32, n: nat)
    requires Dropped(w, n) == 0
    ensures DivideBits(c, w, n) == Shifts(Xor(c, w), n)
    decreases n
  {
    hide Xor, Half, Odd, DivideBit, Shift;
    if n == 0 {
      XorCancel(c, 0);
    } else {
      BitIntoShift(c, w);
      BitsAsShifts(DivideBit(c, Odd(w)), Half(w), n - 1);
    }
  }

  /** The low `n` bits are zero. */
  predicate LowBitsZero(w: bv32, n: nat)
    decreases n
  {
    n == 0 || (!Odd(w) && LowBitsZero(Half(w), n - 1))
  }

  /** Zero bits shift out without touching the generator. */
  lemma {:induction false} ZeroBitsShift(w: bv32, n: nat)
    requires LowBitsZero(w, n)
    ensures Shifts(w, n) == Dropped(w, n)
    decreases n
  {
    hide Half, Odd;
    if n > 0 {
      ZeroBitsShift(Half(w), n - 1);
    }
  }

  lemma Drop8(w: bv32)
    ensures Dropped(w, 8) == w >> 8
  {
    var w4 := Half(Half(Half(Half(w))));
    assert w >> 8 == Half(Half(Half(Half(w4))));
    hide Half;
    assert Dropped(w, 8) == Dropped(Half(Half(w)), 6) == Dropped(w4, 4) == Dropped(Half(Half(w4)), 2);
  }

  lemma HighSplit(x: bv32)
    ensures High24(x) >> 8 == x >> 8
    ensures Xor(Low8(x), High24(x)) == x
  {
  }

  /** Bits 0 to 3 of `w`, seen by halving. */
  lemma FourLowBits(w: bv32)
    ensures w & 0xF == 0 ==> !Odd(w) && !Odd(Half(w)) && !Odd(Half(Half(w))) && !Odd(Half(Half(Half(w))))
  {
  }

  lemma HighNibbles(x: bv32)
    ensures High24(x) & 0xF == 0
    ensures Half(Half(Half(Half(High24(x))))) & 0xF == 0
  {
  }

  lemma FourZeros(w: bv32, n: nat)
    requires w & 0xF == 0 && LowBitsZero(Half(Half(Half(Half(w)))), n)
    ensures LowBitsZero(w, n + 4)
  {
    FourLowBits(w);
    hide Half, Odd;
    assert LowBitsZero(Half(Half(w)), n + 2);
  }

  lemma HighBits(x: bv32)
    ensures LowBitsZero(High24(x), 8)
  {
    var w := High24(x);
    HighNibbles(x);
    hide Half, Odd, High24;
    FourZeros(Half(Half(Half(Half(w)))), 0);
    FourZeros(w, 4);
  }

  lemma ByteFacts(c: bv32, b: bv8)
    ensures Word(b) >> 8 == 0
    ensures Xor(c, Word(b)) >> 8 == c >> 8
  {
  }

  lemma ByteAsShifts(c: bv32, b: bv8)
    ensures DivideBits(c, Word(b), 8) == Shifts(Xor(c, Word(b)), 8)
  {
    hide Xor, Word;
    ByteFacts(c, b);
    Drop8(Word(b));
    BitsAsShifts(c, Word(b), 8);
  }

  /** One table lookup divides one byte. */
  lemma TableStepDivides(c: bv32, b: bv8)
    ensures TableStep(c, b) == DivideBits(c, Word(b), 8)
  {
    hide Xor, Word, Low8, High24, Shifts, Dropped;
    var x := Xor(c, Word(b));
    ByteFacts(c, b);
    ByteAsShifts(c, b);
    HighBits(x);
    HighSplit(x);
    ShiftsXor(Low8(x), High24(x), 8);
    ZeroBitsShift(High24(x), 8);
    Drop8(High24(x));
  }

  // ---------------------------------------------------------------- chaining and detection

  /** Continuing from a remainder is dividing the concatenation. */
  lemma {:induction false} Chaining(seed: bv32, a: seq<bv8>, b: seq<bv8>)
    ensures Remainder(seed, a + b) == Remainder(Remainder(seed, a), b)
    decreases |a|
  {
    hide DivideBits, Word;
    if a == [] {
      assert a + b == b;
    } else {
      assert (a + b)[1..] == a[1..] + b;
      Chaining(DivideBits(seed, Word(a[0]), 8), a[1..], b);
    }
  }

  /** The generator's top bit tells which way a shift went. */
  lemma ShiftInjective(x: bv32, y: bv32)
    ensures Shift(x) == Shift(y) ==> x == y
  {
  }

  lemma {:induction false} ShiftsInjective(x: bv32, y: bv32, n: nat)
    ensures Shifts(x, n) == Shifts(y, n) ==> x == y
    decreases n
  {
    hide Shift;
    if n > 0 {
      ShiftInjective(x, y);
      ShiftsInjective(Shift(x), Shift(y), n - 1);
    }
  }

  lemma XorInjective(c: bv32, d: bv32, b: bv8, e: bv8)
    ensures Xor(c, Word(b)) == Xor(d, Word(b)) ==> c == d
    ensures Xor(c, Word(b)) == Xor(c, Word(e)) ==> b == e
  {
  }

  /** Different remainders stay different under the same bytes. */
  lemma {:induction false} DifferenceSurvives(c: bv32, d: bv32, bytes: seq<bv8>)
    ensures Remainder(c, bytes) == Remainder(d, bytes) ==> c == d
    decreases |bytes|
  {
    hide DivideBits, Word, Xor, Shifts;
    if bytes != [] {
      var b := bytes[0];
      ByteAsShifts(c, b);
      ByteAsShifts(d, b);
      ShiftsInjective(Xor(c, Word(b)), Xor(d, Word(b)), 8);
      XorInjective(c, d, b, b);
      DifferenceSurvives(DivideBits(c, Word(b), 8), DivideBits(d, Word(b), 8), bytes[1..]);
    }
  }

  lemma SplitAt(seed: bv32, head: seq<bv8>, b: bv8, tail: seq<bv8>)
    ensures Remainder(seed, head + [b] + tail)
            == Remainder(DivideBits(Remainder(seed, head), Word(b), 8), tail)
  {
    hide DivideBits, Word;
    assert head + [b] + tail == head + ([b] + tail);
    Chaining(seed, head, [b] + tail);
    assert ([b] + tail)[1..] == tail;
  }

  /** Changing exactly one byte changes the checksum. */
  lemma OneByteIsDetected(seed: bv32, bytes: seq<bv8>, i: nat, x: bv8)
    requires i < |bytes| && x != bytes[i]
    ensures Remainder(seed, bytes[i := x]) != Remainder(seed, bytes)
  {
    hide DivideBits, Word, Xor, Shifts, Remainder;
    var head, y, tail := bytes[..i], bytes[i], bytes[i + 1..];
    var c := Remainder(seed, head);
    assert bytes == head + [y] + tail && bytes[i := x] == head + [x] + tail;
    SplitAt(seed, head, x, tail);
    SplitAt(seed, head, y, tail);
    ByteAsShifts(c, x);
    ByteAsShifts(c, y);
    ShiftsInjective(Xor(c, Word(x)), Xor(c, Word(y)), 8);
    XorInjective(c, c, x, y);
    DifferenceSurvives(DivideBits(c, Word(x), 8), DivideBits(c, Word(y), 8), tail);
  }

  // ---------------------------------------------------------------- the program

  /** The entry for index `i`. */
  function EntryFor(i: int): bv32
    requires 0 <= i < 256
  {
    Shifts(i as bv32, 8)
  }

  /** The lazily built lookup table. */
  class Table {
    var entries: array<bv32>
    var built: bool

    ghost predicate Valid()
      reads this, entries
    {
      && entries.Length == 256
      && (built ==> forall i :: 0 <= i < 256 ==> entries[i] == EntryFor(i))
    }

    constructor ()
      ensures Valid() && fresh(entries) && !built
    {
      entries := new bv32[256];
      built := false;
    }

    method Build()
      requires Valid()
      modifies this`built, entries
      ensures Valid() && built
    {
      hide EntryFor, Shift;
      var i := 0;
      while i < 256
        invariant 0 <= i <= 256
        invariant forall k :: 0 <= k < i ==> entries[k] == EntryFor(k)
      {
        entries[i] := BuildEntry(i);
        i := i + 1;
      }
      built := true;
    }

    method Crc32c(seed: bv32, bytes: seq<bv8>) returns (crc: bv32)
      requires Valid()
      modifies this`built, entries
      ensures Valid() && built
      ensures crc == Remainder(seed, bytes)
    {
      hide DivideBits, TableStep, Shifts, Word, Xor, EntryFor, Low8;
      if !built {
        Build();
      }
      crc := seed;
      var k := 0;
      assert bytes[0..] == bytes;
      while k < |bytes|
        invariant 0 <= k <= |bytes| && Valid() && built
        invariant Remainder(crc, bytes[k..]) == Remainder(seed, bytes)
      {
        assert bytes[k..][1..] == bytes[k + 1..];
        TableStepDivides(crc, bytes[k]);
        TableIndex(crc, bytes[k]);
        crc := Xor(entries[Low8(Xor(crc, Word(bytes[k]))) as int], crc >> 8);
        k := k + 1;
      }
    }
  }

  method BuildEntry(i: int) returns (c: bv32)
    requires 0 <= i < 256
    ensures c == EntryFor(i)
  {
    hide Odd, Xor, Half;
    c := i as bv32;
    var j := 0;
    while j < 8
      invariant 0 <= j <= 8
      invariant Shifts(c, 8 - j) == EntryFor(i)
    {
      c := if Odd(c) then Xor(Half(c), POLYNOMIAL) else Half(c);
      j := j + 1;
    }
  }

  lemma TableIndex(c: bv32, b: bv8)
    ensures var i := Low8(Xor(c, Word(b))) as int;
            0 <= i < 256 && TableStep(c, b) == Xor(EntryFor(i), c >> 8)
  {
    IndexRoundTrip(Xor(c, Word(b)));
  }

  lemma IndexRoundTrip(x: bv32)
    ensures 0 <= Low8(x) as int < 256
    ensures (Low8(x) as int) as bv32 == Low8(x)
  {
  }

  // ---------------------------------------------------------------- a known value

  lemma Digits123()
    ensures DivideBits(0xFFFF_FFFF, 0x31, 8) == 0x6F0A_661C
    ensures DivideBits(0x6F0A_661C, 0x32, 8) == 0x8CAA_3B9F
    ensures DivideBits(0x8CAA_3B9F, 0x33, 8) == 0xEF84_D04D
  {
  }

  lemma Digits456()
    ensures DivideBits(0xEF84_D04D, 0x34, 8) == 0x09C5_0B11
    ensures DivideBits(0x09C5_0B11, 0x35, 8) == 0xE72E_DCCA
    ensures DivideBits(0xE72E_DCCA, 0x36, 8) == 0xBECA_8E79
  {
  }

  lemma Digits789()
    ensures DivideBits(0xBECA_8E79, 0x37, 8) == 0xEDBD_6815
    ensures DivideBits(0xEDBD_6815, 0x38, 8) == 0x9F78_7F65
    ensures DivideBits(0x9F78_7F65, 0x39, 8) == 0x1CF9_6D7C
  {
  }

  lemma NextByte(seed: bv32, b: bv8, rest: seq<bv8>)
    ensures Remainder(seed, [b] + rest) == Remainder(DivideBits(seed, Word(b), 8), rest)
  {
    hide DivideBits;
    assert ([b] + rest)[1..] == rest;
  }

  /** The check value of CRC-32C: the digits 1 to 9 give 0xE3069283, once inverted. */
  lemma CheckValue()
    ensures Remainder(0xFFFF_FFFF, [0x31, 0x32, 0x33, 0x34, 0x35, 0x36, 0x37, 0x38, 0x39]) == !0xE306_9283
  {
    hide DivideBits, Remainder;
    Digits123();
    Digits456();
    Digits789();
    NothingLeft(0x1CF9_6D7C);
    var s9: seq<bv8> := [];
    var s8: seq<bv8> := [0x39] + s9;
    NextByte(0x9F78_7F65, 0x39, s9);
    var s7: seq<bv8> := [0x38] + s8;
    NextByte(0xEDBD_6815, 0x38, s8);
    var s6: seq<bv8> := [0x37] + s7;
    NextByte(0xBECA_8E79, 0x37, s7);
    var s5: seq<bv8> := [0x36] + s6;
    NextByte(0xE72E_DCCA, 0x36, s6);
    var s4: seq<bv8> := [0x35] + s5;
    NextByte(0x09C5_0B11, 0x35, s5);
    var s3: seq<bv8> := [0x34] + s4;
    NextByte(0xEF84_D04D, 0x34, s4);
    var s2: seq<bv8> := [0x33] + s3;
    NextByte(0x8CAA_3B9F, 0x33, s3);
    var s1: seq<bv8> := [0x32] + s2;
    NextByte(0x6F0A_661C, 0x32, s2);
    var s0: seq<bv8> := [0x31] + s1;
    NextByte(0xFFFF_FFFF, 0x31, s1);
    assert s0 == [0x31, 0x32, 0x33, 0x34, 0x35, 0x36, 0x37, 0x38, 0x39];
  }

  lemma NothingLeft(seed: bv32)
    ensures Remainder(seed, []) == seed
  {
  }
}
