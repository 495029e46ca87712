/** Bitmaps, descriptors, free counts and inodes as bytes in the blocks of a volume, and the
    transactions of extension and truncation as such blocks. */
module VolumeOnDisk {
  import opened Words
  import opened Bytes
  import opened LogWalk
  import opened Programs
  import opened Commit
  import opened CrashSafety
  import opened Extents
  import opened Bitmaps
  import opened Volumes
  import opened SmallBlocks
  import T = Truncation
  import B = ByteFormat
  import J = Superblocks

  // ---------------------------------------------------------------- bits

  /** Bit `j` of a byte, and the byte with that bit set or cleared. */
  predicate BitOn(x: nat, j: nat) {
    if j == 0 then x % 2 == 1 else BitOn(x / 2, j - 1)
  }

  function WithBit(x: nat, j: nat, on: bool): nat {
    if j == 0 then x - x % 2 + (if on then 1 else 0) else WithBit(x / 2, j - 1, on) * 2 + x % 2
  }

  lemma {:induction false} BitSet(x: nat, j: nat, k: nat, on: bool)
    ensures BitOn(WithBit(x, j, on), k) == if k == j then on else BitOn(x, k)
  {
    if j > 0 {
      var w := WithBit(x / 2, j - 1, on);
      assert (w * 2 + x % 2) / 2 == w && (w * 2 + x % 2) % 2 == x % 2;
      if k > 0 { BitSet(x / 2, j - 1, k - 1, on); }
    } else {
      assert (x - x % 2 + 1) / 2 == (x - x % 2) / 2 == x / 2;
    }
  }

  lemma {:induction false} BitInByte(x: nat, j: nat, on: bool, n: nat)
    requires j < n && x < Pow2(n)
    ensures WithBit(x, j, on) < Pow2(n)
  {
    var half := Pow2(n - 1);
    assert Pow2(n) == 2 * half && x == 2 * (x / 2) + x % 2 && x / 2 < half;
    if j > 0 {
      BitInByte(x / 2, j - 1, on, n - 1);
      assert WithBit(x, j, on) == WithBit(x / 2, j - 1, on) * 2 + x % 2;
    }
  }

  function Pow2(n: nat): nat { if n == 0 then 1 else 2 * Pow2(n - 1) }

  function WithBitOf(x: Byte, j: nat, on: bool): (r: Byte)
    requires j < 8
  {
    assert Pow2(8) == 0x100 by { assert Pow2(4) == 16; }
    BitInByte(x, j, on, 8);
    WithBit(x, j, on)
  }

  predicate BitAt(b: Bytes1024, k: nat)
    requires k < 8 * SIZE
  {
    BitOn(b[k / 8], k % 8)
  }

  function SetBit(b: Bytes1024, k: nat, on: bool): Bytes1024
    requires k < 8 * SIZE
  {
    b[k / 8 := WithBitOf(b[k / 8], k % 8, on)]
  }

  function BitsOf(b: Bytes1024, n: nat): (r: seq<bool>)
    requires n <= 8 * SIZE
    ensures |r| == n
  {
    seq(n, k requires 0 <= k < n => BitAt(b, k))
  }

  lemma SetBitSets(b: Bytes1024, n: nat, k: nat, on: bool)
    requires k < n <= 8 * SIZE
    ensures BitsOf(SetBit(b, k, on), n) == BitsOf(b, n)[k := on]
  {
    hide BitOn, WithBit;
    var b' := SetBit(b, k, on);
    forall i | 0 <= i < n ensures BitAt(b', i) == if i == k then on else BitAt(b, i) {
      if i / 8 == k / 8 {
        BitSet(b[k / 8], k % 8, i % 8, on);
        assert i % 8 == k % 8 ==> i == k;
      }
    }
  }

  // ---------------------------------------------------------------- where things are

  /** Where the allocator finds things: each group's bitmap block, each inode's block of the
      inode table and slot in it. None of this changes in an extension or a truncation. The
      descriptors are block 2 and the superblock is block 1. `meta` says whether the volume
      has metadata checksums; the functions compute them. */
  datatype Places = Places(
    lay: Layout, bitmaps: seq<nat>, inodes: map<nat, (nat, nat)>, inodeSize: InodeSize, meta: bool,
    bitmapSum: seq<Byte> -> Word, descSum: (nat, seq<Byte>) -> Word, inodeSum: (nat, seq<Byte>) -> Word)

  const SB: nat := 1
  const DESCS: nat := 2

  // ---------------------------------------------------------------- descriptors

  const FREE_LOW := 0x0C
  const FREE_HIGH := 0x2C
  const BITMAP_SUM_LOW := 0x18
  const BITMAP_SUM_HIGH := 0x38
  const DESC_SUM := 0x1E

  function DescSize(lay: Layout): nat { if lay.wide then 64 else 32 }

  predicate HasDesc(lay: Layout, g: nat) {
    (g + 1) * DescSize(lay) <= SIZE
  }

  /** Both halves of a group's free count. */
  function CountAt(b: Bytes1024, lay: Layout, g: nat): (Half, Half)
    requires HasDesc(lay, g)
  {
    var at := g * DescSize(lay);
    (Le16(b, at + FREE_LOW), if lay.wide then Le16(b, at + FREE_HIGH) else 0)
  }

  function WithCount(b: Bytes1024, lay: Layout, g: nat, lo: Half, hi: Half): Bytes1024
    requires HasDesc(lay, g)
  {
    var at := g * DescSize(lay);
    var b1 := Patch(b, at + FREE_LOW, PackLittle16(lo));
    if lay.wide then Patch(b1, at + FREE_HIGH, PackLittle16(hi)) else b1
  }

  /** The bitmap's checksum in its descriptor, and then the descriptor's own: zero on volumes
      without metadata checksums. */
  function WithBitmapSum(pl: Places, b: Bytes1024, g: nat, bitmap: Bytes1024): Bytes1024
    requires HasDesc(pl.lay, g) && pl.lay.perGroup <= 8 * SIZE
  {
    var at := g * DescSize(pl.lay);
    var sum := if pl.meta then pl.bitmapSum(bitmap[..pl.lay.perGroup / 8]) else 0;
    var b1 := Patch(b, at + BITMAP_SUM_LOW, PackLittle16(sum % 0x1_0000));
    if pl.lay.wide then Patch(b1, at + BITMAP_SUM_HIGH, PackLittle16(sum / 0x1_0000)) else b1
  }

  function WithDescSum(pl: Places, b: Bytes1024, g: nat): Bytes1024
    requires HasDesc(pl.lay, g)
  {
    var at := g * DescSize(pl.lay);
    var sum := if pl.meta then pl.descSum(g, Patch(b, at + DESC_SUM, Zeros(2))[at..at + DescSize(pl.lay)]) % 0x1_0000 else 0;
    Patch(b, at + DESC_SUM, PackLittle16(sum))
  }

  /** The descriptor block after group `g`'s count and bitmap have changed. */
  function DescEdit(pl: Places, b: Bytes1024, g: nat, lo: Half, hi: Half, bitmap: Bytes1024): Bytes1024
    requires HasDesc(pl.lay, g) && pl.lay.perGroup <= 8 * SIZE
  {
    WithDescSum(pl, WithBitmapSum(pl, WithCount(b, pl.lay, g, lo, hi), g, bitmap), g)
  }

  lemma DescApart(lay: Layout, g: nat, h: nat)
    requires g < h
    ensures (g + 1) * DescSize(lay) <= h * DescSize(lay)
  {
    Scaled(g + 1, h, DescSize(lay));
  }

  /** A field that is no count, or another group's, leaves a count alone. */
  lemma PatchKeepsCount(b: Bytes1024, lay: Layout, g: nat, at: nat, f: seq<Byte>, h: nat)
    requires HasDesc(lay, g) && HasDesc(lay, h) && |f| == 2 && at + 2 <= DescSize(lay)
    requires h == g ==> (at + 2 <= FREE_LOW || at >= FREE_LOW + 2) && (at + 2 <= FREE_HIGH || at >= FREE_HIGH + 2)
    ensures g * DescSize(lay) + at + 2 <= SIZE
    ensures CountAt(Patch(b, g * DescSize(lay) + at, f), lay, h) == CountAt(b, lay, h)
  {
    if g < h { DescApart(lay, g, h); } else if h < g { DescApart(lay, h, g); }
  }

  lemma LowSets(b: Bytes1024, lay: Layout, g: nat, lo: Half, h: nat)
    requires HasDesc(lay, g) && HasDesc(lay, h)
    ensures CountAt(Patch(b, g * DescSize(lay) + FREE_LOW, PackLittle16(lo)), lay, h)
            == if h == g then (lo, CountAt(b, lay, g).1) else CountAt(b, lay, h)
  {
    hide PackLittle16, Le16;
    var at := g * DescSize(lay);
    var b' := Patch(b, at + FREE_LOW, PackLittle16(lo));
    if h == g {
      PatchedHalf(b, at + FREE_LOW, lo);
      if lay.wide { SameHalf(b, b', at + FREE_HIGH); }
    } else {
      PatchKeepsCount(b, lay, g, FREE_LOW, PackLittle16(lo), h);
    }
  }

  lemma HighSets(b: Bytes1024, lay: Layout, g: nat, hi: Half, h: nat)
    requires HasDesc(lay, g) && HasDesc(lay, h) && lay.wide
    ensures CountAt(Patch(b, g * DescSize(lay) + FREE_HIGH, PackLittle16(hi)), lay, h)
            == if h == g then (CountAt(b, lay, g).0, hi) else CountAt(b, lay, h)
  {
    hide PackLittle16, Le16;
    var at := g * DescSize(lay);
    var b' := Patch(b, at + FREE_HIGH, PackLittle16(hi));
    if h == g {
      PatchedHalf(b, at + FREE_HIGH, hi);
      SameHalf(b, b', at + FREE_LOW);
    } else {
      PatchKeepsCount(b, lay, g, FREE_HIGH, PackLittle16(hi), h);
    }
  }

  lemma FieldFits(lay: Layout, g: nat, at: nat)
    requires HasDesc(lay, g) && at + 2 <= DescSize(lay)
    ensures g * DescSize(lay) + at + 2 <= SIZE
  {
  }

  lemma WithCountSets(b: Bytes1024, lay: Layout, g: nat, lo: Half, hi: Half, h: nat)
    requires HasDesc(lay, g) && HasDesc(lay, h) && (!lay.wide ==> hi == 0)
    ensures CountAt(WithCount(b, lay, g, lo, hi), lay, h) == if h == g then (lo, hi) else CountAt(b, lay, h)
  {
    hide PackLittle16, CountAt, Patch;
    FieldFits(lay, g, FREE_LOW);
    LowSets(b, lay, g, lo, g);
    LowSets(b, lay, g, lo, h);
    NarrowHigh(b, lay, g);
    if lay.wide {
      FieldFits(lay, g, FREE_HIGH);
      HighSets(Patch(b, g * DescSize(lay) + FREE_LOW, PackLittle16(lo)), lay, g, hi, h);
    }
  }

  lemma NarrowHigh(b: Bytes1024, lay: Layout, g: nat)
    requires HasDesc(lay, g)
    ensures !lay.wide ==> CountAt(b, lay, g).1 == 0
  {
  }

  lemma BitmapSumKeepsCount(pl: Places, b: Bytes1024, g: nat, bitmap: Bytes1024, h: nat)
    requires HasDesc(pl.lay, g) && HasDesc(pl.lay, h) && pl.lay.perGroup <= 8 * SIZE
    ensures CountAt(WithBitmapSum(pl, b, g, bitmap), pl.lay, h) == CountAt(b, pl.lay, h)
  {
    hide PackLittle16, CountAt, Patch;
    var at := g * DescSize(pl.lay);
    var sum := if pl.meta then pl.bitmapSum(bitmap[..pl.lay.perGroup / 8]) else 0;
    var low, high := PackLittle16(sum % 0x1_0000), PackLittle16(sum / 0x1_0000);
    PatchKeepsCount(b, pl.lay, g, BITMAP_SUM_LOW, low, h);
    if pl.lay.wide { PatchKeepsCount(Patch(b, at + BITMAP_SUM_LOW, low), pl.lay, g, BITMAP_SUM_HIGH, high, h); }
  }

  lemma DescSumKeepsCount(pl: Places, b: Bytes1024, g: nat, h: nat)
    requires HasDesc(pl.lay, g) && HasDesc(pl.lay, h)
    ensures CountAt(WithDescSum(pl, b, g), pl.lay, h) == CountAt(b, pl.lay, h)
  {
    hide PackLittle16, CountAt, Patch;
    var at := g * DescSize(pl.lay);
    var sum := if pl.meta then pl.descSum(g, Patch(b, at + DESC_SUM, Zeros(2))[at..at + DescSize(pl.lay)]) % 0x1_0000 else 0;
    PatchKeepsCount(b, pl.lay, g, DESC_SUM, PackLittle16(sum), h);
  }

  lemma DescEditSets(pl: Places, b: Bytes1024, g: nat, lo: Half, hi: Half, bitmap: Bytes1024, h: nat)
    requires HasDesc(pl.lay, g) && HasDesc(pl.lay, h) && pl.lay.perGroup <= 8 * SIZE && (!pl.lay.wide ==> hi == 0)
    ensures CountAt(DescEdit(pl, b, g, lo, hi, bitmap), pl.lay, h) == if h == g then (lo, hi) else CountAt(b, pl.lay, h)
  {
    hide CountAt, WithCount, WithBitmapSum, WithDescSum;
    var b1 := WithCount(b, pl.lay, g, lo, hi);
    WithCountSets(b, pl.lay, g, lo, hi, h);
    BitmapSumKeepsCount(pl, b1, g, bitmap, h);
    DescSumKeepsCount(pl, WithBitmapSum(pl, b1, g, bitmap), g, h);
  }

  // ---------------------------------------------------------------- the superblock's count

  const SB_FREE_LOW := 0x0C
  const SB_FREE_HIGH := 0x158

  function FreeAt(b: Bytes1024, wide: bool): nat {
    Le32(b, SB_FREE_LOW) + if wide then 0x1_0000_0000 * Le32(b, SB_FREE_HIGH) else 0
  }

  function WithFree(cfg: B.Config, b: Bytes1024, wide: bool, free: nat): Bytes1024 {
    var b1 := Patch(b, SB_FREE_LOW, PackLittle(free % 0x1_0000_0000));
    var b2 := if wide then Patch(b1, SB_FREE_HIGH, PackLittle(free / 0x1_0000_0000 % 0x1_0000_0000)) else b1;
    J.SumSuperblock(cfg, b2)
  }

  lemma SumKeepsFree(cfg: B.Config, b: Bytes1024, wide: bool)
    ensures FreeAt(J.SumSuperblock(cfg, b), wide) == FreeAt(b, wide)
  {
    hide Le32, PackLittle;
    var b' := J.SumSuperblock(cfg, b);
    SameWord(b, b', SB_FREE_LOW);
    SameWord(b, b', SB_FREE_HIGH);
  }

  lemma WithFreeSets(cfg: B.Config, b: Bytes1024, wide: bool, free: nat)
    requires free < if wide then 0x1_0000_0000_0000_0000 else 0x1_0000_0000
    ensures FreeAt(WithFree(cfg, b, wide, free), wide) == free
  {
    hide Le32, PackLittle, J.SumSuperblock;
    var b1 := Patch(b, SB_FREE_LOW, PackLittle(free % 0x1_0000_0000));
    var b2 := if wide then Patch(b1, SB_FREE_HIGH, PackLittle(free / 0x1_0000_0000 % 0x1_0000_0000)) else b1;
    LittleRoundTrip(b1, SB_FREE_LOW, free % 0x1_0000_0000);
    if wide {
      SameWord(b1, b2, SB_FREE_LOW);
      LittleRoundTrip(b2, SB_FREE_HIGH, free / 0x1_0000_0000 % 0x1_0000_0000);
    }
    SumKeepsFree(cfg, b2, wide);
  }

  /** The count does not depend on the RECOVER bit. */
  lemma SettledFree(cfg: B.Config, b: Bytes1024, on: bool, wide: bool)
    ensures FreeAt(J.SetRecover(cfg, b, on), wide) == FreeAt(b, wide)
  {
    hide Le32, J.SumSuperblock, J.WithBit2;
    var b1 := J.WithRecover(b, on);
    SameWord(b, b1, SB_FREE_LOW);
    SameWord(b, b1, SB_FREE_HIGH);
    SumKeepsFree(cfg, b1, wide);
  }

  // ---------------------------------------------------------------- inodes

  const SIZE_LOW := 0x04
  const SIZE_HIGH := 0x6C
  const MTIME := 0x10
  const SECTORS := 0x1C
  const EXTENT_MAGIC := 0x28
  const ENTRIES := 0x2A
  const DEPTH := 0x2E
  const FIRST_EXTENT := 0x34
  const END_OF_EXTENTS := 0x64
  const SUM_LOW := 0x7C
  const SUM_HIGH := 0x82

  type Inode = b: seq<Byte> | |b| >= 128 witness seq(128, i => 0)

  function ExtentAt(ib: Inode, i: nat): Extent
    requires i < MAX_EXTENTS
  {
    var at := FIRST_EXTENT + 12 * i;
    Extent(Le32(ib, at), Le16(ib, at + 4), Le16(ib, at + 6) * 0x1_0000_0000 + Le32(ib, at + 8))
  }

  /** A leaf of at most four extents in the inode itself. */
  predicate InodeOk(ib: Inode) {
    Le16(ib, EXTENT_MAGIC) == 0xF30A && Le16(ib, DEPTH) == 0 && Le16(ib, ENTRIES) <= MAX_EXTENTS
  }

  function ExtentsOf(ib: Inode, n: nat): (r: Leaf)
    requires n <= MAX_EXTENTS
    ensures |r| == n
  {
    seq(n, i requires 0 <= i < n => ExtentAt(ib, i))
  }

  function FileOf(ib: Inode): File
    requires InodeOk(ib)
  {
    File(Le32(ib, SIZE_LOW) + 0x1_0000_0000 * Le32(ib, SIZE_HIGH), ExtentsOf(ib, Le16(ib, ENTRIES)), Le32(ib, SECTORS))
  }

  function ExtentBytes(e: Extent): (r: seq<Byte>)
    requires e.start < 0x1_0000_0000_0000
    ensures |r| == 12
  {
    PackLittle(e.logical) + PackLittle16(e.len) + PackLittle16(e.start / 0x1_0000_0000) + PackLittle(e.start % 0x1_0000_0000)
  }

  lemma ExtentReadsBack(ib: Inode, i: nat, e: Extent)
    requires i < MAX_EXTENTS && e.start < 0x1_0000_0000_0000
    requires ib[FIRST_EXTENT + 12 * i..FIRST_EXTENT + 12 * i + 12] == ExtentBytes(e)
    ensures ExtentAt(ib, i) == e
  {
    hide PackLittle, PackLittle16, Le32, Le16;
    var at := FIRST_EXTENT + 12 * i;
    var f := ExtentBytes(e);
    SubSlice(ib, at, 12, 0, 4);
    SubSlice(ib, at, 12, 4, 6);
    SubSlice(ib, at, 12, 6, 8);
    SubSlice(ib, at, 12, 8, 12);
    assert f[0..4] == PackLittle(e.logical) && f[4..6] == PackLittle16(e.len);
    assert f[6..8] == PackLittle16(e.start / 0x1_0000_0000) && f[8..12] == PackLittle(e.start % 0x1_0000_0000);
    LittleRoundTrip(ib, at, e.logical);
    LittleRoundTrip16(ib, at + 4, e.len);
    LittleRoundTrip16(ib, at + 6, e.start / 0x1_0000_0000);
    LittleRoundTrip(ib, at + 8, e.start % 0x1_0000_0000);
  }

  lemma SameExtent(ib: Inode, ib': Inode, i: nat)
    requires i < MAX_EXTENTS && |ib| == |ib'|
    requires forall k :: FIRST_EXTENT + 12 * i <= k < FIRST_EXTENT + 12 * i + 12 ==> ib'[k] == ib[k]
    ensures ExtentAt(ib', i) == ExtentAt(ib, i)
  {
    hide Le32, Le16;
    var at := FIRST_EXTENT + 12 * i;
    SameWord(ib, ib', at);
    SameHalf(ib, ib', at + 4);
    SameHalf(ib, ib', at + 6);
    SameWord(ib, ib', at + 8);
  }

  /** The fields of a file: bytes that fix it. */
  predicate FileByte(k: nat) {
    SIZE_LOW <= k < SIZE_LOW + 4 || SECTORS <= k < SECTORS + 4 || EXTENT_MAGIC <= k < END_OF_EXTENTS || SIZE_HIGH <= k < SIZE_HIGH + 4
  }

  lemma SameFile(ib: Inode, ib': Inode)
    requires |ib| == |ib'| && InodeOk(ib) && forall k :: 0 <= k < |ib| && FileByte(k) ==> ib'[k] == ib[k]
    ensures InodeOk(ib') && FileOf(ib') == FileOf(ib)
  {
    hide Le32, Le16, ExtentAt;
    SameHalf(ib, ib', EXTENT_MAGIC);
    SameHalf(ib, ib', ENTRIES);
    SameHalf(ib, ib', DEPTH);
    SameWord(ib, ib', SIZE_LOW);
    SameWord(ib, ib', SIZE_HIGH);
    SameWord(ib, ib', SECTORS);
    forall i | 0 <= i < Le16(ib, ENTRIES) ensures ExtentAt(ib', i) == ExtentAt(ib, i) {
      SameExtent(ib, ib', i);
    }
    assert ExtentsOf(ib', Le16(ib, ENTRIES)) == ExtentsOf(ib, Le16(ib, ENTRIES));
  }

  /** The last extent one block longer. */
  function Longer(ib: Inode): (r: Inode)
    requires InodeOk(ib) && Le16(ib, ENTRIES) > 0
    ensures |r| == |ib|
  {
    var i := Le16(ib, ENTRIES) - 1;
    Patch(ib, FIRST_EXTENT + 12 * i + 4, PackLittle16((ExtentAt(ib, i).len + 1) % 0x1_0000))
  }

  /** One more extent. */
  function Appended(ib: Inode, e: Extent): (r: Inode)
    requires InodeOk(ib) && Le16(ib, ENTRIES) < MAX_EXTENTS && e.start < 0x1_0000_0000_0000
    ensures |r| == |ib|
  {
    var n := Le16(ib, ENTRIES);
    Patch(Patch(ib, ENTRIES, PackLittle16(n + 1)), FIRST_EXTENT + 12 * n, ExtentBytes(e))
  }

  /** Only the length of extent `i` changes. */
  lemma LengthPatched(ib: Inode, i: nat, len: Half)
    requires InodeOk(ib) && i < Le16(ib, ENTRIES)
    ensures var ib' := Patch(ib, FIRST_EXTENT + 12 * i + 4, PackLittle16(len));
            && |ib'| == |ib| && InodeOk(ib') && Le16(ib', ENTRIES) == Le16(ib, ENTRIES)
            && FileOf(ib') == FileOf(ib).(leaf := FileOf(ib).leaf[i := FileOf(ib).leaf[i].(len := len)])
  {
    hide Le32, Le16, PackLittle16;
    var at := FIRST_EXTENT + 12 * i;
    var ib' := Patch(ib, at + 4, PackLittle16(len));
    SameHalf(ib, ib', EXTENT_MAGIC);
    SameHalf(ib, ib', ENTRIES);
    SameHalf(ib, ib', DEPTH);
    SameWord(ib, ib', SIZE_LOW);
    SameWord(ib, ib', SIZE_HIGH);
    SameWord(ib, ib', SECTORS);
    PatchedHalf(ib, at + 4, len);
    SameWord(ib, ib', at);
    SameHalf(ib, ib', at + 6);
    SameWord(ib, ib', at + 8);
    assert ExtentAt(ib', i) == ExtentAt(ib, i).(len := len);
    hide ExtentAt, Patch;
    var n := Le16(ib, ENTRIES);
    forall k | 0 <= k < n && k != i ensures ExtentAt(ib', k) == ExtentAt(ib, k) {
      SameExtent(ib, ib', k);
    }
    assert ExtentsOf(ib', n) == ExtentsOf(ib, n)[i := ExtentAt(ib, i).(len := len)];
  }

  lemma AppendedFile(ib: Inode, e: Extent)
    requires InodeOk(ib) && Le16(ib, ENTRIES) < MAX_EXTENTS && e.start < 0x1_0000_0000_0000
    ensures InodeOk(Appended(ib, e)) && FileOf(Appended(ib, e)) == FileOf(ib).(leaf := FileOf(ib).leaf + [e])
  {
    hide Le32, Le16, PackLittle16, ExtentBytes;
    var n := Le16(ib, ENTRIES);
    var at := FIRST_EXTENT + 12 * n;
    var mid := Patch(ib, ENTRIES, PackLittle16(n + 1));
    var ib' := Appended(ib, e);
    PatchedHalf(ib, ENTRIES, n + 1);
    SameHalf(mid, ib', ENTRIES);
    SameHalf(ib, ib', EXTENT_MAGIC);
    SameHalf(ib, ib', DEPTH);
    SameWord(ib, ib', SIZE_LOW);
    SameWord(ib, ib', SIZE_HIGH);
    SameWord(ib, ib', SECTORS);
    assert ib'[at..at + 12] == ExtentBytes(e);
    ExtentReadsBack(ib', n, e);
    hide ExtentAt;
    forall k | 0 <= k < n ensures ExtentAt(ib', k) == ExtentAt(ib, k) {
      SameExtent(ib, ib', k);
    }
    assert ExtentsOf(ib', n + 1) == ExtentsOf(ib, n) + [e];
  }

  /** Size and sector count. */
  function WithSize(ib: Inode, size: nat, sectors: Word): (r: Inode)
    requires size < 0x1_0000_0000_0000_0000
    ensures |r| == |ib|
  {
    Patch(Patch(Patch(ib, SIZE_LOW, PackLittle(size % 0x1_0000_0000)), SIZE_HIGH, PackLittle(size / 0x1_0000_0000)),
          SECTORS, PackLittle(sectors))
  }

  lemma WithSizeSets(ib: Inode, size: nat, sectors: Word)
    requires InodeOk(ib) && size < 0x1_0000_0000_0000_0000
    ensures InodeOk(WithSize(ib, size, sectors)) && FileOf(WithSize(ib, size, sectors)) == File(size, FileOf(ib).leaf, sectors)
  {
    hide Le32, Le16, PackLittle, ExtentAt;
    var b1 := Patch(ib, SIZE_LOW, PackLittle(size % 0x1_0000_0000));
    var b2 := Patch(b1, SIZE_HIGH, PackLittle(size / 0x1_0000_0000));
    var ib' := WithSize(ib, size, sectors);
    PatchedWord(ib, SIZE_LOW, size % 0x1_0000_0000);
    PatchedWord(b1, SIZE_HIGH, size / 0x1_0000_0000);
    PatchedWord(b2, SECTORS, sectors);
    SameWord(b1, ib', SIZE_LOW);
    SameWord(b2, ib', SIZE_HIGH);
    SameHalf(ib, ib', EXTENT_MAGIC);
    SameHalf(ib, ib', ENTRIES);
    SameHalf(ib, ib', DEPTH);
    forall k | 0 <= k < Le16(ib, ENTRIES) ensures ExtentAt(ib', k) == ExtentAt(ib, k) {
      SameExtent(ib, ib', k);
    }
    assert ExtentsOf(ib', Le16(ib, ENTRIES)) == ExtentsOf(ib, Le16(ib, ENTRIES));
  }

  /** The inode's checksum; its field counts as zero. Inodes of more than 128 bytes have both
      halves. */
  function WithInodeSum(pl: Places, ib: Inode, ino: nat): (r: Inode)
    requires |ib| == pl.inodeSize
    ensures |r| == |ib|
  {
    if !pl.meta then ib
    else if |ib| == 128 then Patch(ib, SUM_LOW, PackLittle16(pl.inodeSum(ino, Patch(ib, SUM_LOW, Zeros(2))) % 0x1_0000))
    else
      var sum := pl.inodeSum(ino, Patch(Patch(ib, SUM_LOW, Zeros(2)), SUM_HIGH, Zeros(2)));
      Patch(Patch(ib, SUM_LOW, PackLittle16(sum % 0x1_0000)), SUM_HIGH, PackLittle16(sum / 0x1_0000))
  }

  /** The last edit of an inode: time and checksum. */
  function Touched(pl: Places, ib: Inode, ino: nat, now: Word): (r: Inode)
    requires |ib| == pl.inodeSize
    ensures |r| == |ib|
  {
    WithInodeSum(pl, Patch(ib, MTIME, PackLittle(now)), ino)
  }

  lemma TouchedFile(pl: Places, ib: Inode, ino: nat, now: Word)
    requires |ib| == pl.inodeSize && InodeOk(ib)
    ensures InodeOk(Touched(pl, ib, ino, now)) && FileOf(Touched(pl, ib, ino, now)) == FileOf(ib)
  {
    hide PackLittle, PackLittle16, InodeOk, FileOf;
    SameFile(ib, Touched(pl, ib, ino, now));
  }

  // ---------------------------------------------------------------- the volume in its blocks

  predicate Whole(d: Volume1024, n: nat) {
    n < |d| && |d[n]| == SIZE
  }

  /** The blocks that describe the volume can be read. */
  predicate Readable(pl: Places, d: Volume1024) {
    && Whole(d, SB) && Whole(d, DESCS) && pl.lay.perGroup <= 8 * SIZE
    && (forall g :: 0 <= g < |pl.bitmaps| ==> Whole(d, pl.bitmaps[g]) && HasDesc(pl.lay, g))
    && (forall i :: i in pl.inodes ==> Whole(d, pl.inodes[i].0) && pl.inodes[i].1 < InodesIn(pl.inodeSize))
  }

  function SlotOf(b: Bytes1024, size: InodeSize, k: nat): (ib: Inode)
    requires k < InodesIn(size)
    ensures |ib| == size
  {
    SlotFits(size, k);
    b[SlotAt(size, k)..SlotAt(size, k) + size]
  }

  function InodeAt(pl: Places, d: Volume1024, ino: nat): (ib: Inode)
    requires Readable(pl, d) && ino in pl.inodes
    ensures |ib| == pl.inodeSize
  {
    SlotOf(d[pl.inodes[ino].0], pl.inodeSize, pl.inodes[ino].1)
  }

  predicate InodesOk(pl: Places, d: Volume1024)
    requires Readable(pl, d)
  {
    forall i :: i in pl.inodes ==> InodeOk(InodeAt(pl, d, i))
  }

  function GroupAt(pl: Places, d: Volume1024, g: nat): Group
    requires Readable(pl, d) && g < |pl.bitmaps|
  {
    var (lo, hi) := CountAt(d[DESCS], pl.lay, g);
    Group(BitsOf(d[pl.bitmaps[g]], pl.lay.perGroup), lo, hi)
  }

  function VolumeAt(pl: Places, d: Volume1024): (v: Volume)
    requires Readable(pl, d) && InodesOk(pl, d)
    ensures |v.groups| == |pl.bitmaps| && Sized(pl.lay, v.groups) && v.files.Keys == pl.inodes.Keys
  {
    Volume(seq(|pl.bitmaps|, g requires 0 <= g < |pl.bitmaps| => GroupAt(pl, d, g)),
           FreeAt(d[SB], pl.lay.wide),
           map i | i in pl.inodes :: FileOf(InodeAt(pl, d, i)))
  }

  predicate IsMeta(pl: Places, n: nat) {
    n == DESCS || n in pl.bitmaps || exists i :: i in pl.inodes && pl.inodes[i].0 == n
  }

  /** What the layout guarantees: superblock, descriptors, bitmaps and inode-table blocks are
      all different and lie outside the journal; they and the journal are metadata; groups
      lie inside a volume whose block numbers have 32 bits. */
  ghost predicate PlacesOk(pl: Places, geo: Geometry, size: nat) {
    && geo.sbBlock == SB && Supported(pl.lay, |pl.bitmaps|)
    && pl.lay.first + |pl.bitmaps| * pl.lay.perGroup <= size <= 0x1_0000_0000
    && (forall g, h :: 0 <= g < h < |pl.bitmaps| ==> pl.bitmaps[g] != pl.bitmaps[h])
    && SB !in pl.bitmaps && DESCS !in pl.bitmaps
    && (forall i :: i in pl.inodes ==> pl.inodes[i].0 != SB && pl.inodes[i].0 != DESCS && pl.inodes[i].0 !in pl.bitmaps)
    && (forall i, j :: i in pl.inodes && j in pl.inodes && pl.inodes[i] == pl.inodes[j] ==> i == j)
    && Home(geo, size, DESCS) && Home(geo, size, SB)
    && (forall n :: n in pl.bitmaps ==> Home(geo, size, n))
    && (forall i :: i in pl.inodes ==> Home(geo, size, pl.inodes[i].0))
    && SB in pl.lay.meta
    && (forall n :: IsMeta(pl, n) || InJournal(geo, n) ==> n in pl.lay.meta)
  }

  ghost predicate DiskOk(pl: Places, geo: Geometry, d: Volume1024) {
    PlacesOk(pl, geo, |d|) && Readable(pl, d) && InodesOk(pl, d)
  }

  // ---------------------------------------------------------------- one inode of a table block

  function WithInode(b: Bytes1024, size: InodeSize, k: nat, ib: Inode): Bytes1024
    requires k < InodesIn(size) && |ib| == size
  {
    SlotFits(size, k);
    Patch(b, SlotAt(size, k), ib)
  }

  lemma SliceOfPatch(b: Bytes1024, at: nat, f: seq<Byte>, other: nat)
    requires at + |f| <= SIZE && other + |f| <= SIZE
    ensures Patch(b, at, f)[at..at + |f|] == f
    ensures other + |f| <= at || at + |f| <= other ==> Patch(b, at, f)[other..other + |f|] == b[other..other + |f|]
  {
  }

  /** The slot holds what was written, and every other what it held. */
  lemma WithInodeSets(b: Bytes1024, size: InodeSize, k: nat, ib: Inode, j: nat)
    requires k < InodesIn(size) && |ib| == size && j < InodesIn(size)
    ensures SlotOf(WithInode(b, size, k, ib), size, j) == if j == k then ib else SlotOf(b, size, j)
  {
    hide Patch, InodesIn, SlotAt;
    SlotFits(size, k);
    SlotFits(size, j);
    if j < k { SlotsApart(size, j, k); } else if k < j { SlotsApart(size, k, j); }
    SliceOfPatch(b, SlotAt(size, k), ib, SlotAt(size, j));
  }

  // ---------------------------------------------------------------- the edited blocks

  function BitmapEdit(pl: Places, d: Volume1024, g: nat, bit: nat, on: bool): Bytes1024
    requires Readable(pl, d) && g < |pl.bitmaps| && bit < pl.lay.perGroup
  {
    SetBit(d[pl.bitmaps[g]], bit, on)
  }

  /** The descriptor block with group `g`'s bitmap and count as in `group`. */
  function CountEdit(pl: Places, d: Volume1024, g: nat, bit: nat, on: bool): Bytes1024
    requires Readable(pl, d) && g < |pl.bitmaps| && bit < pl.lay.perGroup
  {
    var was := GroupAt(pl, d, g);
    var now := if on then Less(was, pl.lay.wide) else More(was, pl.lay.wide);
    DescEdit(pl, d[DESCS], g, now.lo, now.hi, BitmapEdit(pl, d, g, bit, on))
  }

  function ExtendedInode(pl: Places, ib: Inode, ino: nat, n: nat, bytes: Word, now: Word): (r: Inode)
    requires InodeOk(ib) && |ib| == pl.inodeSize && n < 0x1_0000_0000_0000
    requires Le16(ib, ENTRIES) == MAX_EXTENTS ==> n == Contiguous(FileOf(ib).leaf)
    ensures |r| == |ib|
  {
    var f := FileOf(ib);
    var ib1 := if f.leaf != [] && n == Contiguous(f.leaf) then Longer(ib) else Appended(ib, Extent(Extents.End(f.leaf), 1, n));
    Touched(pl, WithSize(ib1, (f.size + bytes) % 0x1_0000_0000_0000_0000, Plus(f.sectors, SECTORS_PER_BLOCK)), ino, now)
  }

  lemma ExtendedInodeFile(pl: Places, ib: Inode, ino: nat, n: nat, bytes: Word, now: Word)
    requires InodeOk(ib) && |ib| == pl.inodeSize && n < 0x1_0000_0000_0000
    requires Le16(ib, ENTRIES) == MAX_EXTENTS ==> n == Contiguous(FileOf(ib).leaf)
    ensures InodeOk(ExtendedInode(pl, ib, ino, n, bytes, now))
    ensures FileOf(ExtendedInode(pl, ib, ino, n, bytes, now)) == Grown(FileOf(ib), n, bytes)
  {
    hide InodeOk, FileOf, Touched, WithSize, Longer, Appended;
    var f := FileOf(ib);
    var size, sectors := (f.size + bytes) % 0x1_0000_0000_0000_0000, Plus(f.sectors, SECTORS_PER_BLOCK);
    EntriesOf(ib);
    if f.leaf != [] && n == Contiguous(f.leaf) {
      LongerFile(ib);
      WithSizeSets(Longer(ib), size, sectors);
      TouchedFile(pl, WithSize(Longer(ib), size, sectors), ino, now);
    } else {
      var e := Extent(Extents.End(f.leaf), 1, n);
      AppendedFile(ib, e);
      WithSizeSets(Appended(ib, e), size, sectors);
      TouchedFile(pl, WithSize(Appended(ib, e), size, sectors), ino, now);
    }
  }

  lemma EntriesOf(ib: Inode)
    requires InodeOk(ib)
    ensures |FileOf(ib).leaf| == Le16(ib, ENTRIES) <= MAX_EXTENTS
    ensures FileOf(ib).size < 0x1_0000_0000_0000_0000
  {
  }

  lemma LongerFile(ib: Inode)
    requires InodeOk(ib) && Le16(ib, ENTRIES) > 0
    ensures InodeOk(Longer(ib))
    ensures var leaf := FileOf(ib).leaf;
            var k := |leaf| - 1;
            FileOf(Longer(ib)) == FileOf(ib).(leaf := leaf[k := leaf[k].(len := (leaf[k].len + 1) % 0x1_0000)])
  {
    hide FileOf, InodeOk, Patch, PackLittle16, ExtentAt, Le16;
    var i := Le16(ib, ENTRIES) - 1;
    LeafIs(ib, i);
    LengthPatched(ib, i, (ExtentAt(ib, i).len + 1) % 0x1_0000);
  }

  lemma LeafIs(ib: Inode, i: nat)
    requires InodeOk(ib) && i < Le16(ib, ENTRIES)
    ensures |FileOf(ib).leaf| == Le16(ib, ENTRIES) <= MAX_EXTENTS && FileOf(ib).leaf[i] == ExtentAt(ib, i)
  {
    hide ExtentAt, Le16, Le32;
  }

  // ---------------------------------------------------------------- the edited volume

  /** `d'` is `d` with bit `bit` of group `g` taken or released, its count adjusted and the
      superblock's count set to `free`. */
  predicate Counted(cfg: B.Config, pl: Places, d: Volume1024, d': Volume1024, g: nat, bit: nat, on: bool, free: nat)
    requires Readable(pl, d) && g < |pl.bitmaps| && bit < pl.lay.perGroup
  {
    && |d'| == |d|
    && d'[pl.bitmaps[g]] == BitmapEdit(pl, d, g, bit, on)
    && d'[DESCS] == CountEdit(pl, d, g, bit, on)
    && d'[SB] == WithFree(cfg, d[SB], pl.lay.wide, free)
    && (forall h :: 0 <= h < |pl.bitmaps| && h != g ==> d'[pl.bitmaps[h]] == d[pl.bitmaps[h]])
  }

  lemma GroupCounted(cfg: B.Config, pl: Places, d: Volume1024, d': Volume1024, g: nat, bit: nat, on: bool,
                     free: nat, h: nat)
    requires Readable(pl, d) && g < |pl.bitmaps| && bit < pl.lay.perGroup && h < |pl.bitmaps|
    requires Counted(cfg, pl, d, d', g, bit, on, free) && Readable(pl, d')
    ensures var was := GroupAt(pl, d, g);
            GroupAt(pl, d', h) ==
            if h == g then (if on then Less(was, pl.lay.wide) else More(was, pl.lay.wide)).(bitmap := was.bitmap[bit := on])
            else GroupAt(pl, d, h)
  {
    hide DescEdit, CountAt, WithFree, SetBit, BitsOf;
    var was := GroupAt(pl, d, g);
    var now := if on then Less(was, pl.lay.wide) else More(was, pl.lay.wide);
    NarrowHigh(d[DESCS], pl.lay, g);
    DescEditSets(pl, d[DESCS], g, now.lo, now.hi, BitmapEdit(pl, d, g, bit, on), h);
    SetBitSets(d[pl.bitmaps[g]], pl.lay.perGroup, bit, on);
  }

  /** The inode that `d'` holds for each file, when only that of `ino` was edited. */
  lemma InodesEdited(pl: Places, d: Volume1024, d': Volume1024, ino: nat, ib: Inode, i: nat)
    requires Readable(pl, d) && |d'| == |d| && ino in pl.inodes && i in pl.inodes && |ib| == pl.inodeSize
    requires forall i, j :: i in pl.inodes && j in pl.inodes && pl.inodes[i] == pl.inodes[j] ==> i == j
    requires d'[pl.inodes[ino].0] == WithInode(d[pl.inodes[ino].0], pl.inodeSize, pl.inodes[ino].1, ib)
    requires pl.inodes[i].0 != pl.inodes[ino].0 ==> d'[pl.inodes[i].0] == d[pl.inodes[i].0]
    requires Readable(pl, d')
    ensures InodeAt(pl, d', i) == if i == ino then ib else InodeAt(pl, d, i)
  {
    hide SlotOf, WithInode;
    var (b, k) := pl.inodes[ino];
    WithInodeSets(d[b], pl.inodeSize, k, ib, k);
    if pl.inodes[i].0 == b {
      WithInodeSets(d[b], pl.inodeSize, k, ib, pl.inodes[i].1);
    }
  }

  // ---------------------------------------------------------------- the transactions

  /** The five blocks of an extension: data, bitmap, descriptors, superblock, inode. */
  function ExtendTx(cfg: B.Config, pl: Places, d: Volume1024, ino: nat, contents: Bytes1024, bytes: Word, now: Word,
                    g: nat, bit: nat): Tx<B.Block>
    requires Readable(pl, d) && InodesOk(pl, d) && ino in pl.inodes && g < |pl.bitmaps| && bit < pl.lay.perGroup
    requires Address(pl.lay, g, bit) < 0x1_0000_0000_0000 && FreeAt(d[SB], pl.lay.wide) > 0
    requires |FileOf(InodeAt(pl, d, ino)).leaf| == MAX_EXTENTS ==>
               Address(pl.lay, g, bit) == Contiguous(FileOf(InodeAt(pl, d, ino)).leaf)
  {
    var n := Address(pl.lay, g, bit);
    var (t, k) := pl.inodes[ino];
    [BlockWrite(n, contents),
     BlockWrite(pl.bitmaps[g], BitmapEdit(pl, d, g, bit, true)),
     BlockWrite(DESCS, CountEdit(pl, d, g, bit, true)),
     BlockWrite(SB, WithFree(cfg, d[SB], pl.lay.wide, FreeAt(d[SB], pl.lay.wide) - 1)),
     BlockWrite(t, WithInode(d[t], pl.inodeSize, k, ExtendedInode(pl, InodeAt(pl, d, ino), ino, n, bytes, now)))]
  }

  /** The three blocks that free one data block: bitmap, descriptors, superblock. */
  function FreeTx(cfg: B.Config, pl: Places, d: Volume1024, g: nat, bit: nat): Tx<B.Block>
    requires Readable(pl, d) && g < |pl.bitmaps| && bit < pl.lay.perGroup
  {
    [BlockWrite(pl.bitmaps[g], BitmapEdit(pl, d, g, bit, false)),
     BlockWrite(DESCS, CountEdit(pl, d, g, bit, false)),
     BlockWrite(SB, WithFree(cfg, d[SB], pl.lay.wide, FreeMore(pl.lay, FreeAt(d[SB], pl.lay.wide))))]
  }

  lemma FreeBound(b: Bytes1024, wide: bool)
    ensures FreeAt(b, wide) < if wide then 0x1_0000_0000_0000_0000 else 0x1_0000_0000
  {
  }

  lemma BitmapIsMeta(pl: Places, g: nat)
    requires g < |pl.bitmaps|
    ensures IsMeta(pl, pl.bitmaps[g])
  {
  }

  lemma InodeIsMeta(pl: Places, i: nat)
    requires i in pl.inodes
    ensures IsMeta(pl, pl.inodes[i].0)
  {
  }

  /** A free block of a consistent volume is none of the blocks that describe it, and not in
      the journal. */
  lemma FreeIsNotMeta(pl: Places, geo: Geometry, d: Volume1024, n: nat)
    requires DiskOk(pl, geo, d) && MetaUsed(pl.lay, VolumeAt(pl, d)) && !Used(pl.lay, VolumeAt(pl, d), n)
    ensures n != SB && !IsMeta(pl, n) && !InJournal(geo, n)
  {
    hide Used, VolumeAt, IsMeta, InJournal;
  }

  predicate Extensible(pl: Places, d: Volume1024, ino: nat, g: nat, bit: nat) {
    && Readable(pl, d) && InodesOk(pl, d) && ino in pl.inodes && g < |pl.bitmaps| && bit < pl.lay.perGroup
    && Address(pl.lay, g, bit) < 0x1_0000_0000_0000 && FreeAt(d[SB], pl.lay.wide) > 0
    && (|FileOf(InodeAt(pl, d, ino)).leaf| == MAX_EXTENTS ==>
          Address(pl.lay, g, bit) == Contiguous(FileOf(InodeAt(pl, d, ino)).leaf))
  }

  /** An extension's transaction is one that the journal takes, and what each block then
      holds. */
  lemma ExtendTxIsValid(cfg: B.Config, pl: Places, geo: Geometry, d: Volume1024, ino: nat, contents: Bytes1024,
                        bytes: Word, now: Word, g: nat, bit: nat)
    requires DiskOk(pl, geo, d) && Extensible(pl, d, ino, g, bit) && geo.first + 7 <= geo.maxlen
    requires var n := Address(pl.lay, g, bit);
             n < |d| && n != SB && !IsMeta(pl, n) && !InJournal(geo, n)
    ensures var tx := ExtendTx(cfg, pl, d, ino, contents, bytes, now, g, bit);
            DistinctHomes(tx) && ValidTx(geo, |d|, tx)
  {
    hide InJournal, InodesOk, InodeAt, BitmapEdit, CountEdit, WithFree, WithInode, ExtendedInode, FileOf, Address, IsMeta;
    BitmapIsMeta(pl, g);
    InodeIsMeta(pl, ino);
    DescsAreMeta(pl);
  }

  lemma DescsAreMeta(pl: Places)
    ensures IsMeta(pl, DESCS)
  {
  }

  lemma FreeTxIsValid(cfg: B.Config, pl: Places, geo: Geometry, d: Volume1024, g: nat, bit: nat)
    requires DiskOk(pl, geo, d) && g < |pl.bitmaps| && bit < pl.lay.perGroup && geo.first + 7 <= geo.maxlen
    ensures var tx := FreeTx(cfg, pl, d, g, bit);
            DistinctHomes(tx) && ValidTx(geo, |d|, tx)
  {
    hide InJournal, InodesOk, InodeAt, BitmapEdit, CountEdit, WithFree;
  }

  // ---------------------------------------------------------------- what the blocks then hold

  lemma AppliedAt<T>(tx: Tx<T>, d: Disk<T>, k: nat)
    requires DistinctHomes(tx) && k < |tx| && tx[k].home < |d|
    ensures After(tx, d)[tx[k].home] == tx[k].data
  {
    AppliedInList(tx, tx[k].home, d[tx[k].home], k);
  }

  lemma NotApplied<T>(tx: Tx<T>, d: Disk<T>, n: nat)
    requires n < |d| && forall k :: 0 <= k < |tx| ==> tx[k].home != n
    ensures After(tx, d)[n] == d[n]
  {
    AppliedElsewhere(tx, n, d[n]);
  }

  /** The blocks after an extension. */
  lemma ExtendedBlocks(cfg: B.Config, pl: Places, geo: Geometry, d: Volume1024, ino: nat, contents: Bytes1024,
                       bytes: Word, now: Word, g: nat, bit: nat)
    requires DiskOk(pl, geo, d) && Extensible(pl, d, ino, g, bit) && geo.first + 7 <= geo.maxlen
    requires var n := Address(pl.lay, g, bit);
             n < |d| && n != SB && !IsMeta(pl, n) && !InJournal(geo, n)
    ensures var d' := After(ExtendTx(cfg, pl, d, ino, contents, bytes, now, g, bit), d);
            var (t, k) := pl.inodes[ino];
            && Counted(cfg, pl, d, d', g, bit, true, FreeAt(d[SB], pl.lay.wide) - 1)
            && d'[t] == WithInode(d[t], pl.inodeSize, k,
                                  ExtendedInode(pl, InodeAt(pl, d, ino), ino, Address(pl.lay, g, bit), bytes, now))
            && (forall i :: i in pl.inodes && pl.inodes[i].0 != t ==> d'[pl.inodes[i].0] == d[pl.inodes[i].0])
            && d'[Address(pl.lay, g, bit)] == contents
  {
    hide InJournal, InodesOk, InodeAt, BitmapEdit, CountEdit, WithFree, WithInode, ExtendedInode, FileOf, Address, IsMeta, After,
         DistinctHomes, ValidTx, Supported;
    var tx := ExtendTx(cfg, pl, d, ino, contents, bytes, now, g, bit);
    ExtendTxIsValid(cfg, pl, geo, d, ino, contents, bytes, now, g, bit);
    AppliedAt(tx, d, 0);
    AppliedAt(tx, d, 1);
    AppliedAt(tx, d, 2);
    AppliedAt(tx, d, 3);
    AppliedAt(tx, d, 4);
    var d' := After(tx, d);
    forall h | 0 <= h < |pl.bitmaps| && h != g ensures d'[pl.bitmaps[h]] == d[pl.bitmaps[h]] {
      BitmapIsMeta(pl, h);
      NotApplied(tx, d, pl.bitmaps[h]);
    }
    forall i | i in pl.inodes && pl.inodes[i].0 != pl.inodes[ino].0 ensures d'[pl.inodes[i].0] == d[pl.inodes[i].0] {
      InodeIsMeta(pl, i);
      NotApplied(tx, d, pl.inodes[i].0);
    }
  }

  /** Blocks of the right size, in the right places, can be read. */
  lemma StillReadable(cfg: B.Config, pl: Places, d: Volume1024, d': Volume1024, g: nat, bit: nat, on: bool, free: nat)
    requires Readable(pl, d) && g < |pl.bitmaps| && bit < pl.lay.perGroup && Counted(cfg, pl, d, d', g, bit, on, free)
    requires forall i :: i in pl.inodes ==> |d'[pl.inodes[i].0]| == SIZE
    ensures Readable(pl, d')
  {
    hide BitmapEdit, CountEdit, WithFree;
  }

  lemma GroupBits(pl: Places, d: Volume1024, g: nat)
    requires Readable(pl, d) && g < |pl.bitmaps|
    ensures |GroupAt(pl, d, g).bitmap| == pl.lay.perGroup
  {
  }

  /** Counts and bitmaps of the volume after an edit. */
  lemma GroupsCounted(cfg: B.Config, pl: Places, d: Volume1024, d': Volume1024, g: nat, bit: nat, on: bool, free: nat)
    requires Readable(pl, d) && InodesOk(pl, d) && g < |pl.bitmaps| && bit < pl.lay.perGroup
    requires Counted(cfg, pl, d, d', g, bit, on, free) && Readable(pl, d') && InodesOk(pl, d')
    requires free < if pl.lay.wide then 0x1_0000_0000_0000_0000 else 0x1_0000_0000
    ensures var was := VolumeAt(pl, d).groups[g];
            && VolumeAt(pl, d').groups ==
               VolumeAt(pl, d).groups[g := (if on then Less(was, pl.lay.wide) else More(was, pl.lay.wide)).(bitmap := was.bitmap[bit := on])]
            && VolumeAt(pl, d').free == free
  {
    hide GroupAt, InodeAt, FileOf, InodesOk, Less, More, BitmapEdit, CountEdit, FreeAt;
    GroupBits(pl, d, g);
    WithFreeSets(cfg, d[SB], pl.lay.wide, free);
    forall h | 0 <= h < |pl.bitmaps|
      ensures GroupAt(pl, d', h) ==
              if h == g then
                (if on then Less(GroupAt(pl, d, g), pl.lay.wide) else More(GroupAt(pl, d, g), pl.lay.wide))
                  .(bitmap := GroupAt(pl, d, g).bitmap[bit := on])
              else GroupAt(pl, d, h)
    {
      GroupCounted(cfg, pl, d, d', g, bit, on, free, h);
    }
  }

  /** The files of a volume of which one inode was edited. */
  lemma FilesEdited(pl: Places, d: Volume1024, d': Volume1024, ino: nat, ib: Inode)
    requires Readable(pl, d) && InodesOk(pl, d) && Readable(pl, d') && |d'| == |d| && ino in pl.inodes && |ib| == pl.inodeSize
    requires forall i, j :: i in pl.inodes && j in pl.inodes && pl.inodes[i] == pl.inodes[j] ==> i == j
    requires d'[pl.inodes[ino].0] == WithInode(d[pl.inodes[ino].0], pl.inodeSize, pl.inodes[ino].1, ib)
    requires forall i :: i in pl.inodes && pl.inodes[i].0 != pl.inodes[ino].0 ==> d'[pl.inodes[i].0] == d[pl.inodes[i].0]
    requires InodeOk(ib)
    ensures InodesOk(pl, d')
    ensures VolumeAt(pl, d').files == VolumeAt(pl, d).files[ino := FileOf(ib)]
  {
    hide WithInode, InodeOk, FileOf, InodeAt, Readable, GroupAt, FreeAt;
    forall i | i in pl.inodes ensures InodeAt(pl, d', i) == if i == ino then ib else InodeAt(pl, d, i) {
      InodesEdited(pl, d, d', ino, ib, i);
    }
  }

  /** The volume after an extension is what the model says. */
  lemma ExtendOnDisk(cfg: B.Config, pl: Places, geo: Geometry, d: Volume1024, ino: nat, contents: Bytes1024,
                     bytes: Word, now: Word, g: nat, bit: nat)
    requires DiskOk(pl, geo, d) && Extensible(pl, d, ino, g, bit) && geo.first + 7 <= geo.maxlen
    requires var n := Address(pl.lay, g, bit);
             n < |d| && n != SB && !IsMeta(pl, n) && !InJournal(geo, n)
    ensures var d' := After(ExtendTx(cfg, pl, d, ino, contents, bytes, now, g, bit), d);
            && DiskOk(pl, geo, d') && d'[Address(pl.lay, g, bit)] == contents
            && VolumeAt(pl, d') == ExtendedAt(pl.lay, VolumeAt(pl, d), ino, bytes, g, bit)
  {
    hide ExtendTx, After, WithInode, InodeOk, FileOf, InodeAt, GroupAt, FreeAt, Less, ExtendedInode, Grown, BitmapEdit, CountEdit,
         WithFree, InJournal, IsMeta, Address, VolumeAt;
    var d' := After(ExtendTx(cfg, pl, d, ino, contents, bytes, now, g, bit), d);
    ExtendedBlocks(cfg, pl, geo, d, ino, contents, bytes, now, g, bit);
    var ib := InodeAt(pl, d, ino);
    var free := FreeAt(d[SB], pl.lay.wide) - 1;
    FreeBound(d[SB], pl.lay.wide);
    StillReadable(cfg, pl, d, d', g, bit, true, free);
    EntriesOf(ib);
    ExtendedInodeFile(pl, ib, ino, Address(pl.lay, g, bit), bytes, now);
    FilesEdited(pl, d, d', ino, ExtendedInode(pl, ib, ino, Address(pl.lay, g, bit), bytes, now));
    GroupsCounted(cfg, pl, d, d', g, bit, true, free);
    VolumeParts(pl, d, ino);
  }

  lemma VolumeParts(pl: Places, d: Volume1024, ino: nat)
    requires Readable(pl, d) && InodesOk(pl, d) && ino in pl.inodes
    ensures VolumeAt(pl, d).free == FreeAt(d[SB], pl.lay.wide) && VolumeAt(pl, d).files[ino] == FileOf(InodeAt(pl, d, ino))
    ensures forall g :: 0 <= g < |pl.bitmaps| ==> VolumeAt(pl, d).groups[g] == GroupAt(pl, d, g)
  {
    hide GroupAt, FileOf, InodeAt, FreeAt;
  }

  /** The blocks after one data block is freed. */
  lemma FreedBlocks(cfg: B.Config, pl: Places, geo: Geometry, d: Volume1024, g: nat, bit: nat)
    requires DiskOk(pl, geo, d) && g < |pl.bitmaps| && bit < pl.lay.perGroup && geo.first + 7 <= geo.maxlen
    ensures var d' := After(FreeTx(cfg, pl, d, g, bit), d);
            && Counted(cfg, pl, d, d', g, bit, false, FreeMore(pl.lay, FreeAt(d[SB], pl.lay.wide)))
            && forall i :: i in pl.inodes ==> d'[pl.inodes[i].0] == d[pl.inodes[i].0]
  {
    hide InJournal, InodesOk, InodeAt, BitmapEdit, CountEdit, WithFree, IsMeta, After, DistinctHomes, ValidTx, Supported, FreeMore;
    var tx := FreeTx(cfg, pl, d, g, bit);
    FreeTxIsValid(cfg, pl, geo, d, g, bit);
    AppliedAt(tx, d, 0);
    AppliedAt(tx, d, 1);
    AppliedAt(tx, d, 2);
    var d' := After(tx, d);
    forall h | 0 <= h < |pl.bitmaps| && h != g ensures d'[pl.bitmaps[h]] == d[pl.bitmaps[h]] {
      NotApplied(tx, d, pl.bitmaps[h]);
    }
    forall i | i in pl.inodes ensures d'[pl.inodes[i].0] == d[pl.inodes[i].0] {
      NotApplied(tx, d, pl.inodes[i].0);
    }
  }

  lemma SameFiles(pl: Places, d: Volume1024, d': Volume1024)
    requires Readable(pl, d) && InodesOk(pl, d) && Readable(pl, d')
    requires forall i :: i in pl.inodes ==> d'[pl.inodes[i].0] == d[pl.inodes[i].0]
    ensures InodesOk(pl, d') && VolumeAt(pl, d').files == VolumeAt(pl, d).files
  {
    hide InodeOk, FileOf, SlotOf, GroupAt, FreeAt, Readable;
    forall i | i in pl.inodes ensures InodeAt(pl, d', i) == InodeAt(pl, d, i) {
    }
  }

  /** The volume after one data block is freed is what the model says. */
  lemma FreeOnDisk(cfg: B.Config, pl: Places, geo: Geometry, d: Volume1024, n: nat)
    requires DiskOk(pl, geo, d) && InRange(pl.lay, |pl.bitmaps|, n) && geo.first + 7 <= geo.maxlen
    ensures GroupOf(pl.lay, n) < |pl.bitmaps| && BitOf(pl.lay, n) < pl.lay.perGroup
    ensures var tx := FreeTx(cfg, pl, d, GroupOf(pl.lay, n), BitOf(pl.lay, n));
            && ValidTx(geo, |d|, tx) && DiskOk(pl, geo, After(tx, d))
            && VolumeAt(pl, After(tx, d)) == Release(pl.lay, VolumeAt(pl, d), n)
  {
    PartsAddress(pl.lay, |pl.bitmaps|, n);
    var g, bit := GroupOf(pl.lay, n), BitOf(pl.lay, n);
    hide After, InodeOk, FileOf, InodeAt, GroupAt, FreeAt, More, BitmapEdit, CountEdit, WithFree, InJournal, IsMeta, VolumeAt,
         GroupOf, BitOf, InRange, FreeTx;
    var d' := After(FreeTx(cfg, pl, d, g, bit), d);
    FreeTxIsValid(cfg, pl, geo, d, g, bit);
    FreedBlocks(cfg, pl, geo, d, g, bit);
    var free := FreeMore(pl.lay, FreeAt(d[SB], pl.lay.wide));
    StillReadable(cfg, pl, d, d', g, bit, false, free);
    SameFiles(pl, d, d');
    GroupsCounted(cfg, pl, d, d', g, bit, false, free);
    VolumeFree(pl, d);
  }

  lemma VolumeFree(pl: Places, d: Volume1024)
    requires Readable(pl, d) && InodesOk(pl, d)
    ensures VolumeAt(pl, d).free == FreeAt(d[SB], pl.lay.wide)
  {
    hide GroupAt, FileOf, InodeAt, FreeAt;
  }

  // ---------------------------------------------------------------- the cut extent table

  /** The first `n` extents cut at block `nbc`, from the last one down: dropped entries are
      zeroed, the one across the boundary is shortened. */
  function CutEntries(ib: Inode, nbc: Word, n: nat): (r: Inode)
    requires n <= MAX_EXTENTS
    ensures |r| == |ib|
    decreases n
  {
    if n == 0 then ib
    else
      var e, at := ExtentAt(ib, n - 1), FIRST_EXTENT + 12 * (n - 1);
      if e.logical >= nbc then CutEntries(Patch(ib, at, Zeros(12)), nbc, n - 1)
      else if Plus(e.logical, e.len) > nbc then Patch(ib, at + 4, PackLittle16((nbc - e.logical) % 0x1_0000))
      else ib
  }

  /** Nothing but the first `n` extents differs. */
  predicate SameBut(ib: Inode, ib': Inode, n: nat)
    requires n <= MAX_EXTENTS
  {
    |ib'| == |ib| && forall k :: 0 <= k < |ib| && !(FIRST_EXTENT <= k < FIRST_EXTENT + 12 * n) ==> ib'[k] == ib[k]
  }

  lemma {:induction false} CutEntriesShape(ib: Inode, nbc: Word, n: nat)
    requires n <= MAX_EXTENTS
    ensures SameBut(ib, CutEntries(ib, nbc, n), n)
    decreases n
  {
    hide ExtentAt, PackLittle16;
    if n > 0 && ExtentAt(ib, n - 1).logical >= nbc {
      CutEntriesShape(Patch(ib, FIRST_EXTENT + 12 * (n - 1), Zeros(12)), nbc, n - 1);
    }
  }

  lemma SameExtents(ib: Inode, ib': Inode, n: nat)
    requires n <= MAX_EXTENTS && |ib| == |ib'|
    requires forall k :: FIRST_EXTENT <= k < FIRST_EXTENT + 12 * n ==> ib'[k] == ib[k]
    ensures ExtentsOf(ib', n) == ExtentsOf(ib, n)
  {
    hide ExtentAt;
    forall i | 0 <= i < n ensures ExtentAt(ib', i) == ExtentAt(ib, i) {
      SameExtent(ib, ib', i);
    }
  }

  lemma ExtentsInit(ib: Inode, n: nat)
    requires 0 < n <= MAX_EXTENTS
    ensures ExtentsOf(ib, n)[..n - 1] == ExtentsOf(ib, n - 1) && ExtentsOf(ib, n)[n - 1] == ExtentAt(ib, n - 1)
  {
  }

  lemma LengthOnly(ib: Inode, i: nat, len: Half)
    requires i < MAX_EXTENTS
    ensures ExtentAt(Patch(ib, FIRST_EXTENT + 12 * i + 4, PackLittle16(len)), i) == ExtentAt(ib, i).(len := len)
  {
    hide Le32, Le16, PackLittle16;
    var at := FIRST_EXTENT + 12 * i;
    var ib' := Patch(ib, at + 4, PackLittle16(len));
    PatchedHalf(ib, at + 4, len);
    SameWord(ib, ib', at);
    SameHalf(ib, ib', at + 6);
    SameWord(ib, ib', at + 8);
  }

  /** What remains of the table is the model's cut list. */
  lemma {:induction false} CutEntriesKeep(ib: Inode, nbc: Word, n: nat)
    requires n <= MAX_EXTENTS
    ensures |Kept(ExtentsOf(ib, n), nbc)| <= n
    ensures ExtentsOf(CutEntries(ib, nbc, n), |Kept(ExtentsOf(ib, n), nbc)|) == Kept(ExtentsOf(ib, n), nbc)
    decreases n
  {
    hide ExtentAt, Patch, ExtentsOf, PackLittle16;
    if n > 0 {
      ExtentsInit(ib, n);
      var e, at := ExtentAt(ib, n - 1), FIRST_EXTENT + 12 * (n - 1);
      if e.logical >= nbc {
        var ib1 := Patch(ib, at, Zeros(12));
        PatchFront(ib, at, Zeros(12));
        SameExtents(ib, ib1, n - 1);
        CutEntriesKeep(ib1, nbc, n - 1);
      } else if Plus(e.logical, e.len) > nbc {
        var f := PackLittle16((nbc - e.logical) % 0x1_0000);
        var ib1 := Patch(ib, at + 4, f);
        PatchFront(ib, at + 4, f);
        SameExtents(ib, ib1, n - 1);
        LengthOnly(ib, n - 1, (nbc - e.logical) % 0x1_0000);
        ExtentsInit(ib1, n);
        assert ExtentsOf(ib1, n) == ExtentsOf(ib, n)[n - 1 := e.(len := (nbc - e.logical) % 0x1_0000)];
      }
    }
  }

  lemma PatchFront(b: seq<Byte>, off: nat, f: seq<Byte>)
    requires off + |f| <= |b|
    ensures |Patch(b, off, f)| == |b| && forall k :: 0 <= k < off ==> Patch(b, off, f)[k] == b[k]
  {
  }

  /** The table cut, and its number of entries. */
  function WithCut(ib: Inode, nbc: Word): (r: Inode)
    requires InodeOk(ib)
    ensures |r| == |ib|
  {
    var n := Le16(ib, ENTRIES);
    CutEntriesKeep(ib, nbc, n);
    Patch(CutEntries(ib, nbc, n), ENTRIES, PackLittle16(|Kept(ExtentsOf(ib, n), nbc)|))
  }

  lemma WithCutFile(ib: Inode, nbc: Word)
    requires InodeOk(ib)
    ensures InodeOk(WithCut(ib, nbc)) && FileOf(WithCut(ib, nbc)) == FileOf(ib).(leaf := Kept(FileOf(ib).leaf, nbc))
  {
    hide Le32, Le16, PackLittle16, CutEntries, ExtentAt;
    var n := Le16(ib, ENTRIES);
    CutEntriesKeep(ib, nbc, n);
    CutEntriesShape(ib, nbc, n);
    var cut := CutEntries(ib, nbc, n);
    var k := |Kept(ExtentsOf(ib, n), nbc)|;
    var ib' := WithCut(ib, nbc);
    PatchedHalf(cut, ENTRIES, k);
    SameHalf(ib, ib', EXTENT_MAGIC);
    SameHalf(ib, ib', DEPTH);
    SameWord(ib, ib', SIZE_LOW);
    SameWord(ib, ib', SIZE_HIGH);
    SameWord(ib, ib', SECTORS);
    SameExtents(cut, ib', k);
  }

  /** The inode of a truncated file, after `freed` of its blocks are freed. */
  function CutInode(pl: Places, ib: Inode, ino: nat, newSize: nat, freed: nat, now: Word): (r: Inode)
    requires InodeOk(ib) && |ib| == pl.inodeSize && newSize < 0x1_0000_0000_0000_0000
    ensures |r| == |ib|
  {
    Touched(pl, WithSize(WithCut(ib, T.BlockCount(newSize)), newSize,
                         (FileOf(ib).sectors - SECTORS_PER_BLOCK * freed) % 0x1_0000_0000), ino, now)
  }

  lemma CutInodeFile(pl: Places, ib: Inode, ino: nat, newSize: nat, now: Word)
    requires InodeOk(ib) && |ib| == pl.inodeSize && newSize < 0x1_0000_0000_0000_0000
    ensures var freed := |Freed(FileOf(ib).leaf, T.BlockCount(newSize))|;
            var r := CutInode(pl, ib, ino, newSize, freed, now);
            InodeOk(r) && FileOf(r) == T.Cut(FileOf(ib), newSize)
  {
    hide InodeOk, FileOf, Touched, WithSize, WithCut;
    var nbc := T.BlockCount(newSize);
    var freed := |Freed(FileOf(ib).leaf, nbc)|;
    var sectors := (FileOf(ib).sectors - SECTORS_PER_BLOCK * freed) % 0x1_0000_0000;
    WithCutFile(ib, nbc);
    WithSizeSets(WithCut(ib, nbc), newSize, sectors);
    TouchedFile(pl, WithSize(WithCut(ib, nbc), newSize, sectors), ino, now);
  }

  /** The last transaction of a truncation: the inode's block. */
  function InodeTx(pl: Places, d: Volume1024, ino: nat, ib: Inode): Tx<B.Block>
    requires Readable(pl, d) && ino in pl.inodes && |ib| == pl.inodeSize
  {
    var (t, k) := pl.inodes[ino];
    [BlockWrite(t, WithInode(d[t], pl.inodeSize, k, ib))]
  }

  lemma InodeOnDisk(pl: Places, geo: Geometry, d: Volume1024, ino: nat, ib: Inode)
    requires DiskOk(pl, geo, d) && ino in pl.inodes && |ib| == pl.inodeSize && InodeOk(ib) && geo.first + 7 <= geo.maxlen
    ensures var tx := InodeTx(pl, d, ino, ib);
            && ValidTx(geo, |d|, tx) && DiskOk(pl, geo, After(tx, d))
            && VolumeAt(pl, After(tx, d)) == VolumeAt(pl, d).(files := VolumeAt(pl, d).files[ino := FileOf(ib)])
  {
    hide InodeOk, FileOf, InodeAt, GroupAt, FreeAt, InJournal, IsMeta, WithInode, After;
    var tx := InodeTx(pl, d, ino, ib);
    var d' := After(tx, d);
    var t := pl.inodes[ino].0;
    AppliedAt(tx, d, 0);
    forall n | 0 <= n < |d| && n != t ensures d'[n] == d[n] {
      NotApplied(tx, d, n);
    }
    assert Readable(pl, d');
    FilesEdited(pl, d, d', ino, ib);
    forall g | 0 <= g < |pl.bitmaps| ensures GroupAt(pl, d', g) == GroupAt(pl, d, g) {
      SameGroup(pl, d, d', g);
    }
  }

  lemma SameGroup(pl: Places, d: Volume1024, d': Volume1024, g: nat)
    requires Readable(pl, d) && Readable(pl, d') && g < |pl.bitmaps|
    requires d'[DESCS] == d[DESCS] && d'[pl.bitmaps[g]] == d[pl.bitmaps[g]]
    ensures GroupAt(pl, d', g) == GroupAt(pl, d, g)
  {
  }
}
