/** Bitmaps, descriptors, superblock counts and inodes as ext4 draws them: numbers at fixed
    offsets, the least significant byte first. What the block-level model reads and writes is
    measured against these drawings. */
module VolumeLayout {
  import opened Words
  import opened Bytes
  import opened Extents
  import opened Bitmaps
  import opened Volumes
  import opened SmallBlocks
  import opened VolumeOnDisk
  import N = NamespaceOnDisk
  import M = MakeDirs

  // ---------------------------------------------------------------- bitmaps

  /** The weight of each bit of a byte. */
  const WEIGHTS: seq<nat> := [1, 2, 4, 8, 16, 32, 64, 128]

  lemma HalfThenRest(x: nat, p: nat)
    requires p > 0
    ensures x / 2 / p == x / (2 * p)
  {
    var q, r := x / 2 / p, x / 2 % p;
    assert x / 2 == q * p + r;
    QuotientUnique(q, 2 * r + x % 2, 2 * p);
    assert q * (2 * p) + (2 * r + x % 2) == x;
  }

  lemma {:induction false} BitWeight(x: nat, j: nat)
    ensures Pow2(j) > 0 && (BitOn(x, j) <==> x / Pow2(j) % 2 == 1)
  {
    if j > 0 {
      BitWeight(x / 2, j - 1);
      HalfThenRest(x, Pow2(j - 1));
    }
  }

  lemma Weights(j: nat)
    requires j < 8
    ensures WEIGHTS[j] == Pow2(j)
  {
    assert Pow2(2) == 4 && Pow2(4) == 16 && Pow2(6) == 64;
  }

  /** Block `k` of a group is bit `k % 8` of byte `k / 8`, bit 0 having the weight 1. */
  lemma BitmapDrawn(b: Bytes1024, k: nat)
    requires k < 8 * SIZE
    ensures BitAt(b, k) <==> b[k / 8] / WEIGHTS[k % 8] % 2 == 1
  {
    Weights(k % 8);
    BitWeight(b[k / 8], k % 8);
  }

  /** Blocks are numbered through the groups, from the first data block on. */
  lemma AddressesRun(lay: Layout, g: nat, bit: nat)
    requires bit < lay.perGroup
    ensures Address(lay, 0, 0) == lay.first
    ensures Address(lay, g, bit) + 1 == if bit + 1 < lay.perGroup then Address(lay, g, bit + 1) else Address(lay, g + 1, 0)
  {
    assert (g + 1) * lay.perGroup == g * lay.perGroup + lay.perGroup;
  }

  // ---------------------------------------------------------------- descriptors

  /** Group `g`'s descriptor begins at `g` times 32, or 64 on wide volumes. */
  function DescPlace(lay: Layout, g: nat): nat { g * if lay.wide then 64 else 32 }

  lemma CountDrawn(b: Bytes1024, lay: Layout, g: nat)
    requires DescPlace(lay, g) + (if lay.wide then 64 else 32) <= SIZE
    ensures HasDesc(lay, g)
    ensures CountAt(b, lay, g) == (Little(b, DescPlace(lay, g) + 12, 2), if lay.wide then Little(b, DescPlace(lay, g) + 44, 2) else 0)
  {
    hide Little, Le16;
    assert (g + 1) * DescSize(lay) == DescPlace(lay, g) + DescSize(lay);
    LittleHalf(b, DescPlace(lay, g) + 12);
    if lay.wide { LittleHalf(b, DescPlace(lay, g) + 44); }
  }

  /** The offsets in a descriptor that counting writes: the count, the bitmap's checksum, the
      descriptor's own, and the high halves of the first two. */
  predicate CountedField(wide: bool, k: nat) {
    12 <= k < 14 || 24 <= k < 26 || 30 <= k < 32 || (wide && (44 <= k < 46 || 56 <= k < 58))
  }

  /** The descriptor's bytes with its checksum taken as zero. */
  function DescZeroed(b: Bytes1024, lay: Layout, g: nat): seq<Byte>
    requires DescPlace(lay, g) + (if lay.wide then 64 else 32) <= SIZE
  {
    var at := DescPlace(lay, g);
    b[at..at + 30] + [0, 0] + b[at + 32..at + if lay.wide then 64 else 32]
  }

  /** What is written into the descriptor block when a group's count and bitmap change. */
  lemma DescDrawn(pl: Places, b: Bytes1024, g: nat, lo: Half, hi: Half, bitmap: Bytes1024)
    requires DescPlace(pl.lay, g) + (if pl.lay.wide then 64 else 32) <= SIZE && pl.lay.perGroup <= 8 * SIZE
    ensures HasDesc(pl.lay, g)
    ensures var r, at := DescEdit(pl, b, g, lo, hi, bitmap), DescPlace(pl.lay, g);
            var sum := if pl.meta then pl.bitmapSum(bitmap[..pl.lay.perGroup / 8]) else 0;
            && Little(r, at + 12, 2) == lo && Little(r, at + 24, 2) == sum % 0x1_0000
            && (pl.lay.wide ==> Little(r, at + 44, 2) == hi && Little(r, at + 56, 2) == sum / 0x1_0000)
            && Little(r, at + 30, 2) == (if pl.meta then pl.descSum(g, DescZeroed(r, pl.lay, g)) % 0x1_0000 else 0)
            && forall i :: 0 <= i < SIZE && !(i >= at && CountedField(pl.lay.wide, i - at)) ==> r[i] == b[i]
  {
    hide Little, Le16, PackLittle16;
    var at := DescPlace(pl.lay, g);
    assert (g + 1) * DescSize(pl.lay) == at + DescSize(pl.lay) && g * DescSize(pl.lay) == at;
    var b1 := WithCount(b, pl.lay, g, lo, hi);
    var b2 := WithBitmapSum(pl, b1, g, bitmap);
    var r := WithDescSum(pl, b2, g);
    CountWritten(b, pl.lay, g, at, lo, hi);
    SumWritten(pl, b1, g, at, bitmap);
    OwnSumWritten(pl, b2, g, at);
    SameLittleHalf(b1, b2, at + 12);
    SameLittleHalf(b2, r, at + 12);
    SameLittleHalf(b2, r, at + 24);
    if pl.lay.wide {
      SameLittleHalf(b1, b2, at + 44);
      SameLittleHalf(b2, r, at + 44);
      SameLittleHalf(b2, r, at + 56);
    }
  }

  lemma SameLittleHalf(b: seq<Byte>, b': seq<Byte>, off: nat)
    requires off + 2 <= |b| == |b'| && b'[off] == b[off] && b'[off + 1] == b[off + 1]
    ensures Little(b', off, 2) == Little(b, off, 2)
  {
    LittleHalf(b, off);
    LittleHalf(b', off);
    SameHalf(b, b', off);
  }

  lemma HalfWritten(b: seq<Byte>, off: nat, v: Half)
    requires off + 2 <= |b|
    ensures Little(Patch(b, off, PackLittle16(v)), off, 2) == v
  {
    PatchedHalf(b, off, v);
    LittleHalf(Patch(b, off, PackLittle16(v)), off);
  }

  lemma CountWritten(b: Bytes1024, lay: Layout, g: nat, at: nat, lo: Half, hi: Half)
    requires HasDesc(lay, g) && at == g * DescSize(lay)
    ensures var r := WithCount(b, lay, g, lo, hi);
            && at + DescSize(lay) <= SIZE && Little(r, at + 12, 2) == lo && (lay.wide ==> Little(r, at + 44, 2) == hi)
            && forall i :: 0 <= i < SIZE && !(at + 12 <= i < at + 14) && !(lay.wide && at + 44 <= i < at + 46) ==> r[i] == b[i]
  {
    hide Little, PackLittle16;
    assert (g + 1) * DescSize(lay) == at + DescSize(lay);
    var b1 := Patch(b, at + 12, PackLittle16(lo));
    HalfWritten(b, at + 12, lo);
    if lay.wide {
      HalfWritten(b1, at + 44, hi);
      SameLittleHalf(b1, Patch(b1, at + 44, PackLittle16(hi)), at + 12);
    }
  }

  lemma SumWritten(pl: Places, b: Bytes1024, g: nat, at: nat, bitmap: Bytes1024)
    requires HasDesc(pl.lay, g) && at == g * DescSize(pl.lay) && at + DescSize(pl.lay) <= SIZE && pl.lay.perGroup <= 8 * SIZE
    ensures var r := WithBitmapSum(pl, b, g, bitmap);
            var sum := if pl.meta then pl.bitmapSum(bitmap[..pl.lay.perGroup / 8]) else 0;
            && Little(r, at + 24, 2) == sum % 0x1_0000 && (pl.lay.wide ==> Little(r, at + 56, 2) == sum / 0x1_0000)
            && forall i :: 0 <= i < SIZE && !(at + 24 <= i < at + 26) && !(pl.lay.wide && at + 56 <= i < at + 58) ==> r[i] == b[i]
  {
    hide Little, PackLittle16;
    var sum := if pl.meta then pl.bitmapSum(bitmap[..pl.lay.perGroup / 8]) else 0;
    var b1 := Patch(b, at + 24, PackLittle16(sum % 0x1_0000));
    HalfWritten(b, at + 24, sum % 0x1_0000);
    if pl.lay.wide {
      HalfWritten(b1, at + 56, sum / 0x1_0000);
      SameLittleHalf(b1, Patch(b1, at + 56, PackLittle16(sum / 0x1_0000)), at + 24);
    }
  }

  lemma OwnSumWritten(pl: Places, b: Bytes1024, g: nat, at: nat)
    requires HasDesc(pl.lay, g) && at == g * DescSize(pl.lay) == DescPlace(pl.lay, g) && at + DescSize(pl.lay) <= SIZE
    ensures var r := WithDescSum(pl, b, g);
            && Little(r, at + 30, 2) == (if pl.meta then pl.descSum(g, DescZeroed(r, pl.lay, g)) % 0x1_0000 else 0)
            && forall i :: 0 <= i < SIZE && !(at + 30 <= i < at + 32) ==> r[i] == b[i]
  {
    hide Little, PackLittle16;
    var r := WithDescSum(pl, b, g);
    assert Zeros(2) == [0, 0];
    var zeroed := Patch(b, at + 30, Zeros(2))[at..at + DescSize(pl.lay)];
    assert DescZeroed(r, pl.lay, g) == zeroed;
    HalfWritten(b, at + 30, if pl.meta then pl.descSum(g, zeroed) % 0x1_0000 else 0);
  }

  // ---------------------------------------------------------------- the superblock

  lemma FreeDrawn(b: Bytes1024, wide: bool)
    ensures FreeAt(b, wide) == Little(b, 12, 4) + if wide then 0x1_0000_0000 * Little(b, 344, 4) else 0
  {
    hide Little, Le32;
    LittleFields(b, 12);
    LittleFields(b, 344);
  }

  // ---------------------------------------------------------------- inodes

  /** Extent `i` of the leaf in an inode: 12 bytes from offset 52 on. */
  function ExtentDrawn(ib: Inode, i: nat): Extent
    requires i < 4
  {
    var at := 52 + 12 * i;
    LittleFields(ib, at);
    LittleHalf(ib, at + 4);
    Extent(Little(ib, at, 4), Little(ib, at + 4, 2), 0x1_0000_0000 * Little(ib, at + 6, 2) + Little(ib, at + 8, 4))
  }

  lemma ExtentIsDrawn(ib: Inode, i: nat)
    requires i < 4
    ensures ExtentAt(ib, i) == ExtentDrawn(ib, i)
  {
    hide Little, Le32, Le16;
    var at := 52 + 12 * i;
    LittleFields(ib, at);
    LittleHalf(ib, at + 4);
    LittleHalf(ib, at + 6);
    LittleFields(ib, at + 8);
  }

  /** A file's inode: size in the fields at 4 and 108, sectors at 28, and from 40 on the extent
      header, 0xF30A, and up to four extents. */
  lemma InodeDrawn(ib: Inode)
    ensures InodeOk(ib) <==> Little(ib, 40, 2) == 0xF30A && Little(ib, 46, 2) == 0 && Little(ib, 42, 2) <= 4
    ensures InodeOk(ib) ==>
              && FileOf(ib).size == Little(ib, 4, 4) + 0x1_0000_0000 * Little(ib, 108, 4)
              && FileOf(ib).sectors == Little(ib, 28, 4)
              && |FileOf(ib).leaf| == Little(ib, 42, 2)
              && forall i :: 0 <= i < |FileOf(ib).leaf| ==> i < 4 && FileOf(ib).leaf[i] == ExtentDrawn(ib, i)
  {
    hide Little, Le32, Le16, ExtentAt, ExtentDrawn;
    LittleHalf(ib, 40);
    LittleHalf(ib, 42);
    LittleHalf(ib, 46);
    LittleFields(ib, 4);
    LittleFields(ib, 108);
    LittleFields(ib, 28);
    if InodeOk(ib) {
      forall i | 0 <= i < |FileOf(ib).leaf| ensures i < 4 && FileOf(ib).leaf[i] == ExtentDrawn(ib, i) {
        ExtentIsDrawn(ib, i);
      }
    }
  }

  /** An inode's bytes with its checksum taken as zero. */
  function SumZeroed(ib: Inode): seq<Byte> {
    if |ib| == 128 then ib[..124] + [0, 0] + ib[126..]
    else if |ib| < 132 then ib
    else ib[..124] + [0, 0] + ib[126..130] + [0, 0] + ib[132..]
  }

  /** The last edit of an inode: the time at 16 and, with metadata checksums, the checksum at
      124, its high half at 130 in larger inodes; no other byte. */
  lemma TouchDrawn(pl: Places, ib: Inode, ino: nat, now: Word)
    requires |ib| == pl.inodeSize
    ensures var r := Touched(pl, ib, ino, now);
            && Little(r, 16, 4) == now
            && (pl.meta ==>
                  var sum := pl.inodeSum(ino, SumZeroed(r));
                  && Little(r, 124, 2) == sum % 0x1_0000
                  && (|ib| > 128 ==> Little(r, 130, 2) == sum / 0x1_0000))
            && forall k :: 0 <= k < |ib| && !(16 <= k < 20) && !(pl.meta && (124 <= k < 126 || (|ib| > 128 && 130 <= k < 132))) ==>
                 r[k] == ib[k]
  {
    hide Little, PackLittle, PackLittle16, Le32;
    var b1 := Patch(ib, 16, PackLittle(now));
    var r := Touched(pl, ib, ino, now);
    PatchedWord(ib, 16, now);
    LittleFields(r, 16);
    SameWord(b1, r, 16);
    LittleFields(b1, 16);
    if pl.meta { InodeSumWritten(pl, b1, ino); }
  }

  lemma InodeSumWritten(pl: Places, ib: Inode, ino: nat)
    requires |ib| == pl.inodeSize && pl.meta
    ensures var r := WithInodeSum(pl, ib, ino);
            var sum := pl.inodeSum(ino, SumZeroed(r));
            && Little(r, 124, 2) == sum % 0x1_0000
            && (|ib| > 128 ==> Little(r, 130, 2) == sum / 0x1_0000)
  {
    hide Little, PackLittle16;
    assert Zeros(2) == [0, 0];
    var r := WithInodeSum(pl, ib, ino);
    if |ib| == 128 {
      assert SumZeroed(r) == Patch(ib, 124, Zeros(2));
      HalfWritten(ib, 124, pl.inodeSum(ino, SumZeroed(r)) % 0x1_0000);
    } else {
      assert SumZeroed(r) == Patch(Patch(ib, 124, Zeros(2)), 130, Zeros(2));
      var sum := pl.inodeSum(ino, SumZeroed(r));
      var b1 := Patch(ib, 124, PackLittle16(sum % 0x1_0000));
      HalfWritten(ib, 124, sum % 0x1_0000);
      HalfWritten(b1, 130, sum / 0x1_0000);
      SameLittleHalf(b1, r, 124);
    }
  }

  /** Links are counted in the two bytes at 26 of an inode. */
  lemma LinksDrawn(b: Bytes1024, size: InodeSize, k: nat)
    requires k < InodesIn(size)
    ensures SlotAt(size, k) + size <= SIZE && N.LinkAt(b, size, k) == Little(b, SlotAt(size, k) + 26, 2)
  {
    hide Little, Le16;
    SlotFits(size, k);
    LittleHalf(b, SlotAt(size, k) + 26);
  }

  /** A new directory's parent has one link more there. */
  lemma ParentDrawn(pl: Places, ib: Inode, ino: nat, now: Word)
    requires |ib| == pl.inodeSize
    ensures Little(M.ParentInode(pl, ib, ino, now), 26, 2) == (Little(ib, 26, 2) + 1) % 0x1_0000
  {
    hide Little, PackLittle16, Touched, Le16, Patch;
    LittleHalf(ib, 26);
    var linked := Patch(ib, 26, PackLittle16((Le16(ib, 26) + 1) % 0x1_0000));
    HalfWritten(ib, 26, (Le16(ib, 26) + 1) % 0x1_0000);
    TouchDrawn(pl, linked, ino, now);
    SameLittleHalf(linked, Touched(pl, linked, ino, now), 26);
  }

  /** A field of an inode, patched in the inode or in its block. */
  lemma PatchInSlot(b: Bytes1024, size: InodeSize, k: nat, ib: Inode, at: nat, f: seq<Byte>)
    requires k < InodesIn(size) && |ib| == size && at + |f| <= size
    ensures SlotAt(size, k) + size <= SIZE
    ensures Patch(WithInode(b, size, k, ib), SlotAt(size, k) + at, f) == WithInode(b, size, k, Patch(ib, at, f))
  {
    hide SlotAt, InodesIn;
    SlotFits(size, k);
  }

  lemma SlotBytes(b: Bytes1024, size: InodeSize, k: nat, ib: Inode)
    requires k < InodesIn(size) && |ib| == size
    ensures SlotAt(size, k) + size <= SIZE
    ensures WithInode(b, size, k, ib)[SlotAt(size, k)..SlotAt(size, k) + size] == ib
    ensures WithInode(b, size, k, SlotOf(b, size, k)) == b
  {
    hide SlotAt, InodesIn;
    SlotFits(size, k);
  }

  /** A move touches its parents' inodes as the allocator does a file's. */
  lemma TouchIsTouched(s: N.Store, pl: Places, b: Bytes1024, k: nat, ino: Word, now: Word)
    requires pl.meta == s.meta && pl.inodeSize == s.inodeSize && k < InodesIn(s.inodeSize)
    requires forall bytes :: pl.inodeSum(ino, bytes) == s.inodeSum(ino, bytes)
    ensures N.Touch(s, b, k, ino, now) == WithInode(b, s.inodeSize, k, Touched(pl, SlotOf(b, s.inodeSize, k), ino, now))
  {
    hide PackLittle, PackLittle16, Patch, WithInode, SlotOf, InodesIn;
    var size := s.inodeSize;
    SlotFits(size, k);
    var ib := SlotOf(b, size, k);
    var ib1 := Patch(ib, 16, PackLittle(now));
    SlotBytes(b, size, k, ib);
    PatchInSlot(b, size, k, ib, 16, PackLittle(now));
    if s.meta {
      PatchInSlot(b, size, k, ib1, 124, Zeros(2));
      var z1 := Patch(ib1, 124, Zeros(2));
      if size == 128 {
        SlotBytes(b, size, k, z1);
        PatchInSlot(b, size, k, ib1, 124, PackLittle16(pl.inodeSum(ino, z1) % 0x1_0000));
      } else {
        PatchInSlot(b, size, k, z1, 130, Zeros(2));
        var z2 := Patch(z1, 130, Zeros(2));
        SlotBytes(b, size, k, z2);
        var low, high := PackLittle16(pl.inodeSum(ino, z2) % 0x1_0000), PackLittle16(pl.inodeSum(ino, z2) / 0x1_0000);
        PatchInSlot(b, size, k, ib1, 124, low);
        PatchInSlot(b, size, k, Patch(ib1, 124, low), 130, high);
      }
    }
  }
}
