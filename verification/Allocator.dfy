/** `ext4_file_extend_block` as it runs: blocks read through the journal into scratch
    buffers, edited there byte by byte, and committed as one transaction. */
module Allocator {
  import opened Words
  import opened Bytes
  import opened LogWalk
  import opened Programs
  import opened Commit
  import opened Extents
  import opened Bitmaps
  import opened Volumes
  import opened SmallBlocks
  import opened VolumeOnDisk
  import opened VolumeSafety
  import opened Journal
  import opened Buffers
  import B = ByteFormat
  import J = Superblocks

  method PutBit(a: array<Byte>, k: nat, on: bool)
    requires a.Length == SIZE && k < 8 * SIZE
    modifies a
    ensures a[..] == SetBit(old(a[..]), k, on)
  {
    a[k / 8] := WithBitOf(a[k / 8], k % 8, on);
  }

  // ---------------------------------------------------------------- finding a block

  lemma GroupIs(pl: Places, d: Volume1024, g: nat)
    requires Readable(pl, d) && InodesOk(pl, d) && g < |pl.bitmaps|
    ensures VolumeAt(pl, d).groups[g] == GroupAt(pl, d, g) && |VolumeAt(pl, d).groups| == |pl.bitmaps|
    ensures Whole(d, pl.bitmaps[g]) && HasDesc(pl.lay, g) && pl.lay.perGroup <= 8 * SIZE
    ensures GroupAt(pl, d, g).bitmap == BitsOf(d[pl.bitmaps[g]], pl.lay.perGroup)
    ensures (GroupAt(pl, d, g).lo, GroupAt(pl, d, g).hi) == CountAt(d[DESCS], pl.lay, g)
  {
    hide FileOf, InodeAt, FreeAt;
  }

  /** Looks for the first clear bit of a bitmap that has been read. */
  method ScanBitmap(bitmap: array<Byte>, lay: Layout) returns (b: nat)
    requires bitmap.Length == SIZE && lay.perGroup <= 8 * SIZE
    ensures b <= ScanBits(lay) <= lay.perGroup
    ensures FirstClear(BitsOf(bitmap[..], lay.perGroup), 0, ScanBits(lay)) == if b < ScanBits(lay) then Some(b) else None
  {
    hide BitAt;
    ghost var bits := BitsOf(bitmap[..], lay.perGroup);
    b := 0;
    while b < ScanBits(lay)
      invariant 0 <= b <= ScanBits(lay) <= lay.perGroup
      invariant FirstClear(bits, 0, ScanBits(lay)) == FirstClear(bits, b, ScanBits(lay))
    {
      if !BitAt(bitmap[..], b) { return; }
      b := b + 1;
    }
  }

  /** Scans for a free block and sets its bit in the scratch bitmap. */
  method FindFreeBlock(fs: Mounted<B.Block>, ghost d: Volume1024, pl: Places, descs: array<Byte>, bitmap: array<Byte>)
      returns (rc: int, group: nat, bit: nat)
    requires Sees(fs, d) && Readable(pl, d) && InodesOk(pl, d)
    requires descs != bitmap && bitmap.Length == SIZE && descs[..] == d[DESCS]
    modifies bitmap
    ensures Sees(fs, d)
    ensures match FindFree(pl.lay, VolumeAt(pl, d).groups, 0)
            case None => rc == -1
            case Some((g, b)) => rc == 0 && group == g && bit == b && bitmap[..] == BitmapEdit(pl, d, g, b, true)
  {
    hide Sees, VolumeAt, InodesOk, BitsOf, FirstClear, SetBit, CountAt, ScanBits, BitAt;
    ghost var groups := VolumeAt(pl, d).groups;
    rc, group, bit := -1, 0, 0;
    while group < |pl.bitmaps|
      invariant 0 <= group <= |pl.bitmaps| == |groups| && Sees(fs, d) && descs[..] == d[DESCS] && rc == -1
      invariant FindFree(pl.lay, groups, 0) == FindFree(pl.lay, groups, group)
    {
      GroupIs(pl, d, group);
      var (lo, hi) := CountAt(descs[..], pl.lay, group);
      if lo != 0 || hi != 0 {
        Load(fs, d, pl.bitmaps[group], bitmap);
        bit := ScanBitmap(bitmap, pl.lay);
        if bit < ScanBits(pl.lay) {
          PutBit(bitmap, bit, true);
          return 0, group, bit;
        }
      }
      group := group + 1;
    }
  }

  /** With all four extents in use, only the block after the last one is tried. */
  method TakeContiguous(fs: Mounted<B.Block>, ghost d: Volume1024, pl: Places, leaf: Leaf, bitmap: array<Byte>)
      returns (rc: int, group: nat, bit: nat)
    requires Sees(fs, d) && Readable(pl, d) && InodesOk(pl, d) && pl.lay.perGroup > 0 && |leaf| >= MAX_EXTENTS
    requires bitmap.Length == SIZE
    modifies bitmap
    ensures Sees(fs, d)
    ensures match Candidate(pl.lay, VolumeAt(pl, d), leaf)
            case None => rc == -1
            case Some((g, b)) => rc == 0 && group == g && bit == b && bitmap[..] == BitmapEdit(pl, d, g, b, true)
  {
    hide Sees, VolumeAt, InodesOk, SetBit, BitAt, Readable, GroupOf, BitOf, InRange;
    rc, group, bit := -1, 0, 0;
    var n := Contiguous(leaf);
    if !InRange(pl.lay, |pl.bitmaps|, n) { return; }
    PartsAddress(pl.lay, |pl.bitmaps|, n);
    group, bit := GroupOf(pl.lay, n), BitOf(pl.lay, n);
    GroupIs(pl, d, group);
    Load(fs, d, pl.bitmaps[group], bitmap);
    if BitAt(bitmap[..], bit) { return; }
    PutBit(bitmap, bit, true);
    rc := 0;
  }

  // ---------------------------------------------------------------- editing the counts

  method PutCount(descs: array<Byte>, lay: Layout, g: nat, lo: Half, hi: Half)
    requires descs.Length == SIZE && HasDesc(lay, g)
    modifies descs
    ensures descs[..] == WithCount(old(descs[..]), lay, g, lo, hi)
  {
    hide PackLittle16, Patch;
    Put(descs, g * DescSize(lay) + FREE_LOW, PackLittle16(lo));
    if lay.wide {
      Put(descs, g * DescSize(lay) + FREE_HIGH, PackLittle16(hi));
    }
  }

  method PutBitmapSum(descs: array<Byte>, pl: Places, g: nat, bitmap: array<Byte>)
    requires descs.Length == SIZE == bitmap.Length && descs != bitmap && HasDesc(pl.lay, g) && pl.lay.perGroup <= 8 * SIZE
    modifies descs
    ensures descs[..] == WithBitmapSum(pl, old(descs[..]), g, bitmap[..])
  {
    hide PackLittle16, Patch;
    ghost var bits := bitmap[..];
    assert bitmap[..pl.lay.perGroup / 8] == bits[..pl.lay.perGroup / 8];
    var sum := if pl.meta then pl.bitmapSum(bitmap[..pl.lay.perGroup / 8]) else 0;
    Put(descs, g * DescSize(pl.lay) + BITMAP_SUM_LOW, PackLittle16(sum % 0x1_0000));
    if pl.lay.wide {
      Put(descs, g * DescSize(pl.lay) + BITMAP_SUM_HIGH, PackLittle16(sum / 0x1_0000));
    }
    assert bitmap[..] == bits;
  }

  lemma PatchTwice(b: seq<Byte>, at: nat, f: seq<Byte>, g: seq<Byte>)
    requires |f| == |g| && at + |f| <= |b|
    ensures Patch(Patch(b, at, f), at, g) == Patch(b, at, g)
  {
  }

  /** The descriptor's own checksum: its field is zeroed while it is computed. */
  method PutDescSum(descs: array<Byte>, pl: Places, g: nat)
    requires descs.Length == SIZE && HasDesc(pl.lay, g)
    modifies descs
    ensures descs[..] == WithDescSum(pl, old(descs[..]), g)
  {
    hide PackLittle16, Patch;
    var at, sum := g * DescSize(pl.lay), 0;
    ghost var b := descs[..];
    if pl.meta {
      Put(descs, at + DESC_SUM, Zeros(2));
      sum := pl.descSum(g, descs[at..at + DescSize(pl.lay)]) % 0x1_0000;
      PatchTwice(b, at + DESC_SUM, Zeros(2), PackLittle16(sum));
    }
    Put(descs, at + DESC_SUM, PackLittle16(sum));
  }

  /** One block more or less in group `g`'s descriptor, and both its checksums. */
  method EditDescs(descs: array<Byte>, pl: Places, g: nat, taken: bool, bitmap: array<Byte>)
    requires descs.Length == SIZE == bitmap.Length && descs != bitmap && HasDesc(pl.lay, g) && pl.lay.perGroup <= 8 * SIZE
    modifies descs
    ensures var (lo, hi) := CountAt(old(descs[..]), pl.lay, g);
            var was := Group([], lo, hi);
            var now := if taken then Less(was, pl.lay.wide) else More(was, pl.lay.wide);
            descs[..] == DescEdit(pl, old(descs[..]), g, now.lo, now.hi, bitmap[..])
  {
    hide CountAt, WithCount, WithBitmapSum, WithDescSum;
    ghost var bits := bitmap[..];
    var (lo, hi) := CountAt(descs[..], pl.lay, g);
    var was := Group([], lo, hi);
    var now := if taken then Less(was, pl.lay.wide) else More(was, pl.lay.wide);
    PutCount(descs, pl.lay, g, now.lo, now.hi);
    PutBitmapSum(descs, pl, g, bitmap);
    PutDescSum(descs, pl, g);
    assert bitmap[..] == bits;
  }

  /** The superblock's count and checksum. */
  method EditSuper(a: array<Byte>, cfg: B.Config, wide: bool, free: nat)
    requires a.Length == SIZE
    modifies a
    ensures a[..] == WithFree(cfg, old(a[..]), wide, free)
  {
    hide PackLittle, Patch, J.MetadataSum;
    Put(a, SB_FREE_LOW, PackLittle(free % 0x1_0000_0000));
    if wide {
      Put(a, SB_FREE_HIGH, PackLittle(free / 0x1_0000_0000 % 0x1_0000_0000));
    }
    ghost var b := a[..];
    if J.MetadataSum(a[..]) {
      assert a[..J.SB_SUM] == b[0..J.SB_SUM];
      Put(a, J.SB_SUM, PackLittle(cfg.crc(B.CRC_INIT, a[..J.SB_SUM])));
    }
  }

  // ---------------------------------------------------------------- editing an inode

  /** A field of the inode in slot `k`; `b` is the block as it was read. */
  method PutField(a: array<Byte>, ghost b: Bytes1024, size: InodeSize, k: nat, ghost ib: Inode, at: nat, field: seq<Byte>)
    requires a.Length == SIZE && k < InodesIn(size) && |ib| == size && at + |field| <= size && a[..] == WithInode(b, size, k, ib)
    modifies a
    ensures a[..] == WithInode(b, size, k, Patch(ib, at, field))
  {
    hide SlotAt, InodesIn;
    SlotFits(size, k);
    Put(a, SlotAt(size, k) + at, field);
  }

  lemma SlotHolds(b: Bytes1024, size: InodeSize, k: nat, ib: Inode)
    requires k < InodesIn(size) && |ib| == size
    ensures WithInode(b, size, k, SlotOf(b, size, k)) == b
    ensures SlotOf(WithInode(b, size, k, ib), size, k) == ib
  {
    hide SlotAt, InodesIn;
    SlotFits(size, k);
  }

  /** An inode's checksum, in place: its fields are zeroed, summed over and restored before
      the new value goes in. */
  method PutInodeSum(a: array<Byte>, ghost b: Bytes1024, pl: Places, k: nat, ghost ib: Inode, ino: nat)
    requires a.Length == SIZE && k < InodesIn(pl.inodeSize) && |ib| == pl.inodeSize && a[..] == WithInode(b, pl.inodeSize, k, ib)
    modifies a
    ensures a[..] == WithInode(b, pl.inodeSize, k, WithInodeSum(pl, ib, ino))
  {
    hide PackLittle16, WithInode, SlotOf, Patch;
    var size := pl.inodeSize;
    if !pl.meta { return; }
    PutField(a, b, size, k, ib, SUM_LOW, Zeros(2));
    ghost var ib1 := Patch(ib, SUM_LOW, Zeros(2));
    if size == 128 {
      SlotHolds(b, size, k, ib1);
      var low := PackLittle16(pl.inodeSum(ino, SlotOf(a[..], size, k)) % 0x1_0000);
      PutField(a, b, size, k, ib1, SUM_LOW, low);
      PatchTwice(ib, SUM_LOW, Zeros(2), low);
    } else {
      PutField(a, b, size, k, ib1, SUM_HIGH, Zeros(2));
      ghost var ib2 := Patch(ib1, SUM_HIGH, Zeros(2));
      SlotHolds(b, size, k, ib2);
      var sum := pl.inodeSum(ino, SlotOf(a[..], size, k));
      var low, high := PackLittle16(sum % 0x1_0000), PackLittle16(sum / 0x1_0000);
      PutField(a, b, size, k, ib2, SUM_LOW, low);
      PutField(a, b, size, k, Patch(ib2, SUM_LOW, low), SUM_HIGH, high);
      SumsOver(ib, low, high);
    }
  }

  lemma SumsOver(ib: Inode, low: seq<Byte>, high: seq<Byte>)
    requires |ib| > 128 + 4 && |low| == |high| == 2
    ensures Patch(Patch(Patch(Patch(ib, SUM_LOW, Zeros(2)), SUM_HIGH, Zeros(2)), SUM_LOW, low), SUM_HIGH, high)
            == Patch(Patch(ib, SUM_LOW, low), SUM_HIGH, high)
  {
  }

  /** The last edit of an inode: time and checksum. */
  method TouchInode(a: array<Byte>, ghost b: Bytes1024, pl: Places, k: nat, ghost ib: Inode, ino: nat, now: Word)
    requires a.Length == SIZE && k < InodesIn(pl.inodeSize) && |ib| == pl.inodeSize && a[..] == WithInode(b, pl.inodeSize, k, ib)
    modifies a
    ensures a[..] == WithInode(b, pl.inodeSize, k, Touched(pl, ib, ino, now))
  {
    hide PackLittle, WithInode, WithInodeSum, Patch;
    PutField(a, b, pl.inodeSize, k, ib, MTIME, PackLittle(now));
    PutInodeSum(a, b, pl, k, Patch(ib, MTIME, PackLittle(now)), ino);
  }

  method PutSize(a: array<Byte>, ghost b: Bytes1024, size: InodeSize, k: nat, ghost ib: Inode, bytes: nat, sectors: Word)
    requires a.Length == SIZE && k < InodesIn(size) && |ib| == size && a[..] == WithInode(b, size, k, ib)
    requires bytes < 0x1_0000_0000_0000_0000
    modifies a
    ensures a[..] == WithInode(b, size, k, WithSize(ib, bytes, sectors))
  {
    hide PackLittle, WithInode, Patch;
    var low, high := PackLittle(bytes % 0x1_0000_0000), PackLittle(bytes / 0x1_0000_0000);
    PutField(a, b, size, k, ib, SIZE_LOW, low);
    PutField(a, b, size, k, Patch(ib, SIZE_LOW, low), SIZE_HIGH, high);
    PutField(a, b, size, k, Patch(Patch(ib, SIZE_LOW, low), SIZE_HIGH, high), SECTORS, PackLittle(sectors));
  }

  /** The inode of an extended file, in the buffer that holds its block. */
  method ExtendInode(a: array<Byte>, pl: Places, ino: nat, k: nat, n: nat, bytes: Word, now: Word)
    requires a.Length == SIZE && k < InodesIn(pl.inodeSize) && n < 0x1_0000_0000_0000
    requires InodeOk(SlotOf(a[..], pl.inodeSize, k))
    requires var ib := SlotOf(a[..], pl.inodeSize, k);
             Le16(ib, ENTRIES) == MAX_EXTENTS ==> n == Contiguous(FileOf(ib).leaf)
    modifies a
    ensures var ib := old(SlotOf(a[..], pl.inodeSize, k));
            a[..] == WithInode(old(a[..]), pl.inodeSize, k, ExtendedInode(pl, ib, ino, n, bytes, now))
  {
    hide PackLittle16, WithInode, SlotOf, Patch, WithSize, Touched, ExtentBytes, FileOf, Le16, Le32, ExtentAt;
    var size := pl.inodeSize;
    ghost var b := a[..];
    var ib := SlotOf(a[..], size, k);
    SlotHolds(b, size, k, ib);
    EntriesOf(ib);
    var f := FileOf(ib);
    ghost var ib1 := if f.leaf != [] && n == Contiguous(f.leaf) then Longer(ib) else Appended(ib, Extent(Extents.End(f.leaf), 1, n));
    if f.leaf != [] && n == Contiguous(f.leaf) {
      var i := |f.leaf| - 1;
      PutField(a, b, size, k, ib, FIRST_EXTENT + 12 * i + 4, PackLittle16((ExtentAt(ib, i).len + 1) % 0x1_0000));
    } else {
      var i := |f.leaf|;
      PutField(a, b, size, k, ib, ENTRIES, PackLittle16(i + 1));
      PutField(a, b, size, k, Patch(ib, ENTRIES, PackLittle16(i + 1)), FIRST_EXTENT + 12 * i,
               ExtentBytes(Extent(Extents.End(f.leaf), 1, n)));
    }
    var total, sectors := (f.size + bytes) % 0x1_0000_0000_0000_0000, Plus(f.sectors, SECTORS_PER_BLOCK);
    PutSize(a, b, size, k, ib1, total, sectors);
    TouchInode(a, b, pl, k, WithSize(ib1, total, sectors), ino, now);
  }

  // ---------------------------------------------------------------- extension

  function Capped(bytes: Word): nat { if bytes > SIZE then SIZE else bytes }

  /** What the new block holds: the data, cut at a block, and zeros. */
  function Padded(data: seq<Byte>, bytes: Word): Bytes1024
    requires Capped(bytes) <= |data|
  {
    data[..Capped(bytes)] + Zeros(SIZE - Capped(bytes))
  }

  method Stage(data: seq<Byte>, bytes: Word) returns (a: array<Byte>)
    requires Capped(bytes) <= |data|
    ensures fresh(a) && a[..] == Padded(data, bytes)
  {
    a := new Byte[SIZE](i => 0);
    Put(a, 0, data[..Capped(bytes)]);
  }

  /** The block to take, its bit set in the scratch bitmap. */
  method Choose(fs: Mounted<B.Block>, ghost d: Volume1024, pl: Places, leaf: Leaf, descs: array<Byte>, bitmap: array<Byte>)
      returns (rc: int, group: nat, bit: nat)
    requires Sees(fs, d) && Readable(pl, d) && InodesOk(pl, d) && pl.lay.perGroup > 0
    requires descs != bitmap && bitmap.Length == SIZE && descs[..] == d[DESCS]
    modifies bitmap
    ensures Sees(fs, d)
    ensures match Candidate(pl.lay, VolumeAt(pl, d), leaf)
            case None => rc == -1
            case Some((g, b)) => rc == 0 && group == g && bit == b && bitmap[..] == BitmapEdit(pl, d, g, b, true)
  {
    hide Sees, VolumeAt, InodesOk, Readable, BitmapEdit;
    if |leaf| >= MAX_EXTENTS {
      rc, group, bit := TakeContiguous(fs, d, pl, leaf, bitmap);
    } else {
      rc, group, bit := FindFreeBlock(fs, d, pl, descs, bitmap);
    }
  }

  /** The blocks that describe the volume after an extension, in scratch buffers. */
  method BuildExtend(fs: Mounted<B.Block>, ghost d: Volume1024, cfg: B.Config, pl: Places, ino: nat, data: seq<Byte>, bytes: Word,
                     now: Word, g: nat, bit: nat, descs: array<Byte>, bitmap: array<Byte>, super: array<Byte>) returns (tx: Tx<B.Block>)
    requires Sees(fs, d) && Extensible(pl, d, ino, g, bit) && Capped(bytes) <= |data|
    requires descs.Length == bitmap.Length == super.Length == SIZE && descs != bitmap && super != bitmap && super != descs
    requires descs[..] == d[DESCS] && bitmap[..] == BitmapEdit(pl, d, g, bit, true) && super[..] == d[SB]
    modifies descs, super
    ensures Sees(fs, d) && |tx| == 5 && tx == ExtendTx(cfg, pl, d, ino, Padded(data, bytes), bytes, now, g, bit)
  {
    hide Sees, BitmapEdit, DescEdit, WithFree, WithInode, ExtendedInode, FileOf, InodeOk, FreeAt, Padded, CountAt, Address, SlotOf;
    var n := Address(pl.lay, g, bit);
    EditDescs(descs, pl, g, true, bitmap);
    EditSuper(super, cfg, pl.lay.wide, FreeAt(super[..], pl.lay.wide) - 1);
    var (t, k) := pl.inodes[ino];
    var table := new Byte[SIZE];
    Load(fs, d, t, table);
    EntriesOf(InodeAt(pl, d, ino));
    ExtendInode(table, pl, ino, k, n, bytes, now);
    var contents := Stage(data, bytes);
    tx := [BlockWrite(n, contents[..]), BlockWrite(pl.bitmaps[g], bitmap[..]), BlockWrite(DESCS, descs[..]),
           BlockWrite(SB, super[..]), BlockWrite(t, table[..])];
  }

  /** Whatever the bitmaps say, a block that can be taken gives a transaction. */
  lemma CandidateIsExtensible(pl: Places, geo: Geometry, d: Volume1024, ino: nat, bytes: Word)
    requires DiskOk(pl, geo, d) && ino in pl.inodes && Extended(pl.lay, VolumeAt(pl, d), ino, bytes).Some?
    ensures Candidate(pl.lay, VolumeAt(pl, d), VolumeAt(pl, d).files[ino].leaf).Some?
    ensures var (g, bit) := Candidate(pl.lay, VolumeAt(pl, d), VolumeAt(pl, d).files[ino].leaf).value;
            Extensible(pl, d, ino, g, bit)
  {
    hide InodeOk, FileOf, InodeAt, GroupAt, FreeAt, InJournal, IsMeta, VolumeAt, FindFree, Used, InRange, Address;
    var v := VolumeAt(pl, d);
    var (g, bit) := Candidate(pl.lay, v, v.files[ino].leaf).value;
    InsideVolume(pl, geo, |d|, g, bit);
    VolumeParts(pl, d, ino);
    if |v.files[ino].leaf| >= MAX_EXTENTS {
      PartsAddress(pl.lay, |v.groups|, Contiguous(v.files[ino].leaf));
    }
  }

  lemma FileIs(pl: Places, d: Volume1024, ino: nat)
    requires Readable(pl, d) && InodesOk(pl, d) && ino in pl.inodes
    ensures VolumeAt(pl, d).files[ino] == FileOf(InodeAt(pl, d, ino)) && VolumeAt(pl, d).free == FreeAt(d[SB], pl.lay.wide)
    ensures Whole(d, pl.inodes[ino].0) && Whole(d, DESCS) && Whole(d, SB) && pl.inodes[ino].1 < InodesIn(pl.inodeSize)
    ensures InodeAt(pl, d, ino) == SlotOf(d[pl.inodes[ino].0], pl.inodeSize, pl.inodes[ino].1) && InodeOk(InodeAt(pl, d, ino))
  {
    VolumeParts(pl, d, ino);
  }

  /** Reads an inode's block and gives the file. */
  method ReadInode(fs: Mounted<B.Block>, ghost d: Volume1024, pl: Places, ino: nat) returns (f: File)
    requires Sees(fs, d) && Readable(pl, d) && InodesOk(pl, d) && ino in pl.inodes
    ensures Sees(fs, d) && f == VolumeAt(pl, d).files[ino]
  {
    hide Sees, VolumeAt, InodesOk, SlotOf, FileOf;
    FileIs(pl, d, ino);
    var table := new Byte[SIZE];
    Load(fs, d, pl.inodes[ino].0, table);
    f := FileOf(SlotOf(table[..], pl.inodeSize, pl.inodes[ino].1));
  }

  /** The refusals, the block that is taken, and the transaction, if there is one. */
  method PlanExtend(fs: Mounted<B.Block>, ghost d: Volume1024, cfg: B.Config, pl: Places, ino: nat, data: seq<Byte>, bytes: Word,
                    now: Word) returns (tx: Option<Tx<B.Block>>)
    requires Sees(fs, d) && DiskOk(pl, fs.geo, d) && ino in pl.inodes && Capped(bytes) <= |data|
    ensures Sees(fs, d)
    ensures tx.Some? <==> Extended(pl.lay, VolumeAt(pl, d), ino, bytes).Some?
    ensures tx.Some? ==>
              && Candidate(pl.lay, VolumeAt(pl, d), VolumeAt(pl, d).files[ino].leaf).Some?
              && (var (g, bit) := Candidate(pl.lay, VolumeAt(pl, d), VolumeAt(pl, d).files[ino].leaf).value;
                  Extensible(pl, d, ino, g, bit))
              && |tx.value| == 5 && tx.value == NextExtendTx(cfg, pl, d, ino, Padded(data, bytes), bytes, now)
  {
    hide Sees, VolumeAt, InodesOk, FileOf, FreeAt, BitmapEdit, Candidate, Extensible, ExtendTx, Padded, InodeAt, InodeOk, SlotOf,
         ExtendedAt;
    FileIs(pl, d, ino);
    var f := ReadInode(fs, d, pl, ino);
    if ExtendRefuses(f) { return None; }
    var descs, bitmap, super := new Byte[SIZE], new Byte[SIZE], new Byte[SIZE];
    Load(fs, d, DESCS, descs);
    var rc, g, bit := Choose(fs, d, pl, f.leaf, descs, bitmap);
    if rc != 0 { return None; }
    Load(fs, d, SB, super);
    if FreeAt(super[..], pl.lay.wide) == 0 { return None; }
    CandidateIsExtensible(pl, fs.geo, d, ino, bytes);
    var t := BuildExtend(fs, d, cfg, pl, ino, data, bytes, now, g, bit, descs, bitmap, super);
    tx := Some(t);
  }

  /** Appends one block. A refusal, a read-only device or an unfinished journal change
      nothing. Any other call performs exactly the commit of the extension's transaction. */
  method ExtendBlock(fs: Mounted<B.Block>, ghost d: Volume1024, cfg: B.Config, pl: Places, ino: nat, data: seq<Byte>, bytes: Word,
                     now: Word) returns (rc: int)
    requires Sees(fs, d) && WellPlaced(fs.geo, |d|) && DiskOk(pl, fs.geo, d) && fs.geo.first + 7 <= fs.geo.maxlen
    requires ino in pl.inodes && Capped(bytes) <= |data|
    modifies fs, fs.dev
    ensures fs.Valid()
    ensures Extended(pl.lay, VolumeAt(pl, d), ino, bytes).None? || !fs.dev.writable || old(fs.start) != 0 ==>
              rc < 0 && fs.dev.blocks == old(fs.dev.blocks) && fs.dev.writesLeft == old(fs.dev.writesLeft)
    ensures Extended(pl.lay, VolumeAt(pl, d), ino, bytes).Some? && fs.dev.writable && old(fs.start) == 0 ==>
              && d == old(fs.dev.blocks)
              && Candidate(pl.lay, VolumeAt(pl, d), VolumeAt(pl, d).files[ino].leaf).Some?
              && (var (g, bit) := Candidate(pl.lay, VolumeAt(pl, d), VolumeAt(pl, d).files[ino].leaf).value;
                  Extensible(pl, d, ino, g, bit))
              && var run := Run(fs.fmt, fs.geo, old(fs.dev.blocks), old(fs.dev.writesLeft),
                                CommitProgram(fs.fmt, fs.geo, old(fs.sequence),
                                              NextExtendTx(cfg, pl, d, ino, Padded(data, bytes), bytes, now)));
                 && fs.dev.blocks == run.disk && fs.dev.writesLeft == run.budget
                 && (rc == 0 <==> run.ending == Finished(0))
  {
    hide VolumeAt, Candidate, Extensible, ExtendTx, Padded, CommitProgram, Run, DiskOk, Extended, WellPlaced;
    if fs.start == 0 { SeesDisk(fs, d); }
    var tx := PlanExtend(fs, d, cfg, pl, ino, data, bytes, now);
    if tx.None? { return -1; }
    rc := fs.Commit(tx.value);
  }
}
