/** The second transaction of `ext4_dir_create`, and what becomes of two inodes that are edited
    in separate buffers when they lie in one block of the inode table. */
module MakeDirs {
  import opened Words
  import opened Bytes
  import opened LogFormat
  import opened LogWalk
  import opened Programs
  import opened Recovery
  import opened Convergence
  import opened Commit
  import opened CrashSafety
  import opened Runs
  import opened Extents
  import opened Bitmaps
  import opened Volumes
  import opened SmallBlocks
  import opened VolumeOnDisk
  import opened VolumeSafety
  import opened AllocatorRuns
  import B = ByteFormat
  import J = Superblocks

  // ---------------------------------------------------------------- two edits of one block

  /** The last write of a block is the one that stays. */
  lemma LastStays<T>(tx: Tx<T>, d: Disk<T>, k: nat)
    requires k < |tx| && tx[k].home < |d| && forall m :: k < m < |tx| ==> tx[m].home != tx[k].home
    ensures After(tx, d)[tx[k].home] == tx[k].data
  {
    AppliedIsWritten(tx, k, d[tx[k].home]);
  }

  /** A transaction writes the inode of `first` at place `j` and that of `second` at place `k`,
      each into its own copy of its block, and writes those blocks nowhere else. */
  predicate EditsTwo(pl: Places, d: Volume1024, tx: Tx<B.Block>, j: nat, k: nat, first: nat, second: nat, ib1: Inode, ib2: Inode)
    requires Readable(pl, d) && first in pl.inodes && second in pl.inodes && |ib1| == |ib2| == pl.inodeSize
  {
    && j < k < |tx| && first != second
    && tx[j] == BlockWrite(pl.inodes[first].0, WithInode(d[pl.inodes[first].0], pl.inodeSize, pl.inodes[first].1, ib1))
    && tx[k] == BlockWrite(pl.inodes[second].0, WithInode(d[pl.inodes[second].0], pl.inodeSize, pl.inodes[second].1, ib2))
    && forall m :: 0 <= m < |tx| && m != j && m != k ==> forall i :: i in pl.inodes ==> tx[m].home != pl.inodes[i].0
  }

  /** Every inode afterwards. The first edit is lost when both inodes share a block. */
  lemma InodesAfter(pl: Places, d: Volume1024, tx: Tx<B.Block>, j: nat, k: nat, first: nat, second: nat,
                    ib1: Inode, ib2: Inode, i: nat)
    requires Readable(pl, d) && first in pl.inodes && second in pl.inodes && |ib1| == |ib2| == pl.inodeSize && i in pl.inodes
    requires EditsTwo(pl, d, tx, j, k, first, second, ib1, ib2) && Readable(pl, After(tx, d))
    requires forall a, b :: a in pl.inodes && b in pl.inodes && pl.inodes[a] == pl.inodes[b] ==> a == b
    ensures InodeAt(pl, After(tx, d), i)
            == if i == second then ib2
               else if i == first && pl.inodes[first].0 != pl.inodes[second].0 then ib1
               else InodeAt(pl, d, i)
  {
    hide WithInode, After, InodeAt;
    var d' := After(tx, d);
    var t1, t2 := pl.inodes[first].0, pl.inodes[second].0;
    LastStays(tx, d, k);
    if pl.inodes[i].0 == t2 {
      InodesEdited(pl, d, d', second, ib2, i);
    } else if pl.inodes[i].0 == t1 {
      LastStays(tx, d, j);
      InodesEdited(pl, d, d', first, ib1, i);
    } else {
      NotApplied(tx, d, pl.inodes[i].0);
      assert InodeAt(pl, d', i) == InodeAt(pl, d, i) by { SameInode(pl, d, d', i); }
    }
  }

  lemma SameInode(pl: Places, d: Volume1024, d': Volume1024, i: nat)
    requires Readable(pl, d) && Readable(pl, d') && i in pl.inodes && d'[pl.inodes[i].0] == d[pl.inodes[i].0]
    ensures InodeAt(pl, d', i) == InodeAt(pl, d, i)
  {
  }

  /** Both edits are there afterwards if and only if the inodes lie in different blocks, or
      the first edit changed nothing. */
  lemma BothEditsStayIff(pl: Places, d: Volume1024, tx: Tx<B.Block>, j: nat, k: nat, first: nat, second: nat,
                         ib1: Inode, ib2: Inode)
    requires Readable(pl, d) && first in pl.inodes && second in pl.inodes && |ib1| == |ib2| == pl.inodeSize
    requires EditsTwo(pl, d, tx, j, k, first, second, ib1, ib2) && Readable(pl, After(tx, d))
    requires forall a, b :: a in pl.inodes && b in pl.inodes && pl.inodes[a] == pl.inodes[b] ==> a == b
    ensures (InodeAt(pl, After(tx, d), first) == ib1 && InodeAt(pl, After(tx, d), second) == ib2)
            <==> pl.inodes[first].0 != pl.inodes[second].0 || InodeAt(pl, d, first) == ib1
  {
    hide WithInode, After, InodeAt;
    InodesAfter(pl, d, tx, j, k, first, second, ib1, ib2, first);
    InodesAfter(pl, d, tx, j, k, first, second, ib1, ib2, second);
  }

  /** Five empty blocks, and inodes 13 and 14 side by side in the last one. */
  function TwoInodes(): Places {
    Places(Layout(1, 8, false, {}), [], map[13 := (4, 0), 14 := (4, 1)], 256, false, b => 0, (g, b) => 0, (i, b) => 0)
  }

  function FiveBlocks(): Volume1024 {
    seq(5, i => Zeros(SIZE))
  }

  /** The failing input: whatever is written to inode 13, it holds zeros afterwards, as
      before. */
  lemma FirstEditIsLost(ib1: Inode, ib2: Inode)
    requires |ib1| == |ib2| == 256
    ensures var pl, d := TwoInodes(), FiveBlocks();
            && Readable(pl, d)
            && var tx := [BlockWrite(4, WithInode(d[4], 256, 0, ib1)), BlockWrite(4, WithInode(d[4], 256, 1, ib2))];
               && EditsTwo(pl, d, tx, 0, 1, 13, 14, ib1, ib2) && Readable(pl, After(tx, d))
               && InodeAt(pl, After(tx, d), 13) == InodeAt(pl, d, 13) == Zeros(256)
               && InodeAt(pl, After(tx, d), 14) == ib2
  {
    hide WithInode, After;
    var pl, d := TwoInodes(), FiveBlocks();
    var tx := [BlockWrite(4, WithInode(d[4], 256, 0, ib1)), BlockWrite(4, WithInode(d[4], 256, 1, ib2))];
    LastStays(tx, d, 1);
    NotApplied(tx, d, SB);
    NotApplied(tx, d, DESCS);
    InodesAfter(pl, d, tx, 0, 1, 13, 14, ib1, ib2, 13);
    InodesAfter(pl, d, tx, 0, 1, 13, 14, ib1, ib2, 14);
  }

  // ---------------------------------------------------------------- the inodes of a new directory

  const LINKS := 0x1A

  /** A directory's inode gets its one block; until then it has no extent. */
  function ChildInode(pl: Places, ib: Inode, ino: nat, n: nat): (r: Inode)
    requires InodeOk(ib) && Le16(ib, ENTRIES) == 0 && |ib| == pl.inodeSize && n < 0x1_0000_0000_0000
    ensures |r| == |ib|
  {
    WithInodeSum(pl, Patch(Patch(Appended(ib, Extent(0, 1, n)), SIZE_LOW, PackLittle(SIZE)), SECTORS, PackLittle(SECTORS_PER_BLOCK)), ino)
  }

  /** The parent's inode: one link more. */
  function ParentInode(pl: Places, ib: Inode, ino: nat, now: Word): (r: Inode)
    requires |ib| == pl.inodeSize
    ensures |r| == |ib|
  {
    Touched(pl, Patch(ib, LINKS, PackLittle16((Le16(ib, LINKS) + 1) % 0x1_0000)), ino, now)
  }

  lemma LowSizeSets(ib: Inode, size: Word, sectors: Word)
    requires InodeOk(ib) && FileOf(ib).size < 0x1_0000_0000
    ensures var r := Patch(Patch(ib, SIZE_LOW, PackLittle(size)), SECTORS, PackLittle(sectors));
            InodeOk(r) && FileOf(r) == File(size, FileOf(ib).leaf, sectors)
  {
    hide Le32, Le16, PackLittle, ExtentAt;
    var b1 := Patch(ib, SIZE_LOW, PackLittle(size));
    var ib' := Patch(b1, SECTORS, PackLittle(sectors));
    PatchedWord(ib, SIZE_LOW, size);
    PatchedWord(b1, SECTORS, sectors);
    SameWord(b1, ib', SIZE_LOW);
    SameWord(ib, ib', SIZE_HIGH);
    SameHalf(ib, ib', EXTENT_MAGIC);
    SameHalf(ib, ib', ENTRIES);
    SameHalf(ib, ib', DEPTH);
    SameExtents(ib, ib', Le16(ib, ENTRIES));
  }

  lemma SumKeepsFile(pl: Places, ib: Inode, ino: nat)
    requires |ib| == pl.inodeSize && InodeOk(ib)
    ensures InodeOk(WithInodeSum(pl, ib, ino)) && FileOf(WithInodeSum(pl, ib, ino)) == FileOf(ib)
  {
    hide PackLittle16, InodeOk, FileOf;
    SameFile(ib, WithInodeSum(pl, ib, ino));
  }

  lemma ChildInodeFile(pl: Places, ib: Inode, ino: nat, n: nat)
    requires InodeOk(ib) && Le16(ib, ENTRIES) == 0 && |ib| == pl.inodeSize && n < 0x1_0000_0000_0000
    requires FileOf(ib) == File(0, [], 0)
    ensures InodeOk(ChildInode(pl, ib, ino, n))
    ensures FileOf(ChildInode(pl, ib, ino, n)) == File(SIZE, [Extent(0, 1, n)], SECTORS_PER_BLOCK)
  {
    hide InodeOk, FileOf, Appended, PackLittle, Patch, WithInodeSum, Le16;
    var e := Extent(0, 1, n);
    AppendedFile(ib, e);
    LowSizeSets(Appended(ib, e), SIZE, SECTORS_PER_BLOCK);
    SumKeepsFile(pl, Patch(Patch(Appended(ib, e), SIZE_LOW, PackLittle(SIZE)), SECTORS, PackLittle(SECTORS_PER_BLOCK)), ino);
  }

  lemma ParentInodeFile(pl: Places, ib: Inode, ino: nat, now: Word)
    requires |ib| == pl.inodeSize && InodeOk(ib)
    ensures InodeOk(ParentInode(pl, ib, ino, now)) && FileOf(ParentInode(pl, ib, ino, now)) == FileOf(ib)
  {
    hide PackLittle16, InodeOk, FileOf, Touched, Le16;
    var linked := Patch(ib, LINKS, PackLittle16((Le16(ib, LINKS) + 1) % 0x1_0000));
    SameFile(ib, linked);
    TouchedFile(pl, linked, ino, now);
  }

  // ---------------------------------------------------------------- the transaction

  /** What the new directory's transaction is built from: a fresh inode for `child`, and a
      free block. */
  predicate CanMake(pl: Places, d: Volume1024, child: nat, parent: nat, g: nat, bit: nat) {
    && Readable(pl, d) && InodesOk(pl, d) && child in pl.inodes && parent in pl.inodes && child != parent
    && FileOf(InodeAt(pl, d, child)) == File(0, [], 0)
    && g < |pl.bitmaps| && bit < pl.lay.perGroup
    && Address(pl.lay, g, bit) < 0x1_0000_0000_0000 && FreeAt(d[SB], pl.lay.wide) > 0
  }

  /** The seven blocks: the directory's own, bitmap, descriptors, superblock, the new inode, the
      parent's block with the new entry, the parent's inode. */
  function MakeDirTx(cfg: B.Config, pl: Places, d: Volume1024, child: nat, parent: nat, contents: Bytes1024, dirBlock: nat,
                     entries: Bytes1024, now: Word, g: nat, bit: nat): Tx<B.Block>
    requires CanMake(pl, d, child, parent, g, bit)
  {
    EntriesOf(InodeAt(pl, d, child));
    var n := Address(pl.lay, g, bit);
    var (tc, kc) := pl.inodes[child];
    var (tp, kp) := pl.inodes[parent];
    [BlockWrite(n, contents),
     BlockWrite(pl.bitmaps[g], BitmapEdit(pl, d, g, bit, true)),
     BlockWrite(DESCS, CountEdit(pl, d, g, bit, true)),
     BlockWrite(SB, WithFree(cfg, d[SB], pl.lay.wide, FreeAt(d[SB], pl.lay.wide) - 1)),
     BlockWrite(tc, WithInode(d[tc], pl.inodeSize, kc, ChildInode(pl, InodeAt(pl, d, child), child, n))),
     BlockWrite(dirBlock, entries),
     BlockWrite(tp, WithInode(d[tp], pl.inodeSize, kp, ParentInode(pl, InodeAt(pl, d, parent), parent, now)))]
  }

  /** The blocks outside the metadata: the free one, and the parent's directory block. */
  ghost predicate Aside(pl: Places, geo: Geometry, size: nat, n: nat, dirBlock: nat) {
    && n < size && n != SB && !IsMeta(pl, n) && !InJournal(geo, n)
    && Home(geo, size, dirBlock) && dirBlock != SB && !IsMeta(pl, dirBlock) && dirBlock != n
  }

  predicate OneTable(pl: Places, child: nat, parent: nat)
    requires child in pl.inodes && parent in pl.inodes
  {
    pl.inodes[child].0 == pl.inodes[parent].0
  }

  lemma MakeDirTxIsValid(cfg: B.Config, pl: Places, geo: Geometry, d: Volume1024, child: nat, parent: nat,
                         contents: Bytes1024, dirBlock: nat, entries: Bytes1024, now: Word, g: nat, bit: nat)
    requires DiskOk(pl, geo, d) && CanMake(pl, d, child, parent, g, bit) && geo.first + 9 <= geo.maxlen
    requires Aside(pl, geo, |d|, Address(pl.lay, g, bit), dirBlock)
    ensures ValidTx(geo, |d|, MakeDirTx(cfg, pl, d, child, parent, contents, dirBlock, entries, now, g, bit))
  {
    hide InJournal, InodesOk, InodeAt, BitmapEdit, CountEdit, WithFree, WithInode, ChildInode, ParentInode, FileOf, Address, IsMeta,
         FreeAt;
  }

  /** Where its blocks go: all different, but for the two of the inode table. */
  function HomesOf(pl: Places, child: nat, parent: nat, dirBlock: nat, g: nat, n: nat): seq<nat>
    requires child in pl.inodes && parent in pl.inodes && g < |pl.bitmaps|
  {
    [n, pl.bitmaps[g], DESCS, SB, pl.inodes[child].0, dirBlock, pl.inodes[parent].0]
  }

  lemma HomesApart(pl: Places, geo: Geometry, size: nat, child: nat, parent: nat, dirBlock: nat, g: nat, n: nat)
    requires PlacesOk(pl, geo, size) && Aside(pl, geo, size, n, dirBlock)
    requires child in pl.inodes && parent in pl.inodes && g < |pl.bitmaps|
    ensures var h := HomesOf(pl, child, parent, dirBlock, g, n);
            && (forall a, b :: 0 <= a < b < 7 && !(a == 4 && b == 6) ==> h[a] != h[b])
            && (forall a :: 0 <= a < 7 ==> h[a] < size)
            && (forall k :: 0 <= k < |pl.bitmaps| && k != g ==> pl.bitmaps[k] !in h)
            && (forall i, a :: i in pl.inodes && 0 <= a < 7 && a != 4 && a != 6 ==> h[a] != pl.inodes[i].0)
  {
    hide InJournal, IsMeta, Supported;
    BitmapIsMeta(pl, g);
    DescsAreMeta(pl);
    forall i | i in pl.inodes ensures IsMeta(pl, pl.inodes[i].0) {
      InodeIsMeta(pl, i);
    }
    forall k | 0 <= k < |pl.bitmaps| ensures IsMeta(pl, pl.bitmaps[k]) {
      BitmapIsMeta(pl, k);
    }
  }

  /** The blocks after it, but those of the inode table. */
  lemma MadeBlocks(cfg: B.Config, pl: Places, geo: Geometry, d: Volume1024, child: nat, parent: nat,
                   contents: Bytes1024, dirBlock: nat, entries: Bytes1024, now: Word, g: nat, bit: nat)
    requires DiskOk(pl, geo, d) && CanMake(pl, d, child, parent, g, bit)
    requires Aside(pl, geo, |d|, Address(pl.lay, g, bit), dirBlock)
    ensures Le16(InodeAt(pl, d, child), ENTRIES) == 0
    ensures var tx := MakeDirTx(cfg, pl, d, child, parent, contents, dirBlock, entries, now, g, bit);
            var d' := After(tx, d);
            && |tx| == 7 && Counted(cfg, pl, d, d', g, bit, true, FreeAt(d[SB], pl.lay.wide) - 1)
            && d'[Address(pl.lay, g, bit)] == contents && d'[dirBlock] == entries
            && EditsTwo(pl, d, tx, 4, 6, child, parent, ChildInode(pl, InodeAt(pl, d, child), child, Address(pl.lay, g, bit)),
                        ParentInode(pl, InodeAt(pl, d, parent), parent, now))
  {
    hide InJournal, InodesOk, InodeAt, BitmapEdit, CountEdit, WithFree, WithInode, ChildInode, ParentInode, FileOf, Address, IsMeta,
         FreeAt, After, PlacesOk, Aside;
    var tx := MakeDirTx(cfg, pl, d, child, parent, contents, dirBlock, entries, now, g, bit);
    var h := HomesOf(pl, child, parent, dirBlock, g, Address(pl.lay, g, bit));
    FreshIsEmpty(pl, d, child);
    HomesApart(pl, geo, |d|, child, parent, dirBlock, g, Address(pl.lay, g, bit));
    assert forall a :: 0 <= a < 7 ==> tx[a].home == h[a];
    LastStays(tx, d, 0);
    LastStays(tx, d, 1);
    LastStays(tx, d, 2);
    LastStays(tx, d, 3);
    LastStays(tx, d, 5);
    var d' := After(tx, d);
    forall k | 0 <= k < |pl.bitmaps| && k != g ensures d'[pl.bitmaps[k]] == d[pl.bitmaps[k]] {
      NotApplied(tx, d, pl.bitmaps[k]);
    }
  }

  lemma FreshIsEmpty(pl: Places, d: Volume1024, child: nat)
    requires Readable(pl, d) && InodesOk(pl, d) && child in pl.inodes && FileOf(InodeAt(pl, d, child)) == File(0, [], 0)
    ensures InodeOk(InodeAt(pl, d, child)) && Le16(InodeAt(pl, d, child), ENTRIES) == 0
  {
    EntriesOf(InodeAt(pl, d, child));
  }

  // ---------------------------------------------------------------- the volume after it

  /** The files after two inode edits. */
  lemma FilesAfterTwo(pl: Places, d: Volume1024, tx: Tx<B.Block>, j: nat, k: nat, first: nat, second: nat,
                      ib1: Inode, ib2: Inode)
    requires Readable(pl, d) && first in pl.inodes && second in pl.inodes && |ib1| == |ib2| == pl.inodeSize
    requires EditsTwo(pl, d, tx, j, k, first, second, ib1, ib2) && Readable(pl, After(tx, d)) && InodesOk(pl, d)
    requires forall a, b :: a in pl.inodes && b in pl.inodes && pl.inodes[a] == pl.inodes[b] ==> a == b
    requires InodeOk(ib1) && InodeOk(ib2)
    ensures InodesOk(pl, After(tx, d))
    ensures var files := VolumeAt(pl, d).files;
            VolumeAt(pl, After(tx, d)).files
            == if OneTable(pl, first, second) then files[second := FileOf(ib2)]
               else files[first := FileOf(ib1)][second := FileOf(ib2)]
  {
    hide EditsTwo, InodeOk, FileOf, InodeAt, Readable, GroupAt, FreeAt, After;
    forall i | i in pl.inodes
      ensures InodeAt(pl, After(tx, d), i)
              == if i == second then ib2 else if i == first && !OneTable(pl, first, second) then ib1 else InodeAt(pl, d, i)
    {
      InodesAfter(pl, d, tx, j, k, first, second, ib1, ib2, i);
    }
  }

  /** The volume as the call leaves it: one block taken, and the new directory's inode written
      unless the parent's shares its block. */
  function MadeDir(lay: Layout, v: Volume, child: nat, g: nat, bit: nat, shared: bool): Volume
    requires child in v.files && g < |v.groups| && bit < |v.groups[g].bitmap| && v.free > 0
  {
    var taken := Take(lay, v, g, bit);
    if shared then taken
    else taken.(files := v.files[child := File(SIZE, [Extent(0, 1, Address(lay, g, bit))], SECTORS_PER_BLOCK)])
  }

  lemma MakeDirOnDisk(cfg: B.Config, pl: Places, geo: Geometry, d: Volume1024, child: nat, parent: nat,
                      contents: Bytes1024, dirBlock: nat, entries: Bytes1024, now: Word, g: nat, bit: nat)
    requires DiskOk(pl, geo, d) && CanMake(pl, d, child, parent, g, bit)
    requires Aside(pl, geo, |d|, Address(pl.lay, g, bit), dirBlock)
    ensures var d' := After(MakeDirTx(cfg, pl, d, child, parent, contents, dirBlock, entries, now, g, bit), d);
            && DiskOk(pl, geo, d') && d'[Address(pl.lay, g, bit)] == contents && d'[dirBlock] == entries
            && VolumeAt(pl, d') == MadeDir(pl.lay, VolumeAt(pl, d), child, g, bit, OneTable(pl, child, parent))
  {
    hide MakeDirTx, After, WithInode, InodeOk, FileOf, InodeAt, GroupAt, FreeAt, Less, ChildInode, ParentInode, BitmapEdit, CountEdit,
         WithFree, InJournal, IsMeta, Address, VolumeAt, EditsTwo, Le16;
    var tx := MakeDirTx(cfg, pl, d, child, parent, contents, dirBlock, entries, now, g, bit);
    var d' := After(tx, d);
    var n := Address(pl.lay, g, bit);
    FreshIsEmpty(pl, d, child);
    MadeBlocks(cfg, pl, geo, d, child, parent, contents, dirBlock, entries, now, g, bit);
    FreeBound(d[SB], pl.lay.wide);
    var ib1, ib2 := ChildInode(pl, InodeAt(pl, d, child), child, n), ParentInode(pl, InodeAt(pl, d, parent), parent, now);
    ChildInodeFile(pl, InodeAt(pl, d, child), child, n);
    ParentInodeFile(pl, InodeAt(pl, d, parent), parent, now);
    TablesWhole(pl, d, tx, child, parent, ib1, ib2);
    StillReadable(cfg, pl, d, d', g, bit, true, FreeAt(d[SB], pl.lay.wide) - 1);
    FilesAfterTwo(pl, d, tx, 4, 6, child, parent, ib1, ib2);
    GroupsCounted(cfg, pl, d, d', g, bit, true, FreeAt(d[SB], pl.lay.wide) - 1);
    VolumeParts(pl, d, child);
    VolumeParts(pl, d, parent);
    assert VolumeAt(pl, d).files[parent := FileOf(ib2)] == VolumeAt(pl, d).files;
  }

  /** The blocks of the inode table keep their size. */
  lemma TablesWhole(pl: Places, d: Volume1024, tx: Tx<B.Block>, first: nat, second: nat, ib1: Inode, ib2: Inode)
    requires Readable(pl, d) && first in pl.inodes && second in pl.inodes && |ib1| == |ib2| == pl.inodeSize
    requires |tx| == 7 && EditsTwo(pl, d, tx, 4, 6, first, second, ib1, ib2)
    ensures forall i :: i in pl.inodes ==> |After(tx, d)[pl.inodes[i].0]| == SIZE
  {
    hide WithInode, After;
    forall i | i in pl.inodes ensures |After(tx, d)[pl.inodes[i].0]| == SIZE {
      if pl.inodes[i].0 == pl.inodes[second].0 {
        LastStays(tx, d, 6);
      } else if pl.inodes[i].0 == pl.inodes[first].0 {
        LastStays(tx, d, 4);
      } else {
        NotApplied(tx, d, pl.inodes[i].0);
      }
    }
  }

  /** A directory made in a consistent volume finds its block if and only if its inode and its
      parent's lie in different blocks of the inode table. If they share one, it stays as
      empty as it was, and no file at all maps the block that was taken. */
  lemma NewDirMapsIff(lay: Layout, v: Volume, child: nat, g: nat, bit: nat, shared: bool)
    requires Consistent(lay, v) && child in v.files && v.files[child] == File(0, [], 0)
    requires g < |v.groups| && bit < lay.perGroup && !v.groups[g].bitmap[bit]
    ensures v.free > 0
    ensures var v' := MadeDir(lay, v, child, g, bit, shared);
            && CountsAgree(lay, v') && Used(lay, v', Address(lay, g, bit))
            && (MapsTo(v', child, 0) == Some(Address(lay, g, bit)) <==> !shared)
            && (shared ==> v'.files[child] == File(0, [], 0) && forall i, l: Word :: MapsTo(v', i, l) != Some(Address(lay, g, bit)))
  {
    hide Used, GroupAgrees, Lookup, InRange, Address, CountsAgree, FilesOk, NoAlias, MetaUsed;
    FreeBitIsUnused(lay, v, g, bit);
    TakeKeeps(lay, v, g, bit);
    var v' := MadeDir(lay, v, child, g, bit, shared);
    SameCounts(lay, Take(lay, v, g, bit), v');
    EmptyMapsNothing(0);
    if !shared {
      LookupOne(Extent(0, 1, Address(lay, g, bit)), 0);
    } else {
      forall i, l: Word ensures MapsTo(v', i, l) != Some(Address(lay, g, bit)) {
        assert MapsTo(v', i, l) == MapsTo(v, i, l);
      }
    }
  }

  lemma EmptyMapsNothing(l: Word)
    ensures Lookup([], l) == None
  {
  }

  lemma FreeBitIsUnused(lay: Layout, v: Volume, g: nat, bit: nat)
    requires CountsAgree(lay, v) && g < |v.groups| && bit < lay.perGroup && !v.groups[g].bitmap[bit]
    ensures |v.groups[g].bitmap| == lay.perGroup && !Used(lay, v, Address(lay, g, bit))
  {
    AddressParts(lay, g, bit);
  }

  lemma SameCounts(lay: Layout, v: Volume, v': Volume)
    requires v'.groups == v.groups && v'.free == v.free && CountsAgree(lay, v)
    ensures CountsAgree(lay, v') && forall n :: Used(lay, v', n) <==> Used(lay, v, n)
  {
  }

  /** The failing input: of a consistent volume with an empty inode 13, directory creation takes
      block 3, and inode 13 does not find it. */
  lemma NewDirCanBeLost()
    ensures var lay, v := OneGroup(), TwoFiles();
            && Consistent(lay, v) && v.files[13] == File(0, [], 0) && FindFree(lay, v.groups, 0) == Some((0, 2))
            && var v' := MadeDir(lay, v, 13, 0, 2, true);
               Used(lay, v', 3) && MapsTo(v', 13, 0) == None && forall i, l: Word :: MapsTo(v', i, l) != Some(3)
  {
    hide Used, MapsTo, Consistent;
    var lay, v := OneGroup(), TwoFiles();
    TwoFilesAreConsistent();
    assert FirstClear(v.groups[0].bitmap, 0, ScanBits(lay)) == FirstClear(v.groups[0].bitmap, 2, ScanBits(lay)) == Some(2);
    NewDirMapsIff(lay, v, 13, 0, 2, true);
    EmptyFileMapsNothing(MadeDir(lay, v, 13, 0, 2, true), 13, 0);
  }

  lemma EmptyFileMapsNothing(v: Volume, i: nat, l: Word)
    requires i in v.files && v.files[i].leaf == []
    ensures MapsTo(v, i, l) == None
  {
    EmptyMapsNothing(l);
  }

  /** Block and slot of the inode with the given index in its group's table. */
  function PlaceOf(table: nat, size: InodeSize, index: nat): (nat, nat) {
    (table + index * size / SIZE, index * size % SIZE / size)
  }

  lemma PlaceParts(table: nat, size: InodeSize, i: nat)
    ensures PlaceOf(table, size, i) == (table + i / InodesIn(size), i % InodesIn(size))
  {
    var n := InodesIn(size);
    var q, r := i / n, i % n;
    assert n * size == SIZE;
    assert i * size == q * SIZE + r * size by { ScaledParts(q, n, r, size); }
    SlotFits(size, r);
    QuotientUnique(q, r * size, SIZE);
    QuotientUnique(r, 0, size);
  }

  lemma ScaledParts(q: nat, n: nat, r: nat, size: nat)
    ensures (q * n + r) * size == q * (n * size) + r * size
  {
  }

  /** Two inodes of a group share a block exactly when their indices fall into the same run of
      as many inodes as a block holds. */
  lemma SharedIff(table: nat, size: InodeSize, i: nat, j: nat)
    ensures PlaceOf(table, size, i).0 == PlaceOf(table, size, j).0 <==> i / InodesIn(size) == j / InodesIn(size)
  {
    PlaceParts(table, size, i);
    PlaceParts(table, size, j);
  }

  /** So it is for the first two directories of a new volume with inodes of 256 bytes: inode 13
      for the outer and 14 for the inner one. */
  lemma NestedDirectoriesShare(table: nat)
    ensures PlaceOf(table, 256, 13 - 1).0 == PlaceOf(table, 256, 14 - 1).0
  {
    SharedIff(table, 256, 12, 13);
  }

  // ---------------------------------------------------------------- under crashes

  lemma GroupBitmap(pl: Places, d: Volume1024, g: nat, bit: nat)
    requires Readable(pl, d) && InodesOk(pl, d) && g < |pl.bitmaps| && bit < pl.lay.perGroup
    ensures |VolumeAt(pl, d).groups| == |pl.bitmaps| && |VolumeAt(pl, d).groups[g].bitmap| == pl.lay.perGroup
  {
  }

  /** However the call's second transaction is cut, and however recovery is interrupted, the
      next mount finds the volume without the directory's block, or as the call leaves it. */
  lemma MakeDirIsAtomic(cfg: B.Config, pl: Places, geo: Geometry, d: Volume1024, child: nat, parent: nat,
                        contents: Bytes1024, dirBlock: nat, entries: Bytes1024, now: Word, g: nat, bit: nat,
                        budget: nat, mounts: seq<nat>)
    requires |cfg.uuid| == 16 && DiskOk(pl, geo, d) && CanMake(pl, d, child, parent, g, bit) && geo.first + 9 <= geo.maxlen
    requires Aside(pl, geo, |d|, Address(pl.lay, g, bit), dirBlock) && WellPlaced(geo, |d|)
    requires Ready(J.JournalFormat(cfg), geo, d, J.JsbSequence(Jsb(geo, d)), 0)
    ensures |VolumeAt(pl, d).groups| == |pl.bitmaps| && |VolumeAt(pl, d).groups[g].bitmap| == pl.lay.perGroup && VolumeAt(pl, d).free > 0
    ensures var fmt, v := J.JournalFormat(cfg), VolumeAt(pl, d);
            var tx := MakeDirTx(cfg, pl, d, child, parent, contents, dirBlock, entries, now, g, bit);
            var cut := Run(fmt, geo, d, budget, CommitProgram(fmt, geo, J.JsbSequence(Jsb(geo, d)), tx)).disk;
            var found := Mount(fmt, geo, Mounts(fmt, geo, cut, mounts), -1);
            && DiskOk(pl, geo, found)
            && VolumeAt(pl, found) == if budget >= LandingWrites(tx) then MadeDir(pl.lay, v, child, g, bit, OneTable(pl, child, parent)) else v
  {
    hide InodesOk, Readable, PlacesOk, GroupAt, FreeAt, InJournal, IsMeta, VolumeAt, MakeDirTx, Run, CommitProgram, Mounts, Mount, Ready,
         ShowsApplied, ShowsAll, Lawful, J.JournalFormat, After, ValidTx, Address, MadeDir, Aside;
    var fmt := J.JournalFormat(cfg);
    J.JournalFormatIsLawful(cfg);
    GroupBitmap(pl, d, g, bit);
    VolumeParts(pl, d, child);
    MakeDirTxIsValid(cfg, pl, geo, d, child, parent, contents, dirBlock, entries, now, g, bit);
    MakeDirOnDisk(cfg, pl, geo, d, child, parent, contents, dirBlock, entries, now, g, bit);
    var tx := MakeDirTx(cfg, pl, d, child, parent, contents, dirBlock, entries, now, g, bit);
    var q := J.JsbSequence(Jsb(geo, d));
    CommitIsAtomic(fmt, geo, d, q, tx, budget, mounts);
    var found := Mount(fmt, geo, Mounts(fmt, geo, Run(fmt, geo, d, budget, CommitProgram(fmt, geo, q, tx)).disk, mounts), -1);
    if budget >= LandingWrites(tx) {
      ShownOne(fmt, geo, d, tx, found);
      ShownVolume(cfg, pl, geo, d, [tx], found);
    } else {
      ShowsNone(fmt, geo, d, found);
      ShownVolume(cfg, pl, geo, d, [], found);
    }
  }
}
