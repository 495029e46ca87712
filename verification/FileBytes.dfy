/** Files as their readers see them, byte by byte: what an extension appends and what a
    truncation leaves, on the device, whenever its writes stop. */
module FileBytes {
  import opened Words
  import opened LogFormat
  import opened LogWalk
  import opened Programs
  import opened Recovery
  import opened Convergence
  import opened Commit
  import opened CrashSafety
  import opened Runs
  import opened Extents
  import opened Bitmaps
  import opened Volumes
  import opened SmallBlocks
  import opened VolumeOnDisk
  import opened VolumeSafety
  import opened Journal
  import opened Buffers
  import T = Truncation
  import A = Allocator
  import R = Truncater
  import B = ByteFormat
  import J = Superblocks

  // ---------------------------------------------------------------- bytes of a file

  /** Byte `pos` of a file: in the block that the extents give for it. None: a hole. */
  function ByteAt(pl: Places, d: Volume1024, ino: nat, pos: nat): Option<Byte>
    requires Readable(pl, d) && InodesOk(pl, d)
  {
    if pos / 1024 >= 0x1_0000_0000 then None
    else match MapsTo(VolumeAt(pl, d), ino, pos / 1024)
      case None => None
      case Some(n) => if n < |d| then Some(d[n][pos % 1024]) else None
  }

  function SizeOf(pl: Places, d: Volume1024, ino: nat): nat
    requires Readable(pl, d) && InodesOk(pl, d) && ino in pl.inodes
  {
    VolumeAt(pl, d).files[ino].size
  }

  ghost predicate SameBytes(pl: Places, d: Volume1024, d': Volume1024, ino: nat, pos: nat)
    requires Readable(pl, d) && InodesOk(pl, d) && Readable(pl, d') && InodesOk(pl, d')
  {
    ByteAt(pl, d', ino, pos) == ByteAt(pl, d, ino, pos)
  }

  /** A mapped block is none of those that describe the volume, and not in the journal. */
  lemma MappedIsData(pl: Places, geo: Geometry, d: Volume1024, i: nat, l: Word)
    requires DiskOk(pl, geo, d) && MappedUsed(pl.lay, VolumeAt(pl, d)) && MapsTo(VolumeAt(pl, d), i, l).Some?
    ensures var n := MapsTo(VolumeAt(pl, d), i, l).value;
            n < |d| && n != SB && !IsMeta(pl, n) && !InJournal(geo, n) && Used(pl.lay, VolumeAt(pl, d), n)
  {
    hide VolumeAt, MapsTo, IsMeta, InJournal, Readable, InodesOk;
  }

  /** The byte is as it was if the mapping is and the block is. */
  lemma ByteKept(pl: Places, d: Volume1024, d': Volume1024, i: nat, pos: nat)
    requires Readable(pl, d) && InodesOk(pl, d) && Readable(pl, d') && InodesOk(pl, d') && |d'| == |d|
    requires pos / 1024 < 0x1_0000_0000 ==>
               var was := MapsTo(VolumeAt(pl, d), i, pos / 1024);
               && MapsTo(VolumeAt(pl, d'), i, pos / 1024) == was
               && (was.Some? && was.value < |d| ==> d'[was.value] == d[was.value])
    ensures SameBytes(pl, d, d', i, pos)
  {
    hide VolumeAt, MapsTo, Readable, InodesOk;
  }

  // ---------------------------------------------------------------- extension

  /** `d'` is `d` with one block of data at the end of a file, and every other byte of every
      file as it was. The block is the data, cut at 1024 bytes, and then zeros. */
  ghost predicate Appended(pl: Places, geo: Geometry, d: Volume1024, d': Volume1024, ino: nat, data: seq<Byte>, bytes: Word)
    requires DiskOk(pl, geo, d) && ino in pl.inodes && (if bytes > 1024 then 1024 else bytes) <= |data|
  {
    && DiskOk(pl, geo, d')
    && var size := SizeOf(pl, d, ino);
       && size % 1024 == 0 && SizeOf(pl, d', ino) == (size + bytes) % 0x1_0000_0000_0000_0000
       && (forall i: nat :: i < 1024 ==> ByteAt(pl, d', ino, size + i) == Some(if i < bytes then data[i] else 0))
       && (forall i, pos: nat :: !(i == ino && size <= pos < size + 1024) ==> SameBytes(pl, d, d', i, pos))
  }

  /** An extension that can succeed, of a file whose extents can express one block more. */
  ghost predicate CanAppend(pl: Places, geo: Geometry, d: Volume1024, ino: nat, bytes: Word) {
    && DiskOk(pl, geo, d) && geo.first + 7 <= geo.maxlen && WellPlaced(geo, |d|)
    && Consistent(pl.lay, VolumeAt(pl, d)) && ino in pl.inodes
    && Extended(pl.lay, VolumeAt(pl, d), ino, bytes).Some? && Fits(pl.lay, VolumeAt(pl, d), ino)
  }

  lemma {:induction false} DataStays(cfg: B.Config, pl: Places, geo: Geometry, d: Volume1024, ino: nat, contents: Bytes1024, bytes: Word,
                                     now: Word, g: nat, bit: nat, m: nat)
    requires DiskOk(pl, geo, d) && Extensible(pl, d, ino, g, bit)
    requires m < |d| && m != SB && !IsMeta(pl, m) && m != Address(pl.lay, g, bit)
    ensures After(ExtendTx(cfg, pl, d, ino, contents, bytes, now, g, bit), d)[m] == d[m]
  {
    hide After, InodesOk, PlacesOk, BitmapEdit, CountEdit, WithFree, WithInode, ExtendedInode, FileOf, Address, IsMeta, InodeAt;
    BitmapIsMeta(pl, g);
    InodeIsMeta(pl, ino);
    DescsAreMeta(pl);
    NotApplied(ExtendTx(cfg, pl, d, ino, contents, bytes, now, g, bit), d, m);
  }

  lemma PaddedBytes(data: seq<Byte>, bytes: Word, i: nat)
    requires (if bytes > 1024 then 1024 else bytes) <= |data| && i < 1024
    ensures A.Padded(data, bytes)[i] == if i < bytes then data[i] else 0
  {
  }

  /** Where the end of a file lies: on a block boundary, and on the block after the last. */
  lemma EndOfFile(f: File)
    requires !ExtendRefuses(f)
    ensures f.size == 1024 * Extents.End(f.leaf)
  {
  }

  lemma ExtendedSize(lay: Layout, v: Volume, ino: nat, bytes: Word, g: nat, bit: nat)
    requires ino in v.files && v.free > 0 && g < |v.groups| && bit < |v.groups[g].bitmap|
    ensures var v' := ExtendedAt(lay, v, ino, bytes, g, bit);
            ino in v'.files && v'.files[ino].size == (v.files[ino].size + bytes) % 0x1_0000_0000_0000_0000
  {
  }

  /** A disk that shows the extension's transaction shows the file with its data appended. */
  lemma {:induction false} ShownAppended(cfg: B.Config, pl: Places, geo: Geometry, d: Volume1024, ino: nat, data: seq<Byte>,
                                         bytes: Word, now: Word, d': Volume1024)
    requires CanAppend(pl, geo, d, ino, bytes) && (if bytes > 1024 then 1024 else bytes) <= |data|
    requires var (g, bit) := Candidate(pl.lay, VolumeAt(pl, d), VolumeAt(pl, d).files[ino].leaf).value;
             && Extensible(pl, d, ino, g, bit)
             && ShowsApplied(J.JournalFormat(cfg), geo, d', NextExtendTx(cfg, pl, d, ino, A.Padded(data, bytes), bytes, now), d)
    ensures Appended(pl, geo, d, d', ino, data, bytes)
  {
    hide InodesOk, Readable, PlacesOk, IsMeta, VolumeAt, Candidate, ExtendTx, ShowsApplied, ShowsAll, J.JournalFormat, After,
         Extensible, Address, InJournal, MapsTo, Used, CountsAgree, FilesOk, NoAlias, MetaUsed, MappedUsed, A.Padded, ExtendedAt, Fits, AfterAll;
    var fmt, v := J.JournalFormat(cfg), VolumeAt(pl, d);
    var f := v.files[ino];
    CandidateFits(pl, geo, d, ino, bytes);
    var (g, bit) := Candidate(pl.lay, v, f.leaf).value;
    var n, contents := Address(pl.lay, g, bit), A.Padded(data, bytes);
    var tx := NextExtendTx(cfg, pl, d, ino, contents, bytes, now);
    ExtendOnDisk(cfg, pl, geo, d, ino, contents, bytes, now, g, bit);
    ShownOne(fmt, geo, d, tx, d');
    ShownVolume(cfg, pl, geo, d, [tx], d');
    SuperblockIsOne(pl, geo, |d|);
    SameLength(fmt, geo, d, tx, d');
    EndOfFile(f);
    ExtendedSize(pl.lay, v, ino, bytes, g, bit);
    var size := f.size;
    forall i: nat | i < 1024 ensures ByteAt(pl, d', ino, size + i) == Some(if i < bytes then data[i] else 0) {
      assert (size + i) / 1024 == Extents.End(f.leaf) && (size + i) % 1024 == i;
      ExtendedMaps(pl.lay, v, ino, bytes, ino, Extents.End(f.leaf));
      ShownBlock(fmt, geo, d, tx, d', n);
      PaddedBytes(data, bytes, i);
    }
    forall i, pos: nat | !(i == ino && size <= pos < size + 1024) ensures SameBytes(pl, d, d', i, pos) {
      if pos / 1024 < 0x1_0000_0000 {
        var l: Word := pos / 1024;
        ExtendedMaps(pl.lay, v, ino, bytes, i, l);
        assert !(i == ino && l == Extents.End(f.leaf));
        if MapsTo(v, i, l).Some? {
          var m := MapsTo(v, i, l).value;
          MappedIsData(pl, geo, d, i, l);
          DataStays(cfg, pl, geo, d, ino, contents, bytes, now, g, bit, m);
          ShownBlock(fmt, geo, d, tx, d', m);
        }
      }
      ByteKept(pl, d, d', i, pos);
    }
  }

  lemma SameLength<X>(fmt: Format<X>, geo: Geometry, d: Disk<X>, tx: Tx<X>, d': Disk<X>)
    requires ShowsApplied(fmt, geo, d', tx, d)
    ensures |d'| == |d|
  {
  }

  /** What a reader finds after an extension that was cut at any write, once the next mount is
      complete: the file with its data appended, if the journal superblock was written, and
      otherwise every byte of every file as it was. */
  lemma {:induction false} AppendIsAtomic(cfg: B.Config, pl: Places, geo: Geometry, d: Volume1024, ino: nat, data: seq<Byte>,
                                          bytes: Word, now: Word, budget: nat, mounts: seq<nat>)
    requires |cfg.uuid| == 16 && CanAppend(pl, geo, d, ino, bytes) && (if bytes > 1024 then 1024 else bytes) <= |data|
    requires Ready(J.JournalFormat(cfg), geo, d, J.JsbSequence(Jsb(geo, d)), 0)
    ensures var (g, bit) := Candidate(pl.lay, VolumeAt(pl, d), VolumeAt(pl, d).files[ino].leaf).value;
            Extensible(pl, d, ino, g, bit)
    ensures var fmt := J.JournalFormat(cfg);
            var tx := NextExtendTx(cfg, pl, d, ino, A.Padded(data, bytes), bytes, now);
            var cut := Run(fmt, geo, d, budget, CommitProgram(fmt, geo, J.JsbSequence(Jsb(geo, d)), tx)).disk;
            var found := Mount(fmt, geo, Mounts(fmt, geo, cut, mounts), -1);
            if budget >= LandingWrites(tx) then Appended(pl, geo, d, found, ino, data, bytes)
            else DiskOk(pl, geo, found) && forall i, pos: nat :: SameBytes(pl, d, found, i, pos)
  {
    hide InodesOk, Readable, PlacesOk, IsMeta, VolumeAt, Candidate, ExtendTx, Run, CommitProgram, Mounts, Mount, Ready, ShowsApplied,
         ShowsAll, Lawful, J.JournalFormat, After, ValidTx, Extensible, Address, Appended, A.Padded, Extended, ExtendedAt, Consistent, Fits;
    var fmt, v := J.JournalFormat(cfg), VolumeAt(pl, d);
    J.JournalFormatIsLawful(cfg);
    CandidateFits(pl, geo, d, ino, bytes);
    var (g, bit) := Candidate(pl.lay, v, v.files[ino].leaf).value;
    ExtendTxIsValid(cfg, pl, geo, d, ino, A.Padded(data, bytes), bytes, now, g, bit);
    var tx := NextExtendTx(cfg, pl, d, ino, A.Padded(data, bytes), bytes, now);
    var q := J.JsbSequence(Jsb(geo, d));
    CommitIsAtomic(fmt, geo, d, q, tx, budget, mounts);
    var found := Mount(fmt, geo, Mounts(fmt, geo, Run(fmt, geo, d, budget, CommitProgram(fmt, geo, q, tx)).disk, mounts), -1);
    if budget >= LandingWrites(tx) {
      ShownAppended(cfg, pl, geo, d, ino, data, bytes, now, found);
    } else {
      ShownNothing(cfg, pl, geo, d, found);
    }
  }

  lemma ShownNothing(cfg: B.Config, pl: Places, geo: Geometry, d: Volume1024, d': Volume1024)
    requires DiskOk(pl, geo, d) && Consistent(pl.lay, VolumeAt(pl, d)) && ShowsApplied(J.JournalFormat(cfg), geo, d', [], d)
    ensures DiskOk(pl, geo, d') && forall i, pos: nat :: SameBytes(pl, d, d', i, pos)
  {
    hide InodesOk, Readable, PlacesOk, IsMeta, VolumeAt, ShowsApplied, ShowsAll, J.JournalFormat, InJournal, MapsTo, Used, CountsAgree,
         FilesOk, NoAlias, MetaUsed, MappedUsed, AfterAll;
    var fmt, v := J.JournalFormat(cfg), VolumeAt(pl, d);
    ShowsNone(fmt, geo, d, d');
    AfterNoneAll(d);
    ShownVolume(cfg, pl, geo, d, [], d');
    SuperblockIsOne(pl, geo, |d|);
    SameLength(fmt, geo, d, [], d');
    forall i, pos: nat ensures SameBytes(pl, d, d', i, pos) {
      if pos / 1024 < 0x1_0000_0000 && MapsTo(v, i, pos / 1024).Some? {
        MappedIsData(pl, geo, d, i, pos / 1024);
        ShownBlock(fmt, geo, d, [], d', MapsTo(v, i, pos / 1024).value);
        AfterNothing(d);
      }
      ByteKept(pl, d, d', i, pos);
    }
  }

  lemma AfterNoneAll<X>(d: Disk<X>)
    ensures AfterAll([], d) == d
  {
  }

  /** Appends data to a file. A call that succeeds leaves it on the device, and changes no byte
      of any other file. On a device that takes sixteen more writes it succeeds. */
  method Append(fs: Mounted<B.Block>, ghost d: Volume1024, cfg: B.Config, pl: Places, ino: nat, data: seq<Byte>, bytes: Word,
                now: Word) returns (rc: int)
    requires |cfg.uuid| == 16 && fs.fmt == J.JournalFormat(cfg) && Sees(fs, d)
    requires CanAppend(pl, fs.geo, d, ino, bytes) && (if bytes > 1024 then 1024 else bytes) <= |data|
    requires fs.start == 0 ==> Takes(fs.fmt, fs.geo, d, fs.sequence, 1)
    modifies fs, fs.dev
    ensures fs.Valid()
    ensures rc == 0 ==> Appended(pl, fs.geo, d, fs.dev.blocks, ino, data, bytes)
    ensures fs.dev.writable && old(fs.start) == 0 && old(fs.dev.writesLeft) >= 16 ==> rc == 0
  {
    hide PlacesOk, Readable, InodesOk, VolumeAt, Candidate, Extensible, ExtendTx, A.Padded, CommitProgram, Run, Extended, Takes,
         Appended, Lawful, J.JournalFormat, ValidTx, Ready, ShowsApplied, ExtendedAt, Address, IsMeta, InJournal, Fits, Consistent;
    ghost var fmt, q, left := fs.fmt, fs.sequence, fs.dev.writesLeft;
    ghost var can := fs.dev.writable && fs.start == 0;
    ghost var v := VolumeAt(pl, d);
    CandidateFits(pl, fs.geo, d, ino, bytes);
    rc := A.ExtendBlock(fs, d, cfg, pl, ino, data, bytes, now);
    if can {
      ghost var (g, bit) := Candidate(pl.lay, v, v.files[ino].leaf).value;
      ghost var tx := NextExtendTx(cfg, pl, d, ino, A.Padded(data, bytes), bytes, now);
      J.JournalFormatIsLawful(cfg);
      ExtendTxIsValid(cfg, pl, fs.geo, d, ino, A.Padded(data, bytes), bytes, now, g, bit);
      FiveBlocks(cfg, pl, d, ino, A.Padded(data, bytes), bytes, now, g, bit);
      TakesIsReady(fmt, fs.geo, d, q, 1);
      if left >= 0 { FinishedCommit(fmt, fs.geo, d, q, tx, left, 0); }
      if rc == 0 {
        FinishedLeaves(fmt, fs.geo, d, q, tx, left, 1);
        ShownAppended(cfg, pl, fs.geo, d, ino, data, bytes, now, fs.dev.blocks);
      }
    }
  }

  lemma FiveBlocks(cfg: B.Config, pl: Places, d: Volume1024, ino: nat, contents: Bytes1024, bytes: Word, now: Word, g: nat, bit: nat)
    requires Extensible(pl, d, ino, g, bit)
    ensures |ExtendTx(cfg, pl, d, ino, contents, bytes, now, g, bit)| == 5
  {
  }

  // ---------------------------------------------------------------- truncation

  /** The largest size whose blocks a 32-bit count can number: 1 KiB below 4 TiB. */
  const MAX_CUT := 0x3FF_FFFF_FC00

  /** The code's count separates the blocks that begin below the new size from the others if
      and only if it does not wrap. */
  lemma BlockCountIff(newSize: nat)
    ensures (forall l: Word :: l >= T.BlockCount(newSize) <==> l * 1024 >= newSize) <==> newSize <= MAX_CUT
  {
    var c := T.BlockCount(newSize);
    if newSize <= MAX_CUT {
      forall l: Word ensures l >= c <==> l * 1024 >= newSize {
      }
    } else {
      var l: Word := 0xFFFF_FFFF;
      assert l >= c && l * 1024 < newSize;
    }
  }

  /** The failing input: a file cut to exactly 4 TiB keeps nothing. */
  lemma FourTebibytes()
    ensures T.BlockCount(0x400_0000_0000) == 0
  {
  }

  /** A truncation in terms of bytes: logical blocks that begin below the new size map what they
      did and all others are holes, in this file and no other; and exactly the blocks that
      were mapped from there on become free. */
  lemma TruncateInBytes(lay: Layout, v: Volume, ino: nat, newSize: nat)
    requires Consistent(lay, v) && ino in v.files && newSize <= MAX_CUT
    ensures T.AllInRange(lay, |v.groups|, Freed(v.files[ino].leaf, T.BlockCount(newSize)))
    ensures var v' := T.Truncated(lay, v, ino, newSize);
            && Consistent(lay, v') && v'.files[ino].size == newSize
            && (forall i, l: Word :: MapsTo(v', i, l) == if i == ino && l * 1024 >= newSize then None else MapsTo(v, i, l))
            && (forall n: nat :: Used(lay, v, n) && !Used(lay, v', n) <==>
                  exists l: Word :: l * 1024 >= newSize && MapsTo(v, ino, l) == Some(n))
  {
    hide Used, MapsTo, GroupAgrees, FilesOk, NoAlias, MetaUsed, MappedUsed, T.BlockCount, Freed, T.AllInRange, T.ReleaseAll;
    BlockCountIff(newSize);
    T.TruncateIsExact(lay, v, ino, newSize);
    var v' := T.Truncated(lay, v, ino, newSize);
    forall n: nat
      ensures Used(lay, v, n) && !Used(lay, v', n) <==> exists l: Word :: l * 1024 >= newSize && MapsTo(v, ino, l) == Some(n)
    {
      if l: Word :| l >= T.BlockCount(newSize) && MapsTo(v, ino, l) == Some(n) {
        assert l * 1024 >= newSize && MapsTo(v, ino, l) == Some(n);
      }
      if l: Word :| l * 1024 >= newSize && MapsTo(v, ino, l) == Some(n) {
        assert l >= T.BlockCount(newSize) && MapsTo(v, ino, l) == Some(n);
      }
    }
  }

  /** `d'` is `d` with a file cut to `newSize` bytes. */
  ghost predicate CutTo(pl: Places, geo: Geometry, d: Volume1024, d': Volume1024, ino: nat, newSize: nat)
    requires DiskOk(pl, geo, d) && ino in pl.inodes
  {
    && DiskOk(pl, geo, d') && SizeOf(pl, d', ino) == newSize
    && (forall i, pos: nat :: if i == ino && pos / 1024 * 1024 >= newSize then ByteAt(pl, d', i, pos) == None else SameBytes(pl, d, d', i, pos))
    && (forall n: nat :: Used(pl.lay, VolumeAt(pl, d), n) && !Used(pl.lay, VolumeAt(pl, d'), n) <==>
          exists l: Word :: l * 1024 >= newSize && MapsTo(VolumeAt(pl, d), ino, l) == Some(n))
  }

  ghost predicate CanCut(pl: Places, geo: Geometry, d: Volume1024, ino: nat, newSize: nat) {
    CanTruncate(pl, geo, d, ino, newSize) && Consistent(pl.lay, VolumeAt(pl, d)) && newSize <= MAX_CUT
  }

  /** Freeing blocks writes none that hold data. */
  lemma {:induction false} FreesKeepData(cfg: B.Config, pl: Places, geo: Geometry, d: Volume1024, s: seq<nat>, k: nat, m: nat)
    requires DiskOk(pl, geo, d) && geo.first + 7 <= geo.maxlen && T.AllInRange(pl.lay, |pl.bitmaps|, s) && k <= |s|
    requires m < |d| && m != SB && !IsMeta(pl, m)
    ensures AfterAll(FreeTxs(cfg, pl, geo, d, s)[..k], d)[m] == d[m]
    decreases |s|
  {
    hide After, FreeTx, InodesOk, Readable, PlacesOk, VolumeAt, GroupOf, BitOf, Release, ValidTx, InodeAt, IsMeta;
    var txs := FreeTxs(cfg, pl, geo, d, s);
    if k == 0 {
      assert txs[..0] == [];
    } else {
      FreeOnDisk(cfg, pl, geo, d, s[0]);
      var tx := FreeTx(cfg, pl, d, GroupOf(pl.lay, s[0]), BitOf(pl.lay, s[0]));
      FreeKeepsData(cfg, pl, geo, d, GroupOf(pl.lay, s[0]), BitOf(pl.lay, s[0]), m);
      FreesKeepData(cfg, pl, geo, After(tx, d), s[1..], k - 1, m);
      assert txs[..k][1..] == txs[1..][..k - 1] && txs[..k][0] == tx;
    }
  }

  lemma FreeKeepsData(cfg: B.Config, pl: Places, geo: Geometry, d: Volume1024, g: nat, bit: nat, m: nat)
    requires DiskOk(pl, geo, d) && g < |pl.bitmaps| && bit < pl.lay.perGroup && m < |d| && m != SB && !IsMeta(pl, m)
    ensures After(FreeTx(cfg, pl, d, g, bit), d)[m] == d[m]
  {
    hide After, InodesOk, PlacesOk, BitmapEdit, CountEdit, WithFree, IsMeta;
    BitmapIsMeta(pl, g);
    DescsAreMeta(pl);
    NotApplied(FreeTx(cfg, pl, d, g, bit), d, m);
  }

  lemma LastKeepsData(pl: Places, d: Volume1024, ino: nat, ib: Inode, m: nat)
    requires Readable(pl, d) && ino in pl.inodes && |ib| == pl.inodeSize && m < |d| && !IsMeta(pl, m)
    ensures After(InodeTx(pl, d, ino, ib), d)[m] == d[m]
  {
    hide After, WithInode, IsMeta;
    InodeIsMeta(pl, ino);
    NotApplied(InodeTx(pl, d, ino, ib), d, m);
  }

  /** No transaction of a truncation writes a block that holds data. */
  lemma {:induction false} CutKeepsData(cfg: B.Config, pl: Places, geo: Geometry, d: Volume1024, ino: nat, newSize: nat, now: Word, k: nat, m: nat)
    requires CanTruncate(pl, geo, d, ino, newSize) && k <= T.Transactions(VolumeAt(pl, d).files[ino], newSize)
    requires m < |d| && m != SB && !IsMeta(pl, m)
    ensures AfterAll(TruncateTxs(cfg, pl, geo, d, ino, newSize, now)[..k], d)[m] == d[m]
  {
    hide InodesOk, Readable, PlacesOk, VolumeAt, ValidTx, InodeAt, Freed, FreeTxs, T.AllInRange, After, AfterAll, IsMeta, InodeTx, CutInode,
         InodeOk;
    var s := FreedOf(pl, d, ino, newSize);
    var frees, last := FreeTxs(cfg, pl, geo, d, s), LastTx(cfg, pl, geo, d, ino, newSize, now);
    var txs := TruncateTxs(cfg, pl, geo, d, ino, newSize, now);
    WholePrefix(frees);
    if k <= |s| {
      FreesKeepData(cfg, pl, geo, d, s, k, m);
      assert txs[..k] == frees[..k];
    } else {
      FreesKeepData(cfg, pl, geo, d, s, |s|, m);
      FreesOnDisk(cfg, pl, geo, d, s, |s|);
      var d1 := AfterAll(frees, d);
      InodeAtParts(pl, d1, ino);
      LastKeepsData(pl, d1, ino, CutInode(pl, InodeAt(pl, d1, ino), ino, newSize, |s|, now), m);
      assert txs[..k] == frees + [last];
      AfterAllConcat(frees, [last], d);
      AfterAllOne(last, d1);
    }
  }

  /** What a disk shows after the first `k` transactions of a truncation: before the last one
      every byte of every file as it was, and then the file cut. */
  lemma {:induction false} ShownCut(cfg: B.Config, pl: Places, geo: Geometry, d: Volume1024, ino: nat, newSize: nat, now: Word, k: nat,
                                    d': Volume1024)
    requires CanCut(pl, geo, d, ino, newSize) && k <= T.Transactions(VolumeAt(pl, d).files[ino], newSize)
    requires ShowsAll(J.JournalFormat(cfg), geo, d', TruncateTxs(cfg, pl, geo, d, ino, newSize, now)[..k], d)
    ensures if k == T.Transactions(VolumeAt(pl, d).files[ino], newSize) then CutTo(pl, geo, d, d', ino, newSize)
            else DiskOk(pl, geo, d') && forall i, pos: nat :: SameBytes(pl, d, d', i, pos)
  {
    hide InodesOk, Readable, PlacesOk, IsMeta, VolumeAt, ShowsAll, J.JournalFormat, InJournal, MapsTo, Used, GroupAgrees, FilesOk, NoAlias,
         MetaUsed, MappedUsed, AfterAll, TruncateTxs, Freed, T.AllInRange, T.ReleaseAll, T.Cut, ValidTx;
    var fmt, v := J.JournalFormat(cfg), VolumeAt(pl, d);
    var txs := TruncateTxs(cfg, pl, geo, d, ino, newSize, now);
    TruncateOnDisk(cfg, pl, geo, d, ino, newSize, now, k);
    ShownVolume(cfg, pl, geo, d, txs[..k], d');
    CanFacts(pl, geo, d, ino, newSize);
    ShownLength(fmt, geo, d, txs[..k], d');
    TruncateInBytes(pl.lay, v, ino, newSize);
    var v' := VolumeAt(pl, d');
    forall i, pos: nat
      ensures if k == |txs| && i == ino && pos / 1024 * 1024 >= newSize then ByteAt(pl, d', i, pos) == None
              else SameBytes(pl, d, d', i, pos)
    {
      if pos / 1024 < 0x1_0000_0000 {
        var l: Word := pos / 1024;
        StageMaps(pl.lay, v, ino, newSize, k, i, l);
        if MapsTo(v, i, l).Some? {
          var m := MapsTo(v, i, l).value;
          MappedIsData(pl, geo, d, i, l);
          CutKeepsData(cfg, pl, geo, d, ino, newSize, now, k, m);
          ShownData(fmt, geo, d, txs[..k], d', m);
        }
      }
      if !(k == |txs| && i == ino && pos / 1024 * 1024 >= newSize) { ByteKept(pl, d, d', i, pos); }
    }
  }

  lemma ShownLength<X>(fmt: Format<X>, geo: Geometry, d: Disk<X>, txs: seq<Tx<X>>, d': Disk<X>)
    requires ShowsAll(fmt, geo, d', txs, d)
    ensures |d'| == |d|
  {
  }

  lemma ShownData<X>(fmt: Format<X>, geo: Geometry, d: Disk<X>, txs: seq<Tx<X>>, d': Disk<X>, m: nat)
    requires ShowsAll(fmt, geo, d', txs, d) && m < |d| && !InJournal(geo, m) && m != geo.sbBlock
    ensures d'[m] == AfterAll(txs, d)[m]
  {
    AfterAllApplied(txs, d, m);
    assert Shows(fmt, geo, d', m, AppliedAll(txs, m, d[m]));
  }

  /** What each stage of a truncation maps. */
  lemma StageMaps(lay: Layout, v: Volume, ino: nat, newSize: nat, k: nat, i: nat, l: Word)
    requires Consistent(lay, v) && ino in v.files && newSize <= MAX_CUT && k <= T.Transactions(v.files[ino], newSize)
    requires T.AllInRange(lay, |v.groups|, Freed(v.files[ino].leaf, T.BlockCount(newSize)))
    ensures MapsTo(T.Partly(lay, v, ino, newSize, k), i, l)
            == if k == T.Transactions(v.files[ino], newSize) && i == ino && l * 1024 >= newSize then None else MapsTo(v, i, l)
  {
    hide Used, GroupAgrees, FilesOk, NoAlias, MetaUsed, MappedUsed, T.BlockCount, Freed, T.AllInRange, T.ReleaseAll, Lookup, T.Cut, T.Truncated;
    if k == T.Transactions(v.files[ino], newSize) {
      TruncateInBytes(lay, v, ino, newSize);
    }
  }

  /** What a reader finds after a truncation that was cut at any of its writes, once the next
      mount is complete: the file cut, if the last transaction landed, and otherwise every
      byte of every file as it was. */
  lemma {:induction false} CutIsAtomicToReaders(cfg: B.Config, pl: Places, geo: Geometry, d: Volume1024, ino: nat, newSize: nat,
                                                now: Word, budget: nat, mounts: seq<nat>)
    requires |cfg.uuid| == 16 && CanCut(pl, geo, d, ino, newSize) && WellPlaced(geo, |d|)
    requires Takes(J.JournalFormat(cfg), geo, d, J.JsbSequence(Jsb(geo, d)), T.Transactions(VolumeAt(pl, d).files[ino], newSize))
    ensures var fmt, txs := J.JournalFormat(cfg), TruncateTxs(cfg, pl, geo, d, ino, newSize, now);
            var found := AfterRound(fmt, geo, d, Round(txs, budget, mounts));
            if Landed(txs, budget) == |txs| then CutTo(pl, geo, d, found, ino, newSize)
            else DiskOk(pl, geo, found) && forall i, pos: nat :: SameBytes(pl, d, found, i, pos)
  {
    hide InodesOk, Readable, PlacesOk, VolumeAt, Freed, T.AllInRange, TruncateTxs, Takes, ShowsAll, Lawful, AfterRound, ValidTx,
         J.JsbSequence, Consistent, CanTruncate, J.JournalFormat, CutTo;
    var fmt, txs := J.JournalFormat(cfg), TruncateTxs(cfg, pl, geo, d, ino, newSize, now);
    J.JournalFormatIsLawful(cfg);
    forall i | 0 <= i < |txs| ensures ValidTx(geo, |d|, txs[i]) {
      TruncateOnDisk(cfg, pl, geo, d, ino, newSize, now, i);
    }
    SequenceIs(cfg, geo, d);
    RoundOf(fmt, geo, d, Round(txs, budget, mounts));
    ShownCut(cfg, pl, geo, d, ino, newSize, now, Landed(txs, budget), AfterRound(fmt, geo, d, Round(txs, budget, mounts)));
  }

  lemma SequenceIs(cfg: B.Config, geo: Geometry, d: Volume1024)
    requires geo.extents != [] && JsbBlock(geo) < |d|
    ensures J.JournalFormat(cfg).jsbSequence(Jsb(geo, d)) == J.JsbSequence(Jsb(geo, d))
  {
  }

  /** Cuts a file. A call that succeeds leaves it cut on the device, and changes no byte of any
      other file. */
  method Cut(fs: Mounted<B.Block>, ghost d: Volume1024, cfg: B.Config, pl: Places, ino: nat, newSize: nat, now: Word) returns (rc: int)
    requires R.FitToTruncate(fs, cfg, pl, d, ino, newSize) && CanCut(pl, fs.geo, d, ino, newSize)
    requires newSize < SizeOf(pl, d, ino)
    modifies fs, fs.dev
    ensures fs.Valid()
    ensures rc == 0 ==> CutTo(pl, fs.geo, d, fs.dev.blocks, ino, newSize)
  {
    hide InodesOk, Readable, PlacesOk, VolumeAt, Freed, T.AllInRange, TruncateTxs, Takes, ShowsAll, Lawful, SessionProgram, Run, ValidTx,
         Consistent, J.JournalFormat, CutTo, J.Recover, Ordered, ReadThrough, WellPlaced;
    ghost var left, q, can := fs.dev.writesLeft, fs.sequence, R.CanCommit(fs);
    ghost var txs := TruncateTxs(cfg, pl, fs.geo, d, ino, newSize, now);
    if fs.start == 0 { SeesDisk(fs, d); }
    rc := R.Truncate(fs, d, cfg, pl, ino, newSize, now);
    if rc == 0 {
      J.JournalFormatIsLawful(cfg);
      forall i | 0 <= i < |txs| ensures ValidTx(fs.geo, |d|, txs[i]) {
        TruncateOnDisk(cfg, pl, fs.geo, d, ino, newSize, now, i);
      }
      FinishedSession(fs.fmt, fs.geo, d, q, txs, left);
      WholePrefix(txs);
      ShownCut(cfg, pl, fs.geo, d, ino, newSize, now, |txs|, fs.dev.blocks);
    }
  }
}
