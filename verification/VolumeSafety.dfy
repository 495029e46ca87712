/** Extension and truncation under crashes: what a mount finds after any of their block
    writes was the last. */
module VolumeSafety {
  import opened Words
  import opened Bytes
  import opened LogFormat
  import opened LogWalk
  import opened Programs
  import opened Recovery
  import opened Convergence
  import opened Commit
  import opened CrashSafety
  import opened Runs
  import opened Extents
  import opened Bitmaps
  import opened Volumes
  import opened SmallBlocks
  import opened VolumeOnDisk
  import T = Truncation
  import B = ByteFormat
  import J = Superblocks

  // ---------------------------------------------------------------- what a disk shows

  /** A list of transactions applied in order. */
  function AfterAll<T>(txs: seq<Tx<T>>, d: Disk<T>): (r: Disk<T>)
    ensures |r| == |d|
    decreases |txs|
  {
    if txs == [] then d else AfterAll(txs[1..], After(txs[0], d))
  }

  lemma {:induction false} AfterAllApplied<T>(txs: seq<Tx<T>>, d: Disk<T>, n: nat)
    requires n < |d|
    ensures AfterAll(txs, d)[n] == AppliedAll(txs, n, d[n])
    decreases |txs|
  {
    if txs != [] {
      AfterAllApplied(txs[1..], After(txs[0], d), n);
    }
  }

  /** The volume does not depend on the log, on the RECOVER bit or on the superblock's
      checksum. */
  lemma SameVolume(cfg: B.Config, pl: Places, geo: Geometry, d: Volume1024, d': Volume1024)
    requires DiskOk(pl, geo, d) && |d'| == |d|
    requires forall n :: 0 <= n < |d| && !InJournal(geo, n) && n != SB ==> d'[n] == d[n]
    requires J.SetRecover(cfg, d'[SB], false) == J.SetRecover(cfg, d[SB], false)
    ensures DiskOk(pl, geo, d') && VolumeAt(pl, d') == VolumeAt(pl, d)
  {
    hide InodeOk, FileOf, SlotOf, FreeAt, J.SetRecover, InJournal;
    assert |d'[SB]| == SIZE by { RecoverKeepsSize(cfg, d'[SB], d[SB]); }
    SettledFree(cfg, d[SB], false, pl.lay.wide);
    SettledFree(cfg, d'[SB], false, pl.lay.wide);
    forall g | 0 <= g < |pl.bitmaps| ensures d'[pl.bitmaps[g]] == d[pl.bitmaps[g]] {
      assert pl.bitmaps[g] in pl.bitmaps;
    }
    assert Readable(pl, d');
    forall i | i in pl.inodes ensures InodeAt(pl, d', i) == InodeAt(pl, d, i) {
    }
    forall g | 0 <= g < |pl.bitmaps| ensures GroupAt(pl, d', g) == GroupAt(pl, d, g) {
      SameGroup(pl, d, d', g);
    }
  }

  lemma RecoverKeepsSize(cfg: B.Config, a: B.Block, b: B.Block)
    requires J.SetRecover(cfg, a, false) == J.SetRecover(cfg, b, false)
    ensures |a| == |b|
  {
  }

  lemma ShownVolume(cfg: B.Config, pl: Places, geo: Geometry, d: Volume1024, txs: seq<Tx<B.Block>>, d': Volume1024)
    requires DiskOk(pl, geo, AfterAll(txs, d)) && ShowsAll(J.JournalFormat(cfg), geo, d', txs, d)
    ensures DiskOk(pl, geo, d') && VolumeAt(pl, d') == VolumeAt(pl, AfterAll(txs, d))
  {
    hide InJournal, AppliedAll, AfterAll, J.SetRecover, Readable, InodesOk, VolumeAt;
    var a := AfterAll(txs, d);
    forall n | 0 <= n < |d| && !InJournal(geo, n)
      ensures n != SB ==> d'[n] == a[n]
      ensures n == SB ==> J.SetRecover(cfg, d'[SB], false) == J.SetRecover(cfg, a[SB], false)
    {
      AfterAllApplied(txs, d, n);
      assert Shows(J.JournalFormat(cfg), geo, d', n, AppliedAll(txs, n, d[n]));
    }
    SameVolume(cfg, pl, geo, a, d');
  }

  lemma ShownOne<T>(fmt: Format<T>, geo: Geometry, d: Disk<T>, tx: Tx<T>, d': Disk<T>)
    requires ShowsApplied(fmt, geo, d', tx, d)
    ensures ShowsAll(fmt, geo, d', [tx], d) && AfterAll([tx], d) == After(tx, d)
  {
    ShowsOne(fmt, geo, d, tx, d');
    assert [tx][1..] == [];
    assert AfterAll([tx], d) == AfterAll([], After(tx, d));
  }

  // ---------------------------------------------------------------- extension

  /** The block that an extension takes of a consistent volume. */
  lemma CandidateFits(pl: Places, geo: Geometry, d: Volume1024, ino: nat, bytes: Word)
    requires DiskOk(pl, geo, d) && Consistent(pl.lay, VolumeAt(pl, d)) && ino in pl.inodes
    requires Extended(pl.lay, VolumeAt(pl, d), ino, bytes).Some?
    ensures Candidate(pl.lay, VolumeAt(pl, d), VolumeAt(pl, d).files[ino].leaf).Some?
    ensures var (g, bit) := Candidate(pl.lay, VolumeAt(pl, d), VolumeAt(pl, d).files[ino].leaf).value;
            var n := Address(pl.lay, g, bit);
            && Extensible(pl, d, ino, g, bit)
            && n < |d| && n != SB && !IsMeta(pl, n) && !InJournal(geo, n)
            && Extended(pl.lay, VolumeAt(pl, d), ino, bytes) == Some(ExtendedAt(pl.lay, VolumeAt(pl, d), ino, bytes, g, bit))
  {
    hide InodeOk, FileOf, InodeAt, GroupAt, FreeAt, InJournal, IsMeta, VolumeAt, Candidate, Used, GroupAgrees, MappedUsed, NoAlias,
         FilesOk, InRange, Address;
    var v := VolumeAt(pl, d);
    var (g, bit) := Candidate(pl.lay, v, v.files[ino].leaf).value;
    CandidateIsFree(pl.lay, v, v.files[ino].leaf);
    FreeIsNotMeta(pl, geo, d, Address(pl.lay, g, bit));
    InsideVolume(pl, geo, |d|, g, bit);
    VolumeParts(pl, d, ino);
  }

  lemma InsideVolume(pl: Places, geo: Geometry, size: nat, g: nat, bit: nat)
    requires PlacesOk(pl, geo, size) && g < |pl.bitmaps| && bit < pl.lay.perGroup
    ensures Address(pl.lay, g, bit) < size <= 0x1_0000_0000
  {
    AddressInRange(pl.lay, |pl.bitmaps|, g, bit);
  }

  /** The transaction of the next extension of a file. */
  function NextExtendTx(cfg: B.Config, pl: Places, d: Volume1024, ino: nat, contents: Bytes1024, bytes: Word, now: Word): Tx<B.Block>
    requires Readable(pl, d) && InodesOk(pl, d) && ino in pl.inodes && pl.lay.perGroup > 0
    requires Candidate(pl.lay, VolumeAt(pl, d), VolumeAt(pl, d).files[ino].leaf).Some?
    requires var (g, bit) := Candidate(pl.lay, VolumeAt(pl, d), VolumeAt(pl, d).files[ino].leaf).value;
             Extensible(pl, d, ino, g, bit)
  {
    var (g, bit) := Candidate(pl.lay, VolumeAt(pl, d), VolumeAt(pl, d).files[ino].leaf).value;
    ExtendTx(cfg, pl, d, ino, contents, bytes, now, g, bit)
  }

  /** Extension is atomic: whichever of its block writes is the last to reach the device, and
      however recovery is interrupted, the volume found at the next mount is the old one or
      the extended one, the latter exactly when the journal superblock was written; and then
      the new block holds the data. */
  lemma ExtendIsAtomic(cfg: B.Config, pl: Places, geo: Geometry, d: Volume1024, ino: nat, contents: Bytes1024,
                       bytes: Word, now: Word, budget: nat, mounts: seq<nat>)
    requires |cfg.uuid| == 16 && DiskOk(pl, geo, d) && geo.first + 7 <= geo.maxlen
    requires var fmt := J.JournalFormat(cfg);
             WellPlaced(geo, |d|) && Ready(fmt, geo, d, fmt.jsbSequence(Jsb(geo, d)), 0)
    requires Consistent(pl.lay, VolumeAt(pl, d)) && ino in pl.inodes
    requires Extended(pl.lay, VolumeAt(pl, d), ino, bytes).Some?
    ensures Candidate(pl.lay, VolumeAt(pl, d), VolumeAt(pl, d).files[ino].leaf).Some?
    ensures var fmt, v := J.JournalFormat(cfg), VolumeAt(pl, d);
            var (g, bit) := Candidate(pl.lay, v, v.files[ino].leaf).value;
            && Extensible(pl, d, ino, g, bit)
            && var tx := NextExtendTx(cfg, pl, d, ino, contents, bytes, now);
               var cut := Run(fmt, geo, d, budget, CommitProgram(fmt, geo, fmt.jsbSequence(Jsb(geo, d)), tx)).disk;
               var found := Mount(fmt, geo, Mounts(fmt, geo, cut, mounts), -1);
               && DiskOk(pl, geo, found)
               && VolumeAt(pl, found) == (if budget >= LandingWrites(tx) then Extended(pl.lay, v, ino, bytes).value else v)
               && (budget >= LandingWrites(tx) ==> Address(pl.lay, g, bit) < |d| && found[Address(pl.lay, g, bit)] == contents)
               && fmt.jsbStart(Jsb(geo, found)) == 0 && !fmt.recover(found[geo.sbBlock])
  {
    hide InodesOk, Readable, PlacesOk, GroupAt, FreeAt, InJournal, IsMeta, VolumeAt, Candidate, Consistent, Extended, ExtendedAt,
         ExtendTx, Run, CommitProgram, Mounts, Mount, Ready, ShowsApplied, ShowsAll, Lawful, J.JournalFormat, After, ValidTx,
         Extensible, Address;
    var fmt, v := J.JournalFormat(cfg), VolumeAt(pl, d);
    J.JournalFormatIsLawful(cfg);
    CandidateFits(pl, geo, d, ino, bytes);
    var (g, bit) := Candidate(pl.lay, v, v.files[ino].leaf).value;
    ExtendTxIsValid(cfg, pl, geo, d, ino, contents, bytes, now, g, bit);
    ExtendOnDisk(cfg, pl, geo, d, ino, contents, bytes, now, g, bit);
    var tx := NextExtendTx(cfg, pl, d, ino, contents, bytes, now);
    var q := fmt.jsbSequence(Jsb(geo, d));
    CommitIsAtomic(fmt, geo, d, q, tx, budget, mounts);
    var found := Mount(fmt, geo, Mounts(fmt, geo, Run(fmt, geo, d, budget, CommitProgram(fmt, geo, q, tx)).disk, mounts), -1);
    if budget >= LandingWrites(tx) {
      ShownOne(fmt, geo, d, tx, found);
      ShownVolume(cfg, pl, geo, d, [tx], found);
      SuperblockIsOne(pl, geo, |d|);
      ShownBlock(fmt, geo, d, tx, found, Address(pl.lay, g, bit));
    } else {
      ShowsNone(fmt, geo, d, found);
      ShownVolume(cfg, pl, geo, d, [], found);
    }
  }

  lemma SuperblockIsOne(pl: Places, geo: Geometry, size: nat)
    requires PlacesOk(pl, geo, size)
    ensures geo.sbBlock == SB && pl.lay.perGroup > 0
  {
  }

  lemma ShownBlock<T>(fmt: Format<T>, geo: Geometry, d: Disk<T>, tx: Tx<T>, d': Disk<T>, n: nat)
    requires ShowsApplied(fmt, geo, d', tx, d) && n < |d| && !InJournal(geo, n) && n != geo.sbBlock
    ensures d'[n] == After(tx, d)[n]
  {
    assert Shows(fmt, geo, d', n, Applied(tx, n, d[n]));
  }

  // ---------------------------------------------------------------- from commit to commit

  /** The same outside the journal. */
  ghost predicate SameHomes<T>(geo: Geometry, a: Disk<T>, b: Disk<T>) {
    |a| == |b| && forall n :: 0 <= n < |a| && !InJournal(geo, n) ==> a[n] == b[n]
  }

  lemma SameHomesReflect<T>(geo: Geometry, a: Disk<T>)
    ensures SameHomes(geo, a, a)
  {
  }

  lemma SameHomesThen<T>(geo: Geometry, a: Disk<T>, b: Disk<T>, tx: Tx<T>)
    requires SameHomes(geo, a, b)
    ensures SameHomes(geo, After(tx, a), After(tx, b))
  {
    forall n | 0 <= n < |a| && !InJournal(geo, n) ensures Applied(tx, n, a[n]) == Applied(tx, n, b[n]) {
    }
  }

  lemma SameHomesTrans<T>(geo: Geometry, a: Disk<T>, b: Disk<T>, c: Disk<T>)
    requires SameHomes(geo, a, b) && SameHomes(geo, b, c)
    ensures SameHomes(geo, a, c)
  {
  }

  /** Everything that describes the volume lies outside the journal. */
  lemma HomesDescribe(pl: Places, geo: Geometry, d: Volume1024, d': Volume1024)
    requires DiskOk(pl, geo, d) && SameHomes(geo, d', d)
    ensures DiskOk(pl, geo, d')
    ensures d'[SB] == d[SB] && d'[DESCS] == d[DESCS]
    ensures forall g :: 0 <= g < |pl.bitmaps| ==> d'[pl.bitmaps[g]] == d[pl.bitmaps[g]]
    ensures forall i :: i in pl.inodes ==> d'[pl.inodes[i].0] == d[pl.inodes[i].0]
  {
    hide InodeOk, SlotOf, InJournal;
    forall g | 0 <= g < |pl.bitmaps| ensures d'[pl.bitmaps[g]] == d[pl.bitmaps[g]] {
      assert pl.bitmaps[g] in pl.bitmaps;
    }
    assert Readable(pl, d');
    forall i | i in pl.inodes ensures InodeAt(pl, d', i) == InodeAt(pl, d, i) {
    }
  }

  /** So reads of such a disk build the same transaction. */
  lemma SameFreeTx(cfg: B.Config, pl: Places, geo: Geometry, d: Volume1024, d': Volume1024, g: nat, bit: nat)
    requires DiskOk(pl, geo, d) && SameHomes(geo, d', d) && g < |pl.bitmaps| && bit < pl.lay.perGroup
    ensures DiskOk(pl, geo, d') && FreeTx(cfg, pl, d', g, bit) == FreeTx(cfg, pl, d, g, bit)
  {
    hide SetBit, DescEdit, WithFree, CountAt, BitsOf, InodesOk, PlacesOk, FreeAt;
    HomesDescribe(pl, geo, d, d');
  }

  lemma SameInodeTx(pl: Places, geo: Geometry, d: Volume1024, d': Volume1024, ino: nat, ib: Inode)
    requires DiskOk(pl, geo, d) && SameHomes(geo, d', d) && ino in pl.inodes && |ib| == pl.inodeSize
    ensures DiskOk(pl, geo, d') && InodeAt(pl, d', ino) == InodeAt(pl, d, ino) && InodeTx(pl, d', ino, ib) == InodeTx(pl, d, ino, ib)
  {
    hide SlotOf, WithInode, InodesOk, PlacesOk;
    HomesDescribe(pl, geo, d, d');
  }

  /** A superblock just counted and summed does not change when a clear RECOVER bit is
      cleared again. */
  lemma CountedIsSettled(cfg: B.Config, b: Bytes1024, wide: bool, free: nat)
    requires !J.Recover(b)
    ensures !J.Recover(WithFree(cfg, b, wide, free))
    ensures J.SetRecover(cfg, WithFree(cfg, b, wide, free), false) == WithFree(cfg, b, wide, free)
  {
    hide PackLittle, J.Bit2, J.WithBit2;
    var b1 := Patch(b, SB_FREE_LOW, PackLittle(free % 0x1_0000_0000));
    var b2 := if wide then Patch(b1, SB_FREE_HIGH, PackLittle(free / 0x1_0000_0000 % 0x1_0000_0000)) else b1;
    var s := WithFree(cfg, b, wide, free);
    assert s[J.FEATURE_INCOMPAT] == b[J.FEATURE_INCOMPAT] && J.MetadataSum(s) == J.MetadataSum(b2);
    ClearStaysClear(s);
    if J.MetadataSum(s) {
      J.SumForgets(cfg, s, b2);
    }
  }

  lemma ClearStaysClear(b: B.Block)
    requires !J.Recover(b)
    ensures J.WithRecover(b, false) == b
  {
  }

  /** A finished commit leaves exactly its transaction outside the journal, when the
      superblock it leaves is settled. */
  lemma CommitLeaves<T(!new)>(fmt: Format<T>, geo: Geometry, d: Disk<T>, q: Word, tx: Tx<T>, budget: int, n: nat)
    requires Lawful(fmt) && Takes(fmt, geo, d, q, n) && n > 0 && ValidTx(geo, |d|, tx)
    requires Run(fmt, geo, d, budget, CommitProgram(fmt, geo, q, tx)).ending == Finished(0)
    requires WellPlaced(geo, |d|) && fmt.Settled(After(tx, d)[geo.sbBlock]) == After(tx, d)[geo.sbBlock]
    ensures var d1 := Run(fmt, geo, d, budget, CommitProgram(fmt, geo, q, tx)).disk;
            && Takes(fmt, geo, d1, Plus(q, 1), n - 1) && SameHomes(geo, d1, After(tx, d)) && !fmt.recover(d1[geo.sbBlock])
  {
    hide CommitProgram, Run, Takes, Applied, Lawful;
    FinishedLeaves(fmt, geo, d, q, tx, budget, n);
    var d1 := Run(fmt, geo, d, budget, CommitProgram(fmt, geo, q, tx)).disk;
    forall n | 0 <= n < |d| && !InJournal(geo, n) ensures d1[n] == After(tx, d)[n] {
      assert Shows(fmt, geo, d1, n, Applied(tx, n, d[n]));
    }
  }

  // ---------------------------------------------------------------- truncation

  /** The transactions that free a list of blocks, each built on what the ones before left. */
  ghost function FreeTxs(cfg: B.Config, pl: Places, geo: Geometry, d: Volume1024, s: seq<nat>): (r: seq<Tx<B.Block>>)
    requires DiskOk(pl, geo, d) && geo.first + 7 <= geo.maxlen && T.AllInRange(pl.lay, |pl.bitmaps|, s)
    ensures |r| == |s|
    decreases |s|
  {
    if s == [] then []
    else
      FreeOnDisk(cfg, pl, geo, d, s[0]);
      AfterSize(FreeTx(cfg, pl, d, GroupOf(pl.lay, s[0]), BitOf(pl.lay, s[0])), d);
      var tx := FreeTx(cfg, pl, d, GroupOf(pl.lay, s[0]), BitOf(pl.lay, s[0]));
      [tx] + FreeTxs(cfg, pl, geo, After(tx, d), s[1..])
  }

  lemma AfterSize<T>(tx: Tx<T>, d: Disk<T>)
    ensures |After(tx, d)| == |d|
  {
  }

  /** After the first `k` of them exactly the first `k` blocks are free. */
  lemma {:induction false} FreesOnDisk(cfg: B.Config, pl: Places, geo: Geometry, d: Volume1024, s: seq<nat>, k: nat)
    requires DiskOk(pl, geo, d) && geo.first + 7 <= geo.maxlen && T.AllInRange(pl.lay, |pl.bitmaps|, s) && k <= |s|
    ensures T.AllInRange(pl.lay, |pl.bitmaps|, s[..k])
    ensures var txs, d' := FreeTxs(cfg, pl, geo, d, s), AfterAll(FreeTxs(cfg, pl, geo, d, s)[..k], d);
            && DiskOk(pl, geo, d') && VolumeAt(pl, d') == T.ReleaseAll(pl.lay, VolumeAt(pl, d), s[..k])
            && (k < |s| ==> ValidTx(geo, |d|, txs[k]))
            && forall i :: i in pl.inodes ==> InodeAt(pl, d', i) == InodeAt(pl, d, i)
    decreases |s|
  {
    hide After, FreeTx, InodesOk, Readable, PlacesOk, VolumeAt, GroupOf, BitOf, Release, ValidTx, InodeAt;
    var txs := FreeTxs(cfg, pl, geo, d, s);
    if s == [] {
      assert txs[..0] == [] && s[..0] == [];
    } else {
      FreeOnDisk(cfg, pl, geo, d, s[0]);
      var tx := FreeTx(cfg, pl, d, GroupOf(pl.lay, s[0]), BitOf(pl.lay, s[0]));
      AfterSize(tx, d);
      FreeKeepsInodes(cfg, pl, geo, d, s[0]);
      if k == 0 {
        assert txs[..0] == [] && s[..0] == [];
      } else {
        FreesOnDisk(cfg, pl, geo, After(tx, d), s[1..], k - 1);
        assert txs[..k][1..] == txs[1..][..k - 1] && s[..k][1..] == s[1..][..k - 1];
        assert txs[..k][0] == tx && s[..k][0] == s[0];
      }
    }
  }

  lemma FreeKeepsInodes(cfg: B.Config, pl: Places, geo: Geometry, d: Volume1024, n: nat)
    requires DiskOk(pl, geo, d) && InRange(pl.lay, |pl.bitmaps|, n) && geo.first + 7 <= geo.maxlen
    requires GroupOf(pl.lay, n) < |pl.bitmaps| && BitOf(pl.lay, n) < pl.lay.perGroup
    requires DiskOk(pl, geo, After(FreeTx(cfg, pl, d, GroupOf(pl.lay, n), BitOf(pl.lay, n)), d))
    ensures forall i :: i in pl.inodes ==>
              InodeAt(pl, After(FreeTx(cfg, pl, d, GroupOf(pl.lay, n), BitOf(pl.lay, n)), d), i) == InodeAt(pl, d, i)
  {
    hide After, FreeTx, GroupOf, BitOf, Counted, SlotOf;
    FreedBlocks(cfg, pl, geo, d, GroupOf(pl.lay, n), BitOf(pl.lay, n));
  }

  lemma {:induction false} AfterAllConcat<T>(a: seq<Tx<T>>, b: seq<Tx<T>>, d: Disk<T>)
    ensures AfterAll(a + b, d) == AfterAll(b, AfterAll(a, d))
    decreases |a|
  {
    if a == [] {
      assert a + b == b;
    } else {
      assert (a + b)[1..] == a[1..] + b;
      AfterAllConcat(a[1..], b, After(a[0], d));
    }
  }

  /** A truncation that frees blocks of a readable, consistent volume. */
  ghost predicate CanTruncate(pl: Places, geo: Geometry, d: Volume1024, ino: nat, newSize: nat) {
    && DiskOk(pl, geo, d) && geo.first + 7 <= geo.maxlen && ino in pl.inodes && newSize < 0x1_0000_0000_0000_0000
    && T.AllInRange(pl.lay, |pl.bitmaps|, Freed(VolumeAt(pl, d).files[ino].leaf, T.BlockCount(newSize)))
  }

  /** The transaction for the inode, once `s` is freed. */
  ghost function LastTx(cfg: B.Config, pl: Places, geo: Geometry, d: Volume1024, ino: nat, newSize: nat, now: Word): Tx<B.Block>
    requires CanTruncate(pl, geo, d, ino, newSize)
  {
    var s := Freed(VolumeAt(pl, d).files[ino].leaf, T.BlockCount(newSize));
    var txs := FreeTxs(cfg, pl, geo, d, s);
    FreesOnDisk(cfg, pl, geo, d, s, |s|);
    WholePrefix(txs);
    var d1 := AfterAll(txs, d);
    InodeTx(pl, d1, ino, CutInode(pl, InodeAt(pl, d1, ino), ino, newSize, |s|, now))
  }

  lemma WholePrefix<T>(s: seq<T>)
    ensures s[..|s|] == s
  {
  }

  /** All transactions of a truncation: one for each block, then the inode's. */
  ghost function TruncateTxs(cfg: B.Config, pl: Places, geo: Geometry, d: Volume1024, ino: nat, newSize: nat, now: Word): (r: seq<Tx<B.Block>>)
    requires CanTruncate(pl, geo, d, ino, newSize)
    ensures |r| == T.Transactions(VolumeAt(pl, d).files[ino], newSize)
  {
    FreeTxs(cfg, pl, geo, d, Freed(VolumeAt(pl, d).files[ino].leaf, T.BlockCount(newSize))) + [LastTx(cfg, pl, geo, d, ino, newSize, now)]
  }

  function FreedOf(pl: Places, d: Volume1024, ino: nat, newSize: nat): seq<nat>
    requires Readable(pl, d) && InodesOk(pl, d) && ino in pl.inodes
  {
    Freed(VolumeAt(pl, d).files[ino].leaf, T.BlockCount(newSize))
  }

  /** The volume once everything is freed and the inode is written. */
  lemma LastOnDisk(cfg: B.Config, pl: Places, geo: Geometry, d: Volume1024, ino: nat, newSize: nat, now: Word)
    requires CanTruncate(pl, geo, d, ino, newSize)
    ensures var d1 := AfterAll(FreeTxs(cfg, pl, geo, d, FreedOf(pl, d, ino, newSize)), d);
            var last := LastTx(cfg, pl, geo, d, ino, newSize, now);
            var v := VolumeAt(pl, d);
            && ValidTx(geo, |d|, last) && DiskOk(pl, geo, After(last, d1))
            && VolumeAt(pl, After(last, d1)) ==
               T.ReleaseAll(pl.lay, v, FreedOf(pl, d, ino, newSize)).(files := v.files[ino := T.Cut(v.files[ino], newSize)])
  {
    hide InodesOk, Readable, PlacesOk, VolumeAt, ValidTx, InodeAt, Freed, InodeTx, CutInode, FreeTxs, T.AllInRange, T.ReleaseAll,
         After, AfterAll, T.Cut, InodeOk, FileOf;
    var s := FreedOf(pl, d, ino, newSize);
    var frees := FreeTxs(cfg, pl, geo, d, s);
    FreesOnDisk(cfg, pl, geo, d, s, |s|);
    WholePrefix(frees);
    WholePrefix(s);
    var d1 := AfterAll(frees, d);
    InodeAtParts(pl, d, ino);
    var ib := InodeAt(pl, d1, ino);
    CutInodeFile(pl, ib, ino, newSize, now);
    InodeOnDisk(pl, geo, d1, ino, CutInode(pl, ib, ino, newSize, |s|, now));
  }

  /** After the first `k` of them the volume is at stage `k` of the truncation. */
  lemma TruncateOnDisk(cfg: B.Config, pl: Places, geo: Geometry, d: Volume1024, ino: nat, newSize: nat, now: Word, k: nat)
    requires CanTruncate(pl, geo, d, ino, newSize)
    requires k <= T.Transactions(VolumeAt(pl, d).files[ino], newSize)
    ensures var txs, d' := TruncateTxs(cfg, pl, geo, d, ino, newSize, now), AfterAll(TruncateTxs(cfg, pl, geo, d, ino, newSize, now)[..k], d);
            && DiskOk(pl, geo, d') && VolumeAt(pl, d') == T.Partly(pl.lay, VolumeAt(pl, d), ino, newSize, k)
            && (k < |txs| ==> ValidTx(geo, |d|, txs[k]))
  {
    hide InodesOk, Readable, PlacesOk, VolumeAt, ValidTx, InodeAt, Freed, LastTx, FreeTxs, T.AllInRange, T.ReleaseAll, After, AfterAll,
         T.Cut, T.Partly;
    var s := FreedOf(pl, d, ino, newSize);
    var frees, last := FreeTxs(cfg, pl, geo, d, s), LastTx(cfg, pl, geo, d, ino, newSize, now);
    var txs := TruncateTxs(cfg, pl, geo, d, ino, newSize, now);
    LastOnDisk(cfg, pl, geo, d, ino, newSize, now);
    SuperblockIsOne(pl, geo, |d|);
    if k <= |s| {
      FreesOnDisk(cfg, pl, geo, d, s, k);
      assert txs[..k] == frees[..k];
      T.Stages(pl.lay, VolumeAt(pl, d), ino, newSize, k);
    } else {
      T.Stages(pl.lay, VolumeAt(pl, d), ino, newSize, |s|);
      assert txs[..k] == frees + [last];
      AfterAllConcat(frees, [last], d);
      AfterAllOne(last, AfterAll(frees, d));
    }
  }

  lemma AfterAllOne<T>(tx: Tx<T>, d: Disk<T>)
    ensures AfterAll([tx], d) == After(tx, d)
  {
    assert [tx][1..] == [];
    assert AfterAll([tx], d) == AfterAll([], After(tx, d));
  }

  lemma InodeAtParts(pl: Places, d: Volume1024, ino: nat)
    requires Readable(pl, d) && InodesOk(pl, d) && ino in pl.inodes
    ensures InodeOk(InodeAt(pl, d, ino)) && VolumeAt(pl, d).files[ino] == FileOf(InodeAt(pl, d, ino))
  {
    VolumeParts(pl, d, ino);
  }

  /** Truncation under crashes: whichever of all its block writes is the last to reach the
      device, and however recovery is interrupted, the volume found at the next mount is at
      the stage of the truncation that the landed transactions reach: counts right, and
      exactly the blocks freed so far free. */
  lemma TruncateIsStaged(cfg: B.Config, pl: Places, geo: Geometry, d: Volume1024, ino: nat, newSize: nat, now: Word,
                         budget: nat, mounts: seq<nat>)
    requires |cfg.uuid| == 16 && CanTruncate(pl, geo, d, ino, newSize) && Consistent(pl.lay, VolumeAt(pl, d))
    requires WellPlaced(geo, |d|)
    requires Takes(J.JournalFormat(cfg), geo, d, J.JsbSequence(Jsb(geo, d)), T.Transactions(VolumeAt(pl, d).files[ino], newSize))
    ensures var fmt, v, txs := J.JournalFormat(cfg), VolumeAt(pl, d), TruncateTxs(cfg, pl, geo, d, ino, newSize, now);
            var found := AfterRound(fmt, geo, d, Round(txs, budget, mounts));
            var k := Landed(txs, budget);
            && DiskOk(pl, geo, found)
            && VolumeAt(pl, found) == T.Partly(pl.lay, v, ino, newSize, k)
            && CountsAgree(pl.lay, VolumeAt(pl, found))
            && J.JsbStart(Jsb(geo, found)) == 0 && !J.Recover(found[geo.sbBlock])
  {
    hide InodesOk, Readable, PlacesOk, VolumeAt, Freed, T.AllInRange, T.ReleaseAll, AfterAll, T.Cut, T.Partly, TruncateTxs, Consistent,
         CanTruncate, Takes, ShowsAll, Lawful, AfterRound, ValidTx, J.JsbStart, J.Recover, CountsAgree;
    var fmt, txs := J.JournalFormat(cfg), TruncateTxs(cfg, pl, geo, d, ino, newSize, now);
    J.JournalFormatIsLawful(cfg);
    CanFacts(pl, geo, d, ino, newSize);
    var r := Round(txs, budget, mounts);
    forall i | 0 <= i < |txs| ensures ValidTx(geo, |d|, txs[i]) {
      TruncateOnDisk(cfg, pl, geo, d, ino, newSize, now, i);
    }
    RoundOf(fmt, geo, d, r);
    var k := Landed(txs, budget);
    TruncateOnDisk(cfg, pl, geo, d, ino, newSize, now, k);
    ShownVolume(cfg, pl, geo, d, txs[..k], AfterRound(fmt, geo, d, r));
    StageCounts(pl, d, ino, newSize, k);
  }

  lemma CanFacts(pl: Places, geo: Geometry, d: Volume1024, ino: nat, newSize: nat)
    requires CanTruncate(pl, geo, d, ino, newSize)
    ensures DiskOk(pl, geo, d) && ino in pl.inodes && geo.sbBlock == SB && pl.lay.perGroup > 0
    ensures T.AllInRange(pl.lay, |pl.bitmaps|, FreedOf(pl, d, ino, newSize))
  {
  }

  lemma StageCounts(pl: Places, d: Volume1024, ino: nat, newSize: nat, k: nat)
    requires Readable(pl, d) && InodesOk(pl, d) && ino in pl.inodes && Consistent(pl.lay, VolumeAt(pl, d))
    requires k <= T.Transactions(VolumeAt(pl, d).files[ino], newSize)
    requires T.AllInRange(pl.lay, |pl.bitmaps|, FreedOf(pl, d, ino, newSize))
    ensures CountsAgree(pl.lay, T.Partly(pl.lay, VolumeAt(pl, d), ino, newSize, k))
  {
    hide VolumeAt, Freed, T.AllInRange, T.Truncated, T.AfterFrees, FilesOk, MappedUsed, NoAlias, MetaUsed, CountsAgree;
    var v := VolumeAt(pl, d);
    if k == T.Transactions(v.files[ino], newSize) {
      T.TruncateIsExact(pl.lay, v, ino, newSize);
    } else {
      T.CutTruncateIsSafe(pl.lay, v, ino, T.BlockCount(newSize), k);
    }
  }
}
