/** `ext4_file_truncate` as it runs: one transaction for each block it frees, each built from
    what the one before left, then the inode with its cut extent table. */
module Truncater {
  import opened Words
  import opened Bytes
  import opened LogFormat
  import opened LogWalk
  import opened Programs
  import opened Recovery
  import opened Commit
  import opened CrashSafety
  import opened Runs
  import opened Extents
  import opened Bitmaps
  import opened Volumes
  import opened SmallBlocks
  import opened VolumeOnDisk
  import opened VolumeSafety
  import opened Journal
  import opened Buffers
  import opened Allocator
  import T = Truncation
  import B = ByteFormat
  import J = Superblocks

  // ---------------------------------------------------------------- freeing one block

  /** The three blocks that free a block, in scratch buffers. */
  method BuildFree(fs: Mounted<B.Block>, ghost d: Volume1024, cfg: B.Config, pl: Places, g: nat, bit: nat) returns (tx: Tx<B.Block>)
    requires Sees(fs, d) && Readable(pl, d) && g < |pl.bitmaps| && bit < pl.lay.perGroup
    ensures Sees(fs, d) && |tx| == 3 && tx == FreeTx(cfg, pl, d, g, bit)
  {
    hide Sees, SetBit, DescEdit, WithFree, FreeAt, CountAt, BitsOf, FreeMore;
    var descs, bitmap, super := new Byte[SIZE], new Byte[SIZE], new Byte[SIZE];
    Load(fs, d, DESCS, descs);
    Load(fs, d, pl.bitmaps[g], bitmap);
    PutBit(bitmap, bit, false);
    EditDescs(descs, pl, g, false, bitmap);
    Load(fs, d, SB, super);
    EditSuper(super, cfg, pl.lay.wide, FreeMore(pl.lay, FreeAt(super[..], pl.lay.wide)));
    tx := [BlockWrite(pl.bitmaps[g], bitmap[..]), BlockWrite(DESCS, descs[..]), BlockWrite(SB, super[..])];
  }

  /** Frees one data block: its bit, its group's count and the superblock's, in one
      transaction. */
  method FreeOneBlock(fs: Mounted<B.Block>, ghost d: Volume1024, cfg: B.Config, pl: Places, n: nat) returns (rc: int)
    requires Sees(fs, d) && WellPlaced(fs.geo, |d|) && DiskOk(pl, fs.geo, d) && fs.geo.first + 7 <= fs.geo.maxlen
    requires InRange(pl.lay, |pl.bitmaps|, n)
    modifies fs, fs.dev
    ensures fs.Valid()
    ensures !fs.dev.writable || old(fs.start) != 0 ==>
              rc < 0 && fs.dev.blocks == old(fs.dev.blocks) && fs.dev.writesLeft == old(fs.dev.writesLeft)
    ensures fs.dev.writable && old(fs.start) == 0 ==>
              && d == old(fs.dev.blocks) && GroupOf(pl.lay, n) < |pl.bitmaps| && BitOf(pl.lay, n) < pl.lay.perGroup
              && var run := Run(fs.fmt, fs.geo, d, old(fs.dev.writesLeft),
                                CommitProgram(fs.fmt, fs.geo, old(fs.sequence),
                                              FreeTx(cfg, pl, d, GroupOf(pl.lay, n), BitOf(pl.lay, n))));
                 && fs.dev.blocks == run.disk && fs.dev.writesLeft == run.budget
                 && (rc == 0 <==> run.ending == Finished(0))
                 && (rc == 0 ==> fs.start == 0 && !fs.replayActive && fs.sequence == Plus(old(fs.sequence), 1))
  {
    hide CommitProgram, Run, FreeTx, GroupOf, BitOf, WellPlaced, PlacesOk, InodesOk, Address, ReadThrough;
    if fs.start == 0 { SeesDisk(fs, d); }
    SuperblockIsOne(pl, fs.geo, |d|);
    PartsAddress(pl.lay, |pl.bitmaps|, n);
    var tx := BuildFree(fs, d, cfg, pl, GroupOf(pl.lay, n), BitOf(pl.lay, n));
    rc := fs.Commit(tx);
  }

  // ---------------------------------------------------------------- the session so far

  /** The disk after the first `k` blocks of `s` are freed, and the transaction for the
      next. */
  lemma {:induction false} FreeTxsAt(cfg: B.Config, pl: Places, geo: Geometry, d: Volume1024, s: seq<nat>, k: nat)
    requires DiskOk(pl, geo, d) && geo.first + 7 <= geo.maxlen && T.AllInRange(pl.lay, |pl.bitmaps|, s) && k < |s|
    ensures InRange(pl.lay, |pl.bitmaps|, s[k]) && GroupOf(pl.lay, s[k]) < |pl.bitmaps| && BitOf(pl.lay, s[k]) < pl.lay.perGroup
    ensures var txs := FreeTxs(cfg, pl, geo, d, s);
            var dk := AfterAll(txs[..k], d);
            && DiskOk(pl, geo, dk) && ValidTx(geo, |d|, txs[k])
            && txs[k] == FreeTx(cfg, pl, dk, GroupOf(pl.lay, s[k]), BitOf(pl.lay, s[k]))
            && AfterAll(txs[..k + 1], d) == After(txs[k], dk)
    decreases |s|
  {
    hide After, FreeTx, InodesOk, Readable, PlacesOk, VolumeAt, GroupOf, BitOf, Release, ValidTx, InodeAt;
    var txs := FreeTxs(cfg, pl, geo, d, s);
    FreesOnDisk(cfg, pl, geo, d, s, k);
    FreeOnDisk(cfg, pl, geo, d, s[0]);
    var tx := FreeTx(cfg, pl, d, GroupOf(pl.lay, s[0]), BitOf(pl.lay, s[0]));
    AfterSize(tx, d);
    if k == 0 {
      AfterAllOne(tx, d);
      assert txs[..0] == [] && txs[..1] == [tx];
    } else {
      FreeTxsAt(cfg, pl, geo, After(tx, d), s[1..], k - 1);
      assert txs[..k][1..] == txs[1..][..k - 1] && txs[..k + 1][1..] == txs[1..][..k];
    }
  }

  /** A disk that agrees with that outside the journal gives the same transaction. */
  lemma NextFree(cfg: B.Config, pl: Places, geo: Geometry, d: Volume1024, s: seq<nat>, k: nat, e: Volume1024)
    requires DiskOk(pl, geo, d) && geo.first + 7 <= geo.maxlen && T.AllInRange(pl.lay, |pl.bitmaps|, s) && k < |s|
    requires SameHomes(geo, e, AfterAll(FreeTxs(cfg, pl, geo, d, s)[..k], d))
    ensures DiskOk(pl, geo, e)
    ensures InRange(pl.lay, |pl.bitmaps|, s[k]) && GroupOf(pl.lay, s[k]) < |pl.bitmaps| && BitOf(pl.lay, s[k]) < pl.lay.perGroup
    ensures var tx := FreeTx(cfg, pl, e, GroupOf(pl.lay, s[k]), BitOf(pl.lay, s[k]));
            && tx == FreeTxs(cfg, pl, geo, d, s)[k] && ValidTx(geo, |d|, tx)
            && SameHomes(geo, After(tx, e), AfterAll(FreeTxs(cfg, pl, geo, d, s)[..k + 1], d))
            && (!J.Recover(e[SB]) ==> J.SetRecover(cfg, After(tx, e)[SB], false) == After(tx, e)[SB])
  {
    hide FreeTx, InodesOk, Readable, PlacesOk, GroupOf, BitOf, ValidTx, SameHomes, FreeTxs, After, AfterAll, WithFree, FreeAt,
         BitmapEdit, CountEdit, J.SetRecover, J.Recover;
    SuperblockIsOne(pl, geo, |d|);
    FreeTxsAt(cfg, pl, geo, d, s, k);
    var g, bit := GroupOf(pl.lay, s[k]), BitOf(pl.lay, s[k]);
    var dk := AfterAll(FreeTxs(cfg, pl, geo, d, s)[..k], d);
    SameFreeTx(cfg, pl, geo, dk, e, g, bit);
    var tx := FreeTx(cfg, pl, e, g, bit);
    SameHomesThen(geo, e, dk, tx);
    HomesDescribe(pl, geo, dk, e);
    SuperblockIs(pl, geo, e);
    if !J.Recover(e[SB]) {
      FreedBlocks(cfg, pl, geo, e, g, bit);
      CountedIsSettled(cfg, e[SB], pl.lay.wide, FreeMore(pl.lay, FreeAt(e[SB], pl.lay.wide)));
    }
  }

  lemma SuperblockIs(pl: Places, geo: Geometry, e: Volume1024)
    requires DiskOk(pl, geo, e)
    ensures geo.sbBlock == SB && Whole(e, SB)
  {
  }

  lemma FormatRecover(cfg: B.Config, b: B.Block)
    ensures J.JournalFormat(cfg).Settled(b) == J.SetRecover(cfg, b, false) && J.JournalFormat(cfg).recover(b) == J.Recover(b)
  {
  }

  /** What its finished commit leaves. */
  lemma FreeLeaves(cfg: B.Config, pl: Places, geo: Geometry, d: Volume1024, s: seq<nat>, k: nat, e: Volume1024,
                   q: Word, left: int, tx: Tx<B.Block>)
    requires |cfg.uuid| == 16 && WellPlaced(geo, |d|)
    requires DiskOk(pl, geo, d) && geo.first + 7 <= geo.maxlen && T.AllInRange(pl.lay, |pl.bitmaps|, s) && k < |s|
    requires SameHomes(geo, e, AfterAll(FreeTxs(cfg, pl, geo, d, s)[..k], d)) && tx == FreeTxs(cfg, pl, geo, d, s)[k]
    requires Takes(J.JournalFormat(cfg), geo, e, q, |s| + 1 - k) && SB < |e| && !J.Recover(e[SB])
    requires Run(J.JournalFormat(cfg), geo, e, left, CommitProgram(J.JournalFormat(cfg), geo, q, tx)).ending == Finished(0)
    ensures var d1 := Run(J.JournalFormat(cfg), geo, e, left, CommitProgram(J.JournalFormat(cfg), geo, q, tx)).disk;
            && SameHomes(geo, d1, AfterAll(FreeTxs(cfg, pl, geo, d, s)[..k + 1], d))
            && Takes(J.JournalFormat(cfg), geo, d1, Plus(q, 1), |s| - k) && !J.Recover(d1[SB])
  {
    hide CommitProgram, Run, FreeTx, GroupOf, BitOf, WellPlaced, Takes, FreeTxs, AfterAll, J.JournalFormat, Lawful, ValidTx,
         J.Recover, After, DiskOk, J.SetRecover;
    var fmt := J.JournalFormat(cfg);
    NextFree(cfg, pl, geo, d, s, k, e);
    SuperblockIs(pl, geo, e);
    J.JournalFormatIsLawful(cfg);
    FormatRecover(cfg, After(tx, e)[SB]);
    CommitLeaves(fmt, geo, e, q, tx, left, |s| + 1 - k);
    var d1 := Run(fmt, geo, e, left, CommitProgram(fmt, geo, q, tx)).disk;
    FormatRecover(cfg, d1[SB]);
    SameHomesTrans(geo, d1, After(tx, e), AfterAll(FreeTxs(cfg, pl, geo, d, s)[..k + 1], d));
  }

  /** One commit of a session, and the rest. */
  lemma SessionStep<X>(fmt: Format<X>, geo: Geometry, d: Disk<X>, left: int, q: Word, txs: seq<Tx<X>>, k: nat)
    requires k < |txs|
    ensures var first := Run(fmt, geo, d, left, CommitProgram(fmt, geo, q, txs[k]));
            Run(fmt, geo, d, left, SessionProgram(fmt, geo, q, txs[k..]))
            == if first.ending == Finished(0) then Run(fmt, geo, first.disk, first.budget, SessionProgram(fmt, geo, Plus(q, 1), txs[k + 1..]))
               else first
  {
    hide CommitProgram, Run;
    assert txs[k..][0] == txs[k] && txs[k..][1..] == txs[k + 1..];
    RunAndThen(fmt, geo, d, left, CommitProgram(fmt, geo, q, txs[k]), SessionProgram(fmt, geo, Plus(q, 1), txs[k + 1..]));
  }

  ghost predicate CanCommit(fs: Mounted<B.Block>)
    reads fs
  {
    fs.dev.writable && fs.start == 0
  }

  /** What reads show: the device itself, unless the journal is unfinished. */
  ghost function Shown(fs: Mounted<B.Block>, d: Volume1024): Volume1024
    reads fs, fs.dev
  {
    if CanCommit(fs) then fs.dev.blocks else d
  }

  /** The blocks `s` of `d` are being freed and the first `k` are. What the rest of the session
      does from here is what the whole session does. If the first commit cannot but fail,
      nothing has happened yet. */
  ghost predicate Underway(fs: Mounted<B.Block>, cfg: B.Config, pl: Places, d: Volume1024, s: seq<nat>, last: Tx<B.Block>, k: nat,
                           whole: Outcome<B.Block>)
    reads fs, fs.dev
    requires DiskOk(pl, fs.geo, d) && fs.geo.first + 7 <= fs.geo.maxlen && T.AllInRange(pl.lay, |pl.bitmaps|, s)
  {
    && WellPlaced(fs.geo, |d|) && fs.fmt == J.JournalFormat(cfg) && k <= |s|
    && Sees(fs, Shown(fs, d)) && SameHomes(fs.geo, Shown(fs, d), AfterAll(FreeTxs(cfg, pl, fs.geo, d, s)[..k], d))
    && SB < |d| == |fs.dev.blocks|
    && var txs := FreeTxs(cfg, pl, fs.geo, d, s) + [last];
       if CanCommit(fs) then
         && !J.Recover(fs.dev.blocks[SB]) && Takes(fs.fmt, fs.geo, fs.dev.blocks, fs.sequence, |txs| - k)
         && whole == Run(fs.fmt, fs.geo, fs.dev.blocks, fs.dev.writesLeft, SessionProgram(fs.fmt, fs.geo, fs.sequence, txs[k..]))
       else
         k == 0 && whole == Outcome(fs.dev.blocks, fs.dev.writesLeft, IoError)
  }

  /** The session is over before its end. */
  ghost predicate Failed(fs: Mounted<B.Block>, whole: Outcome<B.Block>)
    reads fs, fs.dev
  {
    fs.Valid() && fs.dev.blocks == whole.disk && fs.dev.writesLeft == whole.budget && whole.ending != Finished(0)
  }

  lemma DiskIsSeen(fs: Mounted<B.Block>)
    requires fs.Valid() && !fs.replayActive && WellPlaced(fs.geo, |fs.dev.blocks|)
    ensures Sees(fs, fs.dev.blocks)
  {
    forall n: nat | n < |fs.dev.blocks|
      ensures ReadThrough(fs.fmt, fs.geo, fs.dev.blocks, map[], n) == Some(fs.dev.blocks[n])
    {
      HomeIsNotTruncated(fs.geo, |fs.dev.blocks|, n);
    }
  }

  /** Frees the next block of the list. */
  method FreeNext(fs: Mounted<B.Block>, cfg: B.Config, pl: Places, ghost d: Volume1024, ghost s: seq<nat>, ghost last: Tx<B.Block>,
                  ghost k: nat, n: nat, ghost whole: Outcome<B.Block>) returns (rc: int)
    requires |cfg.uuid| == 16
    requires DiskOk(pl, fs.geo, d) && fs.geo.first + 7 <= fs.geo.maxlen && T.AllInRange(pl.lay, |pl.bitmaps|, s)
    requires Underway(fs, cfg, pl, d, s, last, k, whole) && k < |s| && n == s[k]
    modifies fs, fs.dev
    ensures rc == 0 ==> Underway(fs, cfg, pl, d, s, last, k + 1, whole)
    ensures rc != 0 ==> Failed(fs, whole)
  {
    hide CommitProgram, Run, FreeTx, GroupOf, BitOf, InRange, WellPlaced, DiskOk, SameHomes, Takes, SessionProgram, FreeTxs, AfterAll,
         J.JournalFormat, ValidTx, J.Recover, Sees, After;
    ghost var e, q, left := Shown(fs, d), fs.sequence, fs.dev.writesLeft;
    ghost var txs := FreeTxs(cfg, pl, fs.geo, d, s) + [last];
    ghost var can := CanCommit(fs);
    NextFree(cfg, pl, fs.geo, d, s, k, e);
    rc := FreeOneBlock(fs, e, cfg, pl, n);
    if can {
      SessionStep(fs.fmt, fs.geo, e, left, q, txs, k);
      if rc == 0 {
        FreeLeaves(cfg, pl, fs.geo, d, s, k, e, q, left, txs[k]);
        DiskIsSeen(fs);
      }
    }
  }

  lemma {:induction false} DownAt(start: nat, k: nat, i: nat)
    requires i < k
    ensures |Down(start, k)| == k && Down(start, k)[i] == start + (k - 1 - i)
  {
    DownHolds(start, k, 0);
    DownHolds(start, k - 1, 0);
    if i > 0 {
      DownAt(start, k - 1, i - 1);
    }
  }

  /** Frees blocks `start + count - 1` down to `start`, which are the next of the list. */
  method FreeRun(fs: Mounted<B.Block>, cfg: B.Config, pl: Places, ghost d: Volume1024, ghost s: seq<nat>, ghost last: Tx<B.Block>,
                 ghost k: nat, start: nat, count: nat, ghost whole: Outcome<B.Block>) returns (rc: int)
    requires |cfg.uuid| == 16
    requires DiskOk(pl, fs.geo, d) && fs.geo.first + 7 <= fs.geo.maxlen && T.AllInRange(pl.lay, |pl.bitmaps|, s)
    requires Underway(fs, cfg, pl, d, s, last, k, whole) && k + count <= |s| && s[k..k + count] == Down(start, count)
    modifies fs, fs.dev
    ensures rc == 0 ==> Underway(fs, cfg, pl, d, s, last, k + count, whole)
    ensures rc != 0 ==> Failed(fs, whole)
  {
    hide Underway, Down, DiskOk, T.AllInRange, Failed;
    var bi := 0;
    while bi < count
      invariant 0 <= bi <= count && Underway(fs, cfg, pl, d, s, last, k + bi, whole)
    {
      DownAt(start, count, bi);
      assert s[k + bi] == s[k..k + count][bi];
      rc := FreeNext(fs, cfg, pl, d, s, last, k + bi, start + (count - 1 - bi), whole);
      if rc != 0 { return; }
      bi := bi + 1;
    }
    rc := 0;
  }

  // ---------------------------------------------------------------- the reverse walk

  /** The walk over the extents has reached entry `ei` from the top: `kept` entries of the
      edited table `iblk` remain so far, and `s` are the blocks freed. Either only whole
      extents were dropped, or the last one looked at was shortened. */
  ghost predicate Walked(leaf: Leaf, nbc: Word, iblk: Leaf, ei: nat, kept: int, s: seq<nat>) {
    && ei <= |leaf| == |iblk|
    && iblk[..ei] == leaf[..ei]
    && if kept == ei then
         Kept(leaf, nbc) == Kept(leaf[..ei], nbc) && Freed(leaf, nbc) == s + Freed(leaf[..ei], nbc)
       else
         && kept == ei + 1 && ei < |leaf|
         && Kept(leaf, nbc) == leaf[..ei] + [iblk[ei]] && Freed(leaf, nbc) == s
         && (ei > 0 ==> leaf[ei - 1].logical + leaf[ei - 1].len <= nbc)
  }

  lemma WalkStart(leaf: Leaf, nbc: Word)
    ensures Walked(leaf, nbc, leaf, |leaf|, |leaf|, [])
  {
    assert leaf[..|leaf|] == leaf;
  }

  lemma WalkAt(leaf: Leaf, nbc: Word, iblk: Leaf, ei: nat, kept: int, s: seq<nat>)
    requires Ordered(leaf) && Walked(leaf, nbc, iblk, ei, kept, s) && ei > 0
    ensures iblk[ei - 1] == leaf[ei - 1] && Initialised(leaf[ei - 1]) && ei <= |iblk| == |leaf|
  {
    assert iblk[..ei][ei - 1] == leaf[..ei][ei - 1];
  }

  lemma DropStep(leaf: Leaf, nbc: Word, iblk: Leaf, ei: nat, kept: int, s: seq<nat>)
    requires Ordered(leaf) && Walked(leaf, nbc, iblk, ei, kept, s) && ei > 0 && leaf[ei - 1].logical >= nbc
    ensures var e := leaf[ei - 1];
            Walked(leaf, nbc, iblk[ei - 1 := Extent(0, 0, 0)], ei - 1, kept - 1, s + Down(e.start, e.len))
  {
    hide Down;
    assert leaf[..ei][..ei - 1] == leaf[..ei - 1];
    assert iblk[ei - 1 := Extent(0, 0, 0)][..ei - 1] == iblk[..ei][..ei - 1];
  }

  lemma ShrinkStep(leaf: Leaf, nbc: Word, iblk: Leaf, ei: nat, kept: int, s: seq<nat>)
    requires Ordered(leaf) && Walked(leaf, nbc, iblk, ei, kept, s) && ei > 0
    requires var e := leaf[ei - 1]; e.logical < nbc < e.logical + e.len
    ensures var e := leaf[ei - 1];
            var k := nbc - e.logical;
            Walked(leaf, nbc, iblk[ei - 1 := e.(len := k)], ei - 1, kept, s + Down(e.start + k, e.len - k))
  {
    hide Down;
    var e := leaf[ei - 1];
    var short := e.(len := nbc - e.logical);
    assert leaf[..ei][ei - 1 := short] == leaf[..ei - 1] + [short];
    assert iblk[ei - 1 := short][..ei - 1] == iblk[..ei][..ei - 1];
  }

  lemma WalkEnd(leaf: Leaf, nbc: Word, iblk: Leaf, ei: nat, kept: int, s: seq<nat>)
    requires Ordered(leaf) && Walked(leaf, nbc, iblk, ei, kept, s)
    requires ei > 0 ==> leaf[ei - 1].logical + leaf[ei - 1].len <= nbc
    ensures 0 <= kept <= |iblk| && Kept(leaf, nbc) == iblk[..kept] && Freed(leaf, nbc) == s
  {
    if kept == ei {
      if ei > 0 {
        assert leaf[..ei][ei - 1] == leaf[ei - 1];
      }
      assert Kept(leaf[..ei], nbc) == leaf[..ei];
    } else {
      assert iblk[..kept] == iblk[..ei] + [iblk[ei]];
    }
  }

  /** The blocks freed so far are a prefix of all of them. */
  lemma WalkPrefix(leaf: Leaf, nbc: Word, iblk: Leaf, ei: nat, kept: int, s: seq<nat>)
    requires Walked(leaf, nbc, iblk, ei, kept, s)
    ensures s <= Freed(leaf, nbc)
  {
  }

  /** Entries below the boundary end the walk. */
  lemma CutStops(ib: Inode, nbc: Word, n: nat)
    requires n <= MAX_EXTENTS
    requires n > 0 ==> ExtentAt(ib, n - 1).logical < nbc && Plus(ExtentAt(ib, n - 1).logical, ExtentAt(ib, n - 1).len) <= nbc
    ensures CutEntries(ib, nbc, n) == ib
  {
  }

  /** The walk has reached entry `ei` of the copied inode `now`, which was `ib`. */
  ghost predicate CopyWalked(ib: Inode, now: Inode, nbc: Word, ei: nat) {
    && InodeOk(ib) && |now| == |ib| && ei <= Le16(ib, ENTRIES)
    && CutEntries(ib, nbc, Le16(ib, ENTRIES)) == CutEntries(now, nbc, ei)
    && ExtentsOf(now, ei) == FileOf(ib).leaf[..ei]
  }

  lemma CopyStart(ib: Inode, nbc: Word)
    requires InodeOk(ib)
    ensures CopyWalked(ib, ib, nbc, Le16(ib, ENTRIES)) && |FileOf(ib).leaf| == Le16(ib, ENTRIES)
  {
    hide ExtentAt, Le16, Le32;
    assert FileOf(ib).leaf[..Le16(ib, ENTRIES)] == ExtentsOf(ib, Le16(ib, ENTRIES));
  }

  lemma CopyAt(ib: Inode, now: Inode, nbc: Word, ei: nat)
    requires CopyWalked(ib, now, nbc, ei) && ei > 0
    ensures |FileOf(ib).leaf| == Le16(ib, ENTRIES) && ExtentAt(now, ei - 1) == FileOf(ib).leaf[ei - 1]
  {
    hide Le16, Le32, CutEntries;
    EntriesOf(ib);
    ExtentsInit(now, ei);
    assert FileOf(ib).leaf[..ei][ei - 1] == FileOf(ib).leaf[ei - 1];
  }

  lemma CopyFront(ib: Inode, now: Inode, nbc: Word, ei: nat, next: Inode)
    requires CopyWalked(ib, now, nbc, ei) && ei > 0 && |next| == |now|
    requires forall k :: FIRST_EXTENT <= k < FIRST_EXTENT + 12 * (ei - 1) ==> next[k] == now[k]
    ensures ExtentsOf(next, ei - 1) == FileOf(ib).leaf[..ei - 1]
  {
    hide Le16, Le32, CutEntries, ExtentAt;
    EntriesOf(ib);
    SameExtents(now, next, ei - 1);
    ExtentsInit(now, ei);
    assert FileOf(ib).leaf[..ei][..ei - 1] == FileOf(ib).leaf[..ei - 1];
  }

  lemma CopyDrop(ib: Inode, now: Inode, nbc: Word, ei: nat)
    requires CopyWalked(ib, now, nbc, ei) && ei > 0 && FileOf(ib).leaf[ei - 1].logical >= nbc
    ensures CopyWalked(ib, Patch(now, FIRST_EXTENT + 12 * (ei - 1), Zeros(12)), nbc, ei - 1)
  {
    hide Le16, Le32, ExtentAt, FileOf;
    CopyAt(ib, now, nbc, ei);
    CopyFront(ib, now, nbc, ei, Patch(now, FIRST_EXTENT + 12 * (ei - 1), Zeros(12)));
  }

  lemma CopyShrink(ib: Inode, now: Inode, nbc: Word, ei: nat)
    requires CopyWalked(ib, now, nbc, ei) && ei > 0 && Ordered(FileOf(ib).leaf)
    requires var e := FileOf(ib).leaf[ei - 1]; e.logical < nbc < e.logical + e.len
    ensures var shrunk := (nbc - FileOf(ib).leaf[ei - 1].logical) % 0x1_0000;
            CopyWalked(ib, Patch(now, FIRST_EXTENT + 12 * (ei - 1) + 4, PackLittle16(shrunk)), nbc, ei - 1)
  {
    hide Le16, Le32, ExtentAt, FileOf, PackLittle16;
    CopyAt(ib, now, nbc, ei);
    var leaf := FileOf(ib).leaf;
    var next := Patch(now, FIRST_EXTENT + 12 * (ei - 1) + 4, PackLittle16((nbc - leaf[ei - 1].logical) % 0x1_0000));
    CopyFront(ib, now, nbc, ei, next);
    if ei > 1 {
      ExtentsInit(next, ei - 1);
      assert leaf[..ei - 1][ei - 2] == leaf[ei - 2];
    }
    CutStops(next, nbc, ei - 1);
  }

  lemma CopyEnd(ib: Inode, now: Inode, nbc: Word, ei: nat)
    requires CopyWalked(ib, now, nbc, ei) && Ordered(FileOf(ib).leaf)
    requires ei > 0 ==> FileOf(ib).leaf[ei - 1].logical + FileOf(ib).leaf[ei - 1].len <= nbc
    ensures now == CutEntries(ib, nbc, Le16(ib, ENTRIES))
  {
    hide Le16, Le32, ExtentAt, FileOf;
    if ei > 0 { CopyAt(ib, now, nbc, ei); }
    EntriesOf(ib);
    CutStops(now, nbc, ei);
  }

  lemma NextInList(s: seq<nat>, a: seq<nat>, run: seq<nat>)
    requires a + run <= s
    ensures |a| + |run| <= |s| && s[|a|..|a| + |run|] == run && s[..|a| + |run|] == a + run
  {
  }

  /** The reverse walk over a copy of the inode: every block at or above `nbc` is freed, and
      the table cut. */
  method FreeTail(fs: Mounted<B.Block>, cfg: B.Config, pl: Places, ghost d: Volume1024, ghost s: seq<nat>, ghost last: Tx<B.Block>,
                  copy: array<Byte>, nbc: Word, ghost whole: Outcome<B.Block>) returns (rc: int, freed: nat)
    requires |cfg.uuid| == 16 && copy.Length >= 128 && InodeOk(copy[..])
    requires Ordered(FileOf(copy[..]).leaf) && s == Freed(FileOf(copy[..]).leaf, nbc)
    requires DiskOk(pl, fs.geo, d) && fs.geo.first + 7 <= fs.geo.maxlen && T.AllInRange(pl.lay, |pl.bitmaps|, s)
    requires Underway(fs, cfg, pl, d, s, last, 0, whole)
    modifies fs, fs.dev, copy
    ensures rc == 0 ==> Underway(fs, cfg, pl, d, s, last, |s|, whole) && freed == |s| && copy[..] == WithCut(old(copy[..]), nbc)
    ensures rc != 0 ==> Failed(fs, whole)
  {
    hide Underway, DiskOk, T.AllInRange, Failed, Walked, CopyWalked, CutEntries, ExtentAt, Freed, Kept, Down, FileOf, PackLittle16, Le16,
         Patch;
    ghost var ib := copy[..];
    ghost var leaf := FileOf(ib).leaf;
    ghost var table: Leaf := leaf;
    CopyStart(ib, nbc);
    WalkStart(leaf, nbc);
    var ei: nat := Le16(copy[..], ENTRIES);
    var kept: int := ei;
    freed := 0;
    assert s[..0] == [];
    while ei > 0
      invariant 0 <= ei <= |leaf| == |table| && freed <= |s|
      invariant CopyWalked(ib, copy[..], nbc, ei) && Walked(leaf, nbc, table, ei, kept, s[..freed])
      invariant Underway(fs, cfg, pl, d, s, last, freed, whole)
    {
      CopyAt(ib, copy[..], nbc, ei);
      WalkAt(leaf, nbc, table, ei, kept, s[..freed]);
      var e, at := ExtentAt(copy[..], ei - 1), FIRST_EXTENT + 12 * (ei - 1);
      var start, count := e.start, e.len;
      if e.logical >= nbc {
        DropStep(leaf, nbc, table, ei, kept, s[..freed]);
        CopyDrop(ib, copy[..], nbc, ei);
        table := table[ei - 1 := Extent(0, 0, 0)];
        kept := kept - 1;
        Put(copy, at, Zeros(12));
      } else if Plus(e.logical, e.len) > nbc {
        ShrinkStep(leaf, nbc, table, ei, kept, s[..freed]);
        CopyShrink(ib, copy[..], nbc, ei);
        var shrunk := (nbc - e.logical) % 0x1_0000;
        table := table[ei - 1 := e.(len := shrunk)];
        Put(copy, at + 4, PackLittle16(shrunk));
        start, count := e.start + shrunk, e.len - shrunk;
      } else {
        break;
      }
      WalkPrefix(leaf, nbc, table, ei - 1, kept, s[..freed] + Down(start, count));
      DownHolds(start, count, 0);
      NextInList(s, s[..freed], Down(start, count));
      rc := FreeRun(fs, cfg, pl, d, s, last, freed, start, count, whole);
      if rc != 0 { return rc, freed; }
      freed := freed + count;
      ei := ei - 1;
    }
    CopyEnd(ib, copy[..], nbc, ei);
    WalkEnd(leaf, nbc, table, ei, kept, s[..freed]);
    FileLeaf(ib);
    Put(copy, ENTRIES, PackLittle16(kept));
    rc := 0;
  }

  lemma FileLeaf(ib: Inode)
    requires InodeOk(ib)
    ensures FileOf(ib).leaf == ExtentsOf(ib, Le16(ib, ENTRIES)) && Le16(ib, ENTRIES) <= MAX_EXTENTS
  {
  }

  // ---------------------------------------------------------------- the inode

  const IBLOCK_BYTES := 60

  /** The cut touches nothing but the 60 bytes of the extent tree. */
  lemma CutIsInTree(ib: Inode, nbc: Word)
    requires InodeOk(ib)
    ensures Patch(ib, EXTENT_MAGIC, WithCut(ib, nbc)[EXTENT_MAGIC..EXTENT_MAGIC + IBLOCK_BYTES]) == WithCut(ib, nbc)
  {
    hide ExtentAt, PackLittle16, Le16, Le32, CutEntries;
    var n := Le16(ib, ENTRIES);
    CutEntriesShape(ib, nbc, n);
    CutEntriesKeep(ib, nbc, n);
  }

  /** The inode of a truncated file, in the buffer that holds its block; `copy` is its inode
      with the table already cut. */
  method PutCutInode(a: array<Byte>, pl: Places, ino: nat, k: nat, copy: array<Byte>, newSize: nat, freed: nat, now: Word)
    requires a.Length == SIZE && a != copy && k < InodesIn(pl.inodeSize) && copy.Length == pl.inodeSize
    requires InodeOk(SlotOf(a[..], pl.inodeSize, k)) && newSize < 0x1_0000_0000_0000_0000
    requires copy[..] == WithCut(SlotOf(a[..], pl.inodeSize, k), T.BlockCount(newSize))
    modifies a
    ensures a[..] == WithInode(old(a[..]), pl.inodeSize, k,
                               CutInode(pl, old(SlotOf(a[..], pl.inodeSize, k)), ino, newSize, freed, now))
  {
    hide WithInode, SlotOf, Patch, WithSize, Touched, FileOf, Le16, Le32, WithCut;
    var size, nbc := pl.inodeSize, T.BlockCount(newSize);
    ghost var b := a[..];
    var ib := SlotOf(a[..], size, k);
    SlotHolds(b, size, k, ib);
    CutIsInTree(ib, nbc);
    assert copy[EXTENT_MAGIC..EXTENT_MAGIC + IBLOCK_BYTES] == WithCut(ib, nbc)[EXTENT_MAGIC..EXTENT_MAGIC + IBLOCK_BYTES];
    PutField(a, b, size, k, ib, EXTENT_MAGIC, copy[EXTENT_MAGIC..EXTENT_MAGIC + IBLOCK_BYTES]);
    var sectors := (FileOf(ib).sectors - SECTORS_PER_BLOCK * freed) % 0x1_0000_0000;
    PutSize(a, b, size, k, WithCut(ib, nbc), newSize, sectors);
    TouchInode(a, b, pl, k, WithSize(WithCut(ib, nbc), newSize, sectors), ino, now);
  }

  /** What the last transaction is built from. */
  lemma LastIs(cfg: B.Config, pl: Places, geo: Geometry, d: Volume1024, ino: nat, newSize: nat, now: Word, e: Volume1024)
    requires CanTruncate(pl, geo, d, ino, newSize)
    requires SameHomes(geo, e, AfterAll(FreeTxs(cfg, pl, geo, d, FreedOf(pl, d, ino, newSize)), d))
    ensures DiskOk(pl, geo, e) && InodeAt(pl, e, ino) == InodeAt(pl, d, ino) && InodeOk(InodeAt(pl, d, ino))
    ensures newSize < 0x1_0000_0000_0000_0000 && VolumeAt(pl, d).files[ino] == FileOf(InodeAt(pl, d, ino))
    ensures LastTx(cfg, pl, geo, d, ino, newSize, now)
            == InodeTx(pl, e, ino, CutInode(pl, InodeAt(pl, d, ino), ino, newSize, |FreedOf(pl, d, ino, newSize)|, now))
  {
    hide InodesOk, Readable, PlacesOk, VolumeAt, InodeAt, Freed, InodeTx, CutInode, FreeTxs, T.AllInRange, After, AfterAll, InodeOk, FileOf,
         SameHomes;
    var s := FreedOf(pl, d, ino, newSize);
    var frees := FreeTxs(cfg, pl, geo, d, s);
    InodeAtParts(pl, d, ino);
    FreesOnDisk(cfg, pl, geo, d, s, |s|);
    WholePrefix(frees);
    var d1 := AfterAll(frees, d);
    SameInodeTx(pl, geo, d1, e, ino, CutInode(pl, InodeAt(pl, d1, ino), ino, newSize, |s|, now));
  }

  /** The last transaction, in a scratch buffer. */
  method BuildLast(fs: Mounted<B.Block>, ghost e: Volume1024, pl: Places, ino: nat, newSize: nat, copy: array<Byte>, freed: nat, now: Word)
      returns (tx: Tx<B.Block>)
    requires Sees(fs, e) && Readable(pl, e) && InodesOk(pl, e) && ino in pl.inodes && newSize < 0x1_0000_0000_0000_0000
    requires copy.Length == pl.inodeSize && copy[..] == WithCut(InodeAt(pl, e, ino), T.BlockCount(newSize))
    ensures Sees(fs, e) && |tx| == 1
    ensures tx == InodeTx(pl, e, ino, CutInode(pl, InodeAt(pl, e, ino), ino, newSize, freed, now))
  {
    hide Sees, WithInode, SlotOf, CutInode, InodeOk, WithCut;
    var (t, k) := pl.inodes[ino];
    var table := new Byte[SIZE];
    Load(fs, e, t, table);
    PutCutInode(table, pl, ino, k, copy, newSize, freed, now);
    tx := [BlockWrite(t, table[..])];
  }

  /** A copy of an inode's bytes. */
  method CopyInode(fs: Mounted<B.Block>, ghost d: Volume1024, pl: Places, ino: nat) returns (copy: array<Byte>)
    requires Sees(fs, d) && Readable(pl, d) && InodesOk(pl, d) && ino in pl.inodes
    ensures Sees(fs, d) && fresh(copy) && copy[..] == InodeAt(pl, d, ino)
  {
    hide Sees, InodeOk;
    var (t, k) := pl.inodes[ino];
    SlotFits(pl.inodeSize, k);
    var table := new Byte[SIZE];
    Load(fs, d, t, table);
    copy := new Byte[pl.inodeSize];
    Put(copy, 0, table[SlotAt(pl.inodeSize, k)..SlotAt(pl.inodeSize, k) + pl.inodeSize]);
  }

  // ---------------------------------------------------------------- the whole call

  /** What a truncation does to the device: its session, or nothing when the first commit
      cannot but fail. */
  ghost function WholeSession(fs: Mounted<B.Block>, cfg: B.Config, pl: Places, d: Volume1024, ino: nat, newSize: nat, now: Word)
      : Outcome<B.Block>
    reads fs, fs.dev
    requires CanTruncate(pl, fs.geo, d, ino, newSize)
  {
    if CanCommit(fs) then
      Run(fs.fmt, fs.geo, fs.dev.blocks, fs.dev.writesLeft,
          SessionProgram(fs.fmt, fs.geo, fs.sequence, TruncateTxs(cfg, pl, fs.geo, d, ino, newSize, now)))
    else Outcome(fs.dev.blocks, fs.dev.writesLeft, IoError)
  }

  /** The journal is fit for the transactions of a truncation. */
  ghost predicate FitToTruncate(fs: Mounted<B.Block>, cfg: B.Config, pl: Places, d: Volume1024, ino: nat, newSize: nat)
    reads fs, fs.dev
  {
    && |cfg.uuid| == 16 && fs.fmt == J.JournalFormat(cfg) && Sees(fs, d) && WellPlaced(fs.geo, |d|)
    && CanTruncate(pl, fs.geo, d, ino, newSize) && Ordered(VolumeAt(pl, d).files[ino].leaf)
    && (CanCommit(fs) ==>
          !J.Recover(d[SB]) && Takes(fs.fmt, fs.geo, d, fs.sequence, T.Transactions(VolumeAt(pl, d).files[ino], newSize)))
  }

  lemma Begin(fs: Mounted<B.Block>, cfg: B.Config, pl: Places, d: Volume1024, ino: nat, newSize: nat, now: Word)
    requires FitToTruncate(fs, cfg, pl, d, ino, newSize)
    ensures DiskOk(pl, fs.geo, d) && fs.geo.first + 7 <= fs.geo.maxlen
    ensures var s := FreedOf(pl, d, ino, newSize);
            && T.AllInRange(pl.lay, |pl.bitmaps|, s)
            && Underway(fs, cfg, pl, d, s, LastTx(cfg, pl, fs.geo, d, ino, newSize, now), 0,
                        WholeSession(fs, cfg, pl, d, ino, newSize, now))
  {
    hide PlacesOk, Readable, InodesOk, T.AllInRange, LastTx, FreeTxs, Run, SessionProgram, Takes, VolumeAt, Freed, ReadThrough, WellPlaced;
    SuperblockIs(pl, fs.geo, d);
    if fs.start == 0 { SeesDisk(fs, d); }
    var s := FreedOf(pl, d, ino, newSize);
    var txs := FreeTxs(cfg, pl, fs.geo, d, s) + [LastTx(cfg, pl, fs.geo, d, ino, newSize, now)];
    assert txs[0..] == txs && FreeTxs(cfg, pl, fs.geo, d, s)[..0] == [];
    SameHomesReflect(fs.geo, d);
  }

  /** The last commit ends the session. */
  lemma LastStep<X>(fmt: Format<X>, geo: Geometry, d: Disk<X>, left: int, q: Word, txs: seq<Tx<X>>)
    requires txs != []
    ensures var k := |txs| - 1;
            Run(fmt, geo, d, left, SessionProgram(fmt, geo, q, txs[k..])) == Run(fmt, geo, d, left, CommitProgram(fmt, geo, q, txs[k]))
  {
    hide CommitProgram;
    SessionStep(fmt, geo, d, left, q, txs, |txs| - 1);
    assert txs[|txs|..] == [];
  }

  /** Frees the tail and writes the inode. */
  method CutFile(fs: Mounted<B.Block>, ghost d: Volume1024, cfg: B.Config, pl: Places, ino: nat, newSize: nat, now: Word, copy: array<Byte>)
      returns (rc: int)
    requires FitToTruncate(fs, cfg, pl, d, ino, newSize) && copy[..] == InodeAt(pl, d, ino)
    modifies fs, fs.dev, copy
    ensures fs.Valid()
    ensures var whole := old(WholeSession(fs, cfg, pl, d, ino, newSize, now));
            && fs.dev.blocks == whole.disk && fs.dev.writesLeft == whole.budget
            && (rc == 0 <==> whole.ending == Finished(0))
  {
    hide PlacesOk, Readable, InodesOk, T.AllInRange, LastTx, FreeTxs, Run, SessionProgram, CommitProgram, Takes, VolumeAt, Freed, ReadThrough,
         WellPlaced, FileOf, InodeOk, InodeAt, WithCut, CutInode, InodeTx, SameHomes, AfterAll, WholeSession;
    ghost var whole := WholeSession(fs, cfg, pl, d, ino, newSize, now);
    ghost var s := FreedOf(pl, d, ino, newSize);
    ghost var last := LastTx(cfg, pl, fs.geo, d, ino, newSize, now);
    Begin(fs, cfg, pl, d, ino, newSize, now);
    InodeAtParts(pl, d, ino);
    var freed;
    rc, freed := FreeTail(fs, cfg, pl, d, s, last, copy, T.BlockCount(newSize), whole);
    if rc != 0 { return; }
    ghost var e := Shown(fs, d);
    WholePrefix(FreeTxs(cfg, pl, fs.geo, d, s));
    LastIs(cfg, pl, fs.geo, d, ino, newSize, now, e);
    var tx := BuildLast(fs, e, pl, ino, newSize, copy, freed, now);
    LastStep(fs.fmt, fs.geo, e, fs.dev.writesLeft, fs.sequence, FreeTxs(cfg, pl, fs.geo, d, s) + [last]);
    rc := fs.Commit(tx);
  }

  /** Cuts a file to `newSize` bytes. Sizes beyond the current one are refused and the
      current one is a no-op; otherwise the call performs exactly the session of the
      truncation's transactions. */
  method Truncate(fs: Mounted<B.Block>, ghost d: Volume1024, cfg: B.Config, pl: Places, ino: nat, newSize: nat, now: Word) returns (rc: int)
    requires FitToTruncate(fs, cfg, pl, d, ino, newSize)
    modifies fs, fs.dev
    ensures fs.Valid()
    ensures newSize >= VolumeAt(pl, d).files[ino].size ==>
              && rc == (if newSize == VolumeAt(pl, d).files[ino].size then 0 else -1)
              && fs.dev.blocks == old(fs.dev.blocks) && fs.dev.writesLeft == old(fs.dev.writesLeft)
    ensures newSize < VolumeAt(pl, d).files[ino].size ==>
              var whole := old(WholeSession(fs, cfg, pl, d, ino, newSize, now));
              && fs.dev.blocks == whole.disk && fs.dev.writesLeft == whole.budget
              && (rc == 0 <==> whole.ending == Finished(0))
  {
    hide PlacesOk, T.AllInRange, Takes, VolumeAt, Freed, ReadThrough, WellPlaced, FileOf, InodeOk, InodeAt, WholeSession;
    InodeAtParts(pl, d, ino);
    var copy := CopyInode(fs, d, pl, ino);
    var size := FileOf(copy[..]).size;
    if newSize > size { return -1; }
    if newSize == size { return 0; }
    rc := CutFile(fs, d, cfg, pl, ino, newSize, now, copy);
    if rc != 0 { rc := -1; }
  }
}
