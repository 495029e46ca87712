/** The RECOVER bit against the journal: whether it is set whenever the journal is dirty. */
module RecoverBit {
  import opened Words
  import opened LogFormat
  import opened LogWalk
  import opened Programs
  import opened Recovery
  import opened Convergence
  import opened Commit
  import opened CrashSafety
  import opened Runs
  import opened Bitmaps
  import opened Volumes
  import opened SmallBlocks
  import opened VolumeOnDisk
  import opened VolumeSafety
  import B = ByteFormat
  import J = Superblocks

  /** A journal that wants replay has RECOVER set for all to see. */
  ghost predicate Guarded<X>(fmt: Format<X>, geo: Geometry, d: Disk<X>)
    requires geo.extents != [] && JsbBlock(geo) < |d| && geo.sbBlock < |d|
  {
    fmt.jsbStart(Jsb(geo, d)) != 0 ==> fmt.recover(d[geo.sbBlock])
  }

  // ---------------------------------------------------------------- the pending log

  lemma {:induction false} PutsKeepSuper<X>(fmt: Format<X>, geo: Geometry, d: Disk<X>, tx: Tx<X>, i: nat, j: nat, q: Word)
    requires WellPlaced(geo, |d|) && i <= |tx| && 0 < j && j + (|tx| - i) < geo.maxlen
    ensures var last: Program<X> := Do(PutLog(geo.first + 1 + |tx|, fmt.commit(q)), Done(0));
            Run(fmt, geo, d, -1, DataPuts(fmt, tx, i, j, last)).disk[geo.sbBlock] == d[geo.sbBlock]
    decreases |tx| - i
  {
    var last: Program<X> := Do(PutLog(geo.first + 1 + |tx|, fmt.commit(q)), Done(0));
    if i < |tx| {
      var (n, b) := Effect(fmt, geo, d, PutLog(j, fmt.Logged(tx[i].data))).value;
      PutsKeepSuper(fmt, geo, d[n := b], tx, i + 1, j + 1, q);
    } else if Effect(fmt, geo, d, last.step).Some? {
      var (n, b) := Effect(fmt, geo, d, last.step).value;
      assert Run(fmt, geo, d[n := b], -1, last.rest).disk == d[n := b];
    }
  }

  /** The first write of a commit sets RECOVER, and no other before the checkpoint touches the
      superblock. */
  lemma PendingIsMarked<X(!new)>(fmt: Format<X>, geo: Geometry, d: Disk<X>, q: Word, tx: Tx<X>)
    requires Lawful(fmt) && WellPlaced(geo, |d|) && ValidTx(geo, |d|, tx)
    ensures fmt.recover(Pending(fmt, geo, d, q, tx)[geo.sbBlock])
  {
    hide DataPuts, CopiesOnly;
    var last: Program<X> := Do(PutLog(geo.first + 1 + |tx|, fmt.commit(q)), Done(0));
    var puts := DataPuts(fmt, tx, 0, geo.first + 1, last);
    var second: Program<X> := Do(PutLog(geo.first, fmt.descriptor(q, tx)), puts);
    var d1 := d[geo.sbBlock := fmt.setRecover(d[geo.sbBlock], true)];
    assert Run(fmt, geo, d, -1, LogProgram(fmt, geo, q, tx)) == Run(fmt, geo, d1, -1, second);
    var (n, b) := Effect(fmt, geo, d1, second.step).value;
    assert Run(fmt, geo, d1, -1, second) == Run(fmt, geo, d1[n := b], -1, puts);
    PutsKeepSuper(fmt, geo, d1[n := b], tx, 0, geo.first + 1, q);
    JsbIsLogBlockZero(geo, |d|);
  }

  // ---------------------------------------------------------------- copies, one by one

  lemma {:induction false} AppliedFirst<X>(tx: Tx<X>, n: nat, before: X)
    requires tx != []
    ensures Applied(tx, n, before) == Applied(tx[1..], n, if tx[0].home == n then tx[0].data else before)
    decreases |tx|
  {
    if |tx| > 1 {
      AppliedFirst(tx[..|tx| - 1], n, before);
      assert tx[..|tx| - 1][1..] == tx[1..][..|tx| - 2];
    }
  }

  /** One copy of a checkpoint. */
  lemma OneHomeCopy<X(!new)>(fmt: Format<X>, geo: Geometry, d: Disk<X>, q: Word, tx: Tx<X>, i: nat, b: nat)
    requires Lawful(fmt) && WellPlaced(geo, |d|) && ValidTx(geo, |d|, tx) && HoldsTx(fmt, geo, d, q, tx) && i < |tx| && b > 0
    ensures var d1 := d[tx[i].home := tx[i].data];
            && Run(fmt, geo, d, b, AndThen(HomeCopies(fmt, tx, i, geo.first + 1 + i), Cleanup(q)))
               == Run(fmt, geo, d1, b - 1, AndThen(HomeCopies(fmt, tx, i + 1, geo.first + 1 + (i + 1)), Cleanup(q)))
            && HoldsTx(fmt, geo, d1, q, tx) && Jsb(geo, d1) == Jsb(geo, d)
  {
    var at, n := geo.first + 1 + i, tx[i].home;
    assert ReadLog(geo, d, at) == LogContent(fmt, geo, q, tx, at) == Some(fmt.Logged(tx[i].data));
    hide ReadLog, HoldsTx, InJournal, LogContent;
    HomeIsNotTruncated(geo, |d|, n);
    var d1 := d[n := tx[i].data];
    WriteOutsideLog(geo, d, n, tx[i].data);
    StillHolds(fmt, geo, d, d1, q, tx);
    JsbIsLogBlockZero(geo, |d|);
    var step: Step<X> := Copy(at, n, fmt.startsWithMagic(tx[i].data));
    assert Effect(fmt, geo, d, step) == Some((n, tx[i].data));
    assert AndThen(HomeCopies(fmt, tx, i, at), Cleanup(q)) == Do(step, AndThen(HomeCopies(fmt, tx, i + 1, at + 1), Cleanup(q)));
  }

  /** The superblock and the journal superblock after `b` copies of a checkpoint. */
  lemma {:induction false} CopiesSoFar<X(!new)>(fmt: Format<X>, geo: Geometry, d: Disk<X>, q: Word, tx: Tx<X>, i: nat, b: nat)
    requires Lawful(fmt) && WellPlaced(geo, |d|) && ValidTx(geo, |d|, tx) && HoldsTx(fmt, geo, d, q, tx) && i + b <= |tx|
    ensures var d' := Run(fmt, geo, d, b, AndThen(HomeCopies(fmt, tx, i, geo.first + 1 + i), Cleanup(q))).disk;
            && d'[geo.sbBlock] == Applied(tx[i..i + b], geo.sbBlock, d[geo.sbBlock])
            && Jsb(geo, d') == Jsb(geo, d)
    decreases b
  {
    hide InJournal, HoldsTx, Lawful, Run, HomeCopies, AndThen;
    if b == 0 {
      NothingRuns(fmt, geo, d, AndThen(HomeCopies(fmt, tx, i, geo.first + 1 + i), Cleanup(q)));
      assert tx[i..i + b] == [];
    } else {
      OneHomeCopy(fmt, geo, d, q, tx, i, b);
      CopiesSoFar(fmt, geo, d[tx[i].home := tx[i].data], q, tx, i + 1, b - 1);
      hide Applied;
      AppliedFirst(tx[i..i + b], geo.sbBlock, d[geo.sbBlock]);
      assert tx[i..i + b][1..] == tx[i + 1..i + 1 + (b - 1)];
    }
  }

  lemma NothingRuns<X>(fmt: Format<X>, geo: Geometry, d: Disk<X>, p: Program<X>)
    ensures Run(fmt, geo, d, 0, p).disk == d
  {
  }

  lemma StillHolds<X>(fmt: Format<X>, geo: Geometry, d: Disk<X>, d1: Disk<X>, q: Word, tx: Tx<X>)
    requires HoldsTx(fmt, geo, d, q, tx) && SameLog(geo, d, d1) && geo.first > 0
    ensures HoldsTx(fmt, geo, d1, q, tx)
  {
  }

  /** The disk of a commit that landed and then made `b` of its copies. */
  lemma {:induction false} AfterCopies<X(!new)>(fmt: Format<X>, geo: Geometry, d: Disk<X>, q: Word, tx: Tx<X>, b: nat)
    requires Lawful(fmt) && Ready(fmt, geo, d, q, 0) && ValidTx(geo, |d|, tx) && b <= |tx|
    ensures var d' := Run(fmt, geo, d, LandingWrites(tx) + b, CommitProgram(fmt, geo, q, tx)).disk;
            && fmt.jsbStart(Jsb(geo, d')) == geo.first
            && exists marked :: fmt.recover(marked) && d'[geo.sbBlock] == Applied(tx[..b], geo.sbBlock, marked)
  {
    hide Quiet, Run, CommitProgram, Applied, HoldsTx, HomeCopies;
    var p := Pending(fmt, geo, d, q, tx);
    PendingFacts(fmt, geo, d, q, tx, geo.maxlen);
    PendingIsMarked(fmt, geo, d, q, tx);
    CutAfterLanding(fmt, geo, d, q, tx, LandingWrites(tx) + b);
    CopiesSoFar(fmt, geo, p, q, tx, 0, b);
    assert tx[0..b] == tx[..b];
    assert CheckpointProgram(fmt, geo, q, tx) == AndThen(HomeCopies(fmt, tx, 0, geo.first + 1), Cleanup(q));
  }

  // ---------------------------------------------------------------- the condition

  /** Every copy of the superblock in a transaction has RECOVER set. */
  ghost predicate MarksSuper<X>(fmt: Format<X>, geo: Geometry, tx: Tx<X>) {
    forall i :: 0 <= i < |tx| && tx[i].home == geo.sbBlock ==> fmt.recover(tx[i].data)
  }

  lemma {:induction false} MarkedThroughout<X>(fmt: Format<X>, geo: Geometry, tx: Tx<X>, before: X)
    requires MarksSuper(fmt, geo, tx) && fmt.recover(before)
    ensures fmt.recover(Applied(tx, geo.sbBlock, before))
    decreases |tx|
  {
    if tx != [] {
      MarkedThroughout(fmt, geo, tx[..|tx| - 1], before);
    }
  }

  /** Past the copies the journal is clean. */
  lemma CleanAfterCopies<X(!new)>(fmt: Format<X>, geo: Geometry, d: Disk<X>, q: Word, tx: Tx<X>, budget: nat)
    requires Lawful(fmt) && Ready(fmt, geo, d, q, 0) && ValidTx(geo, |d|, tx) && budget > LandingWrites(tx) + |tx|
    ensures fmt.jsbStart(Jsb(geo, Run(fmt, geo, d, budget, CommitProgram(fmt, geo, q, tx)).disk)) == 0
  {
    hide Quiet, Run, CommitProgram, HomeCopies, HoldsTx, CopiesOnly;
    var p := Pending(fmt, geo, d, q, tx);
    var copies := HomeCopies(fmt, tx, 0, geo.first + 1);
    PendingFacts(fmt, geo, d, q, tx, geo.maxlen);
    CutAfterLanding(fmt, geo, d, q, tx, budget);
    HomeCopiesShape(fmt, geo, p, q, tx, 0);
    var rest := budget - LandingWrites(tx);
    CopiesBudget(fmt, geo, p, rest, copies);
    RunAndThen(fmt, geo, p, rest, copies, Cleanup(q));
    assert CheckpointProgram(fmt, geo, q, tx) == AndThen(copies, Cleanup(q));
    var r := Run(fmt, geo, p, rest, copies);
    CleanupRuns(fmt, geo, r.disk, r.budget, q);
    JsbIsLogBlockZero(geo, |d|);
  }

  /** RECOVER is set at every moment at which the journal is dirty if and only if every copy of
      the superblock that the transaction carries home has it set: such a copy overwrites the
      bit that the commit set first, before the journal is clean. */
  lemma {:induction false} RecoverGuardsIff<X(!new)>(fmt: Format<X>, geo: Geometry, d: Disk<X>, q: Word, tx: Tx<X>)
    requires Lawful(fmt) && Ready(fmt, geo, d, q, 0) && ValidTx(geo, |d|, tx)
    ensures (forall budget: nat :: Guarded(fmt, geo, Run(fmt, geo, d, budget, CommitProgram(fmt, geo, q, tx)).disk))
            <==> MarksSuper(fmt, geo, tx)
  {
    hide Quiet, Run, CommitProgram, Applied, Lawful, ShowsApplied;
    if MarksSuper(fmt, geo, tx) {
      forall budget: nat ensures Guarded(fmt, geo, Run(fmt, geo, d, budget, CommitProgram(fmt, geo, q, tx)).disk) {
        if budget < LandingWrites(tx) {
          CutBeforeLanding(fmt, geo, d, q, tx, budget);
        } else if budget <= LandingWrites(tx) + |tx| {
          var b := budget - LandingWrites(tx);
          AfterCopies(fmt, geo, d, q, tx, b);
          var d' := Run(fmt, geo, d, budget, CommitProgram(fmt, geo, q, tx)).disk;
          var marked :| fmt.recover(marked) && d'[geo.sbBlock] == Applied(tx[..b], geo.sbBlock, marked);
          MarkedThroughout(fmt, geo, tx[..b], marked);
        } else {
          CleanAfterCopies(fmt, geo, d, q, tx, budget);
        }
      }
    } else {
      var i :| 0 <= i < |tx| && tx[i].home == geo.sbBlock && !fmt.recover(tx[i].data);
      UnmarkedAfter(fmt, geo, d, q, tx, i);
    }
  }

  /** Right after the copy of such a superblock the journal is dirty and RECOVER clear. */
  lemma UnmarkedAfter<X(!new)>(fmt: Format<X>, geo: Geometry, d: Disk<X>, q: Word, tx: Tx<X>, i: nat)
    requires Lawful(fmt) && Ready(fmt, geo, d, q, 0) && ValidTx(geo, |d|, tx)
    requires i < |tx| && tx[i].home == geo.sbBlock && !fmt.recover(tx[i].data)
    ensures var d' := Run(fmt, geo, d, LandingWrites(tx) + i + 1, CommitProgram(fmt, geo, q, tx)).disk;
            fmt.jsbStart(Jsb(geo, d')) != 0 && !fmt.recover(d'[geo.sbBlock])
  {
    hide Quiet, Run, CommitProgram, Lawful;
    AfterCopies(fmt, geo, d, q, tx, i + 1);
    assert tx[..i + 1][|tx[..i + 1]| - 1] == tx[i];
  }

  // ---------------------------------------------------------------- every extension

  /** The failing input: an extension on a clean volume. When thirteen of its sixteen writes are
      done the journal is dirty, RECOVER is clear, and the file's inode is still the old one. */
  lemma ExtensionIsUnguarded(cfg: B.Config, pl: Places, geo: Geometry, d: Volume1024, ino: nat, contents: Bytes1024, bytes: Word,
                             now: Word)
    requires |cfg.uuid| == 16 && DiskOk(pl, geo, d) && geo.first + 7 <= geo.maxlen && WellPlaced(geo, |d|)
    requires Ready(J.JournalFormat(cfg), geo, d, J.JsbSequence(Jsb(geo, d)), 0) && !J.Recover(d[SB])
    requires Consistent(pl.lay, VolumeAt(pl, d)) && ino in pl.inodes
    requires Extended(pl.lay, VolumeAt(pl, d), ino, bytes).Some?
    ensures var (g, bit) := Candidate(pl.lay, VolumeAt(pl, d), VolumeAt(pl, d).files[ino].leaf).value;
            Extensible(pl, d, ino, g, bit)
    ensures var fmt, tx := J.JournalFormat(cfg), NextExtendTx(cfg, pl, d, ino, contents, bytes, now);
            var d' := Run(fmt, geo, d, 13, CommitProgram(fmt, geo, J.JsbSequence(Jsb(geo, d)), tx)).disk;
            J.JsbStart(Jsb(geo, d')) != 0 && !J.Recover(d'[SB])
  {
    hide InodesOk, PlacesOk, IsMeta, VolumeAt, Candidate, Run, CommitProgram, Lawful, J.JournalFormat, Extensible, Address, BitmapEdit,
         CountEdit, WithInode, ExtendedInode, FreeAt, WithFree, Extended, ExtendedAt, Consistent, J.Recover, J.JsbStart, J.JsbSequence, FileOf,
         InJournal, Quiet, InodeAt, ExtendTx, Ready, ValidTx, WellPlaced;
    var v := VolumeAt(pl, d);
    CandidateFits(pl, geo, d, ino, bytes);
    var (g, bit) := Candidate(pl.lay, v, v.files[ino].leaf).value;
    ExtendTxIsValid(cfg, pl, geo, d, ino, contents, bytes, now, g, bit);
    SuperblockIsOne(pl, geo, |d|);
    SuperIsFourth(cfg, pl, d, ino, contents, bytes, now, g, bit);
    FourthUnmarked(cfg, geo, d, NextExtendTx(cfg, pl, d, ino, contents, bytes, now));
  }

  lemma FourthUnmarked(cfg: B.Config, geo: Geometry, d: Volume1024, tx: Tx<B.Block>)
    requires |cfg.uuid| == 16 && WellPlaced(geo, |d|) && ValidTx(geo, |d|, tx) && geo.sbBlock == SB
    requires Ready(J.JournalFormat(cfg), geo, d, J.JsbSequence(Jsb(geo, d)), 0)
    requires |tx| == 5 && tx[3].home == SB && !J.Recover(tx[3].data)
    ensures var fmt := J.JournalFormat(cfg);
            var d' := Run(fmt, geo, d, 13, CommitProgram(fmt, geo, J.JsbSequence(Jsb(geo, d)), tx)).disk;
            J.JsbStart(Jsb(geo, d')) != 0 && !J.Recover(d'[SB])
  {
    hide Run, CommitProgram, Lawful, J.Recover, J.JsbStart, J.JsbSequence, Ready, ValidTx, LogAddress;
    J.JournalFormatIsLawful(cfg);
    UnmarkedAfter(J.JournalFormat(cfg), geo, d, J.JsbSequence(Jsb(geo, d)), tx, 3);
  }

  lemma SuperIsFourth(cfg: B.Config, pl: Places, d: Volume1024, ino: nat, contents: Bytes1024, bytes: Word, now: Word, g: nat, bit: nat)
    requires Extensible(pl, d, ino, g, bit) && !J.Recover(d[SB])
    ensures var tx := ExtendTx(cfg, pl, d, ino, contents, bytes, now, g, bit);
            |tx| == 5 && tx[3].home == SB && !J.Recover(tx[3].data)
  {
    hide BitmapEdit, CountEdit, WithInode, ExtendedInode, WithFree, FileOf, Address, InodesOk, FreeAt, InodeAt, J.Recover;
    CountedIsSettled(cfg, d[SB], pl.lay.wide, FreeAt(d[SB], pl.lay.wide) - 1);
  }
}
