/** Opening a file system, and what its users can rely on around failing commits. */
module Mounting {
  import opened Words
  import opened LogFormat
  import opened LogWalk
  import opened Programs
  import opened Recovery
  import opened Convergence
  import opened Commit
  import opened CrashSafety
  import opened Runs
  import opened Journal

  /** Recovery on open: replay first, and on a writable device the cleaning checkpoint.
      -6: replay failed, for a code of its own or for want of writes. A checkpoint that
      fails after it is ignored. */
  method Open<B(!new)>(dev: Device<B>, fmt: Format<B>, geo: Geometry) returns (fs: Mounted<B>, rc: int)
    requires WellPlaced(geo, |dev.blocks|)
    requires dev.writable ==> CopiesOnly(geo, dev.blocks, ReplayProgram(fmt, geo, dev.blocks))
    modifies dev
    ensures fresh(fs) && fs.Valid() && fs.dev == dev && fs.fmt == fmt && fs.geo == geo
    ensures rc == 0 || rc == -6
    ensures dev.writable ==>
              (rc == 0 <==>
               Run(fmt, geo, old(dev.blocks), old(dev.writesLeft), ReplayProgram(fmt, geo, old(dev.blocks))).ending == Finished(0))
    ensures dev.writable ==>
              var run := Run(fmt, geo, old(dev.blocks), old(dev.writesLeft), MountProgram(fmt, geo, old(dev.blocks)));
              && dev.blocks == run.disk && dev.writesLeft == run.budget && !fs.replayActive
              && (run.ending == Finished(0) ==>
                    rc == 0 && fs.start == 0 && !fs.recover && fs.sequence == fmt.jsbSequence(Jsb(geo, old(dev.blocks))))
    ensures !dev.writable ==>
              && dev.blocks == old(dev.blocks)
              && (rc == 0 <==> SoftReplay(fmt, geo, dev.blocks).rc == 0)
              && (rc == 0 ==> (if fs.replayActive then fs.redirects else map[]) == SoftReplay(fmt, geo, dev.blocks).redirects)
  {
    hide ReplayProgram, SoftReplay, CopiesOnly, Run, TableIs;
    ghost var d, left := dev.blocks, dev.writesLeft;
    fs := new Mounted(dev, fmt, geo);
    ghost var next: Program<B> := if fs.NothingToClean() then Done(0) else Cleanup(fs.sequence);
    RunAndThen(fmt, geo, d, left, ReplayProgram(fmt, geo, d), next);
    RunDone(fmt, geo, 0);
    rc := fs.Replay();
    if rc != 0 {
      return fs, -6;
    }
    if dev.writable {
      var ignored := fs.Checkpoint();
    }
  }

  // ---------------------------------------------------------------- reads while a checkpoint fails

  lemma {:induction false} RedirectOf<B>(fmt: Format<B>, geo: Geometry, tx: Tx<B>, n: nat, i: nat)
    requires i < n <= |tx| && forall k :: 0 <= k < i ==> tx[k].home != tx[i].home
    ensures var m := TxRedirects(fmt, geo, tx, n);
            tx[i].home in m && m[tx[i].home] == Redirect(geo.first + 1 + i, fmt.startsWithMagic(tx[i].data))
  {
    if i < n - 1 {
      RedirectOf(fmt, geo, tx, n - 1, i);
    } else {
      NoRedirectElsewhere(fmt, geo, tx, n - 1, tx[i].home);
    }
  }

  lemma {:induction false} NoRedirectElsewhere<B>(fmt: Format<B>, geo: Geometry, tx: Tx<B>, n: nat, home: nat)
    requires n <= |tx| && forall i :: 0 <= i < n ==> tx[i].home != home
    ensures home !in TxRedirects(fmt, geo, tx, n)
  {
    if n > 0 {
      NoRedirectElsewhere(fmt, geo, tx, n - 1, home);
    }
  }

  /** A mount, complete or not, changes no block that its copies do not target, the
      journal superblock and the RECOVER bit apart. */
  lemma MountTouches<B(!new)>(fmt: Format<B>, geo: Geometry, d: Disk<B>, budget: int, n: nat)
    requires Lawful(fmt) && Recoverable(fmt, geo, d) && n < |d| && n != JsbBlock(geo)
    requires LastCopy(ReplayProgram(fmt, geo, d), n) == None
    ensures Shows(fmt, geo, Mount(fmt, geo, d, budget), n, d[n])
  {
    hide ReplayProgram, CopiesOnly;
    var p, q := ReplayProgram(fmt, geo, d), fmt.jsbSequence(Jsb(geo, d));
    var next: Program<B> := if fmt.recover(d[geo.sbBlock]) || fmt.jsbStart(Jsb(geo, d)) != 0 then Cleanup(q) else Done(0);
    var first := Run(fmt, geo, d, budget, p);
    RunAndThen(fmt, geo, d, budget, p, next);
    InterruptedCopies(fmt, geo, d, budget, p);
    CleanupRuns(fmt, geo, first.disk, first.budget, q);
  }

  /** After the journal superblock landed, whichever write of the checkpoint fails, a read
      of a transaction's block returns the first content that the transaction lists for it. */
  lemma ReadsNew<B(!new)>(fmt: Format<B>, geo: Geometry, d: Disk<B>, q: Word, tx: Tx<B>, budget: nat, i: nat)
    requires Lawful(fmt) && Ready(fmt, geo, d, q, 0) && ValidTx(geo, |d|, tx)
    requires LandingWrites(tx) <= budget && i < |tx| && forall k :: 0 <= k < i ==> tx[k].home != tx[i].home
    ensures var d1 := Run(fmt, geo, d, budget, CommitProgram(fmt, geo, q, tx)).disk;
            ReadThrough(fmt, geo, d1, TxRedirects(fmt, geo, tx, |tx|), tx[i].home) == Some(tx[i].data)
  {
    hide Recoverable, Mount, MountProgram, CheckpointProgram, CommitProgram, Quiet, Find, TxRedirects, Run, InJournal;
    var p := Pending(fmt, geo, d, q, tx);
    var at := geo.first + 1 + i;
    RedirectOf(fmt, geo, tx, |tx|, i);
    assert SameLog(geo, p, Run(fmt, geo, d, budget, CommitProgram(fmt, geo, q, tx)).disk) by {
      PendingRecovers(fmt, geo, d, q, tx);
      LandedIsMount(fmt, geo, d, q, tx, budget);
      MountKeepsLog(fmt, geo, p, budget - LandingWrites(tx));
    }
    PendingFacts(fmt, geo, d, q, tx, geo.maxlen);
    assert ReadLog(geo, p, at) == LogContent(fmt, geo, q, tx, at) == Some(fmt.Logged(tx[i].data));
  }

  /** Of blocks listed more than once, the first content listed is also the last. */
  ghost predicate SameFirstAndLast<B>(tx: Tx<B>) {
    forall i, k :: 0 <= i <= k < |tx| && FirstAndLast(tx, i, k) ==> tx[i].data == tx[k].data
  }

  /** Places `i` and `k` are the first and the last that list their block. */
  ghost predicate FirstAndLast<B>(tx: Tx<B>, i: nat, k: nat)
    requires i <= k < |tx|
  {
    && tx[i].home == tx[k].home
    && (forall m :: 0 <= m < i ==> tx[m].home != tx[i].home)
    && (forall m :: k < m < |tx| ==> tx[m].home != tx[k].home)
  }

  lemma {:induction false} FirstListed<B>(tx: Tx<B>, n: nat, k: nat) returns (i: nat)
    requires k <= |tx| && exists j :: k <= j < |tx| && tx[j].home == n
    requires forall j :: 0 <= j < k ==> tx[j].home != n
    ensures i < |tx| && tx[i].home == n && forall j :: 0 <= j < i ==> tx[j].home != n
    decreases |tx| - k
  {
    if tx[k].home == n {
      i := k;
    } else {
      i := FirstListed(tx, n, k + 1);
    }
  }

  /** While a checkpoint is pending, reads of the transaction's blocks return what its
      recovery will leave there exactly when no block is listed with a first content that
      differs from its last: the in-memory table answers with the first, recovery and the
      checkpoint end with the last. */
  lemma PendingReadsAgreeIff<B(!new)>(fmt: Format<B>, geo: Geometry, d: Disk<B>, q: Word, tx: Tx<B>, budget: nat)
    requires Lawful(fmt) && Ready(fmt, geo, d, q, 0) && ValidTx(geo, |d|, tx) && LandingWrites(tx) <= budget
    ensures var d1 := Run(fmt, geo, d, budget, CommitProgram(fmt, geo, q, tx)).disk;
            (forall i :: 0 <= i < |tx| ==>
               ReadThrough(fmt, geo, d1, TxRedirects(fmt, geo, tx, |tx|), tx[i].home) == Some(Applied(tx, tx[i].home, d[tx[i].home])))
            <==> SameFirstAndLast(tx)
  {
    hide ReadThrough, TxRedirects, Run, CommitProgram, Lawful, Ready, Applied, InJournal;
    var d1 := Run(fmt, geo, d, budget, CommitProgram(fmt, geo, q, tx)).disk;
    var m := TxRedirects(fmt, geo, tx, |tx|);
    forall i, k | 0 <= i <= k < |tx| && FirstAndLast(tx, i, k)
      ensures ReadThrough(fmt, geo, d1, m, tx[i].home) == Some(tx[i].data)
      ensures Applied(tx, tx[i].home, d[tx[i].home]) == tx[k].data
    {
      ReadsNew(fmt, geo, d, q, tx, budget, i);
      AppliedIsWritten(tx, k, d[tx[i].home]);
    }
    if SameFirstAndLast(tx) {
      forall j | 0 <= j < |tx|
        ensures ReadThrough(fmt, geo, d1, m, tx[j].home) == Some(Applied(tx, tx[j].home, d[tx[j].home]))
      {
        var i := FirstListed(tx, tx[j].home, 0);
        var k := LastListed(tx, tx[j].home, |tx|);
        assert FirstAndLast(tx, i, k);
      }
    }
  }

  /** Two contents for one block are enough. */
  lemma TwoContentsDiffer<B>(home: nat, a: B, b: B)
    requires a != b
    ensures !SameFirstAndLast([Write(home, a), Write(home, b)])
  {
    assert FirstAndLast([Write(home, a), Write(home, b)], 0, 1);
  }

  lemma NotRedirected<B>(fmt: Format<B>, geo: Geometry, d: Disk<B>, m: ReplayMap, n: nat)
    requires WellPlaced(geo, |d|) && Home(geo, |d|, n) && n !in m
    ensures ReadThrough(fmt, geo, d, m, n) == Some(d[n])
  {
    HomeIsNotTruncated(geo, |d|, n);
  }

  /** And a read of any other block returns what it held before the commit. */
  lemma ReadsOld<B(!new)>(fmt: Format<B>, geo: Geometry, d: Disk<B>, q: Word, tx: Tx<B>, budget: nat, n: nat)
    requires Lawful(fmt) && Ready(fmt, geo, d, q, 0) && ValidTx(geo, |d|, tx)
    requires LandingWrites(tx) <= budget
    requires Home(geo, |d|, n) && forall i :: 0 <= i < |tx| ==> tx[i].home != n
    ensures var d1 := Run(fmt, geo, d, budget, CommitProgram(fmt, geo, q, tx)).disk;
            && ReadThrough(fmt, geo, d1, TxRedirects(fmt, geo, tx, |tx|), n) == Some(d1[n])
            && Shows(fmt, geo, d1, n, d[n])
  {
    hide Recoverable, Mount, MountProgram, CheckpointProgram, CommitProgram, Quiet, Find, TxRedirects, Run, InJournal, ReadThrough,
         Lawful, LastCopy, HoldsTx, ReplayProgram;
    var p := Pending(fmt, geo, d, q, tx);
    PendingRecovers(fmt, geo, d, q, tx);
    PendingFacts(fmt, geo, d, q, tx, geo.maxlen);
    LandedIsMount(fmt, geo, d, q, tx, budget);
    JsbIsLogBlockZero(geo, |d|);
    NoRedirectElsewhere(fmt, geo, tx, |tx|, n);
    NotRedirected(fmt, geo, Run(fmt, geo, d, budget, CommitProgram(fmt, geo, q, tx)).disk, TxRedirects(fmt, geo, tx, |tx|), n);
    HomeCopiesElsewhere(fmt, tx, 0, geo.first + 1, n);
    PendingReplay(fmt, geo, p, q, tx);
    MountTouches(fmt, geo, p, budget - LandingWrites(tx), n);
  }

  // ---------------------------------------------------------------- a crash test

  /** Arm the device to fail after `failAfter` writes, commit, open again with a second
      fault, then open without: the transaction is there entirely or not at all. */
  method CrashTest<B(!new)>(dev: Device<B>, fmt: Format<B>, geo: Geometry, tx: Tx<B>, failAfter: nat, failAgain: nat)
    requires Lawful(fmt) && dev.writable
    requires WellPlaced(geo, |dev.blocks|) && !fmt.recover(dev.blocks[geo.sbBlock])
    requires Ready(fmt, geo, dev.blocks, fmt.jsbSequence(Jsb(geo, dev.blocks)), 0)
    requires ValidTx(geo, |dev.blocks|, tx)
    modifies dev
    ensures ShowsApplied(fmt, geo, dev.blocks, if failAfter >= LandingWrites(tx) then tx else [], old(dev.blocks))
    ensures fmt.jsbStart(Jsb(geo, dev.blocks)) == 0 && !fmt.recover(dev.blocks[geo.sbBlock])
  {
    hide Run, CommitProgram, ShowsApplied, TableIs, Recoverable, CopiesOnly, Quiet, MountProgram;
    ghost var d, q := dev.blocks, fmt.jsbSequence(Jsb(geo, dev.blocks));
    MountOfClean(fmt, geo, d);
    dev.writesLeft := failAfter;
    NothingToMount(fmt, geo, d, failAfter);
    var fs, rc := Open(dev, fmt, geo);
    rc := fs.Commit(tx);
    ghost var d1 := dev.blocks;
    CutCommitRecovers(fmt, geo, d, q, tx, failAfter);
    RecoverableCopies(fmt, geo, d1);
    dev.writesLeft := failAgain;
    fs, rc := Open(dev, fmt, geo);
    ghost var d2 := dev.blocks;
    InterruptedMount(fmt, geo, d1, failAgain);
    RecoverableCopies(fmt, geo, d2);
    dev.writesLeft := -1;
    fs, rc := Open(dev, fmt, geo);
    CommitIsAtomic(fmt, geo, d, q, tx, failAfter, [failAgain]);
    MountsOne(fmt, geo, d1, failAgain);
  }

  lemma NothingToMount<B>(fmt: Format<B>, geo: Geometry, d: Disk<B>, budget: int)
    requires WellPlaced(geo, |d|) && fmt.jsbStart(Jsb(geo, d)) == 0 && !fmt.recover(d[geo.sbBlock])
    ensures Run(fmt, geo, d, budget, MountProgram(fmt, geo, d)) == Outcome(d, budget, Finished(0))
    ensures CopiesOnly(geo, d, ReplayProgram(fmt, geo, d))
  {
    assert ReplayProgram(fmt, geo, d) == Done(0);
  }

  lemma RecoverableCopies<B>(fmt: Format<B>, geo: Geometry, d: Disk<B>)
    requires Recoverable(fmt, geo, d)
    ensures WellPlaced(geo, |d|) && CopiesOnly(geo, d, ReplayProgram(fmt, geo, d))
  {
  }

  lemma MountsOne<B>(fmt: Format<B>, geo: Geometry, d: Disk<B>, budget: nat)
    requires WellPlaced(geo, |d|)
    ensures Mounts(fmt, geo, d, [budget]) == Mount(fmt, geo, d, budget)
  {
    var rest: seq<nat> := [budget][1..];
    assert rest == [];
    assert Mounts(fmt, geo, d, [budget]) == Mounts(fmt, geo, Mount(fmt, geo, d, budget), rest);
  }
}
