/** Crash safety of commits: from any interruption, recovery leaves each transaction
    entirely applied or not at all. */
module CrashSafety {
  import opened Words
  import opened LogFormat
  import opened LogWalk
  import opened Programs
  import opened Recovery
  import opened Convergence
  import opened Commit

  // ---------------------------------------------------------------- the pending log, walked

  /** A trace of commit events only, regularly ended. */
  predicate OnlyCommits(t: Trace) {
    match t
    case End(rc) => rc == 0
    case Then(e, rest) => e.Committed? && OnlyCommits(rest)
  }

  /** Past the transaction, a walk can meet stale commit blocks but nothing else. */
  lemma {:induction false} StaleTail<B>(fmt: Format<B>, geo: Geometry, d: Disk<B>, j: nat, q: Word, m: nat, guard: nat)
    requires WellPlaced(geo, |d|) && geo.first < j < geo.maxlen
    requires 0 < m <= j && guard <= j && Quiet(fmt, geo, d, q, geo.maxlen)
    ensures OnlyCommits(Walk(fmt, geo, d, None, geo.first, j, Plus(q, m), guard))
    decreases geo.maxlen - j
  {
    var s := Plus(q, m);
    match Look(fmt, geo, d, None, j, s)
    case Stop(_) =>
    case Go(kind) =>
      assert Ahead(s, q) == m;
      assert !kind.Descriptor? && !kind.Revoke?;
      if kind == Commit(true) && j + 1 < geo.maxlen {
        StaleTail(fmt, geo, d, j + 1, q, m + 1, guard + 1);
      }
  }

  lemma {:induction false} AfterTagsOf(geo: Geometry, j: nat, n: nat)
    requires j + n < geo.maxlen
    ensures AfterTags(geo, j, n) == j + n
    decreases n
  {
    if n > 0 {
      AfterTagsOf(geo, j + 1, n - 1);
    }
  }

  lemma PendingWalk<B(!new)>(fmt: Format<B>, geo: Geometry, d: Disk<B>, q: Word, tx: Tx<B>)
      returns (tags: seq<Tag>, tail: Trace)
    requires Lawful(fmt) && WellPlaced(geo, |d|) && ValidTx(geo, |d|, tx)
    requires HoldsTx(fmt, geo, d, q, tx) && Quiet(fmt, geo, d, q, geo.maxlen)
    ensures TagsDescribe(fmt, q, tx, tags) && OnlyCommits(tail)
    ensures Walk(fmt, geo, d, None, geo.first, geo.first, q, 0)
            == TagsThen(geo, q, tags, geo.first, Then(Committed(q), tail))
  {
    var first, n := geo.first, |tx|;
    assert ReadLog(geo, d, first) == LogContent(fmt, geo, q, tx, first);
    assert DescribedBy(fmt, q, tx, fmt.parse(fmt.descriptor(q, tx)));
    tags := fmt.parse(fmt.descriptor(q, tx)).kind.tags;
    var kind := Descriptor(true, tags);
    assert Look(fmt, geo, d, None, first, q) == Go(kind);
    AfterTagsOf(geo, first, n);
    var c := first + 1 + n;
    assert NextBlock(geo, first, kind) == c;
    assert ReadLog(geo, d, c) == LogContent(fmt, geo, q, tx, c) == Some(fmt.commit(q));
    assert Look(fmt, geo, d, None, c, q) == Go(Commit(true));
    tail := Onward(fmt, geo, d, None, first, c, q, 1, Commit(true));
    assert OnlyCommits(tail) by {
      if c + 1 < geo.maxlen {
        StaleTail(fmt, geo, d, c + 1, q, 1, 2);
      }
    }
    assert Walk(fmt, geo, d, None, first, c, q, 1) == Then(Committed(q), tail);
    assert Onward(fmt, geo, d, None, first, first, q, 0, kind) == Walk(fmt, geo, d, None, first, c, q, 1);
  }

  lemma {:induction false} CommitsOnlyFacts(t: Trace)
    requires OnlyCommits(t)
    ensures Verdict(t) == 0
    ensures OnlyCommits(CommittedPrefix(t))
  {
    if t.Then? {
      CommitsOnlyFacts(t.rest);
    }
  }

  lemma {:induction false} NothingElseToFlush<B>(fmt: Format<B>, geo: Geometry, d: Disk<B>, t: Trace)
    requires OnlyCommits(t)
    ensures CollectRevokes(map[], t) == Some(map[]) && Flush(fmt, geo, d, map[], t) == Done(0)
  {
    if t.Then? {
      NothingElseToFlush(fmt, geo, d, t.rest);
    }
  }

  /** One logged block in front of a trace that flushes cleanly. */
  lemma FlushOneTag<B>(fmt: Format<B>, geo: Geometry, d: Disk<B>, q: Word, tag: Tag, at: nat, rest: Trace, next: Program<B>)
    requires ReadLog(geo, d, at).Some? && fmt.tagOk(tag, q, ReadLog(geo, d, at).value)
    requires CollectRevokes(map[], rest) == Some(map[]) && Flush(fmt, geo, d, map[], rest) == next
    ensures var t := Then(Tagged(q, tag, at), rest);
            && CollectRevokes(map[], t) == Some(map[])
            && Flush(fmt, geo, d, map[], t) == Do(Copy(at, tag.home, tag.escaped), next)
  {
  }

  lemma {:induction false} FlushOfTags<B>(fmt: Format<B>, geo: Geometry, d: Disk<B>, q: Word, tx: Tx<B>,
                                          tags: seq<Tag>, i: nat, rest: Trace)
    requires TagsDescribe(fmt, q, tx, tags) && i <= |tx| && geo.first + |tx| + 1 < geo.maxlen
    requires HoldsTx(fmt, geo, d, q, tx)
    requires CollectRevokes(map[], rest) == Some(map[]) && Flush(fmt, geo, d, map[], rest) == Done(0)
    ensures var t := TagsThen(geo, q, tags[i..], geo.first + i, rest);
            && CollectRevokes(map[], t) == Some(map[])
            && Flush(fmt, geo, d, map[], t) == HomeCopies(fmt, tx, i, geo.first + 1 + i)
    decreases |tx| - i
  {
    hide Flush, CollectRevokes, ReadLog;
    if i < |tx| {
      var at := geo.first + 1 + i;
      FlushOfTags(fmt, geo, d, q, tx, tags, i + 1, rest);
      assert ReadLog(geo, d, at) == LogContent(fmt, geo, q, tx, at) == Some(fmt.Logged(tx[i].data));
      assert tags[i..][0] == tags[i] && tags[i..][1..] == tags[i + 1..];
      FlushOneTag(fmt, geo, d, q, tags[i], at, TagsThen(geo, q, tags[i + 1..], geo.first + (i + 1), rest),
                  HomeCopies(fmt, tx, i + 1, geo.first + 1 + (i + 1)));
    }
  }

  lemma PendingPasses<B(!new)>(fmt: Format<B>, geo: Geometry, d: Disk<B>, q: Word, tx: Tx<B>)
      returns (tags: seq<Tag>, tail: Trace)
    requires Lawful(fmt) && WellPlaced(geo, |d|) && ValidTx(geo, |d|, tx)
    requires HoldsTx(fmt, geo, d, q, tx) && Quiet(fmt, geo, d, q, geo.maxlen)
    requires fmt.jsbStart(Jsb(geo, d)) == geo.first && fmt.jsbSequence(Jsb(geo, d)) == q
    ensures TagsDescribe(fmt, q, tx, tags) && OnlyCommits(tail)
    ensures Verdict(Scan(fmt, geo, d)) == 0 && ReplayNeeded(q, Commits(Scan(fmt, geo, d)))
    ensures Later(fmt, geo, d) == TagsThen(geo, q, tags, geo.first, Then(Committed(q), tail))
  {
    tags, tail := PendingWalk(fmt, geo, d, q, tx);
    var scan, rest := Scan(fmt, geo, d), Then(Committed(q), tail);
    CommitsOnlyFacts(tail);
    TagsThenCommits(geo, q, tags, geo.first, rest);
    TagsThenVerdict(geo, q, tags, geo.first, rest);
    CommitsBounded(fmt, geo, d, None, geo.first, geo.first, q, 0);
    ScanFindsLastCommit(q, Commits(scan));
    LaterPassesSeeCommittedPrefix(fmt, geo, d, geo.first, geo.first, q, 0);
    tail := CommittedPrefix(tail);
  }

  /** Recovery of a pending log is the checkpoint of its transaction. */
  lemma PendingReplay<B(!new)>(fmt: Format<B>, geo: Geometry, d: Disk<B>, q: Word, tx: Tx<B>)
    requires Lawful(fmt) && WellPlaced(geo, |d|) && ValidTx(geo, |d|, tx)
    requires HoldsTx(fmt, geo, d, q, tx) && Quiet(fmt, geo, d, q, geo.maxlen)
    requires fmt.jsbStart(Jsb(geo, d)) == geo.first && fmt.jsbSequence(Jsb(geo, d)) == q
    ensures ReplayProgram(fmt, geo, d) == HomeCopies(fmt, tx, 0, geo.first + 1)
    ensures MountProgram(fmt, geo, d) == CheckpointProgram(fmt, geo, q, tx)
  {
    var tags, tail := PendingPasses(fmt, geo, d, q, tx);
    var later := Then(Committed(q), tail);
    CommitsOnlyFacts(tail);
    TagsThenVerdict(geo, q, tags, geo.first, later);
    NothingElseToFlush(fmt, geo, d, later);
    FlushOfTags(fmt, geo, d, q, tx, tags, 0, later);
    assert tags[0..] == tags;
  }

  // ---------------------------------------------------------------- contents

  /** Content of block `n` after the transaction, when it held `before`. */
  function Applied<B>(tx: Tx<B>, n: nat, before: B): B {
    if tx == [] then before
    else if tx[|tx| - 1].home == n then tx[|tx| - 1].data
    else Applied(tx[..|tx| - 1], n, before)
  }

  /** Content of block `n` after a list of transactions. */
  function AppliedAll<B>(txs: seq<Tx<B>>, n: nat, before: B): B {
    if txs == [] then before else AppliedAll(txs[1..], n, Applied(txs[0], n, before))
  }

  /** The volume with a transaction applied to it. */
  function After<B>(tx: Tx<B>, d: Disk<B>): (r: Disk<B>)
    ensures |r| == |d|
    ensures forall n :: 0 <= n < |d| ==> r[n] == Applied(tx, n, d[n])
  {
    seq(|d|, n requires 0 <= n < |d| => Applied(tx, n, d[n]))
  }

  /** `d` shows content `b` in block `n`, up to the superblock's RECOVER bit. */
  ghost predicate Shows<B>(fmt: Format<B>, geo: Geometry, d: Disk<B>, n: nat, b: B)
    requires n < |d|
  {
    if n == geo.sbBlock then fmt.Settled(d[n]) == fmt.Settled(b) else d[n] == b
  }

  lemma {:induction false} AppliedIsWritten<B>(tx: Tx<B>, i: nat, before: B)
    requires i < |tx| && forall k :: i < k < |tx| ==> tx[k].home != tx[i].home
    ensures Applied(tx, tx[i].home, before) == tx[i].data
    decreases |tx|
  {
    if i < |tx| - 1 {
      AppliedIsWritten(tx[..|tx| - 1], i, before);
    }
  }

  lemma {:induction false} AppliedElsewhere<B>(tx: Tx<B>, n: nat, before: B)
    requires forall i :: 0 <= i < |tx| ==> tx[i].home != n
    ensures Applied(tx, n, before) == before
    decreases |tx|
  {
    if tx != [] {
      AppliedElsewhere(tx[..|tx| - 1], n, before);
    }
  }

  lemma {:induction false} HomeCopiesShape<B>(fmt: Format<B>, geo: Geometry, d: Disk<B>, q: Word, tx: Tx<B>, i: nat)
    requires WellPlaced(geo, |d|) && ValidTx(geo, |d|, tx) && i <= |tx| && HoldsTx(fmt, geo, d, q, tx)
    ensures var p := HomeCopies(fmt, tx, i, geo.first + 1 + i);
            CopiesOnly(geo, d, p) && ReturnCode(p) == 0 && Length(p) == |tx| - i
    decreases |tx| - i
  {
    if i < |tx| {
      HomeCopiesShape(fmt, geo, d, q, tx, i + 1);
      var at := geo.first + 1 + i;
      assert ReadLog(geo, d, at) == LogContent(fmt, geo, q, tx, at);
    }
  }

  lemma {:induction false} HomeCopiesElsewhere<B>(fmt: Format<B>, tx: Tx<B>, i: nat, j: nat, n: nat)
    requires i <= |tx| && forall k :: i <= k < |tx| ==> tx[k].home != n
    ensures LastCopy(HomeCopies(fmt, tx, i, j), n) == None
    decreases |tx| - i
  {
    if i < |tx| {
      HomeCopiesElsewhere(fmt, tx, i + 1, j + 1, n);
    }
  }

  lemma {:induction false} HomeCopiesOf<B>(fmt: Format<B>, tx: Tx<B>, i: nat, j: nat, k: nat)
    requires i <= k < |tx| && forall m :: k < m < |tx| ==> tx[m].home != tx[k].home
    ensures LastCopy(HomeCopies(fmt, tx, i, j), tx[k].home) == Some((j + (k - i), fmt.startsWithMagic(tx[k].data)))
    decreases |tx| - i
  {
    if i < k {
      HomeCopiesOf(fmt, tx, i + 1, j + 1, k);
    } else {
      HomeCopiesElsewhere(fmt, tx, i + 1, j + 1, tx[k].home);
    }
  }

  /** The last place of a transaction that lists a block. */
  lemma {:induction false} LastListed<B>(tx: Tx<B>, n: nat, k: nat) returns (i: nat)
    requires k <= |tx| && exists j :: 0 <= j < k && tx[j].home == n
    requires forall j :: k <= j < |tx| ==> tx[j].home != n
    ensures i < |tx| && tx[i].home == n && forall j :: i < j < |tx| ==> tx[j].home != n
    decreases k
  {
    if tx[k - 1].home == n {
      i := k - 1;
    } else {
      i := LastListed(tx, n, k - 1);
    }
  }

  /** The checkpoint's copies put the transaction's contents home. */
  lemma CopiedIsApplied<B(!new)>(fmt: Format<B>, geo: Geometry, d: Disk<B>, q: Word, tx: Tx<B>, n: nat)
    requires Lawful(fmt) && ValidTx(geo, |d|, tx) && HoldsTx(fmt, geo, d, q, tx) && n < |d|
    ensures Copied(fmt, geo, d, HomeCopies(fmt, tx, 0, geo.first + 1), n) == Applied(tx, n, d[n])
  {
    if exists i :: 0 <= i < |tx| && tx[i].home == n {
      var i := LastListed(tx, n, |tx|);
      AppliedIsWritten(tx, i, d[n]);
      HomeCopiesOf(fmt, tx, 0, geo.first + 1, i);
      var at := geo.first + 1 + i;
      assert ReadLog(geo, d, at) == LogContent(fmt, geo, q, tx, at) == Some(fmt.Logged(tx[i].data));
    } else {
      AppliedElsewhere(tx, n, d[n]);
      HomeCopiesElsewhere(fmt, tx, 0, geo.first + 1, n);
    }
  }

  // ---------------------------------------------------------------- one commit

  /** The journal is clean and nothing stale in the log can be taken for a transaction
      after `q`. */
  ghost predicate Ready<B>(fmt: Format<B>, geo: Geometry, d: Disk<B>, q: Word, room: nat) {
    && WellPlaced(geo, |d|)
    && fmt.jsbStart(Jsb(geo, d)) == 0
    && Quiet(fmt, geo, d, q, geo.maxlen + room)
  }

  lemma QuietLess<B>(fmt: Format<B>, geo: Geometry, d: Disk<B>, q: Word, room: nat, less: nat)
    requires Quiet(fmt, geo, d, q, room) && less <= room
    ensures Quiet(fmt, geo, d, q, less)
  {
  }

  /** Every home block of `d'` shows what it held in `d` with `tx` applied. */
  ghost predicate ShowsApplied<B>(fmt: Format<B>, geo: Geometry, d': Disk<B>, tx: Tx<B>, d: Disk<B>) {
    && |d'| == |d|
    && forall n :: 0 <= n < |d| && !InJournal(geo, n) ==> Shows(fmt, geo, d', n, Applied(tx, n, d[n]))
  }

  /** A complete mount leaves the journal clean and RECOVER clear. */
  lemma CompleteMountIsClean<B(!new)>(fmt: Format<B>, geo: Geometry, d: Disk<B>)
    requires Lawful(fmt) && Recoverable(fmt, geo, d)
    ensures var d' := Mount(fmt, geo, d, -1);
            fmt.jsbStart(Jsb(geo, d')) == 0 && !fmt.recover(d'[geo.sbBlock])
  {
    CompleteMount(fmt, geo, d);
    JsbIsLogBlockZero(geo, |d|);
    if fmt.jsbStart(Jsb(geo, d)) == 0 {
      assert ReplayProgram(fmt, geo, d) == Done(0);
    }
  }

  /** Cut before the journal superblock is written, a commit changes no home block. */
  lemma CutBeforeLanding<B(!new)>(fmt: Format<B>, geo: Geometry, d: Disk<B>, q: Word, tx: Tx<B>, budget: nat)
    requires Lawful(fmt) && WellPlaced(geo, |d|) && fmt.jsbStart(Jsb(geo, d)) == 0 && ValidTx(geo, |d|, tx)
    requires budget < LandingWrites(tx)
    ensures var d1 := Run(fmt, geo, d, budget, CommitProgram(fmt, geo, q, tx)).disk;
            && d1 == Run(fmt, geo, d, budget, LogProgram(fmt, geo, q, tx)).disk
            && Run(fmt, geo, d, budget, CommitProgram(fmt, geo, q, tx)).ending == IoError
            && Jsb(geo, d1) == Jsb(geo, d)
            && Recoverable(fmt, geo, d1)
            && ShowsApplied(fmt, geo, d1, [], d)
            && ShowsApplied(fmt, geo, Mount(fmt, geo, d1, -1), [], d)
  {
    var p := LogProgram(fmt, geo, q, tx);
    var next: Program<B> := Do(SetJsb(geo.first, q), CheckpointProgram(fmt, geo, q, tx));
    LogProgramShape(fmt, geo, q, tx);
    LogOnlyBudget(fmt, geo, d, budget, p);
    LogOnlyRun(fmt, geo, d, budget, p);
    RunAndThen(fmt, geo, d, budget, p, next);
    JsbIsLogBlockZero(geo, |d|);
    var d1 := Run(fmt, geo, d, budget, p).disk;
    MountOfClean(fmt, geo, d1);
  }

  /** A complete mount of a pending disk applies the transaction. */
  lemma PendingRecovers<B(!new)>(fmt: Format<B>, geo: Geometry, d: Disk<B>, q: Word, tx: Tx<B>)
    requires Lawful(fmt) && WellPlaced(geo, |d|) && ValidTx(geo, |d|, tx)
    requires Quiet(fmt, geo, d, q, geo.maxlen)
    ensures var p := Pending(fmt, geo, d, q, tx);
            && Recoverable(fmt, geo, p)
            && MountProgram(fmt, geo, p) == CheckpointProgram(fmt, geo, q, tx)
            && ShowsApplied(fmt, geo, Mount(fmt, geo, p, -1), tx, d)
  {
    hide Decide, Effect, Walk, LogProgram;
    var p := Pending(fmt, geo, d, q, tx);
    PendingFacts(fmt, geo, d, q, tx, geo.maxlen);
    PendingReplay(fmt, geo, p, q, tx);
    HomeCopiesShape(fmt, geo, p, q, tx, 0);
    CompleteMount(fmt, geo, p);
    CompletedCopies(fmt, geo, p, ReplayProgram(fmt, geo, p));
    JsbIsLogBlockZero(geo, |d|);
    forall n | 0 <= n < |d| && !InJournal(geo, n)
      ensures Shows(fmt, geo, Mount(fmt, geo, p, -1), n, Applied(tx, n, d[n]))
    {
      CopiedIsApplied(fmt, geo, p, q, tx, n);
      if n == geo.sbBlock {
        AppliedUpTo(fmt, geo, tx, n, p[n], d[n]);
      }
    }
  }

  /** A commit whose journal superblock landed continues as a mount of the pending disk. */
  lemma CutAfterLanding<B(!new)>(fmt: Format<B>, geo: Geometry, d: Disk<B>, q: Word, tx: Tx<B>, budget: int)
    requires WellPlaced(geo, |d|) && 0 < geo.first && geo.first + 1 + |tx| + 1 <= geo.maxlen
    requires budget < 0 || budget >= LandingWrites(tx)
    ensures Run(fmt, geo, d, budget, CommitProgram(fmt, geo, q, tx))
            == Run(fmt, geo, Pending(fmt, geo, d, q, tx), if budget < 0 then budget else budget - LandingWrites(tx),
                   CheckpointProgram(fmt, geo, q, tx))
  {
    var prog := LogProgram(fmt, geo, q, tx);
    LogProgramShape(fmt, geo, q, tx);
    LogOnlyBudget(fmt, geo, d, budget, prog);
    FinishedRunIsFinal(fmt, geo, d, budget, prog);
    RunAndThen(fmt, geo, d, budget, prog, Do(SetJsb(geo.first, q), CheckpointProgram(fmt, geo, q, tx)));
  }

  lemma {:induction false} AppliedUpTo<B>(fmt: Format<B>, geo: Geometry, tx: Tx<B>, n: nat, a: B, b: B)
    requires fmt.Settled(a) == fmt.Settled(b)
    ensures fmt.Settled(Applied(tx, n, a)) == fmt.Settled(Applied(tx, n, b))
    decreases |tx|
  {
    if tx != [] {
      AppliedUpTo(fmt, geo, tx[..|tx| - 1], n, a, b);
    }
  }

  lemma LandedIsMount<B(!new)>(fmt: Format<B>, geo: Geometry, d: Disk<B>, q: Word, tx: Tx<B>, budget: nat)
    requires WellPlaced(geo, |d|) && 0 < geo.first && geo.first + 1 + |tx| + 1 <= geo.maxlen
    requires MountProgram(fmt, geo, Pending(fmt, geo, d, q, tx)) == CheckpointProgram(fmt, geo, q, tx)
    requires budget >= LandingWrites(tx)
    ensures Run(fmt, geo, d, budget, CommitProgram(fmt, geo, q, tx)).disk
            == Mount(fmt, geo, Pending(fmt, geo, d, q, tx), budget - LandingWrites(tx))
  {
    hide CommitProgram, CheckpointProgram, MountProgram;
    CutAfterLanding(fmt, geo, d, q, tx, budget);
  }

  lemma CutCommitRecovers<B(!new)>(fmt: Format<B>, geo: Geometry, d: Disk<B>, q: Word, tx: Tx<B>, budget: nat)
    requires Lawful(fmt) && Ready(fmt, geo, d, q, 0) && ValidTx(geo, |d|, tx)
    ensures var d1 := Run(fmt, geo, d, budget, CommitProgram(fmt, geo, q, tx)).disk;
            && Recoverable(fmt, geo, d1)
            && ShowsApplied(fmt, geo, Mount(fmt, geo, d1, -1), if budget >= LandingWrites(tx) then tx else [], d)
  {
    hide Recoverable, CommitProgram, Mount, Quiet, Lawful, Run, CheckpointProgram, MountProgram;
    if budget < LandingWrites(tx) {
      CutBeforeLanding(fmt, geo, d, q, tx, budget);
    } else {
      PendingRecovers(fmt, geo, d, q, tx);
      LandedIsMount(fmt, geo, d, q, tx, budget);
      InterruptedMount(fmt, geo, Pending(fmt, geo, d, q, tx), budget - LandingWrites(tx));
    }
  }

  /** Crash atomicity. Cut a commit after any number of block writes, mount any number of
      times with interruptions of their own, then once completely: every home block is new
      if the journal-superblock write landed, every one is old if it did not, the journal
      is clean and RECOVER is clear. */
  lemma CommitIsAtomic<B(!new)>(fmt: Format<B>, geo: Geometry, d: Disk<B>, q: Word, tx: Tx<B>,
                                budget: nat, mounts: seq<nat>)
    requires Lawful(fmt) && Ready(fmt, geo, d, q, 0) && ValidTx(geo, |d|, tx)
    ensures var d1 := Run(fmt, geo, d, budget, CommitProgram(fmt, geo, q, tx)).disk;
            var d3 := Mount(fmt, geo, Mounts(fmt, geo, d1, mounts), -1);
            && ShowsApplied(fmt, geo, d3, if budget >= LandingWrites(tx) then tx else [], d)
            && fmt.jsbStart(Jsb(geo, d3)) == 0 && !fmt.recover(d3[geo.sbBlock])
  {
    var d1 := Run(fmt, geo, d, budget, CommitProgram(fmt, geo, q, tx)).disk;
    CutCommitRecovers(fmt, geo, d, q, tx, budget);
    InterruptedMounts(fmt, geo, d1, mounts);
    CompleteMountIsClean(fmt, geo, Mounts(fmt, geo, d1, mounts));
  }
}
