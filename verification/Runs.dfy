/** Whole runs: sessions of commits, each cut at any write, separated by interrupted
    mounts. The disk always holds exactly the transactions that landed, in order. */
module Runs {
  import opened Words
  import opened LogFormat
  import opened LogWalk
  import opened Programs
  import opened Recovery
  import opened Convergence
  import opened Commit
  import opened CrashSafety

  /** Commits one after the other; each takes the next sequence number. */
  function SessionProgram<B>(fmt: Format<B>, geo: Geometry, q: Word, txs: seq<Tx<B>>): Program<B>
    decreases |txs|
  {
    if txs == [] then Done(0)
    else AndThen(CommitProgram(fmt, geo, q, txs[0]), SessionProgram(fmt, geo, Plus(q, 1), txs[1..]))
  }

  /** How many transactions of a session land within `budget` block writes. */
  function Landed<B>(txs: seq<Tx<B>>, budget: nat): (n: nat)
    ensures n <= |txs|
    decreases |txs|
  {
    if txs == [] || budget < LandingWrites(txs[0]) then 0
    else if budget < AllWrites(txs[0]) then 1
    else 1 + Landed(txs[1..], budget - AllWrites(txs[0]))
  }

  /** A session cut after `budget` writes, and the budgets of the interrupted mounts that
      follow before one completes. */
  datatype Round<B> = Round(txs: seq<Tx<B>>, budget: nat, mounts: seq<nat>)

  ghost predicate ValidRound<B>(geo: Geometry, size: nat, r: Round<B>) {
    forall i :: 0 <= i < |r.txs| ==> ValidTx(geo, size, r.txs[i])
  }

  function AfterRound<B>(fmt: Format<B>, geo: Geometry, d: Disk<B>, r: Round<B>): (r': Disk<B>)
    requires geo.extents != [] && JsbBlock(geo) < |d| && geo.sbBlock < |d|
    ensures |r'| == |d|
  {
    var cut := Run(fmt, geo, d, r.budget, SessionProgram(fmt, geo, fmt.jsbSequence(Jsb(geo, d)), r.txs)).disk;
    Mount(fmt, geo, Mounts(fmt, geo, cut, r.mounts), -1)
  }

  function AfterRounds<B>(fmt: Format<B>, geo: Geometry, d: Disk<B>, rs: seq<Round<B>>): (r': Disk<B>)
    requires geo.extents != [] && JsbBlock(geo) < |d| && geo.sbBlock < |d|
    ensures |r'| == |d|
    decreases |rs|
  {
    if rs == [] then d else AfterRounds(fmt, geo, AfterRound(fmt, geo, d, rs[0]), rs[1..])
  }

  /** The transactions that landed in the rounds, in order. */
  function AllLanded<B>(rs: seq<Round<B>>): seq<Tx<B>>
    decreases |rs|
  {
    if rs == [] then [] else rs[0].txs[..Landed(rs[0].txs, rs[0].budget)] + AllLanded(rs[1..])
  }

  function TransactionsIn<B>(rs: seq<Round<B>>): nat
    decreases |rs|
  {
    if rs == [] then 0 else |rs[0].txs| + TransactionsIn(rs[1..])
  }

  /** Every home block of `d'` shows what it held in `d` with `txs` applied in order. */
  ghost predicate ShowsAll<B>(fmt: Format<B>, geo: Geometry, d': Disk<B>, txs: seq<Tx<B>>, d: Disk<B>) {
    && |d'| == |d|
    && forall n :: 0 <= n < |d| && !InJournal(geo, n) ==> Shows(fmt, geo, d', n, AppliedAll(txs, n, d[n]))
  }

  // ---------------------------------------------------------------- sequence numbers

  lemma QuietLater<B>(fmt: Format<B>, geo: Geometry, d: Disk<B>, q: Word, room: nat, i: nat)
    requires Quiet(fmt, geo, d, q, room) && i <= room < 0x8000_0000
    ensures Quiet(fmt, geo, d, Plus(q, i), room - i)
  {
    forall j: nat | geo.first < j < geo.maxlen && ReadLog(geo, d, j).Some?
      ensures !Acts(fmt.parse(ReadLog(geo, d, j).value), Plus(q, i), room - i)
    {
      assert !Acts(fmt.parse(ReadLog(geo, d, j).value), q, room);
    }
  }

  lemma QuietSameLog<B>(fmt: Format<B>, geo: Geometry, d: Disk<B>, d': Disk<B>, q: Word, room: nat)
    requires SameLog(geo, d, d') && Quiet(fmt, geo, d, q, room)
    ensures Quiet(fmt, geo, d', q, room)
  {
  }

  /** Mounts leave the log and the recorded sequence number alone. */
  lemma MountKeepsLog<B(!new)>(fmt: Format<B>, geo: Geometry, d: Disk<B>, budget: int)
    requires Lawful(fmt) && Recoverable(fmt, geo, d)
    ensures var d' := Mount(fmt, geo, d, budget);
            SameLog(geo, d, d') && fmt.jsbSequence(Jsb(geo, d')) == fmt.jsbSequence(Jsb(geo, d))
  {
    var p, q := ReplayProgram(fmt, geo, d), fmt.jsbSequence(Jsb(geo, d));
    var next: Program<B> := if fmt.recover(d[geo.sbBlock]) || fmt.jsbStart(Jsb(geo, d)) != 0 then Cleanup(q) else Done(0);
    var first := Run(fmt, geo, d, budget, p);
    RunAndThen(fmt, geo, d, budget, p, next);
    InterruptedCopies(fmt, geo, d, budget, p);
    CopiesKeepReplay(fmt, geo, d, budget);
    CleanupRuns(fmt, geo, first.disk, first.budget, q);
    CleanedKeepsLog(fmt, geo, first.disk, q);
  }

  lemma CleanedKeepsLog<B(!new)>(fmt: Format<B>, geo: Geometry, d: Disk<B>, q: Word)
    requires Lawful(fmt) && WellPlaced(geo, |d|)
    ensures var d1 := d[JsbBlock(geo) := fmt.setJsb(Jsb(geo, d), 0, q)];
            SameLog(geo, d, d1) && fmt.jsbSequence(Jsb(geo, d1)) == q
    ensures var d2 := Cleaned(fmt, geo, d, q);
            SameLog(geo, d, d2) && fmt.jsbSequence(Jsb(geo, d2)) == q
  {
    JsbIsLogBlockZero(geo, |d|);
    var d1 := d[JsbBlock(geo) := fmt.setJsb(Jsb(geo, d), 0, q)];
    WriteOutsideLog(geo, d, JsbBlock(geo), Jsb(geo, d1));
    WriteOutsideLog(geo, d1, geo.sbBlock, fmt.setRecover(d1[geo.sbBlock], false));
  }

  lemma {:induction false} MountsKeepLog<B(!new)>(fmt: Format<B>, geo: Geometry, d: Disk<B>, budgets: seq<nat>)
    requires Lawful(fmt) && Recoverable(fmt, geo, d)
    ensures var d' := Mounts(fmt, geo, d, budgets);
            && SameLog(geo, d, d') && fmt.jsbSequence(Jsb(geo, d')) == fmt.jsbSequence(Jsb(geo, d))
            && Recoverable(fmt, geo, d')
    decreases |budgets|
  {
    if budgets != [] {
      MountKeepsLog(fmt, geo, d, budgets[0]);
      InterruptedMount(fmt, geo, d, budgets[0]);
      MountsKeepLog(fmt, geo, Mount(fmt, geo, d, budgets[0]), budgets[1..]);
    }
  }

  // ---------------------------------------------------------------- one commit of a session

  lemma {:induction false} CopiesBudget<B>(fmt: Format<B>, geo: Geometry, d: Disk<B>, budget: nat, p: Program<B>)
    requires WellPlaced(geo, |d|) && CopiesOnly(geo, d, p) && ReturnCode(p) == 0
    ensures var r := Run(fmt, geo, d, budget, p);
            if budget >= Length(p) then r.ending == Finished(0) && r.budget == budget - Length(p)
            else r.ending == IoError
    decreases p
  {
    if p.Do? && budget != 0 {
      var home := p.step.home;
      var b := fmt.Unlogged(ReadLog(geo, d, p.step.at).value, p.step.escaped);
      HomeIsNotTruncated(geo, |d|, home);
      WriteOutsideLog(geo, d, home, b);
      CopiesDependOnLog(geo, d, d[home := b], p.rest);
      CopiesBudget(fmt, geo, d[home := b], budget - 1, p.rest);
    }
  }

  lemma CleanupBudget<B>(fmt: Format<B>, geo: Geometry, d: Disk<B>, budget: nat, q: Word)
    requires WellPlaced(geo, |d|)
    ensures var r := Run(fmt, geo, d, budget, Cleanup(q));
            if budget >= 2 then r.ending == Finished(0) && r.budget == budget - 2 else r.ending == IoError
  {
    var d1 := d[JsbBlock(geo) := fmt.setJsb(Jsb(geo, d), 0, q)];
    var clear: Step<B> := SetRecover(false);
    var last: Program<B> := Do(clear, Done(0));
    assert Effect(fmt, geo, d1, clear).Some?;
    if budget != 0 {
      assert Run(fmt, geo, d, budget, Cleanup(q)) == Run(fmt, geo, d1, budget - 1, last);
    }
  }

  lemma CheckpointBudget<B>(fmt: Format<B>, geo: Geometry, p: Disk<B>, q: Word, tx: Tx<B>, budget: nat)
    requires WellPlaced(geo, |p|) && ValidTx(geo, |p|, tx) && HoldsTx(fmt, geo, p, q, tx)
    ensures var r := Run(fmt, geo, p, budget, CheckpointProgram(fmt, geo, q, tx));
            if budget >= |tx| + 2 then r.ending == Finished(0) && r.budget == budget - (|tx| + 2)
            else r.ending == IoError
  {
    var copies := HomeCopies(fmt, tx, 0, geo.first + 1);
    HomeCopiesShape(fmt, geo, p, q, tx, 0);
    CopiesBudget(fmt, geo, p, budget, copies);
    RunAndThen(fmt, geo, p, budget, copies, Cleanup(q));
    if budget >= |tx| {
      CleanupBudget(fmt, geo, Run(fmt, geo, p, budget, copies).disk, budget - |tx|, q);
    }
  }

  /** A commit cut after it landed: the journal is recoverable and still quiet, and its
      recovery applies the transaction. */
  lemma LandedCommit<B(!new)>(fmt: Format<B>, geo: Geometry, d: Disk<B>, q: Word, tx: Tx<B>, budget: nat, room: nat)
    requires Lawful(fmt) && Ready(fmt, geo, d, q, room) && ValidTx(geo, |d|, tx)
    requires budget >= LandingWrites(tx)
    ensures var d1 := Run(fmt, geo, d, budget, CommitProgram(fmt, geo, q, tx)).disk;
            && Recoverable(fmt, geo, d1)
            && Quiet(fmt, geo, d1, q, geo.maxlen + room)
            && fmt.jsbSequence(Jsb(geo, d1)) == q
            && ShowsApplied(fmt, geo, Mount(fmt, geo, d1, -1), tx, d)
  {
    hide Lawful, ShowsApplied, Run, CommitProgram, Mount, MountProgram, Recoverable, CheckpointProgram, Quiet;
    var d1 := Run(fmt, geo, d, budget, CommitProgram(fmt, geo, q, tx)).disk;
    var p := Pending(fmt, geo, d, q, tx);
    var rest := budget - LandingWrites(tx);
    QuietLess(fmt, geo, d, q, geo.maxlen + room, geo.maxlen);
    PendingRecovers(fmt, geo, d, q, tx);
    LandedIsMount(fmt, geo, d, q, tx, budget);
    InterruptedMount(fmt, geo, p, rest);
    assert Quiet(fmt, geo, d1, q, geo.maxlen + room) && fmt.jsbSequence(Jsb(geo, d1)) == q by {
      PendingFacts(fmt, geo, d, q, tx, geo.maxlen + room);
      MountKeepsLog(fmt, geo, p, rest);
      QuietSameLog(fmt, geo, p, d1, q, geo.maxlen + room);
    }
    ShowsUpToRecover(fmt, geo, d, tx, Mount(fmt, geo, p, -1), Mount(fmt, geo, d1, -1));
  }

  lemma ShowsUpToRecover<B>(fmt: Format<B>, geo: Geometry, d: Disk<B>, tx: Tx<B>, d1: Disk<B>, d2: Disk<B>)
    requires ShowsApplied(fmt, geo, d1, tx, d) && EqualButRecover(fmt, geo, d2, d1)
    ensures ShowsApplied(fmt, geo, d2, tx, d)
  {
    forall n | 0 <= n < |d| && !InJournal(geo, n)
      ensures Shows(fmt, geo, d2, n, Applied(tx, n, d[n]))
    {
      assert Shows(fmt, geo, d1, n, Applied(tx, n, d[n]));
    }
  }

  /** A commit finishes exactly when the device accepts all its writes, and then leaves a
      clean journal with the transaction applied. */
  lemma FinishedCommit<B(!new)>(fmt: Format<B>, geo: Geometry, d: Disk<B>, q: Word, tx: Tx<B>, budget: nat, room: nat)
    requires Lawful(fmt) && Ready(fmt, geo, d, q, room) && ValidTx(geo, |d|, tx)
    ensures var r := Run(fmt, geo, d, budget, CommitProgram(fmt, geo, q, tx));
            if budget < AllWrites(tx) then r.ending == IoError
            else
              && r.ending == Finished(0) && r.budget == budget - AllWrites(tx)
              && fmt.jsbStart(Jsb(geo, r.disk)) == 0
              && ShowsApplied(fmt, geo, r.disk, tx, d)
  {
    hide Lawful, HoldsTx, MountProgram, Recoverable, CommitProgram, CheckpointProgram, Quiet, ShowsApplied;
    if budget < LandingWrites(tx) {
      CutBeforeLanding(fmt, geo, d, q, tx, budget);
    } else {
      var p := Pending(fmt, geo, d, q, tx);
      var rest := budget - LandingWrites(tx);
      QuietLess(fmt, geo, d, q, geo.maxlen + room, geo.maxlen);
      PendingRecovers(fmt, geo, d, q, tx);
      CutAfterLanding(fmt, geo, d, q, tx, budget);
      assert HoldsTx(fmt, geo, p, q, tx) by {
        PendingFacts(fmt, geo, d, q, tx, geo.maxlen);
      }
      CheckpointBudget(fmt, geo, p, q, tx, rest);
      FinishedRunIsFinal(fmt, geo, p, rest, CheckpointProgram(fmt, geo, q, tx));
      CompleteMountIsClean(fmt, geo, p);
    }
  }

  // ---------------------------------------------------------------- sessions and rounds

  lemma {:induction false} AppliedAllUpTo<B>(fmt: Format<B>, geo: Geometry, txs: seq<Tx<B>>, n: nat, a: B, b: B)
    requires fmt.Settled(a) == fmt.Settled(b)
    ensures fmt.Settled(AppliedAll(txs, n, a)) == fmt.Settled(AppliedAll(txs, n, b))
    decreases |txs|
  {
    if txs != [] {
      AppliedUpTo(fmt, geo, txs[0], n, a, b);
      AppliedAllUpTo(fmt, geo, txs[1..], n, Applied(txs[0], n, a), Applied(txs[0], n, b));
    }
  }

  lemma {:induction false} AppliedAllConcat<B>(a: seq<Tx<B>>, b: seq<Tx<B>>, n: nat, before: B)
    ensures AppliedAll(a + b, n, before) == AppliedAll(b, n, AppliedAll(a, n, before))
    decreases |a|
  {
    if a == [] {
      assert a + b == b;
    } else {
      assert (a + b)[1..] == a[1..] + b;
      AppliedAllConcat(a[1..], b, n, Applied(a[0], n, before));
    }
  }

  /** What is shown composes: first `a`, then `b`. */
  lemma ShowsThen<B>(fmt: Format<B>, geo: Geometry, d: Disk<B>, a: seq<Tx<B>>, d1: Disk<B>, b: seq<Tx<B>>, d2: Disk<B>)
    requires ShowsAll(fmt, geo, d1, a, d) && ShowsAll(fmt, geo, d2, b, d1)
    ensures ShowsAll(fmt, geo, d2, a + b, d)
  {
    forall n | 0 <= n < |d| && !InJournal(geo, n)
      ensures Shows(fmt, geo, d2, n, AppliedAll(a + b, n, d[n]))
    {
      AppliedAllConcat(a, b, n, d[n]);
      assert Shows(fmt, geo, d1, n, AppliedAll(a, n, d[n]));
      assert Shows(fmt, geo, d2, n, AppliedAll(b, n, d1[n]));
      if n == geo.sbBlock {
        AppliedAllUpTo(fmt, geo, b, n, d1[n], AppliedAll(a, n, d[n]));
      }
    }
  }

  lemma ShowsOne<B>(fmt: Format<B>, geo: Geometry, d: Disk<B>, tx: Tx<B>, d1: Disk<B>)
    requires ShowsApplied(fmt, geo, d1, tx, d)
    ensures ShowsAll(fmt, geo, d1, [tx], d)
  {
    forall n | 0 <= n < |d| && !InJournal(geo, n)
      ensures Shows(fmt, geo, d1, n, AppliedAll([tx], n, d[n]))
    {
      assert AppliedAll([tx], n, d[n]) == AppliedAll([], n, Applied(tx, n, d[n]));
    }
  }

  lemma ShowsNone<B>(fmt: Format<B>, geo: Geometry, d: Disk<B>, d1: Disk<B>)
    requires ShowsApplied(fmt, geo, d1, [], d)
    ensures ShowsAll(fmt, geo, d1, [], d)
  {
    forall n | 0 <= n < |d| && !InJournal(geo, n)
      ensures Shows(fmt, geo, d1, n, AppliedAll([], n, d[n]))
    {
      assert Shows(fmt, geo, d1, n, Applied<B>([], n, d[n]));
    }
  }

  lemma EmptySession<B(!new)>(fmt: Format<B>, geo: Geometry, d: Disk<B>)
    requires Lawful(fmt) && WellPlaced(geo, |d|) && fmt.jsbStart(Jsb(geo, d)) == 0
    ensures Recoverable(fmt, geo, d)
    ensures ShowsAll(fmt, geo, Mount(fmt, geo, d, -1), [], d)
  {
    MountOfClean(fmt, geo, d);
    JsbIsLogBlockZero(geo, |d|);
    ShowsNone(fmt, geo, d, Mount(fmt, geo, d, -1));
  }

  lemma CutSessionBeforeLanding<B(!new)>(fmt: Format<B>, geo: Geometry, d: Disk<B>, q: Word, tx: Tx<B>,
                                         budget: nat, room: nat)
    requires Lawful(fmt) && WellPlaced(geo, |d|) && fmt.jsbStart(Jsb(geo, d)) == 0 && ValidTx(geo, |d|, tx)
    requires Quiet(fmt, geo, d, fmt.jsbSequence(Jsb(geo, d)), geo.maxlen + room)
    requires budget < LandingWrites(tx)
    ensures var d1 := Run(fmt, geo, d, budget, CommitProgram(fmt, geo, q, tx)).disk;
            && Recoverable(fmt, geo, d1)
            && Quiet(fmt, geo, d1, fmt.jsbSequence(Jsb(geo, d1)), geo.maxlen + room)
            && ShowsAll(fmt, geo, Mount(fmt, geo, d1, -1), [], d)
  {
    CutBeforeLanding(fmt, geo, d, q, tx, budget);
    LogWritesKeepQuiet(fmt, geo, d, q, tx, budget, fmt.jsbSequence(Jsb(geo, d)), geo.maxlen + room);
    ShowsNone(fmt, geo, d, Mount(fmt, geo, Run(fmt, geo, d, budget, CommitProgram(fmt, geo, q, tx)).disk, -1));
  }

  lemma CutSessionAfterLanding<B(!new)>(fmt: Format<B>, geo: Geometry, d: Disk<B>, q: Word, tx: Tx<B>,
                                        budget: nat, n: nat, room: nat)
    requires Lawful(fmt) && Ready(fmt, geo, d, q, n + room) && ValidTx(geo, |d|, tx)
    requires n > 0 && geo.maxlen + n + room < 0x8000_0000
    requires budget >= LandingWrites(tx)
    ensures var d1 := Run(fmt, geo, d, budget, CommitProgram(fmt, geo, q, tx)).disk;
            && Recoverable(fmt, geo, d1)
            && fmt.jsbSequence(Jsb(geo, d1)) == q
            && Quiet(fmt, geo, d1, q, geo.maxlen + room)
            && Quiet(fmt, geo, d1, Plus(q, 1), geo.maxlen + (n - 1) + room)
            && ShowsAll(fmt, geo, Mount(fmt, geo, d1, -1), [tx], d)
  {
    var d1 := Run(fmt, geo, d, budget, CommitProgram(fmt, geo, q, tx)).disk;
    LandedCommit(fmt, geo, d, q, tx, budget, n + room);
    QuietLess(fmt, geo, d1, q, geo.maxlen + n + room, geo.maxlen + room);
    QuietLater(fmt, geo, d1, q, geo.maxlen + n + room, 1);
    ShowsOne(fmt, geo, d, tx, Mount(fmt, geo, d1, -1));
  }

  lemma JoinSession<B>(fmt: Format<B>, geo: Geometry, d: Disk<B>, txs: seq<Tx<B>>, d1: Disk<B>, n: nat, d2: Disk<B>)
    requires 0 < |txs| && n < |txs|
    requires ShowsApplied(fmt, geo, d1, txs[0], d) && ShowsAll(fmt, geo, d2, txs[1..][..n], d1)
    ensures ShowsAll(fmt, geo, d2, txs[..1 + n], d)
  {
    ShowsOne(fmt, geo, d, txs[0], d1);
    ShowsThen(fmt, geo, d, [txs[0]], d1, txs[1..][..n], d2);
    assert txs[..1 + n] == [txs[0]] + txs[1..][..n];
  }

  /** The disk at the moment a session is cut is recoverable; what its recovery will show
      is the landed prefix of the session. */
  lemma {:induction false} CutSession<B(!new)>(fmt: Format<B>, geo: Geometry, d: Disk<B>, q: Word,
                                               txs: seq<Tx<B>>, budget: nat, room: nat)
    requires Lawful(fmt) && Ready(fmt, geo, d, q, |txs| + room)
    requires geo.maxlen + |txs| + room < 0x8000_0000
    requires Quiet(fmt, geo, d, fmt.jsbSequence(Jsb(geo, d)), geo.maxlen + room)
    requires forall i :: 0 <= i < |txs| ==> ValidTx(geo, |d|, txs[i])
    ensures var d1 := Run(fmt, geo, d, budget, SessionProgram(fmt, geo, q, txs)).disk;
            && Recoverable(fmt, geo, d1)
            && Quiet(fmt, geo, d1, fmt.jsbSequence(Jsb(geo, d1)), geo.maxlen + room)
            && ShowsAll(fmt, geo, Mount(fmt, geo, d1, -1), txs[..Landed(txs, budget)], d)
    decreases |txs|
  {
    hide Mount, Recoverable, CommitProgram, Quiet, ShowsAll, ShowsApplied;
    if txs == [] {
      EmptySession(fmt, geo, d);
    } else {
      RunAndThen(fmt, geo, d, budget, CommitProgram(fmt, geo, q, txs[0]), SessionProgram(fmt, geo, Plus(q, 1), txs[1..]));
      FinishedCommit(fmt, geo, d, q, txs[0], budget, |txs| + room);
      if budget < LandingWrites(txs[0]) {
        CutSessionBeforeLanding(fmt, geo, d, q, txs[0], budget, room);
      } else if budget < AllWrites(txs[0]) {
        CutSessionAfterLanding(fmt, geo, d, q, txs[0], budget, |txs|, room);
        assert txs[..1] == [txs[0]];
      } else {
        var r := Run(fmt, geo, d, budget, CommitProgram(fmt, geo, q, txs[0]));
        CutSessionAfterLanding(fmt, geo, d, q, txs[0], budget, |txs|, room);
        CutSession(fmt, geo, r.disk, Plus(q, 1), txs[1..], r.budget, room);
        JoinSession(fmt, geo, d, txs, r.disk, Landed(txs[1..], r.budget),
                    Mount(fmt, geo, Run(fmt, geo, d, budget, SessionProgram(fmt, geo, q, txs)).disk, -1));
      }
    }
  }

  /** Recovery and one complete mount after each session, over any number of rounds, show
      exactly the transactions that landed, in order; the journal is ready again. */
  lemma {:induction false} RoundsAreAtomic<B(!new)>(fmt: Format<B>, geo: Geometry, d: Disk<B>, rs: seq<Round<B>>)
    requires Lawful(fmt) && WellPlaced(geo, |d|) && Ready(fmt, geo, d, fmt.jsbSequence(Jsb(geo, d)), TransactionsIn(rs))
    requires geo.maxlen + TransactionsIn(rs) < 0x8000_0000
    requires forall i :: 0 <= i < |rs| ==> ValidRound(geo, |d|, rs[i])
    ensures var d' := AfterRounds(fmt, geo, d, rs);
            && ShowsAll(fmt, geo, d', AllLanded(rs), d)
            && fmt.jsbStart(Jsb(geo, d')) == 0
            && (rs != [] ==> !fmt.recover(d'[geo.sbBlock]))
    decreases |rs|
  {
    if rs == [] {
      forall n | 0 <= n < |d| && !InJournal(geo, n)
        ensures Shows(fmt, geo, d, n, AppliedAll([], n, d[n]))
      {
      }
    } else {
      var d1 := AfterRound(fmt, geo, d, rs[0]);
      OneRound(fmt, geo, d, rs[0], TransactionsIn(rs[1..]));
      RoundsAreAtomic(fmt, geo, d1, rs[1..]);
      ShowsThen(fmt, geo, d, rs[0].txs[..Landed(rs[0].txs, rs[0].budget)], d1, AllLanded(rs[1..]),
                AfterRounds(fmt, geo, d, rs));
    }
  }

  lemma OneRound<B(!new)>(fmt: Format<B>, geo: Geometry, d: Disk<B>, r: Round<B>, room: nat)
    requires Lawful(fmt) && WellPlaced(geo, |d|) && Ready(fmt, geo, d, fmt.jsbSequence(Jsb(geo, d)), |r.txs| + room)
    requires geo.maxlen + |r.txs| + room < 0x8000_0000 && ValidRound(geo, |d|, r)
    ensures var d' := AfterRound(fmt, geo, d, r);
            && Ready(fmt, geo, d', fmt.jsbSequence(Jsb(geo, d')), room)
            && ShowsAll(fmt, geo, d', r.txs[..Landed(r.txs, r.budget)], d)
            && !fmt.recover(d'[geo.sbBlock])
  {
    var q := fmt.jsbSequence(Jsb(geo, d));
    var cut := Run(fmt, geo, d, r.budget, SessionProgram(fmt, geo, q, r.txs)).disk;
    QuietLess(fmt, geo, d, q, geo.maxlen + |r.txs| + room, geo.maxlen + room);
    CutSession(fmt, geo, d, q, r.txs, r.budget, room);
    var m := Mounts(fmt, geo, cut, r.mounts);
    MountsKeepLog(fmt, geo, cut, r.mounts);
    MountKeepsLog(fmt, geo, m, -1);
    CompleteMountIsClean(fmt, geo, m);
    InterruptedMounts(fmt, geo, cut, r.mounts);
    var d' := AfterRound(fmt, geo, d, r);
    QuietSameLog(fmt, geo, cut, d', fmt.jsbSequence(Jsb(geo, cut)), geo.maxlen + room);
    ShowsEqual(fmt, geo, d, r.txs[..Landed(r.txs, r.budget)], Mount(fmt, geo, cut, -1), d');
  }

  lemma ShowsEqual<B>(fmt: Format<B>, geo: Geometry, d: Disk<B>, txs: seq<Tx<B>>, d1: Disk<B>, d2: Disk<B>)
    requires ShowsAll(fmt, geo, d1, txs, d) && EqualButRecover(fmt, geo, d2, d1)
    ensures ShowsAll(fmt, geo, d2, txs, d)
  {
    forall n | 0 <= n < |d| && !InJournal(geo, n)
      ensures Shows(fmt, geo, d2, n, AppliedAll(txs, n, d[n]))
    {
      assert Shows(fmt, geo, d1, n, AppliedAll(txs, n, d[n]));
    }
  }

  // ---------------------------------------------------------------- runs without end

  /** Past block `first` the log holds no descriptor or revoke header at all. */
  ghost predicate Silent<B>(fmt: Format<B>, geo: Geometry, d: Disk<B>) {
    forall j: nat :: geo.first < j < geo.maxlen && ReadLog(geo, d, j).Some? ==>
      var b := fmt.parse(ReadLog(geo, d, j).value);
      b.Header? ==> !b.kind.Descriptor? && !b.kind.Revoke?
  }

  /** Such a log, and no other, is quiet for every sequence number and any distance. */
  lemma SilentIffAlwaysQuiet<B>(fmt: Format<B>, geo: Geometry, d: Disk<B>)
    ensures Silent(fmt, geo, d) <==> forall q: Word, room: nat :: Quiet(fmt, geo, d, q, room)
  {
    if !Silent(fmt, geo, d) {
      var j: nat :| geo.first < j < geo.maxlen && ReadLog(geo, d, j).Some?
                    && var b := fmt.parse(ReadLog(geo, d, j).value);
                       b.Header? && (b.kind.Descriptor? || b.kind.Revoke?);
      var b := fmt.parse(ReadLog(geo, d, j).value);
      assert Acts(b, Minus1(b.seqno), 1);
      assert !Quiet(fmt, geo, d, Minus1(b.seqno), 1);
    }
  }

  lemma SilentSameLog<B>(fmt: Format<B>, geo: Geometry, d: Disk<B>, d': Disk<B>)
    requires SameLog(geo, d, d') && Silent(fmt, geo, d)
    ensures Silent(fmt, geo, d')
  {
  }

  lemma SilentIsReady<B>(fmt: Format<B>, geo: Geometry, d: Disk<B>, q: Word)
    requires WellPlaced(geo, |d|) && Silent(fmt, geo, d) && fmt.jsbStart(Jsb(geo, d)) == 0
    ensures Ready(fmt, geo, d, q, 0)
  {
    SilentIffAlwaysQuiet(fmt, geo, d);
  }

  lemma LogWritesKeepSilent<B(!new)>(fmt: Format<B>, geo: Geometry, d: Disk<B>, q: Word, tx: Tx<B>, budget: int)
    requires Lawful(fmt) && WellPlaced(geo, |d|) && ValidTx(geo, |d|, tx) && Silent(fmt, geo, d)
    ensures Silent(fmt, geo, Run(fmt, geo, d, budget, LogProgram(fmt, geo, q, tx)).disk)
  {
    hide Quiet, Silent, Lawful, Run, LogProgram;
    SilentIffAlwaysQuiet(fmt, geo, d);
    var d1 := Run(fmt, geo, d, budget, LogProgram(fmt, geo, q, tx)).disk;
    forall q0: Word, room: nat ensures Quiet(fmt, geo, d1, q0, room) {
      LogWritesKeepQuiet(fmt, geo, d, q, tx, budget, q0, room);
    }
    SilentIffAlwaysQuiet(fmt, geo, d1);
  }

  /** A commit cut anywhere keeps the log silent. */
  lemma CommitKeepsSilent<B(!new)>(fmt: Format<B>, geo: Geometry, d: Disk<B>, q: Word, tx: Tx<B>, budget: nat)
    requires Lawful(fmt) && Ready(fmt, geo, d, q, 0) && ValidTx(geo, |d|, tx) && Silent(fmt, geo, d)
    ensures Silent(fmt, geo, Run(fmt, geo, d, budget, CommitProgram(fmt, geo, q, tx)).disk)
  {
    hide Quiet, Silent, Lawful, CommitProgram, CheckpointProgram, MountProgram, Recoverable, Run, LogProgram;
    if budget < LandingWrites(tx) {
      CutBeforeLanding(fmt, geo, d, q, tx, budget);
      LogWritesKeepSilent(fmt, geo, d, q, tx, budget);
    } else {
      var d1 := Final(fmt, geo, d, LogProgram(fmt, geo, q, tx));
      var p := Pending(fmt, geo, d, q, tx);
      LogWritesKeepSilent(fmt, geo, d, q, tx, -1);
      WriteOutsideLog(geo, d1, JsbBlock(geo), Jsb(geo, p));
      SilentSameLog(fmt, geo, d1, p);
      PendingRecovers(fmt, geo, d, q, tx);
      LandedIsMount(fmt, geo, d, q, tx, budget);
      MountKeepsLog(fmt, geo, p, budget - LandingWrites(tx));
      SilentSameLog(fmt, geo, p, Run(fmt, geo, d, budget, CommitProgram(fmt, geo, q, tx)).disk);
    }
  }

  /** The disk at the moment a session is cut, whatever its length. */
  lemma {:induction false} CutSilentSession<B(!new)>(fmt: Format<B>, geo: Geometry, d: Disk<B>, q: Word,
                                                     txs: seq<Tx<B>>, budget: nat)
    requires Lawful(fmt) && WellPlaced(geo, |d|) && Silent(fmt, geo, d) && fmt.jsbStart(Jsb(geo, d)) == 0
    requires forall i :: 0 <= i < |txs| ==> ValidTx(geo, |d|, txs[i])
    ensures var d1 := Run(fmt, geo, d, budget, SessionProgram(fmt, geo, q, txs)).disk;
            && Recoverable(fmt, geo, d1)
            && Silent(fmt, geo, d1)
            && ShowsAll(fmt, geo, Mount(fmt, geo, d1, -1), txs[..Landed(txs, budget)], d)
    decreases |txs|
  {
    hide Mount, Recoverable, CommitProgram, Quiet, Silent, ShowsAll, ShowsApplied;
    if txs == [] {
      EmptySession(fmt, geo, d);
    } else {
      RunAndThen(fmt, geo, d, budget, CommitProgram(fmt, geo, q, txs[0]), SessionProgram(fmt, geo, Plus(q, 1), txs[1..]));
      SilentIsReady(fmt, geo, d, q);
      FinishedCommit(fmt, geo, d, q, txs[0], budget, 0);
      CommitKeepsSilent(fmt, geo, d, q, txs[0], budget);
      var r := Run(fmt, geo, d, budget, CommitProgram(fmt, geo, q, txs[0]));
      if budget < LandingWrites(txs[0]) {
        CutBeforeLanding(fmt, geo, d, q, txs[0], budget);
        ShowsNone(fmt, geo, d, Mount(fmt, geo, r.disk, -1));
      } else {
        LandedCommit(fmt, geo, d, q, txs[0], budget, 0);
        if budget < AllWrites(txs[0]) {
          ShowsOne(fmt, geo, d, txs[0], Mount(fmt, geo, r.disk, -1));
          assert txs[..1] == [txs[0]];
        } else {
          CutSilentSession(fmt, geo, r.disk, Plus(q, 1), txs[1..], r.budget);
          JoinSession(fmt, geo, d, txs, r.disk, Landed(txs[1..], r.budget),
                      Mount(fmt, geo, Run(fmt, geo, d, budget, SessionProgram(fmt, geo, q, txs)).disk, -1));
        }
      }
    }
  }

  lemma OneSilentRound<B(!new)>(fmt: Format<B>, geo: Geometry, d: Disk<B>, r: Round<B>)
    requires Lawful(fmt) && WellPlaced(geo, |d|) && Silent(fmt, geo, d) && fmt.jsbStart(Jsb(geo, d)) == 0
    requires ValidRound(geo, |d|, r)
    ensures var d' := AfterRound(fmt, geo, d, r);
            && Silent(fmt, geo, d') && fmt.jsbStart(Jsb(geo, d')) == 0 && !fmt.recover(d'[geo.sbBlock])
            && ShowsAll(fmt, geo, d', r.txs[..Landed(r.txs, r.budget)], d)
  {
    hide Silent, Run, Mount, SessionProgram, Recoverable, ShowsAll;
    var q := fmt.jsbSequence(Jsb(geo, d));
    var cut := Run(fmt, geo, d, r.budget, SessionProgram(fmt, geo, q, r.txs)).disk;
    CutSilentSession(fmt, geo, d, q, r.txs, r.budget);
    var m := Mounts(fmt, geo, cut, r.mounts);
    MountsKeepLog(fmt, geo, cut, r.mounts);
    MountKeepsLog(fmt, geo, m, -1);
    CompleteMountIsClean(fmt, geo, m);
    InterruptedMounts(fmt, geo, cut, r.mounts);
    var d' := AfterRound(fmt, geo, d, r);
    SilentSameLog(fmt, geo, cut, m);
    SilentSameLog(fmt, geo, m, d');
    ShowsEqual(fmt, geo, d, r.txs[..Landed(r.txs, r.budget)], Mount(fmt, geo, cut, -1), d');
  }

  /** Started from a silent log, rounds of sessions are atomic without any bound on their
      number or length: sequence numbers may wrap as often as they like. */
  lemma {:induction false} EndlessRoundsAreAtomic<B(!new)>(fmt: Format<B>, geo: Geometry, d: Disk<B>, rs: seq<Round<B>>)
    requires Lawful(fmt) && WellPlaced(geo, |d|) && Silent(fmt, geo, d) && fmt.jsbStart(Jsb(geo, d)) == 0
    requires forall i :: 0 <= i < |rs| ==> ValidRound(geo, |d|, rs[i])
    ensures var d' := AfterRounds(fmt, geo, d, rs);
            && ShowsAll(fmt, geo, d', AllLanded(rs), d)
            && Silent(fmt, geo, d') && fmt.jsbStart(Jsb(geo, d')) == 0
            && (rs != [] ==> !fmt.recover(d'[geo.sbBlock]))
    decreases |rs|
  {
    hide Silent, AfterRound, Lawful;
    if rs == [] {
      forall n | 0 <= n < |d| && !InJournal(geo, n)
        ensures Shows(fmt, geo, d, n, AppliedAll([], n, d[n]))
      {
      }
    } else {
      var d1 := AfterRound(fmt, geo, d, rs[0]);
      OneSilentRound(fmt, geo, d, rs[0]);
      EndlessRoundsAreAtomic(fmt, geo, d1, rs[1..]);
      ShowsThen(fmt, geo, d, rs[0].txs[..Landed(rs[0].txs, rs[0].budget)], d1, AllLanded(rs[1..]),
                AfterRounds(fmt, geo, d, rs));
    }
  }

  // ---------------------------------------------------------------- between two commits

  /** The log can take `n` transactions numbered from `q`: it is silent, or quiet for long
      enough. */
  ghost predicate Takes<B>(fmt: Format<B>, geo: Geometry, d: Disk<B>, q: Word, n: nat) {
    && WellPlaced(geo, |d|) && fmt.jsbStart(Jsb(geo, d)) == 0
    && (Silent(fmt, geo, d) || (geo.maxlen + n < 0x8000_0000 && Quiet(fmt, geo, d, q, geo.maxlen + n)))
  }

  lemma TakesIsReady<B>(fmt: Format<B>, geo: Geometry, d: Disk<B>, q: Word, n: nat)
    requires Takes(fmt, geo, d, q, n)
    ensures Ready(fmt, geo, d, q, 0)
  {
    if Silent(fmt, geo, d) { SilentIsReady(fmt, geo, d, q); }
  }

  /** An uncut commit ends as an uncut mount of the pending disk would. */
  lemma UncutCommit<B(!new)>(fmt: Format<B>, geo: Geometry, d: Disk<B>, q: Word, tx: Tx<B>)
    requires Lawful(fmt) && Ready(fmt, geo, d, q, 0) && ValidTx(geo, |d|, tx)
    ensures var d1 := Final(fmt, geo, d, CommitProgram(fmt, geo, q, tx));
            && ShowsApplied(fmt, geo, d1, tx, d)
            && fmt.Settled(d1[geo.sbBlock]) == d1[geo.sbBlock] && !fmt.recover(d1[geo.sbBlock])
  {
    hide CommitProgram, CheckpointProgram, MountProgram, Quiet, ShowsApplied, Recoverable, Run, ReplayProgram, HoldsTx;
    var p := Pending(fmt, geo, d, q, tx);
    PendingRecovers(fmt, geo, d, q, tx);
    PendingFacts(fmt, geo, d, q, tx, geo.maxlen);
    CutAfterLanding(fmt, geo, d, q, tx, -1);
    CompleteMount(fmt, geo, p);
  }

  /** What a finished commit leaves: home blocks as its transaction says, RECOVER clear, and
      a log that can take one transaction less. */
  lemma FinishedLeaves<B(!new)>(fmt: Format<B>, geo: Geometry, d: Disk<B>, q: Word, tx: Tx<B>, budget: int, n: nat)
    requires Lawful(fmt) && Takes(fmt, geo, d, q, n) && n > 0 && ValidTx(geo, |d|, tx)
    requires Run(fmt, geo, d, budget, CommitProgram(fmt, geo, q, tx)).ending == Finished(0)
    ensures var d1 := Run(fmt, geo, d, budget, CommitProgram(fmt, geo, q, tx)).disk;
            && Takes(fmt, geo, d1, Plus(q, 1), n - 1)
            && ShowsApplied(fmt, geo, d1, tx, d)
            && fmt.Settled(d1[geo.sbBlock]) == d1[geo.sbBlock] && !fmt.recover(d1[geo.sbBlock])
  {
    hide CommitProgram, Quiet, Silent, ShowsApplied, Lawful, Run;
    var p := CommitProgram(fmt, geo, q, tx);
    TakesIsReady(fmt, geo, d, q, n);
    UncutCommit(fmt, geo, d, q, tx);
    FinishedRunIsFinal(fmt, geo, d, budget, p);
    FinishedCommit(fmt, geo, d, q, tx, AllWrites(tx), 0);
    FinishedRunIsFinal(fmt, geo, d, AllWrites(tx), p);
    if Silent(fmt, geo, d) {
      CommitKeepsSilent(fmt, geo, d, q, tx, AllWrites(tx));
    } else {
      CutSessionAfterLanding(fmt, geo, d, q, tx, AllWrites(tx), n, 0);
    }
  }

  /** A session that finishes leaves its transactions at home, in order. */
  lemma {:induction false} FinishedSession<B(!new)>(fmt: Format<B>, geo: Geometry, d: Disk<B>, q: Word, txs: seq<Tx<B>>, budget: int)
    requires Lawful(fmt) && Takes(fmt, geo, d, q, |txs|) && forall i :: 0 <= i < |txs| ==> ValidTx(geo, |d|, txs[i])
    requires Run(fmt, geo, d, budget, SessionProgram(fmt, geo, q, txs)).ending == Finished(0)
    ensures ShowsAll(fmt, geo, Run(fmt, geo, d, budget, SessionProgram(fmt, geo, q, txs)).disk, txs, d)
    decreases |txs|
  {
    hide CommitProgram, Takes, ShowsApplied, Lawful, Run;
    if txs == [] {
      RunNothing(fmt, geo, d, budget);
    } else {
      var first := CommitProgram(fmt, geo, q, txs[0]);
      var r := Run(fmt, geo, d, budget, first);
      RunAndThen(fmt, geo, d, budget, first, SessionProgram(fmt, geo, Plus(q, 1), txs[1..]));
      FinishedLeaves(fmt, geo, d, q, txs[0], budget, |txs|);
      FinishedSession(fmt, geo, r.disk, Plus(q, 1), txs[1..], r.budget);
      ShowsOne(fmt, geo, d, txs[0], r.disk);
      ShowsThen(fmt, geo, d, [txs[0]], r.disk, txs[1..], Run(fmt, geo, d, budget, SessionProgram(fmt, geo, q, txs)).disk);
      assert [txs[0]] + txs[1..] == txs;
    }
  }

  lemma RunNothing<B>(fmt: Format<B>, geo: Geometry, d: Disk<B>, budget: int)
    ensures Run(fmt, geo, d, budget, Done(0)).disk == d
  {
  }

  /** One round from a log that can take its session. */
  lemma RoundOf<B(!new)>(fmt: Format<B>, geo: Geometry, d: Disk<B>, r: Round<B>)
    requires Lawful(fmt) && WellPlaced(geo, |d|) && Takes(fmt, geo, d, fmt.jsbSequence(Jsb(geo, d)), |r.txs|) && ValidRound(geo, |d|, r)
    ensures var d' := AfterRound(fmt, geo, d, r);
            && fmt.jsbStart(Jsb(geo, d')) == 0 && !fmt.recover(d'[geo.sbBlock])
            && ShowsAll(fmt, geo, d', r.txs[..Landed(r.txs, r.budget)], d)
  {
    hide Quiet, Silent, ShowsAll, Lawful, ValidRound, AfterRound;
    if Silent(fmt, geo, d) {
      OneSilentRound(fmt, geo, d, r);
    } else {
      OneRound(fmt, geo, d, r, 0);
    }
  }
}
