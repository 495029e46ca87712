/** A transaction: the writes of `ext4_journal_commit`, and the log they leave. */
module Commit {
  import opened Words
  import opened LogFormat
  import opened LogWalk
  import opened Programs
  import opened Recovery

  type Tx<B> = seq<Write<B>>

  /** The data blocks `tx[i..]` to log blocks `j`, `j+1`, ... */
  function DataPuts<B>(fmt: Format<B>, tx: Tx<B>, i: nat, j: nat, rest: Program<B>): Program<B>
    requires i <= |tx|
    decreases |tx| - i
  {
    if i == |tx| then rest
    else Do(PutLog(j, fmt.Logged(tx[i].data)), DataPuts(fmt, tx, i + 1, j + 1, rest))
  }

  /** The writes before the journal superblock: RECOVER, descriptor, data, commit block. */
  function LogProgram<B>(fmt: Format<B>, geo: Geometry, q: Word, tx: Tx<B>): Program<B> {
    Do(SetRecover(true),
       Do(PutLog(geo.first, fmt.descriptor(q, tx)),
          DataPuts(fmt, tx, 0, geo.first + 1,
                   Do(PutLog(geo.first + 1 + |tx|, fmt.commit(q)), Done(0)))))
  }

  /** The copies of the checkpoint that follows the commit. */
  function HomeCopies<B>(fmt: Format<B>, tx: Tx<B>, i: nat, j: nat): Program<B>
    requires i <= |tx|
    decreases |tx| - i
  {
    if i == |tx| then Done(0)
    else Do(Copy(j, tx[i].home, fmt.startsWithMagic(tx[i].data)), HomeCopies(fmt, tx, i + 1, j + 1))
  }

  function CheckpointProgram<B>(fmt: Format<B>, geo: Geometry, q: Word, tx: Tx<B>): Program<B> {
    AndThen(HomeCopies(fmt, tx, 0, geo.first + 1), Cleanup(q))
  }

  function CommitProgram<B>(fmt: Format<B>, geo: Geometry, q: Word, tx: Tx<B>): Program<B> {
    AndThen(LogProgram(fmt, geo, q, tx), Do(SetJsb(geo.first, q), CheckpointProgram(fmt, geo, q, tx)))
  }

  /** Writes until the journal superblock names the transaction. */
  function LandingWrites<B>(tx: Tx<B>): nat {
    |tx| + 4
  }

  /** Writes of the whole commit. */
  function AllWrites<B>(tx: Tx<B>): nat {
    2 * |tx| + 6
  }

  /** What the callers of commit provide: at most eight blocks outside the journal, and a log
      long enough. A block may be listed more than once. */
  ghost predicate ValidTx<B>(geo: Geometry, size: nat, tx: Tx<B>) {
    && FitsDescriptor(tx)
    && geo.first + 1 + |tx| + 1 <= geo.maxlen
    && (forall i :: 0 <= i < |tx| ==> Home(geo, size, tx[i].home))
  }

  /** Distance from `q` forward to `s` in the 32-bit circle. */
  function Ahead(s: Word, q: Word): nat {
    if s >= q then s - q else s - q + 0x1_0000_0000
  }

  /** A header that would make a later walk act. */
  predicate Acts(block: LogBlock, q: Word, room: nat) {
    block.Header? && (block.kind.Descriptor? || block.kind.Revoke?) && 0 < Ahead(block.seqno, q) <= room
  }

  /** Past block `first`, the log holds no descriptor or revoke block with one of the
      `room` sequence numbers after `q`. Commit blocks may be there. */
  ghost predicate Quiet<B>(fmt: Format<B>, geo: Geometry, d: Disk<B>, q: Word, room: nat) {
    forall j: nat :: geo.first < j < geo.maxlen && ReadLog(geo, d, j).Some? ==>
      !Acts(fmt.parse(ReadLog(geo, d, j).value), q, room)
  }

  // ---------------------------------------------------------------- writes to the log

  ghost predicate LogOnly<B>(geo: Geometry, p: Program<B>) {
    p.Do? ==>
      && ((p.step.PutLog? && 0 < p.step.j < geo.maxlen) || p.step.SetRecover?)
      && LogOnly(geo, p.rest)
  }

  function Length<B>(p: Program<B>): nat {
    match p
    case Done(_) => 0
    case Do(_, rest) => 1 + Length(rest)
  }

  function LastPut<B>(p: Program<B>, j: nat): Option<B> {
    match p
    case Done(_) => None
    case Do(s, rest) =>
      if LastPut(rest, j).Some? then LastPut(rest, j)
      else if s.PutLog? && s.j == j then Some(s.data)
      else None
  }

  /** Nothing outside the log changes but the RECOVER bit. */
  ghost predicate OnlyLogChanged<B>(fmt: Format<B>, geo: Geometry, d: Disk<B>, d': Disk<B>) {
    && |d'| == |d| && geo.sbBlock < |d|
    && (forall n :: 0 <= n < |d| && n != geo.sbBlock && (!InJournal(geo, n) || n == JsbBlock(geo)) ==> d'[n] == d[n])
    && fmt.Settled(d'[geo.sbBlock]) == fmt.Settled(d[geo.sbBlock])
  }

  lemma {:induction false} LogOnlyRun<B(!new)>(fmt: Format<B>, geo: Geometry, d: Disk<B>, budget: int, p: Program<B>)
    requires Lawful(fmt) && WellPlaced(geo, |d|) && LogOnly(geo, p)
    ensures OnlyLogChanged(fmt, geo, d, Run(fmt, geo, d, budget, p).disk)
    decreases p
  {
    if p.Do? && budget != 0 {
      JsbIsLogBlockZero(geo, |d|);
      var (n, b) := Effect(fmt, geo, d, p.step).value;
      LogOnlyRun(fmt, geo, d[n := b], Spend(budget), p.rest);
    }
  }

  /** A run of log writes finishes exactly when the device accepts them all. */
  lemma {:induction false} LogOnlyBudget<B>(fmt: Format<B>, geo: Geometry, d: Disk<B>, budget: int, p: Program<B>)
    requires WellPlaced(geo, |d|) && LogOnly(geo, p) && ReturnCode(p) == 0
    ensures var r := Run(fmt, geo, d, budget, p);
            if budget < 0 then r.ending == Finished(0) && r.budget == budget
            else if budget >= Length(p) then r.ending == Finished(0) && r.budget == budget - Length(p)
            else r.ending == IoError
    decreases p
  {
    if p.Do? && budget != 0 {
      var (n, b) := Effect(fmt, geo, d, p.step).value;
      LogOnlyBudget(fmt, geo, d[n := b], Spend(budget), p.rest);
    }
  }

  lemma {:induction false} LogOnlyContents<B>(fmt: Format<B>, geo: Geometry, d: Disk<B>, budget: int, p: Program<B>, j: nat)
    requires WellPlaced(geo, |d|) && LogOnly(geo, p) && 0 < j
    ensures var d' := Run(fmt, geo, d, budget, p).disk;
            && (Run(fmt, geo, d, budget, p).ending.Finished? ==>
                  ReadLog(geo, d', j) == if LastPut(p, j).Some? then LastPut(p, j) else ReadLog(geo, d, j))
            && (LastPut(p, j).None? ==> ReadLog(geo, d', j) == ReadLog(geo, d, j))
    decreases p
  {
    if p.Do? && budget != 0 {
      var (n, b) := Effect(fmt, geo, d, p.step).value;
      if p.step.SetRecover? {
        WriteOutsideLog(geo, d, n, b);
      }
      LogOnlyContents(fmt, geo, d[n := b], Spend(budget), p.rest, j);
    }
  }

  lemma {:induction false} DataPutsShape<B>(fmt: Format<B>, geo: Geometry, tx: Tx<B>, i: nat, j: nat, rest: Program<B>)
    requires i <= |tx| && 0 < j && j + (|tx| - i) <= geo.maxlen
    requires LogOnly(geo, rest)
    ensures var p := DataPuts(fmt, tx, i, j, rest);
            LogOnly(geo, p) && Length(p) == Length(rest) + |tx| - i && ReturnCode(p) == ReturnCode(rest)
    decreases |tx| - i
  {
    if i < |tx| {
      DataPutsShape(fmt, geo, tx, i + 1, j + 1, rest);
    }
  }

  lemma {:induction false} DataPutsContents<B>(fmt: Format<B>, tx: Tx<B>, i: nat, j: nat, rest: Program<B>, k: nat)
    requires i <= |tx|
    ensures LastPut(DataPuts(fmt, tx, i, j, rest), k)
            == if LastPut(rest, k).None? && j <= k < j + (|tx| - i) then Some(fmt.Logged(tx[i + (k - j)].data))
               else LastPut(rest, k)
    decreases |tx| - i
  {
    if i < |tx| {
      DataPutsContents(fmt, tx, i + 1, j + 1, rest, k);
    }
  }

  /** What the log writes of a commit put into log block `j`. */
  function LogContent<B>(fmt: Format<B>, geo: Geometry, q: Word, tx: Tx<B>, j: nat): Option<B> {
    if j == geo.first then Some(fmt.descriptor(q, tx))
    else if geo.first < j <= geo.first + |tx| then Some(fmt.Logged(tx[j - geo.first - 1].data))
    else if j == geo.first + 1 + |tx| then Some(fmt.commit(q))
    else None
  }

  lemma LogProgramShape<B>(fmt: Format<B>, geo: Geometry, q: Word, tx: Tx<B>)
    requires 0 < geo.first && geo.first + 1 + |tx| + 1 <= geo.maxlen
    ensures var p := LogProgram(fmt, geo, q, tx);
            && LogOnly(geo, p) && Length(p) == |tx| + 3 && ReturnCode(p) == 0
            && forall j: nat :: LastPut(p, j) == LogContent(fmt, geo, q, tx, j)
  {
    var last: Program<B> := Do(PutLog(geo.first + 1 + |tx|, fmt.commit(q)), Done(0));
    DataPutsShape(fmt, geo, tx, 0, geo.first + 1, last);
    forall j: nat ensures LastPut(LogProgram(fmt, geo, q, tx), j) == LogContent(fmt, geo, q, tx, j) {
      DataPutsContents(fmt, tx, 0, geo.first + 1, last, j);
    }
  }

  // ---------------------------------------------------------------- the pending log

  /** The disk once the journal superblock names the transaction. */
  function Pending<B>(fmt: Format<B>, geo: Geometry, d: Disk<B>, q: Word, tx: Tx<B>): (r: Disk<B>)
    requires geo.extents != [] && JsbBlock(geo) < |d|
    ensures |r| == |d|
  {
    var d1 := Final(fmt, geo, d, LogProgram(fmt, geo, q, tx));
    d1[JsbBlock(geo) := fmt.setJsb(Jsb(geo, d1), geo.first, q)]
  }

  /** The log of `d` from block `first` holds the transaction. */
  ghost predicate HoldsTx<B>(fmt: Format<B>, geo: Geometry, d: Disk<B>, q: Word, tx: Tx<B>) {
    forall j: nat :: geo.first <= j <= geo.first + 1 + |tx| ==> ReadLog(geo, d, j) == LogContent(fmt, geo, q, tx, j)
  }

  lemma PendingFacts<B(!new)>(fmt: Format<B>, geo: Geometry, d: Disk<B>, q: Word, tx: Tx<B>, room: nat)
    requires Lawful(fmt) && WellPlaced(geo, |d|) && ValidTx(geo, |d|, tx)
    requires Quiet(fmt, geo, d, q, room)
    ensures var p := Pending(fmt, geo, d, q, tx);
            && HoldsTx(fmt, geo, p, q, tx)
            && Quiet(fmt, geo, p, q, room)
            && fmt.jsbStart(Jsb(geo, p)) == geo.first && fmt.jsbSequence(Jsb(geo, p)) == q
            && (forall n :: 0 <= n < |d| && n != geo.sbBlock && !InJournal(geo, n) ==> p[n] == d[n])
            && fmt.Settled(p[geo.sbBlock]) == fmt.Settled(d[geo.sbBlock])
  {
    var prog := LogProgram(fmt, geo, q, tx);
    var d1 := Final(fmt, geo, d, prog);
    var p := Pending(fmt, geo, d, q, tx);
    LogProgramShape(fmt, geo, q, tx);
    LogOnlyRun(fmt, geo, d, -1, prog);
    LogOnlyBudget(fmt, geo, d, -1, prog);
    JsbIsLogBlockZero(geo, |d|);
    WriteOutsideLog(geo, d1, JsbBlock(geo), Jsb(geo, p));
    forall j: nat | 0 < j
      ensures ReadLog(geo, p, j)
              == if LogContent(fmt, geo, q, tx, j).Some? then LogContent(fmt, geo, q, tx, j) else ReadLog(geo, d, j)
    {
      LogOnlyContents(fmt, geo, d, -1, prog, j);
    }
  }

  /** No put past `first` writes a block on which a walk would act. */
  ghost predicate HarmlessPuts<B>(fmt: Format<B>, geo: Geometry, p: Program<B>) {
    p.Do? ==> HarmlessPut(fmt, geo, p.step) && HarmlessPuts(fmt, geo, p.rest)
  }

  ghost predicate HarmlessPut<B>(fmt: Format<B>, geo: Geometry, s: Step<B>) {
    s.PutLog? && s.j != geo.first ==> fmt.parse(s.data) == NotLog || (fmt.parse(s.data).Header? && fmt.parse(s.data).kind.Commit?)
  }

  lemma QuietWrite<B>(fmt: Format<B>, geo: Geometry, d: Disk<B>, s: Step<B>, q: Word, room: nat)
    requires WellPlaced(geo, |d|) && Quiet(fmt, geo, d, q, room)
    requires (s.PutLog? && 0 < s.j < geo.maxlen && HarmlessPut(fmt, geo, s)) || s.SetRecover?
    ensures var (n, b) := Effect(fmt, geo, d, s).value;
            Quiet(fmt, geo, d[n := b], q, room)
  {
    var (n, b) := Effect(fmt, geo, d, s).value;
    var d1 := d[n := b];
    if s.SetRecover? {
      WriteOutsideLog(geo, d, n, b);
    }
    forall j: nat | geo.first < j < geo.maxlen && ReadLog(geo, d1, j).Some?
      ensures !Acts(fmt.parse(ReadLog(geo, d1, j).value), q, room)
    {
      assert (s.PutLog? && s.j == j) || ReadLog(geo, d1, j) == ReadLog(geo, d, j);
    }
  }

  lemma {:induction false} QuietRun<B>(fmt: Format<B>, geo: Geometry, d: Disk<B>, budget: int, p: Program<B>, q: Word, room: nat)
    requires WellPlaced(geo, |d|) && LogOnly(geo, p) && HarmlessPuts(fmt, geo, p)
    requires Quiet(fmt, geo, d, q, room)
    ensures Quiet(fmt, geo, Run(fmt, geo, d, budget, p).disk, q, room)
    decreases p
  {
    if p.Do? && budget != 0 {
      var (n, b) := Effect(fmt, geo, d, p.step).value;
      QuietWrite(fmt, geo, d, p.step, q, room);
      QuietRun(fmt, geo, d[n := b], Spend(budget), p.rest, q, room);
    }
  }

  lemma {:induction false} DataPutsHarmless<B(!new)>(fmt: Format<B>, geo: Geometry, tx: Tx<B>, i: nat, j: nat, rest: Program<B>)
    requires Lawful(fmt) && i <= |tx| && HarmlessPuts(fmt, geo, rest)
    ensures HarmlessPuts(fmt, geo, DataPuts(fmt, tx, i, j, rest))
    decreases |tx| - i
  {
    if i < |tx| {
      DataPutsHarmless(fmt, geo, tx, i + 1, j + 1, rest);
    }
  }

  /** Interrupted or not, the log writes of a commit keep the log quiet. */
  lemma LogWritesKeepQuiet<B(!new)>(fmt: Format<B>, geo: Geometry, d: Disk<B>, q: Word, tx: Tx<B>, budget: int,
                                    q0: Word, room: nat)
    requires Lawful(fmt) && WellPlaced(geo, |d|) && ValidTx(geo, |d|, tx)
    requires Quiet(fmt, geo, d, q0, room)
    ensures Quiet(fmt, geo, Run(fmt, geo, d, budget, LogProgram(fmt, geo, q, tx)).disk, q0, room)
  {
    LogProgramShape(fmt, geo, q, tx);
    DataPutsHarmless(fmt, geo, tx, 0, geo.first + 1, Do(PutLog(geo.first + 1 + |tx|, fmt.commit(q)), Done(0)));
    QuietRun(fmt, geo, d, budget, LogProgram(fmt, geo, q, tx), q0, room);
  }
}
