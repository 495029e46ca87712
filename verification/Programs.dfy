/** Sequences of single-block writes, and their effect on a device that may stop
    accepting writes at any point. */
module Programs {
  import opened Words
  import opened LogFormat
  import opened LogWalk

  /** One block write. Its content may depend on the disk it is applied to. */
  datatype Step<B> =
    | PutLog(j: nat, data: B)                        // a log block
    | Copy(at: nat, home: nat, escaped: bool)        // a logged block to its home
    | SetJsb(start: Word, seqno: Word)               // the journal superblock's two fields
    | SetRecover(on: bool)                           // the RECOVER bit of the superblock

  /** Writes to perform in order, then a return code. */
  datatype Program<B> = Done(rc: int) | Do(step: Step<B>, rest: Program<B>)

  /** `next` runs only if `p` returns 0. */
  function AndThen<B>(p: Program<B>, next: Program<B>): Program<B> {
    match p
    case Done(rc) => if rc == 0 then next else p
    case Do(s, rest) => Do(s, AndThen(rest, next))
  }

  /** Block number and content a step writes, or None when a read or address fails. */
  function Effect<B>(fmt: Format<B>, geo: Geometry, d: Disk<B>, s: Step<B>): (r: Option<(nat, B)>)
    ensures r.Some? ==> r.value.0 < |d|
  {
    match s
    case PutLog(j, data) =>
      (match LogAddress(geo, j)
       case None => None
       case Some(n) => if n < |d| then Some((n, data)) else None)
    case Copy(at, home, escaped) =>
      (match ReadLog(geo, d, at)
       case None => None
       case Some(b) =>
         if Truncated(geo, home) < |d| then Some((Truncated(geo, home), fmt.Unlogged(b, escaped))) else None)
    case SetJsb(start, q) =>
      if geo.extents != [] && geo.extents[0].physical < |d| then
        Some((geo.extents[0].physical, fmt.setJsb(d[geo.extents[0].physical], start, q)))
      else None
    case SetRecover(on) =>
      if geo.sbBlock < |d| then Some((geo.sbBlock, fmt.setRecover(d[geo.sbBlock], on))) else None
  }

  datatype Ending = Finished(rc: int) | IoError

  /** `budget` is the number of writes the device still accepts; negative: no limit. */
  datatype Outcome<B> = Outcome(disk: Disk<B>, budget: int, ending: Ending)

  function Spend(budget: int): int {
    if budget > 0 then budget - 1 else budget
  }

  function Run<B>(fmt: Format<B>, geo: Geometry, d: Disk<B>, budget: int, p: Program<B>): (r: Outcome<B>)
    ensures |r.disk| == |d|
    decreases p
  {
    match p
    case Done(rc) => Outcome(d, budget, Finished(rc))
    case Do(s, rest) =>
      match Effect(fmt, geo, d, s)
      case None => Outcome(d, budget, IoError)
      case Some((n, b)) =>
        if budget == 0 then Outcome(d, budget, IoError)
        else Run(fmt, geo, d[n := b], Spend(budget), rest)
  }

  /** The disk after an uninterrupted run. */
  function Final<B>(fmt: Format<B>, geo: Geometry, d: Disk<B>, p: Program<B>): (r: Disk<B>)
    ensures |r| == |d|
  {
    Run(fmt, geo, d, -1, p).disk
  }

  function JsbBlock(geo: Geometry): nat
    requires geo.extents != []
  {
    geo.extents[0].physical
  }

  /** The journal lies where the rest of the proof needs it: log blocks below `maxlen`
      are mapped to distinct device blocks, apart from the superblock, and every
      block's byte offset fits 32 bits. */
  ghost predicate WellPlaced(geo: Geometry, size: nat) {
    && 0 < geo.first < geo.maxlen < 0x7FFF_FFF0
    && size <= geo.addressable
    && geo.sbBlock < size
    && geo.extents != [] && geo.extents[0].logical == 0 && geo.extents[0].length > 0
    && geo.extents[0].physical < size
    && (forall j: nat :: j < geo.maxlen ==> LogAddress(geo, j).Some? && LogAddress(geo, j).value < size)
    && (forall j: nat :: LogAddress(geo, j) != Some(geo.sbBlock))
    && (forall i: nat, j: nat :: i < j && LogAddress(geo, i).Some? ==> LogAddress(geo, i) != LogAddress(geo, j))
  }

  ghost predicate InJournal(geo: Geometry, n: nat) {
    exists j: nat :: LogAddress(geo, j) == Some(n)
  }

  /** A block the file system may journal. */
  ghost predicate Home(geo: Geometry, size: nat, n: nat) {
    n < size && !InJournal(geo, n)
  }

  /** Two disks hold the same log (journal superblock excluded). */
  ghost predicate SameLog<B>(geo: Geometry, d: Disk<B>, d': Disk<B>) {
    && |d| == |d'|
    && forall j: nat :: j > 0 ==> ReadLog(geo, d, j) == ReadLog(geo, d', j)
  }

  lemma JsbIsLogBlockZero(geo: Geometry, size: nat)
    requires WellPlaced(geo, size)
    ensures LogAddress(geo, 0) == Some(JsbBlock(geo))
    ensures JsbBlock(geo) != geo.sbBlock && InJournal(geo, JsbBlock(geo))
  {
    assert LogAddress(geo, 0) == Some(JsbBlock(geo));
  }

  lemma WriteOutsideLog<B>(geo: Geometry, d: Disk<B>, n: nat, b: B)
    requires WellPlaced(geo, |d|) && n < |d|
    requires !InJournal(geo, n) || n == JsbBlock(geo)
    ensures SameLog(geo, d, d[n := b])
  {
    JsbIsLogBlockZero(geo, |d|);
  }

  lemma HomeIsNotTruncated(geo: Geometry, size: nat, n: nat)
    requires WellPlaced(geo, size) && n < size
    ensures Truncated(geo, n) == n
  {
  }

  lemma {:induction false} SameLogSameWalk<B>(fmt: Format<B>, geo: Geometry, d: Disk<B>, d': Disk<B>,
                                              stop: Option<Word>, start: nat, j: nat, q: Word, guard: nat)
    requires guard <= geo.maxlen + 4 && j > 0 && geo.first > 0
    requires SameLog(geo, d, d')
    ensures Walk(fmt, geo, d, stop, start, j, q, guard) == Walk(fmt, geo, d', stop, start, j, q, guard)
    decreases geo.maxlen + 4 - guard
  {
    assert Look(fmt, geo, d, stop, j, q) == Look(fmt, geo, d', stop, j, q);
    match Look(fmt, geo, d, stop, j, q)
    case Stop(_) =>
    case Go(kind) =>
      if guard + 1 <= geo.maxlen + 4 {
        NextBlockPositive(geo, j, kind);
        SameLogSameWalk(fmt, geo, d, d', stop, start, NextBlock(geo, j, kind), NextSequence(q, kind), guard + 1);
      }
  }

  lemma NextBlockPositive(geo: Geometry, j: nat, kind: Kind)
    requires geo.first > 0
    ensures NextBlock(geo, j, kind) > 0
  {
  }

  // ---------------------------------------------------------------- composition

  lemma {:induction false} RunAndThen<B>(fmt: Format<B>, geo: Geometry, d: Disk<B>, budget: int,
                                         p: Program<B>, next: Program<B>)
    ensures var first := Run(fmt, geo, d, budget, p);
            Run(fmt, geo, d, budget, AndThen(p, next))
            == if first.ending == Finished(0) then Run(fmt, geo, first.disk, first.budget, next) else first
    decreases p
  {
    match p
    case Done(_) =>
    case Do(s, rest) =>
      match Effect(fmt, geo, d, s)
      case None =>
      case Some((n, b)) =>
        if budget != 0 {
          RunAndThen(fmt, geo, d[n := b], Spend(budget), rest, next);
        }
  }

  // ---------------------------------------------------------------- runs of copies

  /** Only copies, of readable log blocks, to homes. */
  ghost predicate CopiesOnly<B>(geo: Geometry, d: Disk<B>, p: Program<B>) {
    p.Do? ==>
      && p.step.Copy?
      && p.step.at > 0 && ReadLog(geo, d, p.step.at).Some?
      && Home(geo, |d|, p.step.home)
      && CopiesOnly(geo, d, p.rest)
  }

  /** The last copy to home `n`. */
  function LastCopy<B>(p: Program<B>, n: nat): Option<(nat, bool)> {
    match p
    case Done(_) => None
    case Do(s, rest) =>
      if LastCopy(rest, n).Some? then LastCopy(rest, n)
      else if s.Copy? && s.home == n then Some((s.at, s.escaped))
      else None
  }

  /** What block `n` becomes once the copies of `p` are done. */
  function Copied<B>(fmt: Format<B>, geo: Geometry, d: Disk<B>, p: Program<B>, n: nat): B
    requires n < |d|
  {
    match LastCopy(p, n)
    case None => d[n]
    case Some((at, escaped)) =>
      match ReadLog(geo, d, at)
      case None => d[n]
      case Some(b) => fmt.Unlogged(b, escaped)
  }

  function ReturnCode<B>(p: Program<B>): int {
    match p
    case Done(rc) => rc
    case Do(_, rest) => ReturnCode(rest)
  }

  lemma {:induction false} CopiesDependOnLog<B>(geo: Geometry, d: Disk<B>, d': Disk<B>, p: Program<B>)
    requires SameLog(geo, d, d')
    ensures CopiesOnly(geo, d, p) == CopiesOnly(geo, d', p)
    decreases p
  {
    if p.Do? {
      assert p.step.Copy? && p.step.at > 0 ==> ReadLog(geo, d, p.step.at) == ReadLog(geo, d', p.step.at);
      CopiesDependOnLog(geo, d, d', p.rest);
    }
  }

  lemma {:induction false} LastCopyReadable<B>(geo: Geometry, d: Disk<B>, p: Program<B>, n: nat)
    requires CopiesOnly(geo, d, p)
    ensures LastCopy(p, n).Some? ==>
              && LastCopy(p, n).value.0 > 0 && ReadLog(geo, d, LastCopy(p, n).value.0).Some?
              && Home(geo, |d|, n)
    decreases p
  {
    if p.Do? {
      LastCopyReadable(geo, d, p.rest, n);
    }
  }

  /** What any run of copies leaves behind, however many writes the device accepts: the
      log and every block that no copy targets are as before. */
  ghost predicate TouchesOnlyTargets<B>(geo: Geometry, d: Disk<B>, d': Disk<B>, p: Program<B>) {
    && SameLog(geo, d, d')
    && forall n :: 0 <= n < |d| && LastCopy(p, n).None? ==> d'[n] == d[n]
  }

  lemma {:induction false} InterruptedCopies<B>(fmt: Format<B>, geo: Geometry, d: Disk<B>, budget: int, p: Program<B>)
    requires WellPlaced(geo, |d|) && CopiesOnly(geo, d, p)
    ensures TouchesOnlyTargets(geo, d, Run(fmt, geo, d, budget, p).disk, p)
    decreases p
  {
    if p.Do? && budget != 0 {
      var home := p.step.home;
      var b := fmt.Unlogged(ReadLog(geo, d, p.step.at).value, p.step.escaped);
      HomeIsNotTruncated(geo, |d|, home);
      WriteOutsideLog(geo, d, home, b);
      CopiesDependOnLog(geo, d, d[home := b], p.rest);
      InterruptedCopies(fmt, geo, d[home := b], Spend(budget), p.rest);
    }
  }

  lemma CopiedStep<B>(fmt: Format<B>, geo: Geometry, d: Disk<B>, d1: Disk<B>, p: Program<B>, n: nat)
    requires CopiesOnly(geo, d, p) && p.Do? && SameLog(geo, d, d1)
    requires d1 == d[p.step.home := fmt.Unlogged(ReadLog(geo, d, p.step.at).value, p.step.escaped)]
    requires n < |d|
    ensures Copied(fmt, geo, d1, p.rest, n) == Copied(fmt, geo, d, p, n)
  {
    LastCopyReadable(geo, d, p.rest, n);
  }

  /** An uninterrupted run of copies leaves in each block its last copy, or what was there. */
  lemma {:induction false} CompletedCopies<B>(fmt: Format<B>, geo: Geometry, d: Disk<B>, p: Program<B>)
    requires WellPlaced(geo, |d|) && CopiesOnly(geo, d, p)
    ensures Run(fmt, geo, d, -1, p).ending == Finished(ReturnCode(p))
    ensures forall n :: 0 <= n < |d| ==> Final(fmt, geo, d, p)[n] == Copied(fmt, geo, d, p, n)
    decreases p
  {
    if p.Do? {
      var home := p.step.home;
      var b := fmt.Unlogged(ReadLog(geo, d, p.step.at).value, p.step.escaped);
      var d1 := d[home := b];
      HomeIsNotTruncated(geo, |d|, home);
      WriteOutsideLog(geo, d, home, b);
      CopiesDependOnLog(geo, d, d1, p.rest);
      CompletedCopies(fmt, geo, d1, p.rest);
      forall n | 0 <= n < |d|
        ensures Copied(fmt, geo, d1, p.rest, n) == Copied(fmt, geo, d, p, n)
      {
        CopiedStep(fmt, geo, d, d1, p, n);
      }
    }
  }

  /** Copies are idempotent under interruption: stopped anywhere and run again in full,
      they leave the disk of one full run. */
  lemma CopiesConverge<B>(fmt: Format<B>, geo: Geometry, d: Disk<B>, budget: int, p: Program<B>)
    requires WellPlaced(geo, |d|) && CopiesOnly(geo, d, p)
    ensures var d1 := Run(fmt, geo, d, budget, p).disk;
            CopiesOnly(geo, d1, p) && Final(fmt, geo, d1, p) == Final(fmt, geo, d, p)
  {
    var d1 := Run(fmt, geo, d, budget, p).disk;
    InterruptedCopies(fmt, geo, d, budget, p);
    CopiesDependOnLog(geo, d, d1, p);
    CompletedCopies(fmt, geo, d, p);
    CompletedCopies(fmt, geo, d1, p);
    forall n | 0 <= n < |d|
      ensures Final(fmt, geo, d1, p)[n] == Final(fmt, geo, d, p)[n]
    {
      LastCopyReadable(geo, d, p, n);
    }
  }
}
