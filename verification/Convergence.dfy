/** Interrupted recovery: any number of mounts cut short by write failures, followed by
    one that completes, leaves the disk of a single complete mount. */
module Convergence {
  import opened Words
  import opened LogFormat
  import opened LogWalk
  import opened Programs
  import opened Recovery

  /** Equal but for the superblock's RECOVER bit and the checksum over it. */
  ghost predicate EqualButRecover<B>(fmt: Format<B>, geo: Geometry, d: Disk<B>, d': Disk<B>) {
    && |d| == |d'| && geo.sbBlock < |d|
    && (forall n :: 0 <= n < |d| && n != geo.sbBlock ==> d[n] == d'[n])
    && fmt.Settled(d[geo.sbBlock]) == fmt.Settled(d'[geo.sbBlock])
  }

  /** Recovery reports no error on this disk, and its tags name home blocks. */
  ghost predicate Recoverable<B>(fmt: Format<B>, geo: Geometry, d: Disk<B>) {
    && WellPlaced(geo, |d|)
    && ReturnCode(ReplayProgram(fmt, geo, d)) == 0
    && CopiesOnly(geo, d, ReplayProgram(fmt, geo, d))
  }

  /** Mounts on devices that accept `budgets[0]`, `budgets[1]`, ... writes. */
  function Mounts<B>(fmt: Format<B>, geo: Geometry, d: Disk<B>, budgets: seq<nat>): (r: Disk<B>)
    requires geo.extents != [] && JsbBlock(geo) < |d| && geo.sbBlock < |d|
    ensures |r| == |d|
    decreases |budgets|
  {
    if budgets == [] then d else Mounts(fmt, geo, Mount(fmt, geo, d, budgets[0]), budgets[1..])
  }

  lemma {:induction false} FlushDependsOnLog<B>(fmt: Format<B>, geo: Geometry, d: Disk<B>, d': Disk<B>,
                                                rev: RevokeMap, t: Trace)
    requires SameLog(geo, d, d') && PositiveAt(t)
    ensures Flush(fmt, geo, d, rev, t) == Flush(fmt, geo, d', rev, t)
    decreases t
  {
    if t.Then? {
      FlushDependsOnLog(fmt, geo, d, d', rev, t.rest);
    }
  }

  /** Data blocks are never log block 0. */
  predicate PositiveAt(t: Trace) {
    t.Then? ==> (t.event.Tagged? ==> t.event.at > 0) && PositiveAt(t.rest)
  }

  lemma {:induction false} TagsThenPositive(geo: Geometry, q: Word, tags: seq<Tag>, j: nat, rest: Trace)
    requires geo.first > 0 && PositiveAt(rest)
    ensures PositiveAt(TagsThen(geo, q, tags, j, rest))
    decreases |tags|
  {
    if tags != [] {
      TagsThenPositive(geo, q, tags[1..], Wrap(geo, j + 1), rest);
    }
  }

  lemma {:induction false} WalkPositive<B>(fmt: Format<B>, geo: Geometry, d: Disk<B>, stop: Option<Word>,
                                           start: nat, j: nat, q: Word, guard: nat)
    requires guard <= geo.maxlen + 4 && geo.first > 0
    ensures PositiveAt(Walk(fmt, geo, d, stop, start, j, q, guard))
    decreases geo.maxlen + 4 - guard
  {
    match Look(fmt, geo, d, stop, j, q)
    case Stop(_) =>
    case Go(kind) =>
      if guard + 1 <= geo.maxlen + 4 {
        WalkPositive(fmt, geo, d, stop, start, NextBlock(geo, j, kind), NextSequence(q, kind), guard + 1);
      }
      match kind {
        case Descriptor(true, tags) =>
          TagsThenPositive(geo, q, tags, j, Onward(fmt, geo, d, stop, start, j, q, guard, kind));
        case _ =>
      }
  }

  /** Replay is a function of the log and the journal superblock. */
  lemma ReplayDependsOnLog<B>(fmt: Format<B>, geo: Geometry, d: Disk<B>, d': Disk<B>)
    requires WellPlaced(geo, |d|) && SameLog(geo, d, d') && Jsb(geo, d) == Jsb(geo, d')
    ensures Decide(fmt, geo, d) == Decide(fmt, geo, d')
    ensures ReplayProgram(fmt, geo, d) == ReplayProgram(fmt, geo, d')
  {
    var start, q := fmt.jsbStart(Jsb(geo, d)), fmt.jsbSequence(Jsb(geo, d));
    if start != 0 {
      SameLogSameWalk(fmt, geo, d, d', None, start, start, q, 0);
      var stop := Some(ScanResult(q, Commits(Scan(fmt, geo, d))));
      SameLogSameWalk(fmt, geo, d, d', stop, start, start, q, 0);
      WalkPositive(fmt, geo, d, stop, start, start, q, 0);
      if Decide(fmt, geo, d).LastPass? {
        FlushDependsOnLog(fmt, geo, d, d', Decide(fmt, geo, d).revokes, Decide(fmt, geo, d).trace);
      }
    }
  }

  /** Copies leave the log and the journal superblock alone. */
  lemma CopiesKeepReplay<B>(fmt: Format<B>, geo: Geometry, d: Disk<B>, budget: int)
    requires Recoverable(fmt, geo, d)
    ensures var d1 := Run(fmt, geo, d, budget, ReplayProgram(fmt, geo, d)).disk;
            && Jsb(geo, d1) == Jsb(geo, d)
            && ReplayProgram(fmt, geo, d1) == ReplayProgram(fmt, geo, d)
            && Recoverable(fmt, geo, d1)
            && Final(fmt, geo, d1, ReplayProgram(fmt, geo, d)) == Final(fmt, geo, d, ReplayProgram(fmt, geo, d))
  {
    var p := ReplayProgram(fmt, geo, d);
    var d1 := Run(fmt, geo, d, budget, p).disk;
    InterruptedCopies(fmt, geo, d, budget, p);
    JsbIsLogBlockZero(geo, |d|);
    LastCopyReadable(geo, d, p, JsbBlock(geo));
    ReplayDependsOnLog(fmt, geo, d, d1);
    CopiesConverge(fmt, geo, d, budget, p);
  }

  lemma {:induction false} FinishedRunIsFinal<B>(fmt: Format<B>, geo: Geometry, d: Disk<B>, budget: int, p: Program<B>)
    ensures Run(fmt, geo, d, budget, p).ending.Finished? ==> Run(fmt, geo, d, budget, p).disk == Final(fmt, geo, d, p)
    decreases p
  {
    if p.Do? && Effect(fmt, geo, d, p.step).Some? && budget != 0 {
      var (n, b) := Effect(fmt, geo, d, p.step).value;
      FinishedRunIsFinal(fmt, geo, d[n := b], Spend(budget), p.rest);
    }
  }

  lemma {:induction false} FinishedReturnsCode<B>(fmt: Format<B>, geo: Geometry, d: Disk<B>, budget: int, p: Program<B>)
    ensures var e := Run(fmt, geo, d, budget, p).ending;
            e.Finished? ==> e.rc == ReturnCode(p)
    decreases p
  {
    if p.Do? && Effect(fmt, geo, d, p.step).Some? && budget != 0 {
      var (n, b) := Effect(fmt, geo, d, p.step).value;
      FinishedReturnsCode(fmt, geo, d[n := b], Spend(budget), p.rest);
    }
  }

  /** The disk after the two cleaning writes. */
  function Cleaned<B>(fmt: Format<B>, geo: Geometry, d: Disk<B>, q: Word): (r: Disk<B>)
    requires geo.extents != [] && JsbBlock(geo) < |d| && geo.sbBlock < |d|
    ensures |r| == |d|
  {
    var d1 := d[JsbBlock(geo) := fmt.setJsb(Jsb(geo, d), 0, q)];
    d1[geo.sbBlock := fmt.setRecover(d1[geo.sbBlock], false)]
  }

  lemma CleanupRuns<B>(fmt: Format<B>, geo: Geometry, d: Disk<B>, budget: int, q: Word)
    requires WellPlaced(geo, |d|)
    ensures var d1 := d[JsbBlock(geo) := fmt.setJsb(Jsb(geo, d), 0, q)];
            Run(fmt, geo, d, budget, Cleanup(q)).disk
            == if budget == 0 then d else if budget == 1 then d1 else Cleaned(fmt, geo, d, q)
  {
    var d1 := d[JsbBlock(geo) := fmt.setJsb(Jsb(geo, d), 0, q)];
    assert Effect(fmt, geo, d, SetJsb(0, q)) == Some((JsbBlock(geo), fmt.setJsb(Jsb(geo, d), 0, q)));
    var clear: Step<B> := SetRecover(false);
    assert Effect(fmt, geo, d1, clear) == Some((geo.sbBlock, fmt.setRecover(d1[geo.sbBlock], false)));
    var last: Program<B> := Do(SetRecover(false), Done(0));
    if budget != 0 {
      assert Run(fmt, geo, d, budget, Cleanup(q)) == Run(fmt, geo, d1, Spend(budget), last);
    }
  }

  /** What a complete mount leaves. */
  lemma CompleteMount<B>(fmt: Format<B>, geo: Geometry, d: Disk<B>)
    requires Recoverable(fmt, geo, d)
    ensures Mount(fmt, geo, d, -1)
            == var d1 := Final(fmt, geo, d, ReplayProgram(fmt, geo, d));
               if fmt.recover(d[geo.sbBlock]) || fmt.jsbStart(Jsb(geo, d)) != 0
               then Cleaned(fmt, geo, d1, fmt.jsbSequence(Jsb(geo, d))) else d1
  {
    var p, q := ReplayProgram(fmt, geo, d), fmt.jsbSequence(Jsb(geo, d));
    var next: Program<B> := if fmt.recover(d[geo.sbBlock]) || fmt.jsbStart(Jsb(geo, d)) != 0 then Cleanup(q) else Done(0);
    RunAndThen(fmt, geo, d, -1, p, next);
    CompletedCopies(fmt, geo, d, p);
    UnlimitedStaysUnlimited(fmt, geo, d, p);
    CleanupRuns(fmt, geo, Final(fmt, geo, d, p), -1, q);
  }

  lemma {:induction false} UnlimitedStaysUnlimited<B>(fmt: Format<B>, geo: Geometry, d: Disk<B>, p: Program<B>)
    ensures Run(fmt, geo, d, -1, p).budget == -1
    decreases p
  {
    if p.Do? && Effect(fmt, geo, d, p.step).Some? {
      var (n, b) := Effect(fmt, geo, d, p.step).value;
      UnlimitedStaysUnlimited(fmt, geo, d[n := b], p.rest);
    }
  }

  /** A mount of a disk whose journal is already clean. */
  lemma MountOfClean<B>(fmt: Format<B>, geo: Geometry, d: Disk<B>)
    requires WellPlaced(geo, |d|) && fmt.jsbStart(Jsb(geo, d)) == 0
    ensures ReplayProgram(fmt, geo, d) == Done(0) && Recoverable(fmt, geo, d)
    ensures Mount(fmt, geo, d, -1)
            == if fmt.recover(d[geo.sbBlock]) then Cleaned(fmt, geo, d, fmt.jsbSequence(Jsb(geo, d))) else d
  {
    assert ReplayProgram(fmt, geo, d) == Done(0);
    CompleteMount(fmt, geo, d);
  }

  /** Once the journal superblock is clean again, a further mount changes at most the
      RECOVER bit. */
  lemma MountAfterCleaning<B(!new)>(fmt: Format<B>, geo: Geometry, d: Disk<B>, q: Word)
    requires WellPlaced(geo, |d|) && Lawful(fmt)
    ensures var d1 := d[JsbBlock(geo) := fmt.setJsb(Jsb(geo, d), 0, q)];
            && Recoverable(fmt, geo, d1)
            && EqualButRecover(fmt, geo, Mount(fmt, geo, d1, -1), Cleaned(fmt, geo, d, q))
    ensures var d2 := Cleaned(fmt, geo, d, q);
            Recoverable(fmt, geo, d2) && Mount(fmt, geo, d2, -1) == d2
  {
    JsbIsLogBlockZero(geo, |d|);
    var d1 := d[JsbBlock(geo) := fmt.setJsb(Jsb(geo, d), 0, q)];
    MountOfClean(fmt, geo, d1);
    assert Jsb(geo, d1) == fmt.setJsb(Jsb(geo, d), 0, q);
    assert fmt.setJsb(Jsb(geo, d1), 0, q) == Jsb(geo, d1);
    var d2 := Cleaned(fmt, geo, d, q);
    assert Jsb(geo, d2) == Jsb(geo, d1);
    MountOfClean(fmt, geo, d2);
  }

  /** One interrupted mount changes neither what recovery will do nor, up to the RECOVER
      bit, what it will leave. */
  lemma InterruptedMount<B(!new)>(fmt: Format<B>, geo: Geometry, d: Disk<B>, budget: int)
    requires Lawful(fmt) && Recoverable(fmt, geo, d)
    ensures Recoverable(fmt, geo, Mount(fmt, geo, d, budget))
    ensures EqualButRecover(fmt, geo, Mount(fmt, geo, Mount(fmt, geo, d, budget), -1), Mount(fmt, geo, d, -1))
  {
    var p, q := ReplayProgram(fmt, geo, d), fmt.jsbSequence(Jsb(geo, d));
    var next: Program<B> := if fmt.recover(d[geo.sbBlock]) || fmt.jsbStart(Jsb(geo, d)) != 0 then Cleanup(q) else Done(0);
    var first := Run(fmt, geo, d, budget, p);
    RunAndThen(fmt, geo, d, budget, p, next);
    FinishedReturnsCode(fmt, geo, d, budget, p);
    FinishedRunIsFinal(fmt, geo, d, budget, p);
    CopiesKeepReplay(fmt, geo, d, budget);
    CompleteMount(fmt, geo, d);
    CompleteMount(fmt, geo, first.disk);
    if first.ending == Finished(0) && next.Do? {
      CleanupRuns(fmt, geo, first.disk, first.budget, q);
      if first.budget != 0 {
        MountAfterCleaning(fmt, geo, first.disk, q);
      } else if fmt.jsbStart(Jsb(geo, d)) == 0 {
        assert p == Done(0);
      }
    } else if first.ending == Finished(0) {
      assert p == Done(0);
    }
  }

  /** Interrupted recovery converges. */
  lemma {:induction false} InterruptedMounts<B(!new)>(fmt: Format<B>, geo: Geometry, d: Disk<B>, budgets: seq<nat>)
    requires Lawful(fmt) && Recoverable(fmt, geo, d)
    ensures Recoverable(fmt, geo, Mounts(fmt, geo, d, budgets))
    ensures EqualButRecover(fmt, geo, Mount(fmt, geo, Mounts(fmt, geo, d, budgets), -1), Mount(fmt, geo, d, -1))
    decreases |budgets|
  {
    if budgets != [] {
      InterruptedMount(fmt, geo, d, budgets[0]);
      InterruptedMounts(fmt, geo, Mount(fmt, geo, d, budgets[0]), budgets[1..]);
    }
  }
}
