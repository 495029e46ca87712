/** What committed revokes do: which blocks replay leaves alone, when the table is too small,
    and a log of jbd2 blocks that shows both. */
module Revocation {
  import opened Words
  import opened Bytes
  import opened LogFormat
  import opened LogWalk
  import opened Programs
  import opened Recovery
  import opened Commit
  import opened ByteFormat
  import opened Superblocks
  import opened JournalOnDisk
  import opened LogLayout

  // ---------------------------------------------------------------- older and newer

  /** Some revoke of the trace lists `home` and is not older than `q`, where ages are counted
      from `q0` on. */
  ghost predicate Revokes(t: Trace, home: nat, q: Word, q0: Word) {
    exists s: Word, homes :: Contains(t, Revoked(s, homes)) && home in homes && Ahead(s, q0) >= Ahead(q, q0)
  }

  lemma NotOlder(q0: Word, n: nat, s: Word, q: Word)
    requires n < 0x7FFF_FFFF && InWindow(q0, n, s) && InWindow(q0, n, q)
    ensures SeqDiff(s, q) >= 0 <==> Ahead(s, q0) >= Ahead(q, q0)
  {
  }

  /** In a window of less than half the sequence numbers, what the walker's comparison calls
      revoked is what the log revokes. */
  lemma {:induction false} RevokedByIff(t: Trace, home: nat, q: Word, q0: Word, n: nat)
    requires n < 0x7FFF_FFFF && AllInWindow(t, q0, n) && InWindow(q0, n, q)
    ensures RevokedBy(t, home, q) <==> Revokes(t, home, q, q0)
    decreases t
  {
    if t.Then? {
      RevokedByIff(t.rest, home, q, q0, n);
      if Revokes(t.rest, home, q, q0) {
        var s: Word, homes :| Contains(t.rest, Revoked(s, homes)) && home in homes && Ahead(s, q0) >= Ahead(q, q0);
        assert Contains(t, Revoked(s, homes));
      }
      if t.event.Revoked? {
        NotOlder(q0, n, t.event.seqno, q);
        if home in t.event.homes && Ahead(t.event.seqno, q0) >= Ahead(q, q0) {
          assert Contains(t, Revoked(t.event.seqno, t.event.homes));
        }
      }
      if Revokes(t, home, q, q0) {
        var s: Word, homes :| Contains(t, Revoked(s, homes)) && home in homes && Ahead(s, q0) >= Ahead(q, q0);
        if t.event != Revoked(s, homes) {
          assert Contains(t.rest, Revoked(s, homes));
        }
      }
    }
  }

  // ---------------------------------------------------------------- replay leaves them alone

  /** Every tag of block `n` in the trace is revoked. */
  ghost predicate AllRevoked(t: Trace, whole: Trace, n: nat, q0: Word) {
    forall q: Word, tag, at :: Contains(t, Tagged(q, tag, at)) && tag.home == n ==> Revokes(whole, n, q, q0)
  }

  lemma {:induction false} NoLiveTagIff(whole: Trace, t: Trace, n: nat, q0: Word, size: nat)
    requires size < 0x7FFF_FFFF && AllInWindow(whole, q0, size) && AllInWindow(t, q0, size)
    ensures LastLiveTag(whole, t, n) == None <==> AllRevoked(t, whole, n, q0)
    decreases t
  {
    hide Revokes;
    if t.Then? {
      NoLiveTagIff(whole, t.rest, n, q0, size);
      var e := t.event;
      if e.Tagged? && e.tag.home == n {
        RevokedByIff(whole, n, e.seqno, q0, size);
        assert Contains(t, Tagged(e.seqno, e.tag, e.at));
      }
      if AllRevoked(t, whole, n, q0) {
        forall q: Word, tag, at | Contains(t.rest, Tagged(q, tag, at)) && tag.home == n ensures Revokes(whole, n, q, q0) {
          assert Contains(t, Tagged(q, tag, at));
        }
      } else {
        var q: Word, tag, at :| Contains(t, Tagged(q, tag, at)) && tag.home == n && !Revokes(whole, n, q, q0);
        if e != Tagged(q, tag, at) {
          assert Contains(t.rest, Tagged(q, tag, at));
        }
      }
    }
  }

  /** Replay leaves a block as it was if every committed tag of it is covered by a committed
      revoke that is not older. */
  lemma RevokedIsNotWritten<B>(fmt: Format<B>, geo: Geometry, d: Disk<B>, n: nat)
    requires WellPlaced(geo, |d|) && fmt.jsbStart(Jsb(geo, d)) != 0 && n < |d|
    requires Commits(Scan(fmt, geo, d)) > 0
    requires TagsAtHome(geo, |d|, CommittedPrefix(Scan(fmt, geo, d)))
    requires ReturnCode(ReplayProgram(fmt, geo, d)) == 0
    requires var t := CommittedPrefix(Scan(fmt, geo, d)); AllRevoked(t, t, n, fmt.jsbSequence(Jsb(geo, d)))
    ensures Final(fmt, geo, d, ReplayProgram(fmt, geo, d))[n] == d[n]
  {
    hide AllRevoked, Walk, Flush;
    var q, t := fmt.jsbSequence(Jsb(geo, d)), CommittedPrefix(Scan(fmt, geo, d));
    ReplayIsExact(fmt, geo, d);
    CommitsBounded(fmt, geo, d, None, fmt.jsbStart(Jsb(geo, d)), fmt.jsbStart(Jsb(geo, d)), q, 0);
    ScanFindsLastCommit(q, Commits(Scan(fmt, geo, d)));
    assert Decide(fmt, geo, d).LastPass?;
    LastPassFacts(fmt, geo, d);
    NoLiveTagIff(t, t, n, q, geo.maxlen + 4);
  }

  // ---------------------------------------------------------------- the size of the table

  function SetOf(homes: seq<nat>): set<nat> { set h | h in homes }

  lemma HeadAndRest(homes: seq<nat>)
    requires homes != []
    ensures SetOf(homes) == {homes[0]} + SetOf(homes[1..])
  {
  }

  lemma NoneListed()
    ensures SetOf([]) == {}
  {
  }

  /** All blocks that the trace revokes. */
  function RevokedHomes(t: Trace): set<nat> {
    match t
    case End(_) => {}
    case Then(Revoked(_, homes), rest) => SetOf(homes) + RevokedHomes(rest)
    case Then(_, rest) => RevokedHomes(rest)
  }

  lemma RevokeAdded(m: RevokeMap, home: nat, q: Word)
    requires |m| <= 32
    ensures AddRevoke(m, home, q).None? <==> home !in m && |m| == 32
    ensures AddRevoke(m, home, q).Some? ==>
              && AddRevoke(m, home, q).value.Keys == m.Keys + {home}
              && |AddRevoke(m, home, q).value| <= 32
  {
    if home in m {
      assert m[home := q].Keys == m.Keys == m.Keys + {home} && |m[home := q].Keys| == |m[home := q]|;
      assert |m.Keys| == |m|;
    } else {
      assert m[home := q].Keys == m.Keys + {home};
    }
  }

  lemma TooMany(m: RevokeMap, home: nat, more: set<nat>)
    requires home !in m && |m| == 32 && home in more
    ensures |m.Keys + more| > 32
  {
    assert |m.Keys + {home}| == 33;
    SubsetSize(m.Keys + {home}, m.Keys + more);
  }

  lemma {:induction false} AddRevokesIff(m: RevokeMap, homes: seq<nat>, q: Word)
    requires |m| <= 32
    ensures var all := m.Keys + SetOf(homes);
            && (AddRevokes(m, homes, q).None? <==> |all| > 32)
            && (AddRevokes(m, homes, q).Some? ==>
                  AddRevokes(m, homes, q).value.Keys == all && |AddRevokes(m, homes, q).value| <= 32)
    decreases |homes|
  {
    hide AddRevoke, SetOf;
    var s := SetOf(homes);
    if homes == [] {
      NoneListed();
      assert m.Keys + s == m.Keys && |m.Keys| == |m|;
    } else {
      RevokeAdded(m, homes[0], q);
      var rest := SetOf(homes[1..]);
      HeadAndRest(homes);
      SetsRegroup(m.Keys, {homes[0]}, rest);
      if AddRevoke(m, homes[0], q).None? {
        TooMany(m, homes[0], s);
      } else {
        AddRevokesIff(AddRevoke(m, homes[0], q).value, homes[1..], q);
      }
    }
  }

  /** The REVOKE pass gives up exactly when the committed revokes name more than 32
      different blocks. */
  lemma {:induction false} RevokesOverflowIff(m: RevokeMap, t: Trace)
    requires |m| <= 32
    ensures CollectRevokes(m, t).None? <==> |m.Keys + RevokedHomes(t)| > 32
    decreases t
  {
    hide AddRevokes, RevokedHomes, SetOf;
    HomesOf(t);
    match t
    case End(_) =>
      assert m.Keys + {} == m.Keys && |m.Keys| == |m|;
    case Then(Revoked(q, homes), rest) =>
      var here, more := SetOf(homes), RevokedHomes(rest);
      AddRevokesIff(m, homes, q);
      SetsRegroup(m.Keys, here, more);
      if AddRevokes(m, homes, q).None? {
        SubsetSize(m.Keys + here, m.Keys + here + more);
      } else {
        RevokesOverflowIff(AddRevokes(m, homes, q).value, rest);
      }
    case Then(_, rest) => RevokesOverflowIff(m, rest);
  }

  lemma HomesOf(t: Trace)
    ensures match t
            case End(_) => RevokedHomes(t) == {}
            case Then(Revoked(_, homes), rest) => RevokedHomes(t) == SetOf(homes) + RevokedHomes(rest)
            case Then(_, rest) => RevokedHomes(t) == RevokedHomes(rest)
  {
  }

  // ---------------------------------------------------------------- a log with a revoke

  /** One committed block, and then a transaction of nothing but a revoke block. */
  ghost predicate HoldsRevoke<B>(fmt: Format<B>, geo: Geometry, d: Disk<B>, q: Word, tag: Tag, homes: seq<nat>) {
    && geo.maxlen == 8 && geo.first == 1 && (forall j: nat :: 1 <= j <= 6 ==> ReadLog(geo, d, j).Some?)
    && fmt.parse(ReadLog(geo, d, 1).value) == Header(q, Descriptor(true, [tag]))
    && fmt.tagOk(tag, q, ReadLog(geo, d, 2).value)
    && fmt.parse(ReadLog(geo, d, 3).value) == Header(q, LogFormat.Commit(true))
    && fmt.parse(ReadLog(geo, d, 4).value) == Header(Plus(q, 1), Revoke(true, homes))
    && fmt.parse(ReadLog(geo, d, 5).value) == Header(Plus(q, 1), LogFormat.Commit(true))
    && fmt.parse(ReadLog(geo, d, 6).value) == NotLog
  }

  function RevokeTrace(q: Word, tag: Tag, homes: seq<nat>): Trace {
    Then(Tagged(q, tag, 2), Then(Committed(q), Then(Revoked(Plus(q, 1), homes), Then(Committed(Plus(q, 1)), End(0)))))
  }

  lemma RevokeWalk<B>(fmt: Format<B>, geo: Geometry, d: Disk<B>, q: Word, tag: Tag, homes: seq<nat>, stop: Option<Word>)
    requires HoldsRevoke(fmt, geo, d, q, tag, homes) && (stop == None || stop == Some(Plus(q, 1)))
    ensures Walk(fmt, geo, d, stop, 1, 1, q, 0) == RevokeTrace(q, tag, homes)
  {
    hide ReadLog;
    var q1, q2 := Plus(q, 1), Plus(Plus(q, 1), 1);
    assert q2 == Plus(q, 2);
    SeqDiffIsDistance(q, 2, 1);
    SeqDiffIsDistance(q, 1, 1);
    SeqDiffIsDistance(q, 0, 1);
    assert Plus(q, 0) == q;
    var tagged := Descriptor(true, [tag]);
    assert Look(fmt, geo, d, stop, 6, q2) == Glance.Stop(0);
    assert Walk(fmt, geo, d, stop, 1, 6, q2, 4) == End(0);
    assert Walk(fmt, geo, d, stop, 1, 5, q1, 3) == Then(Committed(q1), End(0));
    assert Walk(fmt, geo, d, stop, 1, 4, q1, 2) == Then(Revoked(q1, homes), Then(Committed(q1), End(0)));
    assert Walk(fmt, geo, d, stop, 1, 3, q, 1) == Then(Committed(q), Then(Revoked(q1, homes), Then(Committed(q1), End(0))));
    assert AfterTags(geo, 1, 1) == AfterTags(geo, 2, 0) == 2;
    assert NextBlock(geo, 1, tagged) == 3;
    assert TagsThen(geo, q, [tag], 1, Walk(fmt, geo, d, stop, 1, 3, q, 1))
      == Then(Tagged(q, tag, 2), TagsThen(geo, q, [tag][1..], 2, Walk(fmt, geo, d, stop, 1, 3, q, 1)));
  }

  lemma RevokeTraceFacts(q: Word, tag: Tag, homes: seq<nat>)
    ensures var t := RevokeTrace(q, tag, homes);
            && Commits(t) == 2 && Verdict(t) == 0 && AllInWindow(t, q, 1) && RevokedHomes(t) == SetOf(homes)
            && (RevokedBy(t, tag.home, q) <==> tag.home in homes)
  {
    hide SetOf;
    SeqDiffIsDistance(q, 0, 0);
    SeqDiffIsDistance(q, 1, 0);
    assert Plus(q, 0) == q;
    var q1 := Plus(q, 1);
    var t4 := Then(Committed(q1), End(0));
    var t3 := Then(Revoked(q1, homes), t4);
    var t2 := Then(Committed(q), t3);
    assert RevokedHomes(t4) == {} && Commits(t4) == 1 && Verdict(t4) == 0 && AllInWindow(t4, q, 1) && !RevokedBy(t4, tag.home, q);
    assert RevokedHomes(t3) == SetOf(homes) && Commits(t3) == 1 && Verdict(t3) == 0 && AllInWindow(t3, q, 1);
    assert RevokedHomes(t2) == SetOf(homes) && Commits(t2) == 2 && Verdict(t2) == 0 && AllInWindow(t2, q, 1);
    assert RevokedBy(t2, tag.home, q) <==> tag.home in homes;
  }

  /** What replay does with such a log: a table that overflows stops it, a revoked block is
      left alone, and any other block goes home. */
  lemma RevokeReplay<B>(fmt: Format<B>, geo: Geometry, d: Disk<B>, q: Word, tag: Tag, homes: seq<nat>)
    requires geo.extents != [] && JsbBlock(geo) < |d|
    requires fmt.jsbStart(Jsb(geo, d)) == 1 && fmt.jsbSequence(Jsb(geo, d)) == q
    requires HoldsRevoke(fmt, geo, d, q, tag, homes)
    ensures ReplayProgram(fmt, geo, d) ==
            if |SetOf(homes)| > 32 then Done(-5)
            else if tag.home in homes then Done(0)
            else Do(Copy(2, tag.home, tag.escaped), Done(0))
  {
    hide SetOf, Walk, CollectRevokes, RevokedBy, RevokedHomes, AllInWindow;
    var t := RevokeTrace(q, tag, homes);
    RevokeWalk(fmt, geo, d, q, tag, homes, None);
    RevokeWalk(fmt, geo, d, q, tag, homes, Some(Plus(q, 1)));
    RevokeTraceFacts(q, tag, homes);
    ScanFindsLastCommit(q, 2);
    assert ScanResult(q, 2) == Plus(q, 1);
    RevokesOverflowIff(map[], t);
    var none: RevokeMap := map[];
    assert none.Keys + SetOf(homes) == SetOf(homes);
    RevokeTableMeaning(map[], t, q, 1);
    SeqDiffIsDistance(q, 0, 0);
    assert Plus(q, 0) == q;
    if CollectRevokes(map[], t).Some? {
      RevokeFlush(fmt, geo, d, CollectRevokes(map[], t).value, q, tag, homes);
    }
  }

  lemma RevokeFlush<B>(fmt: Format<B>, geo: Geometry, d: Disk<B>, rev: RevokeMap, q: Word, tag: Tag, homes: seq<nat>)
    requires ReadLog(geo, d, 2).Some? && fmt.tagOk(tag, q, ReadLog(geo, d, 2).value)
    ensures Flush(fmt, geo, d, rev, RevokeTrace(q, tag, homes))
            == if IsRevoked(rev, tag.home, q) then Done(0) else Do(Copy(2, tag.home, tag.escaped), Done(0))
  {
    hide IsRevoked;
    var last := Then(Committed(Plus(q, 1)), End(0));
    assert Flush(fmt, geo, d, rev, last) == Done(0);
    assert Flush(fmt, geo, d, rev, Then(Revoked(Plus(q, 1), homes), last)) == Done(0);
  }

  // ---------------------------------------------------------------- the same in bytes

  /** A dirty journal of eight blocks at block 5: transaction `q` writes `w`, and transaction
      `q + 1` revokes `homes`. */
  function RevokedDisk(cfg: Config, q: Word, w: Write<Block>, homes: seq<nat>): (d: Disk<Block>)
    requires Revocable(cfg, homes)
    ensures |d| == 13
  {
    var zeros: Block := Zeros(cfg.blockSize);
    [zeros, zeros, zeros, zeros, zeros, Superblocks.SetJsb(cfg, zeros, 1, q), DescriptorBlock(cfg, q, [w]), Escaped(w.data),
     CommitBlock(cfg, q), RevokeBlock(cfg, Plus(q, 1), homes), CommitBlock(cfg, Plus(q, 1)), zeros, zeros]
  }

  lemma RevokedDiskHolds(cfg: Config, q: Word, w: Write<Block>, homes: seq<nat>)
    requires |cfg.uuid| == 16 && Revocable(cfg, homes) && w.home == 3
    ensures var fmt, geo, d := JournalFormat(cfg), SmallJournal(cfg), RevokedDisk(cfg, q, w, homes);
            && HoldsRevoke(fmt, geo, d, q, ExpectedTag(cfg, q, w), homes)
            && ReadLog(geo, d, 2) == Some(Escaped(w.data))
            && geo.extents != [] && JsbBlock(geo) < |d| && Truncated(geo, 3) == 3
            && fmt.jsbStart(Jsb(geo, d)) == 1 && fmt.jsbSequence(Jsb(geo, d)) == q
  {
    hide Parse, TagOk, Superblocks.SetJsb, DescriptorBlock, Escaped, StartsWithMagic, ExpectedTag, LogAddress, CommitBlock, RevokeBlock,
         JsbStart, JsbSequence;
    forall j: nat ensures LogAddress(SmallJournal(cfg), j) == if j < 8 then Some(5 + j) else None {
      SmallAddresses(cfg, j);
    }
    JsbReadsBack(cfg, Zeros(cfg.blockSize), 1, q);
    DescriptorRoundTrip(cfg, q, [w]);
    CommitRoundTrip(cfg, q);
    RevokeRoundTrip(cfg, Plus(q, 1), homes);
    CommitRoundTrip(cfg, Plus(q, 1));
    ZerosAreNoLog(cfg);
    assert ExpectedTags(cfg, q, [w], 0) == [ExpectedTag(cfg, q, w)];
  }

  /** Replay of this log leaves block 3 as it was if the revoke block lists it, and puts the
      committed content there if it does not; with more than 32 different blocks revoked it
      stops with -5 and writes nothing. In every layout, for any sequence number. */
  lemma RevokedDiskReplay(cfg: Config, q: Word, w: Write<Block>, homes: seq<nat>)
    requires |cfg.uuid| == 16 && Revocable(cfg, homes) && w.home == 3
    ensures var fmt, geo, d := JournalFormat(cfg), SmallJournal(cfg), RevokedDisk(cfg, q, w, homes);
            && WellPlaced(geo, |d|)
            && var r := Run(fmt, geo, d, -1, ReplayProgram(fmt, geo, d));
               if |SetOf(homes)| > 32 then r.ending == Finished(-5) && r.disk == d
               else r.ending == Finished(0) && r.disk == if 3 in homes then d else d[3 := w.data]
  {
    hide Parse, Escaped, StartsWithMagic, RestoreMagic, RevokedDisk, SmallJournal, HoldsRevoke, WellPlaced, ReadLog, ReplayProgram, Jsb,
         JsbBlock, SetOf;
    var fmt, geo, d := JournalFormat(cfg), SmallJournal(cfg), RevokedDisk(cfg, q, w, homes);
    SmallIsPlaced(cfg);
    RevokedDiskHolds(cfg, q, w, homes);
    EscapeRoundTrip(w.data);
    var tag := ExpectedTag(cfg, q, w);
    RevokeReplay(fmt, geo, d, q, tag, homes);
    OneCopyRuns(fmt, geo, d, 2, 3, tag.escaped);
  }

  lemma OneCopyRuns<B>(fmt: Format<B>, geo: Geometry, d: Disk<B>, at: nat, home: nat, escaped: bool)
    requires home < |d| && Truncated(geo, home) == home && ReadLog(geo, d, at).Some?
    ensures Run(fmt, geo, d, -1, Do(Copy(at, home, escaped), Done(0)))
            == Outcome(d[home := fmt.Unlogged(ReadLog(geo, d, at).value, escaped)], -1, Finished(0))
  {
    var last: Program<B> := Done(0);
    var d1 := d[home := fmt.Unlogged(ReadLog(geo, d, at).value, escaped)];
    assert Run(fmt, geo, d1, -1, last) == Outcome(d1, -1, Finished(0));
  }
}
