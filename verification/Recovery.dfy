/** Mount-time recovery: the REVOKE, FLUSH and BUILD passes and the cleanup after them. */
module Recovery {
  import opened Words
  import opened LogFormat
  import opened LogWalk
  import opened Programs

  const REPLAY_MAX := 64
  const REVOKE_MAX := 32

  // ---------------------------------------------------------------- the revoke table

  /** Home block to highest revoking sequence. */
  type RevokeMap = map<nat, Word>

  function AddRevoke(m: RevokeMap, home: nat, q: Word): Option<RevokeMap> {
    if home in m then Some(if SeqDiff(q, m[home]) > 0 then m[home := q] else m)
    else if |m| >= REVOKE_MAX then None
    else Some(m[home := q])
  }

  function AddRevokes(m: RevokeMap, homes: seq<nat>, q: Word): Option<RevokeMap>
    decreases |homes|
  {
    if homes == [] then Some(m)
    else match AddRevoke(m, homes[0], q)
      case None => None
      case Some(m') => AddRevokes(m', homes[1..], q)
  }

  function CollectRevokes(m: RevokeMap, t: Trace): Option<RevokeMap>
    decreases t
  {
    match t
    case End(_) => Some(m)
    case Then(Revoked(q, homes), rest) =>
      (match AddRevokes(m, homes, q)
       case None => None
       case Some(m') => CollectRevokes(m', rest))
    case Then(_, rest) => CollectRevokes(m, rest)
  }

  predicate IsRevoked(m: RevokeMap, home: nat, q: Word) {
    home in m && SeqDiff(m[home], q) >= 0
  }

  /** The trace itself revokes `home` for sequence `q`: some committed transaction no
      older than `q` lists it. */
  predicate RevokedBy(t: Trace, home: nat, q: Word) {
    match t
    case End(_) => false
    case Then(Revoked(s, homes), rest) => (home in homes && SeqDiff(s, q) >= 0) || RevokedBy(rest, home, q)
    case Then(_, rest) => RevokedBy(rest, home, q)
  }

  ghost predicate MapInWindow(m: RevokeMap, q0: Word, n: nat) {
    forall h :: h in m ==> InWindow(q0, n, m[h])
  }

  lemma {:induction false} AddRevokesMeaning(m: RevokeMap, homes: seq<nat>, s: Word, q0: Word, n: nat)
    requires n < 0x7FFF_FFFF && MapInWindow(m, q0, n) && InWindow(q0, n, s)
    ensures var r := AddRevokes(m, homes, s);
            r.Some? ==>
              && MapInWindow(r.value, q0, n)
              && forall home, q: Word :: InWindow(q0, n, q) ==>
                   (IsRevoked(r.value, home, q) <==> IsRevoked(m, home, q) || (home in homes && SeqDiff(s, q) >= 0))
    decreases |homes|
  {
    if homes != [] && AddRevoke(m, homes[0], s).Some? {
      AddRevokesMeaning(AddRevoke(m, homes[0], s).value, homes[1..], s, q0, n);
    }
  }

  /** The table answers exactly as the log does, as long as sequence numbers stay within
      half their range of each other. */
  lemma {:induction false} RevokeTableMeaning(m: RevokeMap, t: Trace, q0: Word, n: nat)
    requires n < 0x7FFF_FFFF && MapInWindow(m, q0, n) && AllInWindow(t, q0, n)
    ensures var r := CollectRevokes(m, t);
            r.Some? ==>
              forall home, q: Word :: InWindow(q0, n, q) ==>
                (IsRevoked(r.value, home, q) <==> IsRevoked(m, home, q) || RevokedBy(t, home, q))
    decreases t
  {
    match t
    case End(_) =>
    case Then(Revoked(s, homes), rest) =>
      AddRevokesMeaning(m, homes, s, q0, n);
      if AddRevokes(m, homes, s).Some? {
        RevokeTableMeaning(AddRevokes(m, homes, s).value, rest, q0, n);
      }
    case Then(_, rest) => RevokeTableMeaning(m, rest, q0, n);
  }

  // ---------------------------------------------------------------- FLUSH and BUILD

  /** The writes of the FLUSH pass. -7: a data block cannot be read; -8: its checksum
      does not match. */
  function Flush<B>(fmt: Format<B>, geo: Geometry, d: Disk<B>, rev: RevokeMap, t: Trace): Program<B> {
    match t
    case End(rc) => Done(rc)
    case Then(Tagged(q, tag, at), rest) =>
      if IsRevoked(rev, tag.home, q) then Flush(fmt, geo, d, rev, rest)
      else (match ReadLog(geo, d, at)
            case None => Done(-7)
            case Some(b) =>
              if !fmt.tagOk(tag, q, b) then Done(-8)
              else Do(Copy(at, tag.home, tag.escaped), Flush(fmt, geo, d, rev, rest)))
    case Then(_, rest) => Flush(fmt, geo, d, rev, rest)
  }

  datatype Redirect = Redirect(at: nat, escaped: bool)

  type ReplayMap = map<nat, Redirect>

  datatype Built = Built(redirects: ReplayMap, rc: int)

  function AddRedirect(m: ReplayMap, home: nat, r: Redirect): Option<ReplayMap> {
    if home in m || |m| < REPLAY_MAX then Some(m[home := r]) else None
  }

  /** The redirect map of the BUILD pass. -1: the map overflows. */
  function Build<B>(fmt: Format<B>, geo: Geometry, d: Disk<B>, rev: RevokeMap, m: ReplayMap, t: Trace): Built
    decreases t
  {
    match t
    case End(rc) => Built(m, rc)
    case Then(Tagged(q, tag, at), rest) =>
      if IsRevoked(rev, tag.home, q) then Build(fmt, geo, d, rev, m, rest)
      else (match ReadLog(geo, d, at)
            case None => Built(m, -7)
            case Some(b) =>
              if !fmt.tagOk(tag, q, b) then Built(m, -8)
              else match AddRedirect(m, tag.home, Redirect(at, tag.escaped))
                case None => Built(m, -1)
                case Some(m') => Build(fmt, geo, d, rev, m', rest))
    case Then(_, rest) => Build(fmt, geo, d, rev, m, rest)
  }

  // ---------------------------------------------------------------- the passes together

  function Jsb<B>(geo: Geometry, d: Disk<B>): B
    requires geo.extents != [] && JsbBlock(geo) < |d|
  {
    d[JsbBlock(geo)]
  }

  function Scan<B>(fmt: Format<B>, geo: Geometry, d: Disk<B>): Trace
    requires geo.extents != [] && JsbBlock(geo) < |d|
  {
    var start := fmt.jsbStart(Jsb(geo, d));
    Walk(fmt, geo, d, None, start, start, fmt.jsbSequence(Jsb(geo, d)), 0)
  }

  /** The trace of the passes after SCAN. */
  function Later<B>(fmt: Format<B>, geo: Geometry, d: Disk<B>): Trace
    requires geo.extents != [] && JsbBlock(geo) < |d|
  {
    var start, q := fmt.jsbStart(Jsb(geo, d)), fmt.jsbSequence(Jsb(geo, d));
    Walk(fmt, geo, d, Some(ScanResult(q, Commits(Scan(fmt, geo, d)))), start, start, q, 0)
  }

  /** What SCAN and REVOKE decide: nothing to do, an error, or a last pass over a trace. */
  datatype Decision = Idle | Refuse(rc: int) | LastPass(revokes: RevokeMap, trace: Trace)

  function Decide<B>(fmt: Format<B>, geo: Geometry, d: Disk<B>): Decision
    requires geo.extents != [] && JsbBlock(geo) < |d|
  {
    var scan := Scan(fmt, geo, d);
    if fmt.jsbStart(Jsb(geo, d)) == 0 then Idle
    else if Verdict(scan) != 0 then Refuse(Verdict(scan))
    else if !ReplayNeeded(fmt.jsbSequence(Jsb(geo, d)), Commits(scan)) then Idle
    else match CollectRevokes(map[], Later(fmt, geo, d))
      case None => Refuse(-5)
      case Some(rev) =>
        if Verdict(Later(fmt, geo, d)) != 0 then Refuse(Verdict(Later(fmt, geo, d)))
        else LastPass(rev, Later(fmt, geo, d))
  }

  /** The writes of replay on a writable device. */
  function ReplayProgram<B>(fmt: Format<B>, geo: Geometry, d: Disk<B>): Program<B>
    requires geo.extents != [] && JsbBlock(geo) < |d|
  {
    match Decide(fmt, geo, d)
    case Idle => Done(0)
    case Refuse(rc) => Done(rc)
    case LastPass(rev, t) => Flush(fmt, geo, d, rev, t)
  }

  /** The redirect map of replay on a read-only device. */
  function SoftReplay<B>(fmt: Format<B>, geo: Geometry, d: Disk<B>): Built
    requires geo.extents != [] && JsbBlock(geo) < |d|
  {
    match Decide(fmt, geo, d)
    case Idle => Built(map[], 0)
    case Refuse(rc) => Built(map[], rc)
    case LastPass(rev, t) => Build(fmt, geo, d, rev, map[], t)
  }

  function Cleanup<B>(q: Word): Program<B> {
    Do(SetJsb(0, q), Do(SetRecover(false), Done(0)))
  }

  /** All writes of a writable mount: replay, then the cleaning checkpoint unless the
      journal was clean and RECOVER clear when the mount began. */
  function MountProgram<B>(fmt: Format<B>, geo: Geometry, d: Disk<B>): Program<B>
    requires geo.extents != [] && JsbBlock(geo) < |d| && geo.sbBlock < |d|
  {
    AndThen(ReplayProgram(fmt, geo, d),
            if fmt.recover(d[geo.sbBlock]) || fmt.jsbStart(Jsb(geo, d)) != 0
            then Cleanup(fmt.jsbSequence(Jsb(geo, d))) else Done(0))
  }

  /** A writable mount on a device that accepts `budget` more writes. */
  function Mount<B>(fmt: Format<B>, geo: Geometry, d: Disk<B>, budget: int): (r: Disk<B>)
    requires geo.extents != [] && JsbBlock(geo) < |d| && geo.sbBlock < |d|
    ensures |r| == |d|
  {
    Run(fmt, geo, d, budget, MountProgram(fmt, geo, d)).disk
  }

  // ---------------------------------------------------------------- replay exactness

  /** The last tag of `n` in `t` that `whole` does not revoke. */
  function LastLiveTag(whole: Trace, t: Trace, n: nat): Option<(nat, bool)> {
    match t
    case End(_) => None
    case Then(e, rest) =>
      if LastLiveTag(whole, rest, n).Some? then LastLiveTag(whole, rest, n)
      else if e.Tagged? && e.tag.home == n && !RevokedBy(whole, n, e.seqno) then Some((e.at, e.tag.escaped))
      else None
  }

  /** Every tag of the log names a block that the file system may journal. */
  ghost predicate TagsAtHome(geo: Geometry, size: nat, t: Trace) {
    t.Then? ==>
      && (t.event.Tagged? ==> Home(geo, size, t.event.tag.home) && t.event.at > 0)
      && TagsAtHome(geo, size, t.rest)
  }

  /** The table and the trace agree on the sequence numbers of the window. */
  ghost predicate Agree(rev: RevokeMap, whole: Trace, q0: Word, n: nat) {
    forall home, q: Word :: InWindow(q0, n, q) ==> (IsRevoked(rev, home, q) <==> RevokedBy(whole, home, q))
  }

  lemma {:induction false} FlushCopies<B>(fmt: Format<B>, geo: Geometry, d: Disk<B>, rev: RevokeMap, t: Trace)
    requires TagsAtHome(geo, |d|, t)
    ensures CopiesOnly(geo, d, Flush(fmt, geo, d, rev, t))
    decreases t
  {
    if t.Then? {
      FlushCopies(fmt, geo, d, rev, t.rest);
    }
  }

  lemma {:induction false} FlushLastCopy<B>(fmt: Format<B>, geo: Geometry, d: Disk<B>, rev: RevokeMap,
                                            whole: Trace, t: Trace, q0: Word, n: nat, home: nat)
    requires Agree(rev, whole, q0, n) && AllInWindow(t, q0, n)
    requires ReturnCode(Flush(fmt, geo, d, rev, t)) == 0
    ensures LastCopy(Flush(fmt, geo, d, rev, t), home) == LastLiveTag(whole, t, home)
    decreases t
  {
    if t.Then? {
      FlushLastCopy(fmt, geo, d, rev, whole, t.rest, q0, n, home);
    }
  }

  /** Facts about the last pass of a mount: it follows the committed prefix of the scan,
      and its revoke table agrees with that prefix. */
  lemma LastPassFacts<B>(fmt: Format<B>, geo: Geometry, d: Disk<B>)
    requires WellPlaced(geo, |d|) && Decide(fmt, geo, d).LastPass?
    ensures var q := fmt.jsbSequence(Jsb(geo, d));
            var pass := Decide(fmt, geo, d);
            && AllInWindow(pass.trace, q, geo.maxlen + 4)
            && Agree(pass.revokes, pass.trace, q, geo.maxlen + 4)
            && (Commits(Scan(fmt, geo, d)) > 0 ==> pass.trace == CommittedPrefix(Scan(fmt, geo, d)))
  {
    var start, q := fmt.jsbStart(Jsb(geo, d)), fmt.jsbSequence(Jsb(geo, d));
    var scan := Scan(fmt, geo, d);
    var stop := Some(ScanResult(q, Commits(scan)));
    WalkWindow(fmt, geo, d, stop, start, start, q, 0, q);
    RevokeTableMeaning(map[], Later(fmt, geo, d), q, geo.maxlen + 4);
    if Commits(scan) > 0 {
      CommitsBounded(fmt, geo, d, None, start, start, q, 0);
      ScanFindsLastCommit(q, Commits(scan));
      LaterPassesSeeCommittedPrefix(fmt, geo, d, start, start, q, 0);
    }
  }

  /** What replay must leave in block `n`: the payload of its last tag in the committed
      prefix that no committed revoke covers, else its old content. */
  function Recovered<B>(fmt: Format<B>, geo: Geometry, d: Disk<B>, committed: Trace, n: nat): B
    requires n < |d|
  {
    match LastLiveTag(committed, committed, n)
    case None => d[n]
    case Some((at, escaped)) =>
      match ReadLog(geo, d, at)
      case None => d[n]
      case Some(b) => fmt.Unlogged(b, escaped)
  }

  /** Replay exactness. A dirty log with at least one commit, whose replay reports no
      error, puts exactly `Recovered` into every block. */
  lemma ReplayIsExact<B>(fmt: Format<B>, geo: Geometry, d: Disk<B>)
    requires WellPlaced(geo, |d|) && fmt.jsbStart(Jsb(geo, d)) != 0
    requires Commits(Scan(fmt, geo, d)) > 0
    requires TagsAtHome(geo, |d|, CommittedPrefix(Scan(fmt, geo, d)))
    requires ReturnCode(ReplayProgram(fmt, geo, d)) == 0
    ensures Run(fmt, geo, d, -1, ReplayProgram(fmt, geo, d)).ending == Finished(0)
    ensures forall n :: 0 <= n < |d| ==>
              Final(fmt, geo, d, ReplayProgram(fmt, geo, d))[n]
              == Recovered(fmt, geo, d, CommittedPrefix(Scan(fmt, geo, d)), n)
  {
    var q := fmt.jsbSequence(Jsb(geo, d));
    var scan := Scan(fmt, geo, d);
    CommitsBounded(fmt, geo, d, None, fmt.jsbStart(Jsb(geo, d)), fmt.jsbStart(Jsb(geo, d)), q, 0);
    ScanFindsLastCommit(q, Commits(scan));
    LastPassFacts(fmt, geo, d);
    var pass := Decide(fmt, geo, d);
    FlushCopies(fmt, geo, d, pass.revokes, pass.trace);
    CompletedCopies(fmt, geo, d, ReplayProgram(fmt, geo, d));
    forall n | 0 <= n < |d|
      ensures Copied(fmt, geo, d, ReplayProgram(fmt, geo, d), n) == Recovered(fmt, geo, d, pass.trace, n)
    {
      FlushLastCopy(fmt, geo, d, pass.revokes, pass.trace, pass.trace, q, geo.maxlen + 4, n);
    }
  }

  // ------------------------------------------------- a log without a valid commit

  /** Recovery of a log that holds no valid commit does nothing exactly when the expected
      sequence lies in 1..2^31. Outside that range the later passes run regardless. */
  lemma UncommittedLogIsIgnored<B>(fmt: Format<B>, geo: Geometry, d: Disk<B>)
    requires geo.extents != [] && JsbBlock(geo) < |d|
    requires fmt.jsbStart(Jsb(geo, d)) != 0
    requires Verdict(Scan(fmt, geo, d)) == 0 && Commits(Scan(fmt, geo, d)) == 0
    ensures Decide(fmt, geo, d) == Idle <==> 0 < fmt.jsbSequence(Jsb(geo, d)) <= 0x8000_0000
  {
    ScanOfUncommittedLog(fmt.jsbSequence(Jsb(geo, d)));
  }

  /** A log that holds one descriptor of one tag, its data block, and then no header. */
  ghost predicate LoneDescriptor<B>(fmt: Format<B>, geo: Geometry, d: Disk<B>, j: nat, tag: Tag) {
    && 0 < j < geo.maxlen - 2
    && ReadLog(geo, d, j).Some? && fmt.parse(ReadLog(geo, d, j).value) == Header(0, Descriptor(true, [tag]))
    && ReadLog(geo, d, j + 1).Some? && fmt.tagOk(tag, 0, ReadLog(geo, d, j + 1).value)
    && ReadLog(geo, d, j + 2).Some? && fmt.parse(ReadLog(geo, d, j + 2).value) == NotLog
  }

  lemma LoneDescriptorWalk<B>(fmt: Format<B>, geo: Geometry, d: Disk<B>, j: nat, tag: Tag, stop: Option<Word>)
    requires LoneDescriptor(fmt, geo, d, j, tag) && (stop == None || stop == Some(0))
    ensures Walk(fmt, geo, d, stop, j, j, 0, 0) == Then(Tagged(0, tag, j + 1), End(0))
  {
    var kind := Descriptor(true, [tag]);
    assert Look(fmt, geo, d, stop, j, 0) == Go(kind);
    assert AfterTags(geo, j, 1) == AfterTags(geo, j + 1, 0) == j + 1;
    assert Walk(fmt, geo, d, stop, j, j + 2, 0, 1) == End(0);
    assert Onward(fmt, geo, d, stop, j, j, 0, 0, kind) == End(0);
    assert TagsThen(geo, 0, [tag], j, End(0))
      == Then(Tagged(0, tag, j + 1), TagsThen(geo, 0, [tag][1..], j + 1, End(0)));
  }

  lemma LoneTagFlush<B>(fmt: Format<B>, geo: Geometry, d: Disk<B>, tag: Tag, at: nat)
    requires ReadLog(geo, d, at).Some? && fmt.tagOk(tag, 0, ReadLog(geo, d, at).value)
    ensures var t := Then(Tagged(0, tag, at), End(0));
            && Commits(t) == 0 && Verdict(t) == 0 && CollectRevokes(map[], t) == Some(map[])
            && Flush(fmt, geo, d, map[], t) == Do(Copy(at, tag.home, tag.escaped), Done(0))
  {
    var rest := End(0);
    assert Flush(fmt, geo, d, map[], rest) == Done(0);
  }

  /** The failing case: with sequence 0, a descriptor whose transaction was never
      committed is nevertheless written home. */
  lemma UncommittedTagIsFlushed<B>(fmt: Format<B>, geo: Geometry, d: Disk<B>, tag: Tag)
    requires geo.extents != [] && JsbBlock(geo) < |d|
    requires fmt.jsbSequence(Jsb(geo, d)) == 0
    requires LoneDescriptor(fmt, geo, d, fmt.jsbStart(Jsb(geo, d)), tag)
    ensures Commits(Scan(fmt, geo, d)) == 0
    ensures ReplayProgram(fmt, geo, d)
            == Do(Copy(fmt.jsbStart(Jsb(geo, d)) + 1, tag.home, tag.escaped), Done(0))
  {
    var j: nat := fmt.jsbStart(Jsb(geo, d));
    var q: Word := fmt.jsbSequence(Jsb(geo, d));
    var t := Then(Tagged(0, tag, j + 1), End(0));
    LoneTagFlush(fmt, geo, d, tag, j + 1);
    LoneDescriptorWalk(fmt, geo, d, j, tag, None);
    LoneDescriptorWalk(fmt, geo, d, j, tag, Some(0));
    assert Scan(fmt, geo, d) == t;
    assert Later(fmt, geo, d) == t by {
      assert ScanResult(q, 0) == 0;
    }
    UncommittedLogIsIgnored(fmt, geo, d);
    assert Decide(fmt, geo, d) == LastPass(map[], t);
  }

  // ---------------------------------------------------------------- soft replay

  /** A read through the redirect map. */
  function ReadThrough<B>(fmt: Format<B>, geo: Geometry, d: Disk<B>, m: ReplayMap, n: nat): Option<B> {
    if n in m then
      match ReadLog(geo, d, m[n].at)
      case None => None
      case Some(b) => Some(fmt.Unlogged(b, m[n].escaped))
    else if Truncated(geo, n) < |d| then Some(d[Truncated(geo, n)])
    else None
  }

  /** BUILD keeps for each block the redirect of FLUSH's last copy to it. */
  lemma {:induction false} BuildFollowsFlush<B>(fmt: Format<B>, geo: Geometry, d: Disk<B>, rev: RevokeMap,
                                                m: ReplayMap, t: Trace, home: nat)
    requires Build(fmt, geo, d, rev, m, t).rc == 0
    ensures ReturnCode(Flush(fmt, geo, d, rev, t)) == 0
    ensures var built := Build(fmt, geo, d, rev, m, t).redirects;
            match LastCopy(Flush(fmt, geo, d, rev, t), home)
            case None => (home in built <==> home in m) && (home in m ==> built[home] == m[home])
            case Some((at, escaped)) => home in built && built[home] == Redirect(at, escaped)
    decreases t
  {
    match t
    case End(_) =>
    case Then(Tagged(q, tag, at), rest) =>
      if IsRevoked(rev, tag.home, q) {
        BuildFollowsFlush(fmt, geo, d, rev, m, rest, home);
      } else {
        BuildFollowsFlush(fmt, geo, d, rev, AddRedirect(m, tag.home, Redirect(at, tag.escaped)).value, rest, home);
      }
    case Then(_, rest) => BuildFollowsFlush(fmt, geo, d, rev, m, rest, home);
  }

  /** BUILD gives up where FLUSH does and with the same code, unless the map overflows
      first. */
  lemma {:induction false} BuildCodeIsFlushCode<B>(fmt: Format<B>, geo: Geometry, d: Disk<B>, rev: RevokeMap,
                                                   m: ReplayMap, t: Trace)
    requires Verdict(t) != -1
    ensures var rc := Build(fmt, geo, d, rev, m, t).rc;
            rc == -1 || rc == ReturnCode(Flush(fmt, geo, d, rev, t))
    decreases t
  {
    match t
    case End(_) =>
    case Then(Tagged(q, tag, at), rest) =>
      if IsRevoked(rev, tag.home, q) {
        BuildCodeIsFlushCode(fmt, geo, d, rev, m, rest);
      } else if AddRedirect(m, tag.home, Redirect(at, tag.escaped)).Some? {
        BuildCodeIsFlushCode(fmt, geo, d, rev, AddRedirect(m, tag.home, Redirect(at, tag.escaped)).value, rest);
      }
    case Then(_, rest) => BuildCodeIsFlushCode(fmt, geo, d, rev, m, rest);
  }

  /** Homes that FLUSH writes. */
  function Homes<B>(p: Program<B>): set<nat> {
    match p
    case Done(_) => {}
    case Do(s, rest) => (if s.Copy? then {s.home} else {}) + Homes(rest)
  }

  /** One event of BUILD, and the homes that FLUSH then writes. */
  lemma BuildStep<B>(fmt: Format<B>, geo: Geometry, d: Disk<B>, rev: RevokeMap, m: ReplayMap, e: Event, rest: Trace)
    ensures var t := Then(e, rest);
            var later := Homes(Flush(fmt, geo, d, rev, rest));
            if e.Tagged? && !IsRevoked(rev, e.tag.home, e.seqno) then
              if ReadLog(geo, d, e.at).Some? && fmt.tagOk(e.tag, e.seqno, ReadLog(geo, d, e.at).value) then
                && Homes(Flush(fmt, geo, d, rev, t)) == {e.tag.home} + later
                && Build(fmt, geo, d, rev, m, t) ==
                   match AddRedirect(m, e.tag.home, Redirect(e.at, e.tag.escaped))
                   case None => Built(m, -1)
                   case Some(m') => Build(fmt, geo, d, rev, m', rest)
              else Build(fmt, geo, d, rev, m, t).rc < -1 && Homes(Flush(fmt, geo, d, rev, t)) == {}
            else
              Build(fmt, geo, d, rev, m, t) == Build(fmt, geo, d, rev, m, rest) && Homes(Flush(fmt, geo, d, rev, t)) == later
  {
    hide IsRevoked, ReadLog, AddRedirect;
  }

  /** The map overflows exactly when FLUSH would write more than 64 different blocks before
      it stops. */
  lemma {:induction false} BuildOverflowsIff<B>(fmt: Format<B>, geo: Geometry, d: Disk<B>, rev: RevokeMap,
                                                m: ReplayMap, t: Trace)
    requires Verdict(t) != -1 && |m| <= REPLAY_MAX
    ensures Build(fmt, geo, d, rev, m, t).rc == -1 <==> |m.Keys + Homes(Flush(fmt, geo, d, rev, t))| > 64
    decreases t
  {
    assert m.Keys + {} == m.Keys && |m.Keys| == |m|;
    if t.Then? {
      hide IsRevoked, ReadLog, AddRedirect, Build, Flush, Homes;
      var e := t.event;
      BuildStep(fmt, geo, d, rev, m, e, t.rest);
      if e.Tagged? && !IsRevoked(rev, e.tag.home, e.seqno) {
        var r := Redirect(e.at, e.tag.escaped);
        OneMoreHome(m, e.tag.home, r, Homes(Flush(fmt, geo, d, rev, t.rest)));
        if AddRedirect(m, e.tag.home, r).Some? {
          BuildOverflowsIff(fmt, geo, d, rev, m[e.tag.home := r], t.rest);
        }
      } else {
        BuildOverflowsIff(fmt, geo, d, rev, m, t.rest);
      }
    }
  }

  lemma OneMoreHome(m: ReplayMap, home: nat, r: Redirect, more: set<nat>)
    requires |m| <= REPLAY_MAX
    ensures m.Keys + ({home} + more) == m[home := r].Keys + more
    ensures AddRedirect(m, home, r).Some? ==> AddRedirect(m, home, r).value == m[home := r] && |m[home := r]| <= REPLAY_MAX
    ensures AddRedirect(m, home, r).None? ==> |m[home := r].Keys + more| > REPLAY_MAX
  {
    hide AddRedirect;
    KeysAdded(m, home, r);
    RedirectAdded(m, home, r);
    SubsetSize(m[home := r].Keys, m[home := r].Keys + more);
    SetsRegroup(m.Keys, {home}, more);
  }

  lemma KeysAdded(m: ReplayMap, home: nat, r: Redirect)
    ensures m[home := r].Keys == m.Keys + {home}
    ensures |m[home := r].Keys| == |m[home := r]| == if home in m then |m| else |m| + 1
  {
    assert m[home := r].Keys == m.Keys + {home};
    if home in m {
      assert m.Keys + {home} == m.Keys;
    }
  }

  lemma SetsRegroup(a: set<nat>, b: set<nat>, c: set<nat>)
    ensures a + (b + c) == (a + b) + c
  {
  }

  lemma RedirectAdded(m: ReplayMap, home: nat, r: Redirect)
    ensures AddRedirect(m, home, r) == if home in m || |m| < REPLAY_MAX then Some(m[home := r]) else None
  {
  }

  lemma SubsetSize(a: set<nat>, b: set<nat>)
    requires a <= b
    ensures |a| <= |b|
  {
    assert b == a + (b - a);
  }

  /** A walk ends regularly, or with one of three codes. */
  lemma {:induction false} WalkCodes<B>(fmt: Format<B>, geo: Geometry, d: Disk<B>, stop: Option<Word>,
                                        start: nat, j: nat, q: Word, guard: nat)
    requires guard <= geo.maxlen + 4
    ensures Verdict(Walk(fmt, geo, d, stop, start, j, q, guard)) in {0, -2, -3, -6}
    decreases geo.maxlen + 4 - guard
  {
    match Look(fmt, geo, d, stop, j, q)
    case Stop(_) =>
    case Go(kind) =>
      BlockThenVerdict(geo, q, j, kind, Onward(fmt, geo, d, stop, start, j, q, guard, kind));
      if guard + 1 <= geo.maxlen + 4 {
        WalkCodes(fmt, geo, d, stop, start, NextBlock(geo, j, kind), NextSequence(q, kind), guard + 1);
      }
  }

  lemma DecidedCodes<B>(fmt: Format<B>, geo: Geometry, d: Disk<B>)
    requires geo.extents != [] && JsbBlock(geo) < |d|
    ensures match Decide(fmt, geo, d)
            case Idle => true
            case Refuse(rc) => rc != 0 && rc != -1
            case LastPass(_, t) => Verdict(t) == 0
  {
    var start, q := fmt.jsbStart(Jsb(geo, d)), fmt.jsbSequence(Jsb(geo, d));
    WalkCodes(fmt, geo, d, None, start, start, q, 0);
    WalkCodes(fmt, geo, d, Some(ScanResult(q, Commits(Scan(fmt, geo, d)))), start, start, q, 0);
  }

  /** Soft replay equals hard replay. Its map overflows exactly when hard replay would write
      more than 64 different blocks; otherwise both end with the same code and, if that is
      0, reading any block through the map gives what FLUSH would have put on disk. */
  lemma SoftReplayIsHardReplay<B>(fmt: Format<B>, geo: Geometry, d: Disk<B>, n: nat)
    requires WellPlaced(geo, |d|) && n < |d|
    requires Decide(fmt, geo, d).LastPass? ==> TagsAtHome(geo, |d|, Decide(fmt, geo, d).trace)
    ensures SoftReplay(fmt, geo, d).rc == -1 <==> |Homes(ReplayProgram(fmt, geo, d))| > 64
    ensures SoftReplay(fmt, geo, d).rc != -1 ==> SoftReplay(fmt, geo, d).rc == ReturnCode(ReplayProgram(fmt, geo, d))
    ensures SoftReplay(fmt, geo, d).rc == 0 ==>
              && Run(fmt, geo, d, -1, ReplayProgram(fmt, geo, d)).ending == Finished(0)
              && ReadThrough(fmt, geo, d, SoftReplay(fmt, geo, d).redirects, n)
                 == Some(Final(fmt, geo, d, ReplayProgram(fmt, geo, d))[n])
  {
    HomeIsNotTruncated(geo, |d|, n);
    DecidedCodes(fmt, geo, d);
    match Decide(fmt, geo, d)
    case Idle =>
    case Refuse(_) =>
    case LastPass(rev, t) =>
      BuildCodeIsFlushCode(fmt, geo, d, rev, map[], t);
      BuildOverflowsIff(fmt, geo, d, rev, map[], t);
      var none: ReplayMap := map[];
      assert none.Keys + Homes(Flush(fmt, geo, d, rev, t)) == Homes(Flush(fmt, geo, d, rev, t));
      if SoftReplay(fmt, geo, d).rc == 0 {
        FlushCopies(fmt, geo, d, rev, t);
        BuildFollowsFlush(fmt, geo, d, rev, map[], t, n);
        CompletedCopies(fmt, geo, d, ReplayProgram(fmt, geo, d));
        LastCopyReadable(geo, d, ReplayProgram(fmt, geo, d), n);
      }
  }
}
