/** The log walk: what the recovery passes see, as a trace of events. */
module LogWalk {
  import opened Words
  import opened LogFormat

  datatype LogExtent = LogExtent(logical: nat, length: nat, physical: nat)

  /** Where things are: the journal inode's extents, the first and one-past-last log
      block, the block holding the file-system superblock, and the number of blocks
      whose byte offset fits 32 bits. */
  datatype Geometry = Geometry(
    extents: seq<LogExtent>, first: Word, maxlen: Word, sbBlock: nat, addressable: nat)

  type Disk<B> = seq<B>

  /** The block actually reached for block number `n`: byte offsets are 32 bits wide. */
  function Truncated(geo: Geometry, n: nat): nat {
    if n < geo.addressable || geo.addressable == 0 then n else n % geo.addressable
  }

  /** Home of log block `j`: the first journal extent that covers it. */
  function Find(extents: seq<LogExtent>, j: nat): Option<nat> {
    if extents == [] then None
    else if extents[0].logical <= j < extents[0].logical + extents[0].length then
      Some(extents[0].physical + (j - extents[0].logical))
    else Find(extents[1..], j)
  }

  /** Extents in ascending, disjoint order of log blocks. */
  ghost predicate LogExtentsApart(extents: seq<LogExtent>) {
    forall i, k :: 0 <= i < k < |extents| ==> extents[i].logical + extents[i].length <= extents[k].logical
  }

  /** Each log block lies in its extent as far from the start as its number does, and only
      there; a block of no extent has no home. */
  lemma {:induction false} FindExact(extents: seq<LogExtent>, j: nat, n: nat)
    requires LogExtentsApart(extents)
    ensures Find(extents, j) == Some(n) <==>
            exists i :: 0 <= i < |extents| && CarriesTo(extents[i], j, n)
  {
    if extents != [] {
      assert forall i :: 0 <= i < |extents| - 1 ==> extents[1..][i] == extents[i + 1];
      FindExact(extents[1..], j, n);
      if i :| 0 < i < |extents| && CarriesTo(extents[i], j, n) {
        assert CarriesTo(extents[1..][i - 1], j, n);
      }
      if i :| 0 <= i < |extents| - 1 && CarriesTo(extents[1..][i], j, n) {
        assert CarriesTo(extents[i + 1], j, n);
      }
    }
  }

  /** Offset for offset, `e` carries log block `j` to block `n`. */
  predicate CarriesTo(e: LogExtent, j: nat, n: nat) {
    0 <= j - e.logical < e.length && n - e.physical == j - e.logical
  }

  function LogAddress(geo: Geometry, j: nat): Option<nat> {
    match Find(geo.extents, j)
    case None => None
    case Some(n) => Some(Truncated(geo, n))
  }

  function ReadLog<B>(geo: Geometry, d: Disk<B>, j: nat): Option<B> {
    match LogAddress(geo, j)
    case None => None
    case Some(n) => if n < |d| then Some(d[n]) else None
  }

  function Wrap(geo: Geometry, j: nat): nat {
    if j >= geo.maxlen then geo.first else j
  }

  /** What a pass learns from the log. A tag event names the log block that holds the
      data. */
  datatype Event =
    | Tagged(seqno: Word, tag: Tag, at: nat)
    | Revoked(seqno: Word, homes: seq<nat>)
    | Committed(seqno: Word)

  /** The events of a walk in log order, ended by the walk's verdict: 0 at a regular end
      of log. */
  datatype Trace = End(rc: int) | Then(event: Event, rest: Trace)

  /** The checks the walker makes before it looks at a block's type. */
  datatype Glance = Stop(rc: int) | Go(kind: Kind)

  function Look<B>(fmt: Format<B>, geo: Geometry, d: Disk<B>, stop: Option<Word>, j: nat, q: Word): Glance {
    if stop.Some? && SeqDiff(q, stop.value) > 0 then Stop(0)
    else match ReadLog(geo, d, j)
      case None => Stop(-2)
      case Some(b) =>
        match fmt.parse(b)
        case NotLog => Stop(0)
        case Header(s, kind) => if s == q then Go(kind) else Stop(if stop.Some? then -3 else 0)
  }

  /** The block after the `n` data blocks of a descriptor at `j`, less one. */
  function AfterTags(geo: Geometry, j: nat, n: nat): nat
    decreases n
  {
    if n == 0 then j else AfterTags(geo, Wrap(geo, j + 1), n - 1)
  }

  /** Where the walker goes after a block of kind `kind` at `j`. */
  function NextBlock(geo: Geometry, j: nat, kind: Kind): nat {
    match kind
    case Descriptor(true, tags) => Wrap(geo, AfterTags(geo, j, |tags|) + 1)
    case _ => Wrap(geo, j + 1)
  }

  function NextSequence(q: Word, kind: Kind): Word {
    if kind == Commit(true) then Plus(q, 1) else q
  }

  /** A failed block checksum or an unknown type ends the log. */
  predicate EndsLog(kind: Kind) {
    match kind
    case Descriptor(ok, _) => !ok
    case Commit(ok) => !ok
    case Revoke(ok, _) => !ok
    case Unknown => true
  }

  function TagsThen(geo: Geometry, q: Word, tags: seq<Tag>, j: nat, rest: Trace): Trace
    decreases |tags|
  {
    if tags == [] then rest
    else Then(Tagged(q, tags[0], Wrap(geo, j + 1)), TagsThen(geo, q, tags[1..], Wrap(geo, j + 1), rest))
  }

  /** The events of one block, followed by the rest of the walk. */
  function BlockThen(geo: Geometry, q: Word, j: nat, kind: Kind, rest: Trace): Trace {
    match kind
    case Descriptor(true, tags) => TagsThen(geo, q, tags, j, rest)
    case Commit(true) => Then(Committed(q), rest)
    case Revoke(true, homes) => Then(Revoked(q, homes), rest)
    case _ => rest
  }

  /** The walk from log block `j` expecting sequence `q`. `stop` is the last sequence
      to process, or None in the SCAN pass; `start` is where the walk began; `guard`
      counts the blocks visited. */
  function Walk<B>(fmt: Format<B>, geo: Geometry, d: Disk<B>, stop: Option<Word>,
                   start: nat, j: nat, q: Word, guard: nat): Trace
    requires guard <= geo.maxlen + 4
    decreases geo.maxlen + 4 - guard, 1
  {
    match Look(fmt, geo, d, stop, j, q)
    case Stop(rc) => End(rc)
    case Go(kind) => BlockThen(geo, q, j, kind, Onward(fmt, geo, d, stop, start, j, q, guard, kind))
  }

  /** What follows a block of kind `kind` at `j`. */
  function Onward<B>(fmt: Format<B>, geo: Geometry, d: Disk<B>, stop: Option<Word>,
                     start: nat, j: nat, q: Word, guard: nat, kind: Kind): Trace
    requires guard <= geo.maxlen + 4
    decreases geo.maxlen + 4 - guard, 0
  {
    if guard + 1 > geo.maxlen + 4 then End(-6)
    else if EndsLog(kind) || NextBlock(geo, j, kind) == start then End(0)
    else Walk(fmt, geo, d, stop, start, NextBlock(geo, j, kind), NextSequence(q, kind), guard + 1)
  }

  /** The verdict at the end of a trace. */
  function Verdict(t: Trace): int {
    match t
    case End(rc) => rc
    case Then(_, rest) => Verdict(rest)
  }

  /** Number of commit blocks in a trace. */
  function Commits(t: Trace): nat {
    match t
    case End(_) => 0
    case Then(e, rest) => (if e.Committed? then 1 else 0) + Commits(rest)
  }

  /** The committed prefix: the events up to and including the last commit. */
  function CommittedPrefix(t: Trace): Trace {
    if Commits(t) == 0 then End(0) else Then(t.event, CommittedPrefix(t.rest))
  }

  predicate Contains(t: Trace, e: Event) {
    t.Then? && (t.event == e || Contains(t.rest, e))
  }

  /** The value SCAN leaves in `last_seq`: `end_seq` starts at 0 and becomes the
      successor of each commit met. */
  function ScanResult(q: Word, commits: nat): Word {
    var end := if commits == 0 then 0 else Plus(q, commits);
    if SeqDiff(end, q) > 0 then Minus1(end) else end
  }

  /** Replay goes on to the later passes. */
  predicate ReplayNeeded(q: Word, commits: nat) {
    SeqDiff(ScanResult(q, commits), q) >= 0
  }

  // ---------------------------------------------------------------- SCAN's decision

  /** With at least one valid commit, SCAN reports the sequence of the last one. */
  lemma ScanFindsLastCommit(q: Word, commits: nat)
    requires 0 < commits < 0x8000_0000
    ensures ScanResult(q, commits) == Plus(q, commits - 1)
    ensures ReplayNeeded(q, commits)
  {
  }

  /** With none, replay stops exactly when the expected sequence lies in 1..2^31: the
      initial value 0 of `end_seq` is compared as if it were a sequence number. */
  lemma ScanOfUncommittedLog(q: Word)
    ensures !ReplayNeeded(q, 0) <==> 0 < q <= 0x8000_0000
  {
  }

  // ---------------------------------------------------------------- later passes

  lemma {:induction false} TagsThenCommits(geo: Geometry, q: Word, tags: seq<Tag>, j: nat, rest: Trace)
    ensures Commits(TagsThen(geo, q, tags, j, rest)) == Commits(rest)
    ensures Commits(rest) > 0 ==>
              CommittedPrefix(TagsThen(geo, q, tags, j, rest)) == TagsThen(geo, q, tags, j, CommittedPrefix(rest))
    decreases |tags|
  {
    if tags != [] {
      TagsThenCommits(geo, q, tags[1..], Wrap(geo, j + 1), rest);
    }
  }

  lemma BlockThenCommits(geo: Geometry, q: Word, j: nat, kind: Kind, rest: Trace)
    ensures Commits(BlockThen(geo, q, j, kind, rest)) == Commits(rest) + if kind == Commit(true) then 1 else 0
    ensures Commits(rest) > 0 ==>
              CommittedPrefix(BlockThen(geo, q, j, kind, rest)) == BlockThen(geo, q, j, kind, CommittedPrefix(rest))
  {
    match kind
    case Descriptor(true, tags) => TagsThenCommits(geo, q, tags, j, rest);
    case _ =>
  }

  lemma {:induction false} TagsThenVerdict(geo: Geometry, q: Word, tags: seq<Tag>, j: nat, rest: Trace)
    ensures Verdict(TagsThen(geo, q, tags, j, rest)) == Verdict(rest)
    decreases |tags|
  {
    if tags != [] {
      TagsThenVerdict(geo, q, tags[1..], Wrap(geo, j + 1), rest);
    }
  }

  lemma BlockThenVerdict(geo: Geometry, q: Word, j: nat, kind: Kind, rest: Trace)
    ensures Verdict(BlockThen(geo, q, j, kind, rest)) == Verdict(rest)
  {
    match kind
    case Descriptor(true, tags) => TagsThenVerdict(geo, q, tags, j, rest);
    case _ =>
  }

  lemma {:induction false} CommitsBounded<B>(fmt: Format<B>, geo: Geometry, d: Disk<B>,
                                             stop: Option<Word>, start: nat, j: nat, q: Word, guard: nat)
    requires guard <= geo.maxlen + 4
    ensures Commits(Walk(fmt, geo, d, stop, start, j, q, guard)) <= geo.maxlen + 5 - guard
    decreases geo.maxlen + 4 - guard
  {
    match Look(fmt, geo, d, stop, j, q)
    case Stop(_) =>
    case Go(kind) =>
      BlockThenCommits(geo, q, j, kind, Onward(fmt, geo, d, stop, start, j, q, guard, kind));
      if guard + 1 <= geo.maxlen + 4 {
        CommitsBounded(fmt, geo, d, stop, start, NextBlock(geo, j, kind), NextSequence(q, kind), guard + 1);
      }
  }

  /** REVOKE, BUILD and FLUSH see exactly the committed prefix of what SCAN saw, and
      meet no read failure or sequence mismatch on the way. */
  lemma {:induction false} LaterPassesSeeCommittedPrefix<B>(
      fmt: Format<B>, geo: Geometry, d: Disk<B>, start: nat, j: nat, q: Word, guard: nat)
    requires guard <= geo.maxlen + 4 < 0x7FFF_FFFF
    ensures var scan := Walk(fmt, geo, d, None, start, j, q, guard);
            Verdict(scan) == 0 && Commits(scan) > 0 ==>
              Walk(fmt, geo, d, Some(Plus(q, Commits(scan) - 1)), start, j, q, guard) == CommittedPrefix(scan)
    decreases geo.maxlen + 4 - guard
  {
    var scan := Walk(fmt, geo, d, None, start, j, q, guard);
    CommitsBounded(fmt, geo, d, None, start, j, q, guard);
    if Verdict(scan) == 0 && Commits(scan) > 0 {
      var last := Plus(q, Commits(scan) - 1);
      assert SeqDiff(q, last) <= 0;
      var kind := Look(fmt, geo, d, None, j, q).kind;
      var rest := Onward(fmt, geo, d, None, start, j, q, guard, kind);
      BlockThenCommits(geo, q, j, kind, rest);
      BlockThenVerdict(geo, q, j, kind, rest);
      if Commits(rest) > 0 {
        LaterPassesSeeCommittedPrefix(fmt, geo, d, start, NextBlock(geo, j, kind), NextSequence(q, kind), guard + 1);
        assert last == Plus(NextSequence(q, kind), Commits(rest) - 1);
      } else {
        assert Onward(fmt, geo, d, Some(last), start, j, q, guard, kind) == End(0);
      }
    }
  }

  /** A sequence number of the window that starts at `q` and extends `n` beyond it. */
  predicate InWindow(q: Word, n: nat, s: Word) {
    0 <= SeqDiff(s, q) <= n
  }

  /** All events of a trace carry sequence numbers of the window. */
  predicate AllInWindow(t: Trace, q: Word, n: nat) {
    t.Then? ==> InWindow(q, n, t.event.seqno) && AllInWindow(t.rest, q, n)
  }

  lemma BlockThenWindow(geo: Geometry, s: Word, j: nat, kind: Kind, rest: Trace, q: Word, n: nat)
    requires InWindow(q, n, s) && AllInWindow(rest, q, n)
    ensures AllInWindow(BlockThen(geo, s, j, kind, rest), q, n)
  {
    match kind
    case Descriptor(true, tags) => TagsThenWindow(geo, s, tags, j, rest, q, n);
    case _ =>
  }

  lemma {:induction false} TagsThenWindow(geo: Geometry, s: Word, tags: seq<Tag>, j: nat, rest: Trace, q: Word, n: nat)
    requires InWindow(q, n, s) && AllInWindow(rest, q, n)
    ensures AllInWindow(TagsThen(geo, s, tags, j, rest), q, n)
    decreases |tags|
  {
    if tags != [] {
      TagsThenWindow(geo, s, tags[1..], Wrap(geo, j + 1), rest, q, n);
    }
  }

  /** A walk never meets a sequence number further from `q` than its guard allows. */
  lemma {:induction false} WalkWindow<B>(fmt: Format<B>, geo: Geometry, d: Disk<B>, stop: Option<Word>,
                                         start: nat, j: nat, s: Word, guard: nat, q: Word)
    requires guard <= geo.maxlen + 4 < 0x7FFF_FFFF
    requires InWindow(q, guard, s)
    ensures AllInWindow(Walk(fmt, geo, d, stop, start, j, s, guard), q, geo.maxlen + 4)
    decreases geo.maxlen + 4 - guard
  {
    match Look(fmt, geo, d, stop, j, s)
    case Stop(_) =>
    case Go(kind) =>
      if guard + 1 <= geo.maxlen + 4 {
        WalkWindow(fmt, geo, d, stop, start, NextBlock(geo, j, kind), NextSequence(s, kind), guard + 1, q);
      }
      BlockThenWindow(geo, s, j, kind, Onward(fmt, geo, d, stop, start, j, s, guard, kind), q, geo.maxlen + 4);
  }

  // ---------------------------------------------------------------- how a walk ends

  /** The log is a ring: past its last block comes block `first`. */
  lemma WrapIsRing(geo: Geometry, j: nat)
    requires geo.first < geo.maxlen && geo.first <= j <= geo.maxlen
    ensures Wrap(geo, j) == geo.first + (j - geo.first) % (geo.maxlen - geo.first)
  {
    if j < geo.maxlen {
      SmallRemainder(j - geo.first, geo.maxlen - geo.first);
    }
  }

  lemma SmallRemainder(a: nat, n: nat)
    requires a < n
    ensures a % n == a
  {
  }

  /** At one block: an unreadable one is an error, one without the journal's magic ends the log,
      one of another sequence number ends it too when the end is being looked for and is an
      error once it is known, and an invalid or unknown one ends it. None of them adds an
      event. */
  lemma WalkEnds<B>(fmt: Format<B>, geo: Geometry, d: Disk<B>, stop: Option<Word>, start: nat, j: nat, q: Word, guard: nat)
    requires guard < geo.maxlen + 4 && (stop.Some? ==> SeqDiff(q, stop.value) <= 0)
    ensures var t := Walk(fmt, geo, d, stop, start, j, q, guard);
            match ReadLog(geo, d, j)
            case None => t == End(-2)
            case Some(b) =>
              match fmt.parse(b)
              case NotLog => t == End(0)
              case Header(s, kind) =>
                && (s != q ==> t == End(if stop == None then 0 else -3))
                && (s == q && (kind.Unknown? || !kind.ok) ==> t == End(0))
  {
  }

  /** Past the last committed transaction the later passes see nothing at all. */
  lemma WalkStops<B>(fmt: Format<B>, geo: Geometry, d: Disk<B>, stop: Word, start: nat, j: nat, q: Word, guard: nat)
    requires guard <= geo.maxlen + 4 && SeqDiff(q, stop) > 0
    ensures Walk(fmt, geo, d, Some(stop), start, j, q, guard) == End(0)
  {
  }

  // ---------------------------------------------------------------- the guard

  predicate InRing(geo: Geometry, j: nat) {
    geo.first <= j < geo.maxlen
  }

  /** How far it is from block `j` on to block `start`: from `start` itself once around. */
  function AheadTo(geo: Geometry, start: nat, j: nat): (r: nat)
    requires InRing(geo, start) && InRing(geo, j)
    ensures 0 < r <= geo.maxlen - geo.first
  {
    if j < start then start - j else start - j + (geo.maxlen - geo.first)
  }

  lemma {:induction false} TagsAhead(geo: Geometry, start: nat, j: nat, n: nat)
    requires InRing(geo, start) && InRing(geo, j) && n < AheadTo(geo, start, j)
    ensures InRing(geo, AfterTags(geo, j, n)) && AheadTo(geo, start, AfterTags(geo, j, n)) == AheadTo(geo, start, j) - n
    decreases n
  {
    if n > 0 { TagsAhead(geo, start, Wrap(geo, j + 1), n - 1); }
  }

  /** Block `j` is no descriptor with so many tags that their data reach `start`. */
  predicate StaysShort<B>(fmt: Format<B>, geo: Geometry, d: Disk<B>, start: nat, j: nat)
    requires InRing(geo, start) && InRing(geo, j)
  {
    match ReadLog(geo, d, j)
    case None => true
    case Some(b) =>
      match fmt.parse(b)
      case Header(_, Descriptor(_, tags)) => |tags| < AheadTo(geo, start, j)
      case _ => true
  }

  lemma NextAhead<B>(fmt: Format<B>, geo: Geometry, d: Disk<B>, stop: Option<Word>, start: nat, j: nat, q: Word)
    requires InRing(geo, start) && InRing(geo, j) && StaysShort(fmt, geo, d, start, j) && Look(fmt, geo, d, stop, j, q).Go?
    ensures var next := NextBlock(geo, j, Look(fmt, geo, d, stop, j, q).kind);
            next == start || (InRing(geo, next) && AheadTo(geo, start, next) < AheadTo(geo, start, j))
  {
    match Look(fmt, geo, d, stop, j, q).kind
    case Descriptor(true, tags) => TagsAhead(geo, start, j, |tags|);
    case _ =>
  }

  /** In a log where no descriptor's data run into the block that the walk started from, the
      guard never ends a walk. */
  lemma {:induction false} GuardNeverFires<B>(fmt: Format<B>, geo: Geometry, d: Disk<B>, stop: Option<Word>,
                                              start: nat, j: nat, q: Word, guard: nat)
    requires InRing(geo, start) && InRing(geo, j) && forall i: nat :: InRing(geo, i) ==> StaysShort(fmt, geo, d, start, i)
    requires guard + AheadTo(geo, start, j) <= geo.maxlen + 4
    ensures Verdict(Walk(fmt, geo, d, stop, start, j, q, guard)) != -6
    decreases geo.maxlen + 4 - guard
  {
    if Look(fmt, geo, d, stop, j, q).Go? {
      var kind := Look(fmt, geo, d, stop, j, q).kind;
      NextAhead(fmt, geo, d, stop, start, j, q);
      BlockThenVerdict(geo, q, j, kind, Onward(fmt, geo, d, stop, start, j, q, guard, kind));
      if !EndsLog(kind) && NextBlock(geo, j, kind) != start {
        GuardNeverFires(fmt, geo, d, stop, start, NextBlock(geo, j, kind), NextSequence(q, kind), guard + 1);
      }
    }
  }

  function TagEvents(t: Trace): nat {
    match t
    case End(_) => 0
    case Then(e, rest) => (if e.Tagged? then 1 else 0) + TagEvents(rest)
  }

  lemma {:induction false} TagsThenEvents(geo: Geometry, q: Word, tags: seq<Tag>, j: nat, rest: Trace)
    ensures TagEvents(TagsThen(geo, q, tags, j, rest)) == |tags| + TagEvents(rest)
    decreases |tags|
  {
    if tags != [] { TagsThenEvents(geo, q, tags[1..], Wrap(geo, j + 1), rest); }
  }

  /** Where it fires: a descriptor whose data go once around the ring, past the start, leads
      back to itself. Its tags are acted on once for each of the `maxlen + 5` blocks that the
      guard lets through, and then the walk fails with -6. */
  lemma {:induction false} GuardFires<B>(fmt: Format<B>, geo: Geometry, d: Disk<B>, start: nat, j: nat, q: Word, tags: seq<Tag>, guard: nat)
    requires InRing(geo, j) && j != start && |tags| == geo.maxlen - geo.first - 1 && guard <= geo.maxlen + 4
    requires ReadLog(geo, d, j).Some? && fmt.parse(ReadLog(geo, d, j).value) == Header(q, Descriptor(true, tags))
    ensures var t := Walk(fmt, geo, d, None, start, j, q, guard);
            Verdict(t) == -6 && TagEvents(t) == |tags| * (geo.maxlen + 5 - guard)
    decreases geo.maxlen + 4 - guard
  {
    var kind := Kind.Descriptor(true, tags);
    var rest := Onward(fmt, geo, d, None, start, j, q, guard, kind);
    TagsAhead(geo, j, j, |tags|);
    assert NextBlock(geo, j, kind) == j;
    BlockThenVerdict(geo, q, j, kind, rest);
    TagsThenEvents(geo, q, tags, j, rest);
    if guard < geo.maxlen + 4 {
      GuardFires(fmt, geo, d, start, j, q, tags, guard + 1);
      Distribute(|tags|, geo.maxlen + 4 - guard);
    }
  }

  lemma Distribute(a: nat, b: nat)
    ensures a + a * b == a * (b + 1)
  {
  }
}
