/** The journal results for the real block layout and the real checksum. */
module JournalOnDisk {
  import opened Words
  import opened Bytes
  import opened LogFormat
  import opened LogWalk
  import opened Programs
  import opened Recovery
  import opened Commit
  import opened Runs
  import opened ByteFormat
  import opened Superblocks
  import Crc = Crc32c

  // ---------------------------------------------------------------- the checksum

  /** A hexadecimal digit, and a byte by its two digits. */
  function Digit(n: int): bv8
    requires 0 <= n < 16
  {
    match n
    case 0 => 0 case 1 => 1 case 2 => 2 case 3 => 3 case 4 => 4 case 5 => 5 case 6 => 6 case 7 => 7
    case 8 => 8 case 9 => 9 case 10 => 10 case 11 => 11 case 12 => 12 case 13 => 13 case 14 => 14 case _ => 15
  }

  function Bits(b: Byte): bv8 { (Digit(b / 16) << 4) | Digit(b % 16) }

  function AsBits(bytes: seq<Byte>): (r: seq<bv8>)
    ensures |r| == |bytes|
    ensures forall i :: 0 <= i < |bytes| ==> r[i] == Bits(bytes[i])
  {
    seq(|bytes|, i requires 0 <= i < |bytes| => Bits(bytes[i]))
  }

  function ToBits32(v: Word): bv32 { v as bv32 }

  function FromBits32(v: bv32): Word { v as int }

  /** The checksum function of the journal. */
  function Crc32cOf(seed: Word, bytes: seq<Byte>): Word {
    FromBits32(Crc.Remainder(ToBits32(seed), AsBits(bytes)))
  }

  lemma DigitInjective(x: int, y: int)
    requires 0 <= x < 16 && 0 <= y < 16
    ensures Digit(x) == Digit(y) ==> x == y
    ensures Digit(x) < 16 && Digit(y) < 16
  {
  }

  lemma DigitsOfByte(a: bv8, b: bv8, c: bv8, d: bv8)
    requires a < 16 && b < 16 && c < 16 && d < 16 && (a << 4) | b == (c << 4) | d
    ensures a == c && b == d
  {
  }

  lemma BitsInjective(x: Byte, y: Byte)
    ensures Bits(x) == Bits(y) ==> x == y
  {
    hide Digit;
    if Bits(x) == Bits(y) {
      DigitInjective(x / 16, y / 16);
      DigitInjective(x % 16, y % 16);
      DigitsOfByte(Digit(x / 16), Digit(x % 16), Digit(y / 16), Digit(y % 16));
    }
  }

  lemma WordRoundTrip(v: bv32)
    ensures ToBits32(FromBits32(v)) == v
  {
  }

  lemma FromBits32Injective(x: bv32, y: bv32)
    ensures FromBits32(x) == FromBits32(y) ==> x == y
  {
    hide ToBits32, FromBits32;
    WordRoundTrip(x);
    WordRoundTrip(y);
  }

  lemma OneByteChangesSum(seed: Word, bytes: seq<Byte>, i: nat, x: Byte)
    requires i < |bytes| && x != bytes[i]
    ensures Crc32cOf(seed, bytes[i := x]) != Crc32cOf(seed, bytes)
  {
    hide Bits, ToBits32, FromBits32, Crc.Remainder;
    BitsInjective(x, bytes[i]);
    assert AsBits(bytes[i := x]) == AsBits(bytes)[i := Bits(x)];
    Crc.OneByteIsDetected(ToBits32(seed), AsBits(bytes), i, Bits(x));
    FromBits32Injective(Crc.Remainder(ToBits32(seed), AsBits(bytes)), Crc.Remainder(ToBits32(seed), AsBits(bytes[i := x])));
  }

  /** The check value of CRC-32C, in bytes and numbers. */
  lemma CheckValueOfBytes()
    ensures Crc32cOf(0xFFFF_FFFF, [0x31, 0x32, 0x33, 0x34, 0x35, 0x36, 0x37, 0x38, 0x39]) == 0xFFFF_FFFF - 0xE306_9283
  {
    hide Crc.Remainder;
    var digits: seq<Byte> := [0x31, 0x32, 0x33, 0x34, 0x35, 0x36, 0x37, 0x38, 0x39];
    assert AsBits(digits) == [0x31, 0x32, 0x33, 0x34, 0x35, 0x36, 0x37, 0x38, 0x39];
    Crc.CheckValue();
  }

  /** A journal with full 32-bit tag checksums. */
  ghost predicate FullChecksums(cfg: Config) {
    cfg.csumV3 && |cfg.uuid| == 16 && cfg.crc == Crc32cOf
  }

  lemma ChangedDataFailsItsTag(cfg: Config, tag: Tag, q: Word, b: Block, i: nat, x: Byte)
    requires cfg.csumV3 && cfg.crc == Crc32cOf
    requires TagOk(cfg, tag, q, b) && i < |b| && x != b[i]
    ensures !TagOk(cfg, tag, q, b[i := x])
  {
    hide Crc32cOf;
    OneByteChangesSum(cfg.crc(cfg.crc(CRC_INIT, cfg.uuid), Bytes.Pack32(q)), b, i, x);
  }

  /** Checksums of any kind, in 32 bits, over log blocks. */
  ghost predicate BlockChecksums(cfg: Config) {
    (cfg.csumV2 || cfg.csumV3) && cfg.crc == Crc32cOf
  }

  lemma SameNumber(b: Block, c: Block, off: nat)
    requires off + 4 <= |b| && off + 4 <= |c|
    ensures Be32(b, off) == Be32(c, off) ==> forall k :: off <= k < off + 4 ==> b[k] == c[k]
  {
    hide Be32;
    if Be32(b, off) == Be32(c, off) {
      Be32Unique(b, off, Be32(b, off));
      Be32Unique(c, off, Be32(b, off));
      forall k | off <= k < off + 4 ensures b[k] == c[k] {
        assert b[k] == b[off..off + 4][k - off];
      }
    }
  }

  /** One changed byte against a checksum field at `off`: in the field or outside it, the block
      no longer verifies. */
  lemma ChangedFieldOrRest(cfg: Config, b: Block, off: nat, i: nat, x: Byte)
    requires BlockChecksums(cfg) && off + 4 <= |b| && i < |b| && x != b[i]
    requires cfg.Sum(Patch(b, off, Zeros(4))) == Be32(b, off)
    ensures cfg.Sum(Patch(b[i := x], off, Zeros(4))) != Be32(b[i := x], off)
  {
    hide Crc32cOf, Be32;
    var b' := b[i := x];
    var z, z' := Patch(b, off, Zeros(4)), Patch(b', off, Zeros(4));
    if off <= i < off + 4 {
      assert z' == z;
      SameNumber(b, b', off);
    } else {
      assert z' == z[i := x];
      assert b[off..off + 4] == b'[off..off + 4];
      Be32Unique(b, off, Be32(b, off));
      Pack32RoundTrip(b', off, Be32(b, off));
      OneByteChangesSum(cfg.crc(CRC_INIT, cfg.uuid), z, i, x);
    }
  }

  /** A valid descriptor, revoke or commit block of which one byte changed is not taken for a
      valid one of that type. */
  lemma ChangedHeaderIsRefused(cfg: Config, b: Block, i: nat, x: Byte)
    requires BlockChecksums(cfg) && i < |b| && x != b[i]
    ensures MetaOk(cfg, b) ==> !MetaOk(cfg, b[i := x])
    ensures CommitOk(cfg, b) ==> !CommitOk(cfg, b[i := x])
  {
    hide Crc32cOf, Be32;
    if MetaOk(cfg, b) { ChangedFieldOrRest(cfg, b, |b| - 4, i, x); }
    if CommitOk(cfg, b) { ChangedFieldOrRest(cfg, b, COMMIT_SUM, i, x); }
  }

  /** No copy of the program takes its data from log block `at`. */
  predicate NoCopyFrom<B>(p: Program<B>, at: nat) {
    p.Do? ==> !(p.step.Copy? && p.step.at == at) && NoCopyFrom(p.rest, at)
  }

  /** Every tag whose data is at `at` fails its checksum. */
  ghost predicate AllFail<B>(fmt: Format<B>, t: Trace, at: nat, b: B) {
    t.Then? ==>
      && (t.event.Tagged? && t.event.at == at ==> !fmt.tagOk(t.event.tag, t.event.seqno, b))
      && AllFail(fmt, t.rest, at, b)
  }

  lemma {:induction false} FailingTagStopsFlush<B>(fmt: Format<B>, geo: Geometry, d: Disk<B>, rev: RevokeMap, t: Trace,
                                                   q: Word, tag: Tag, at: nat)
    requires ReadLog(geo, d, at).Some? && AllFail(fmt, t, at, ReadLog(geo, d, at).value)
    requires Contains(t, Tagged(q, tag, at)) && !IsRevoked(rev, tag.home, q)
    ensures ReturnCode(Flush(fmt, geo, d, rev, t)) in {-7, -8}
    ensures NoCopyFrom(Flush(fmt, geo, d, rev, t), at)
    decreases t
  {
    if t.event != Tagged(q, tag, at) {
      FailingTagStopsFlush(fmt, geo, d, rev, t.rest, q, tag, at);
    }
  }

  /** And the code says which: on a log whose other data blocks are as they were when FLUSH
      ran through, -8. */
  lemma {:induction false} FailingTagIsReported<B>(fmt: Format<B>, geo: Geometry, d: Disk<B>, d': Disk<B>, rev: RevokeMap,
                                                   t: Trace, q: Word, tag: Tag, at: nat)
    requires ReadLog(geo, d', at).Some? && AllFail(fmt, t, at, ReadLog(geo, d', at).value)
    requires forall k: nat :: k != at ==> ReadLog(geo, d', k) == ReadLog(geo, d, k)
    requires Contains(t, Tagged(q, tag, at)) && !IsRevoked(rev, tag.home, q)
    requires ReturnCode(Flush(fmt, geo, d, rev, t)) == 0
    ensures ReturnCode(Flush(fmt, geo, d', rev, t)) == -8
    decreases t
  {
    if t.event != Tagged(q, tag, at) {
      FailingTagIsReported(fmt, geo, d, d', rev, t.rest, q, tag, at);
    }
  }

  /** `e` is the only tag of the trace that uses its log block. */
  predicate OnlyTag(t: Trace, e: Event)
    requires e.Tagged?
  {
    t.Then? ==> (t.event.Tagged? && t.event.at == e.at ==> t.event == e) && OnlyTag(t.rest, e)
  }

  lemma {:induction false} OnlyTagFails(cfg: Config, t: Trace, q: Word, tag: Tag, at: nat, b: Block)
    requires OnlyTag(t, Tagged(q, tag, at)) && !TagOk(cfg, tag, q, b)
    ensures AllFail(JournalFormat(cfg), t, at, b)
    decreases t
  {
    hide TagOk;
    if t.Then? {
      OnlyTagFails(cfg, t.rest, q, tag, at, b);
    }
  }

  /** The walk examines log block `at` as a header. */
  predicate Examines<B>(fmt: Format<B>, geo: Geometry, d: Disk<B>, stop: Option<Word>,
                        start: nat, j: nat, q: Word, guard: nat, at: nat)
    requires guard <= geo.maxlen + 4
    decreases geo.maxlen + 4 - guard
  {
    || j == at
    || (match Look(fmt, geo, d, stop, j, q)
        case Stop(_) => false
        case Go(kind) =>
          && guard + 1 <= geo.maxlen + 4
          && !EndsLog(kind)
          && NextBlock(geo, j, kind) != start
          && Examines(fmt, geo, d, stop, start, NextBlock(geo, j, kind), NextSequence(q, kind), guard + 1, at))
  }

  /** A walk does not depend on the log blocks it skips as data. */
  lemma {:induction false} WalkSkipsData<B>(fmt: Format<B>, geo: Geometry, d: Disk<B>, d': Disk<B>, stop: Option<Word>,
                                            start: nat, j: nat, q: Word, guard: nat, at: nat)
    requires guard <= geo.maxlen + 4
    requires forall k: nat :: k != at ==> ReadLog(geo, d', k) == ReadLog(geo, d, k)
    requires !Examines(fmt, geo, d, stop, start, j, q, guard, at)
    ensures Walk(fmt, geo, d', stop, start, j, q, guard) == Walk(fmt, geo, d, stop, start, j, q, guard)
    decreases geo.maxlen + 4 - guard
  {
    assert Look(fmt, geo, d', stop, j, q) == Look(fmt, geo, d, stop, j, q);
    match Look(fmt, geo, d, stop, j, q)
    case Stop(_) =>
    case Go(kind) =>
      if guard + 1 <= geo.maxlen + 4 && !EndsLog(kind) && NextBlock(geo, j, kind) != start {
        WalkSkipsData(fmt, geo, d, d', stop, start, NextBlock(geo, j, kind), NextSequence(q, kind), guard + 1, at);
      }
  }

  /** Log block `at` is data to every pass of the replay. */
  ghost predicate IsData<B>(fmt: Format<B>, geo: Geometry, d: Disk<B>, at: nat)
    requires geo.extents != [] && JsbBlock(geo) < |d|
  {
    var start, q := fmt.jsbStart(Jsb(geo, d)), fmt.jsbSequence(Jsb(geo, d));
    && !Examines(fmt, geo, d, None, start, start, q, 0, at)
    && !Examines(fmt, geo, d, Some(ScanResult(q, Commits(Scan(fmt, geo, d)))), start, start, q, 0, at)
  }

  lemma OtherLogBlocks<B>(geo: Geometry, d: Disk<B>, at: nat, b: B)
    requires WellPlaced(geo, |d|) && 0 < at < geo.maxlen
    ensures forall k: nat :: k != at ==> ReadLog(geo, d[LogAddress(geo, at).value := b], k) == ReadLog(geo, d, k)
  {
    forall k: nat | k != at ensures ReadLog(geo, d[LogAddress(geo, at).value := b], k) == ReadLog(geo, d, k) {
      if k < at { assert LogAddress(geo, k).Some? ==> LogAddress(geo, k) != LogAddress(geo, at); }
    }
  }

  /** Replay decides the same after a change to a data block of the log. */
  lemma DecisionIgnoresData<B>(fmt: Format<B>, geo: Geometry, d: Disk<B>, at: nat, b: B)
    requires WellPlaced(geo, |d|) && 0 < at < geo.maxlen && IsData(fmt, geo, d, at)
    ensures Decide(fmt, geo, d[LogAddress(geo, at).value := b]) == Decide(fmt, geo, d)
  {
    var n := LogAddress(geo, at).value;
    var d' := d[n := b];
    JsbIsLogBlockZero(geo, |d|);
    var start, q := fmt.jsbStart(Jsb(geo, d)), fmt.jsbSequence(Jsb(geo, d));
    OtherLogBlocks(geo, d, at, b);
    WalkSkipsData(fmt, geo, d, d', None, start, start, q, 0, at);
    WalkSkipsData(fmt, geo, d, d', Some(ScanResult(q, Commits(Scan(fmt, geo, d)))), start, start, q, 0, at);
  }

  /** A CSUM_V3 replay never applies a logged block of which one byte changed: it stops
      with an error before that block's copy, and with -8 if the log was sound before. */
  lemma ChangedByteIsNeverApplied(cfg: Config, geo: Geometry, d: Disk<Block>,
                                  rev: RevokeMap, t: Trace, q: Word, tag: Tag, at: nat, i: nat, x: Byte)
    requires FullChecksums(cfg) && WellPlaced(geo, |d|) && 0 < at < geo.maxlen
    requires Decide(JournalFormat(cfg), geo, d) == LastPass(rev, t) && IsData(JournalFormat(cfg), geo, d, at)
    requires Contains(t, Tagged(q, tag, at)) && !IsRevoked(rev, tag.home, q) && OnlyTag(t, Tagged(q, tag, at))
    requires TagOk(cfg, tag, q, d[LogAddress(geo, at).value])
    requires i < |d[LogAddress(geo, at).value]| && x != d[LogAddress(geo, at).value][i]
    ensures var n := LogAddress(geo, at).value;
            var bad: Block := d[n][i := x];
            var p := ReplayProgram(JournalFormat(cfg), geo, d[n := bad]);
            && ReturnCode(p) in {-7, -8} && NoCopyFrom(p, at)
            && (ReturnCode(ReplayProgram(JournalFormat(cfg), geo, d)) == 0 ==> ReturnCode(p) == -8)
  {
    hide TagOk, Crc32cOf, IsData, Decide, Contains, OnlyTag, NoCopyFrom;
    var n := LogAddress(geo, at).value;
    var bad: Block := d[n][i := x];
    ChangedDataFailsItsTag(cfg, tag, q, d[n], i, x);
    OnlyTagFails(cfg, t, q, tag, at, bad);
    DecisionIgnoresData(JournalFormat(cfg), geo, d, at, bad);
    FailingTagStopsFlush(JournalFormat(cfg), geo, d[n := bad], rev, t, q, tag, at);
    if ReturnCode(ReplayProgram(JournalFormat(cfg), geo, d)) == 0 {
      OtherLogBlocks(geo, d, at, bad);
      FailingTagIsReported(JournalFormat(cfg), geo, d, d[n := bad], rev, t, q, tag, at);
    }
  }

  // ---------------------------------------------------------------- the first disk

  /** A journal in one extent at block `p`, apart from the superblock, addressable, and
      with no journal header in the log past block `first`. */
  ghost predicate Fresh(geo: Geometry, d: Disk<Block>, p: nat, len: nat) {
    && geo.extents == [LogExtent(0, len, p)] && 0 < geo.first < geo.maxlen <= len && geo.maxlen < 0x7FFF_FFF0
    && p + len <= |d| <= geo.addressable
    && geo.sbBlock < |d| && !(p <= geo.sbBlock < p + len)
    && forall n :: p + geo.first < n < p + len ==> !StartsWithMagic(d[n])
  }

  lemma OneExtent(geo: Geometry, d: Disk<Block>, p: nat, len: nat, j: nat)
    requires Fresh(geo, d, p, len)
    ensures LogAddress(geo, j) == if j < len then Some(p + j) else None
  {
    hide StartsWithMagic;
    assert geo.extents[1..] == [] && Find(geo.extents[1..], j) == None;
  }

  /** Such a journal is placed as the proofs need it, and quiet for every sequence number:
      runs can start from it. */
  lemma FreshJournalIsReady(cfg: Config, geo: Geometry, d: Disk<Block>, p: nat, len: nat, q: Word, room: nat)
    requires Fresh(geo, d, p, len)
    ensures WellPlaced(geo, |d|) && Quiet(JournalFormat(cfg), geo, d, q, room)
  {
    hide StartsWithMagic, LogAddress;
    forall j: nat ensures LogAddress(geo, j) == if j < len then Some(p + j) else None {
      OneExtent(geo, d, p, len, j);
    }
    forall j: nat | geo.first < j < geo.maxlen && ReadLog(geo, d, j).Some?
      ensures !Acts(JournalFormat(cfg).parse(ReadLog(geo, d, j).value), q, room)
    {
      assert ReadLog(geo, d, j) == Some(d[p + j]);
      NoMagicParses(cfg, d[p + j]);
    }
  }

  /** No header at all is more than quiet. */
  lemma FreshJournalIsSilent(cfg: Config, geo: Geometry, d: Disk<Block>, p: nat, len: nat)
    requires Fresh(geo, d, p, len)
    ensures WellPlaced(geo, |d|) && Silent(JournalFormat(cfg), geo, d)
  {
    hide Fresh, Quiet, Silent, WellPlaced;
    FreshJournalIsReady(cfg, geo, d, p, len, 0, 0);
    forall q: Word, room: nat ensures Quiet(JournalFormat(cfg), geo, d, q, room) {
      FreshJournalIsReady(cfg, geo, d, p, len, q, room);
    }
    SilentIffAlwaysQuiet(JournalFormat(cfg), geo, d);
  }

  lemma NoMagicParses(cfg: Config, b: Block)
    requires !StartsWithMagic(b)
    ensures Parse(cfg, b) == NotLog
  {
  }

  // ---------------------------------------------------------------- crash safety

  /** Crash safety over whole runs, for the jbd2 block layout: after any number of
      sessions cut at any block write, each followed by interrupted mounts and one
      complete mount, the home blocks hold exactly the transactions that landed. */
  lemma {:induction false} DiskRunsAreAtomic(cfg: Config, geo: Geometry, d: Disk<Block>, rs: seq<Round<Block>>)
    requires |cfg.uuid| == 16 && WellPlaced(geo, |d|)
    requires JsbStart(Jsb(geo, d)) == 0
    requires Quiet(JournalFormat(cfg), geo, d, JsbSequence(Jsb(geo, d)), geo.maxlen + TransactionsIn(rs))
    requires geo.maxlen + TransactionsIn(rs) < 0x8000_0000
    requires forall i :: 0 <= i < |rs| ==> ValidRound(geo, |d|, rs[i])
    ensures var d' := AfterRounds(JournalFormat(cfg), geo, d, rs);
            && ShowsAll(JournalFormat(cfg), geo, d', AllLanded(rs), d)
            && JsbStart(Jsb(geo, d')) == 0
            && (rs != [] ==> !Recover(d'[geo.sbBlock]))
  {
    hide Lawful, Quiet, ShowsAll, AfterRounds, AllLanded, JsbStart, JsbSequence, Recover;
    JournalFormatIsLawful(cfg);
    RoundsAreAtomic(JournalFormat(cfg), geo, d, rs);
  }

  /** The same without any bound on the number of sessions and transactions, from a journal
      that has never been used. */
  lemma FreshRunsAreAtomic(cfg: Config, geo: Geometry, d: Disk<Block>, p: nat, len: nat, rs: seq<Round<Block>>)
    requires |cfg.uuid| == 16 && Fresh(geo, d, p, len) && JsbStart(Jsb(geo, d)) == 0
    requires forall i :: 0 <= i < |rs| ==> ValidRound(geo, |d|, rs[i])
    ensures var d' := AfterRounds(JournalFormat(cfg), geo, d, rs);
            && ShowsAll(JournalFormat(cfg), geo, d', AllLanded(rs), d)
            && JsbStart(Jsb(geo, d')) == 0
            && (rs != [] ==> !Recover(d'[geo.sbBlock]))
  {
    hide Lawful, Quiet, Silent, ShowsAll, AfterRounds, AllLanded, JsbStart, JsbSequence, Recover;
    JournalFormatIsLawful(cfg);
    FreshJournalIsSilent(cfg, geo, d, p, len);
    EndlessRoundsAreAtomic(JournalFormat(cfg), geo, d, rs);
  }

  // ---------------------------------------------------------------- an uncommitted block, replayed

  /** A journal of eight blocks at block 5. */
  function SmallJournal(cfg: Config): Geometry {
    Geometry([LogExtent(0, 8, 5)], 1, 8, if cfg.blockSize > 1024 then 0 else 1, 0x1_0000_0000 / cfg.blockSize)
  }

  /** The journal superblock says start 1, sequence 0. The log holds a descriptor for `w`
      and its data, no commit block, and nothing else. */
  function UncommittedDisk(cfg: Config, w: Write<Block>): (d: Disk<Block>)
    ensures |d| == 13
  {
    var zeros: Block := Zeros(cfg.blockSize);
    [zeros, zeros, zeros, zeros, zeros, Superblocks.SetJsb(cfg, zeros, 1, 0), DescriptorBlock(cfg, 0, [w]), Escaped(w.data),
     zeros, zeros, zeros, zeros, zeros]
  }

  lemma SmallAddresses(cfg: Config, j: nat)
    ensures LogAddress(SmallJournal(cfg), j) == if j < 8 then Some(5 + j) else None
  {
    var geo := SmallJournal(cfg);
    assert geo.extents[1..] == [] && Find(geo.extents[1..], j) == None;
  }

  lemma ZerosAreNoLog(cfg: Config)
    ensures Parse(cfg, Zeros(cfg.blockSize)) == NotLog
  {
  }

  lemma SmallIsPlaced(cfg: Config)
    ensures WellPlaced(SmallJournal(cfg), 13)
  {
    hide LogAddress;
    forall j: nat ensures LogAddress(SmallJournal(cfg), j) == if j < 8 then Some(5 + j) else None {
      SmallAddresses(cfg, j);
    }
  }

  lemma SmallIsDirty(cfg: Config, w: Write<Block>)
    ensures var fmt, geo, d := JournalFormat(cfg), SmallJournal(cfg), UncommittedDisk(cfg, w);
            && geo.extents != [] && JsbBlock(geo) < |d| && Truncated(geo, 3) == 3
            && fmt.jsbStart(Jsb(geo, d)) == 1 && fmt.jsbSequence(Jsb(geo, d)) == 0
  {
    hide Superblocks.SetJsb, JsbStart, JsbSequence, DescriptorBlock, Escaped;
    JsbReadsBack(cfg, Zeros(cfg.blockSize), 1, 0);
  }

  lemma SmallIsUncommitted(cfg: Config, w: Write<Block>)
    requires |cfg.uuid| == 16 && w.home == 3
    ensures LoneDescriptor(JournalFormat(cfg), SmallJournal(cfg), UncommittedDisk(cfg, w), 1, ExpectedTag(cfg, 0, w))
    ensures ReadLog(SmallJournal(cfg), UncommittedDisk(cfg, w), 2) == Some(Escaped(w.data))
  {
    hide Parse, TagOk, Superblocks.SetJsb, DescriptorBlock, Escaped, StartsWithMagic, ExpectedTag, LogAddress;
    SmallAddresses(cfg, 1);
    SmallAddresses(cfg, 2);
    SmallAddresses(cfg, 3);
    DescriptorRoundTrip(cfg, 0, [w]);
    ZerosAreNoLog(cfg);
    var tags := ExpectedTags(cfg, 0, [w], 0);
    assert tags == [ExpectedTag(cfg, 0, w)];
  }

  /** The failing input: replay of this log writes `w` home, although it was never
      committed. */
  lemma UncommittedBlockIsReplayed(cfg: Config, w: Write<Block>)
    requires |cfg.uuid| == 16 && w.home == 3
    ensures var fmt, geo, d := JournalFormat(cfg), SmallJournal(cfg), UncommittedDisk(cfg, w);
            && WellPlaced(geo, |d|)
            && Commits(Scan(fmt, geo, d)) == 0
            && Final(fmt, geo, d, ReplayProgram(fmt, geo, d)) == d[3 := w.data]
  {
    hide Parse, Escaped, StartsWithMagic, RestoreMagic, UncommittedDisk, SmallJournal, LoneDescriptor, WellPlaced, ReadLog, Scan,
         ReplayProgram, Run, Jsb, JsbBlock;
    var fmt, geo, d := JournalFormat(cfg), SmallJournal(cfg), UncommittedDisk(cfg, w);
    SmallIsPlaced(cfg);
    SmallIsUncommitted(cfg, w);
    SmallIsDirty(cfg, w);
    EscapeRoundTrip(w.data);
    var tag := ExpectedTag(cfg, 0, w);
    UncommittedTagIsFlushed(fmt, geo, d, tag);
    OneCopy(fmt, geo, d, 2, 3, tag.escaped);
  }

  lemma OneCopy<B>(fmt: Format<B>, geo: Geometry, d: Disk<B>, at: nat, home: nat, escaped: bool)
    requires home < |d| && Truncated(geo, home) == home && ReadLog(geo, d, at).Some?
    ensures Final(fmt, geo, d, Do(Copy(at, home, escaped), Done(0))) == d[home := fmt.Unlogged(ReadLog(geo, d, at).value, escaped)]
  {
    var last: Program<B> := Done(0);
    var d1 := d[home := fmt.Unlogged(ReadLog(geo, d, at).value, escaped)];
    assert Run(fmt, geo, d1, -1, last).disk == d1;
  }
}
