/** The journal's blocks as the jbd2 format draws them: numbers at fixed offsets, the most
    significant byte first. The readers and builders of `ByteFormat` and `Superblocks` are
    measured against these drawings, which use nothing of theirs. */
module LogLayout {
  import opened Words
  import opened Bytes
  import opened LogFormat
  import opened ByteFormat
  import opened Superblocks

  // ---------------------------------------------------------------- headers and checksums

  predicate IsHeader(b: Block, kind: nat, q: Word) {
    Big(b, 0, 4) == 0xC03B3998 && Big(b, 4, 4) == kind && Big(b, 8, 4) == q
  }

  /** The checksum over the UUID and the block, with the four bytes at `off` taken as zero. */
  function SumWithout(cfg: Config, b: Block, off: nat): Word
    requires off + 4 <= |b|
  {
    cfg.crc(cfg.crc(0xFFFF_FFFF, cfg.uuid), b[..off] + [0, 0, 0, 0] + b[off + 4..])
  }

  /** The four bytes at `off` hold that checksum, if the journal has checksums. */
  predicate Sealed(cfg: Config, b: Block, off: nat)
    requires off + 4 <= |b|
  {
    cfg.csumV2 || cfg.csumV3 ==> Big(b, off, 4) == SumWithout(cfg, b, off)
  }

  lemma ZeroedIs(b: Block, off: nat)
    requires off + 4 <= |b|
    ensures Patch(b, off, Zeros(4)) == b[..off] + [0, 0, 0, 0] + b[off + 4..]
  {
    assert Zeros(4) == [0, 0, 0, 0];
  }

  lemma SealedTail(cfg: Config, b: Block)
    ensures MetaOk(cfg, b) <==> Sealed(cfg, b, |b| - 4)
  {
    hide Be32, Big;
    ZeroedIs(b, |b| - 4);
    BigFields(b, |b| - 4);
  }

  lemma SealedCommit(cfg: Config, b: Block)
    ensures CommitOk(cfg, b) <==> Sealed(cfg, b, 16)
  {
    hide Be32, Big;
    ZeroedIs(b, 16);
    BigFields(b, 16);
  }

  lemma HeaderReads(b: Block, kind: nat, q: Word)
    requires IsHeader(b, kind, q)
    ensures Be32(b, 0) == 0xC03B3998 && Be32(b, 4) == kind && Be32(b, 8) == q
  {
    BigFields(b, 0);
    BigFields(b, 4);
    BigFields(b, 8);
  }

  // ---------------------------------------------------------------- revoke blocks

  /** A revoke block: the number of bytes used, header included, and then block numbers of
      four bytes, or eight in a 64-bit journal. */
  predicate IsRevoke(cfg: Config, b: Block, q: Word, homes: seq<nat>) {
    var size := if cfg.has64 then 8 else 4;
    && 16 + size * |homes| <= |b|
    && IsHeader(b, 5, q) && Big(b, 12, 4) == 16 + size * |homes| && Sealed(cfg, b, |b| - 4)
    && forall i :: 0 <= i < |homes| ==> RecordIs(b, 16 + size * i, size, homes[i])
  }

  predicate RecordIs(b: Block, off: nat, size: nat, home: nat) {
    off + size <= |b| && Big(b, off, size) == home
  }

  lemma WideRecord(b: Block, off: nat)
    requires off + 8 <= |b|
    ensures Big(b, off, 8) == 0x1_0000_0000 * (Be32(b, off) as int) + (Be32(b, off + 4) as int)
  {
    hide Be32, Big;
    BigFields(b, off);
    BigFields(b, off + 4);
    BigDouble(b, off);
  }

  lemma RecordReads(cfg: Config, b: Block, n: nat, i: nat, home: nat)
    requires 16 + n * RecordBytes(cfg) <= |b| && i < n
    requires RecordIs(b, 16 + RecordBytes(cfg) * i, RecordBytes(cfg), home)
    ensures RevokeRecords(cfg, b, n)[i] == home
  {
    hide Be32, Big;
    var off := 16 + i * RecordBytes(cfg);
    RecordFits(cfg, |b|, n, i);
    if cfg.has64 { WideRecord(b, off); } else { BigFields(b, off); }
  }

  /** The walker reads the sequence number and exactly the listed blocks, in order. */
  lemma RevokeReads(cfg: Config, b: Block, q: Word, homes: seq<nat>)
    requires IsRevoke(cfg, b, q, homes)
    ensures Parse(cfg, b) == Header(q, Revoke(true, homes))
  {
    hide Be32, Big, Sealed, MetaOk, RevokeRecords, RecordIs, RevokeHomes;
    HeaderReads(b, 5, q);
    SealedTail(cfg, b);
    HomesRead(cfg, b, homes);
  }

  lemma HomesRead(cfg: Config, b: Block, homes: seq<nat>)
    requires var size := if cfg.has64 then 8 else 4;
             && 16 + size * |homes| <= |b| && Big(b, 12, 4) == 16 + size * |homes|
             && forall i :: 0 <= i < |homes| ==> RecordIs(b, 16 + size * i, size, homes[i])
    ensures RevokeHomes(cfg, b) == homes
  {
    hide Be32, Big, RevokeRecords, RecordIs;
    BigFields(b, 12);
    var n := |homes|;
    CountReads(cfg, |b|, n);
    assert Be32(b, 12) == 16 + n * RecordBytes(cfg);
    assert RevokeHomes(cfg, b) == RevokeRecords(cfg, b, n);
    RecordCount(cfg, b, n);
    forall i | 0 <= i < n ensures RevokeRecords(cfg, b, n)[i] == homes[i] {
      assert RecordIs(b, 16 + (if cfg.has64 then 8 else 4) * i, if cfg.has64 then 8 else 4, homes[i]);
      RecordReads(cfg, b, n, i, homes[i]);
    }
  }

  lemma RecordCount(cfg: Config, b: Block, n: nat)
    requires 16 + n * RecordBytes(cfg) <= |b|
    ensures |RevokeRecords(cfg, b, n)| == n
  {
  }

  lemma CountReads(cfg: Config, size: nat, n: nat)
    requires 16 + n * RecordBytes(cfg) <= size
    ensures (16 + n * RecordBytes(cfg) - 16) / RecordBytes(cfg) == n
    ensures n <= (size - 16) / RecordBytes(cfg)
  {
  }

  /** One record: the number spelled in four or eight bytes. */
  function Spelled(v: nat, n: nat): (r: seq<Byte>)
    ensures |r| == n
  {
    if n == 0 then [] else Spelled(v / 0x100, n - 1) + [v % 0x100]
  }

  function Power(n: nat): nat { if n == 0 then 1 else 0x100 * Power(n - 1) }

  lemma {:induction false} SpelledIs(front: seq<Byte>, v: nat, n: nat, rest: seq<Byte>)
    requires v < Power(n)
    ensures Big(front + Spelled(v, n) + rest, |front|, n) == v
    decreases n
  {
    var s := front + Spelled(v, n) + rest;
    if n > 0 {
      var last: seq<Byte> := [v % 0x100];
      SpelledIs(front, v / 0x100, n - 1, last + rest);
      assert s == front + Spelled(v / 0x100, n - 1) + (last + rest);
      assert s[|front| + n - 1] == v % 0x100;
    }
  }

  function RecordsOf(homes: seq<nat>, size: nat): (r: seq<Byte>)
    ensures |r| == size * |homes|
  {
    if homes == [] then [] else
      assert size * |homes| == size + size * |homes[1..]|;
      Spelled(homes[0], size) + RecordsOf(homes[1..], size)
  }

  lemma {:induction false} RecordsSpell(front: seq<Byte>, homes: seq<nat>, size: nat, rest: seq<Byte>, i: nat)
    requires i < |homes| && homes[i] < Power(size)
    ensures |front| + size * i + size <= |front + RecordsOf(homes, size) + rest|
    ensures Big(front + RecordsOf(homes, size) + rest, |front| + size * i, size) == homes[i]
    decreases |homes|
  {
    hide Big, Spelled;
    var s := front + RecordsOf(homes, size) + rest;
    var first, more := Spelled(homes[0], size), RecordsOf(homes[1..], size);
    if i == 0 {
      SpelledIs(front, homes[0], size, more + rest);
      assert s == front + first + (more + rest);
    } else {
      RecordsSpell(front + first, homes[1..], size, rest, i - 1);
      assert s == front + first + more + rest;
      assert size * i == size + size * (i - 1);
    }
  }

  /** The block numbers fit a block and each its record. */
  predicate Revocable(cfg: Config, homes: seq<nat>) {
    && (forall i :: 0 <= i < |homes| ==> homes[i] < if cfg.has64 then 0x1_0000_0000_0000_0000 else 0x1_0000_0000)
    && 16 + (if cfg.has64 then 8 else 4) * |homes| + (if cfg.csumV2 || cfg.csumV3 then 4 else 0) <= cfg.blockSize
  }

  function HeaderOf(kind: Word, q: Word): (r: seq<Byte>)
    ensures |r| == 12
  {
    Spelled(0xC03B3998, 4) + Spelled(kind, 4) + Spelled(q, 4)
  }

  /** A revoke block for a list of homes, as another driver would write it. */
  function RevokeBlock(cfg: Config, q: Word, homes: seq<nat>): Block
    requires Revocable(cfg, homes)
  {
    var size := if cfg.has64 then 8 else 4;
    var used := HeaderOf(5, q) + Spelled(16 + size * |homes|, 4) + RecordsOf(homes, size);
    var open: Block := used + Zeros(cfg.blockSize - |used|);
    if cfg.csumV2 || cfg.csumV3 then open[..|open| - 4] + Spelled(SumWithout(cfg, open, |open| - 4), 4) else open
  }

  lemma Powers()
    ensures Power(4) == 0x1_0000_0000 && Power(8) == 0x1_0000_0000_0000_0000
  {
    assert Power(2) == 0x1_0000 && Power(6) == 0x1_0000_0000_0000;
  }

  lemma HeaderOfIs(kind: Word, q: Word, v: Word, rest: seq<Byte>)
    ensures var s := HeaderOf(kind, q) + Spelled(v, 4) + rest;
            Big(s, 0, 4) == 0xC03B3998 && Big(s, 4, 4) == kind && Big(s, 8, 4) == q && Big(s, 12, 4) == v
  {
    hide Big, Spelled;
    Powers();
    var a, b, c, e := Spelled(0xC03B3998, 4), Spelled(kind, 4), Spelled(q, 4), Spelled(v, 4);
    var s := HeaderOf(kind, q) + e + rest;
    SpelledIs([], 0xC03B3998, 4, b + c + e + rest);
    assert s == [] + a + (b + c + e + rest);
    SpelledIs(a, kind, 4, c + e + rest);
    assert s == a + b + (c + e + rest);
    SpelledIs(a + b, q, 4, e + rest);
    assert s == (a + b) + c + (e + rest);
    SpelledIs(a + b + c, v, 4, rest);
    assert s == (a + b + c) + e + rest;
  }

  /** Putting the checksum into the last four bytes seals a block, and changes no number
      before them. */
  lemma {:induction false} SamePlace(b: seq<Byte>, b': seq<Byte>, off: nat, n: nat)
    requires off + n <= |b| && off + n <= |b'| && forall i :: off <= i < off + n ==> b[i] == b'[i]
    ensures Big(b, off, n) == Big(b', off, n)
    decreases n
  {
    if n > 0 { SamePlace(b, b', off, n - 1); }
  }

  lemma SealBlock(cfg: Config, open: Block)
    ensures var b: Block := open[..|open| - 4] + Spelled(SumWithout(cfg, open, |open| - 4), 4);
            Big(b, |b| - 4, 4) == SumWithout(cfg, b, |b| - 4)
  {
    hide Big, Spelled;
    Powers();
    var sum := SumWithout(cfg, open, |open| - 4);
    SpelledIs(open[..|open| - 4], sum, 4, []);
    var b: Block := open[..|open| - 4] + Spelled(sum, 4);
    assert b == open[..|open| - 4] + Spelled(sum, 4) + [];
    assert b[..|b| - 4] + [0, 0, 0, 0] + b[|b|..] == open[..|open| - 4] + [0, 0, 0, 0] + open[|open|..];
  }

  /** The block so written is a revoke block of exactly these homes. */
  lemma RevokeBlockIs(cfg: Config, q: Word, homes: seq<nat>)
    requires Revocable(cfg, homes)
    ensures IsRevoke(cfg, RevokeBlock(cfg, q, homes), q, homes)
  {
    hide Big, Spelled, SumWithout, RecordsOf;
    Powers();
    var size := if cfg.has64 then 8 else 4;
    var head := HeaderOf(5, q) + Spelled(16 + size * |homes|, 4);
    var records := RecordsOf(homes, size);
    var used := head + records;
    var pad := Zeros(cfg.blockSize - |used|);
    var open: Block := used + pad;
    var b := RevokeBlock(cfg, q, homes);
    HeaderOfIs(5, q, 16 + size * |homes|, records + pad);
    assert open == HeaderOf(5, q) + Spelled(16 + size * |homes|, 4) + (records + pad);
    SealBlock(cfg, open);
    forall off: nat, n: nat | off + n <= |used| ensures Big(b, off, n) == Big(open, off, n) { SamePlace(b, open, off, n); }
    forall i | 0 <= i < |homes| ensures RecordIs(b, 16 + size * i, size, homes[i]) {
      RecordsSpell(head, homes, size, pad, i);
    }
  }

  /** Writing and reading a revoke block. */
  lemma RevokeRoundTrip(cfg: Config, q: Word, homes: seq<nat>)
    requires Revocable(cfg, homes)
    ensures Parse(cfg, RevokeBlock(cfg, q, homes)) == Header(q, Revoke(true, homes))
  {
    hide IsRevoke, RevokeBlock, Parse;
    RevokeBlockIs(cfg, q, homes);
    RevokeReads(cfg, RevokeBlock(cfg, q, homes), q, homes);
  }

  // ---------------------------------------------------------------- descriptors

  /** The block as it goes to the log: four zero bytes in place of the magic number. */
  function InLog(b: Block): Block {
    if b[..4] == [0xC0, 0x3B, 0x39, 0x98] then [0, 0, 0, 0] + b[4..] else b
  }

  function TagSize(cfg: Config): nat {
    if cfg.csumV3 then 16 else if cfg.has64 then 12 else 8
  }

  /** Flags of a tag: 1, the magic was taken out; 2, no UUID follows; 8, the last one. */
  function FlagsOf(w: Write<Block>, first: bool, last: bool): nat {
    (if w.data[..4] == [0xC0, 0x3B, 0x39, 0x98] then 1 else 0) + (if first then 0 else 2) + (if last then 8 else 0)
  }

  /** The checksum over UUID, sequence number and logged block. */
  function TagSum(cfg: Config, q: Word, w: Write<Block>): Word {
    cfg.crc(cfg.crc(cfg.crc(0xFFFF_FFFF, cfg.uuid), Spelled(q, 4)), InLog(w.data))
  }

  /** A tag for one block at `off`, in the layout of the journal's features. */
  predicate IsTag(cfg: Config, b: seq<Byte>, off: nat, q: Word, w: Write<Block>, first: bool, last: bool) {
    && off + TagSize(cfg) <= |b| && Big(b, off, 4) == w.home % 0x1_0000_0000
    && if cfg.csumV3 then
         && Big(b, off + 4, 4) == FlagsOf(w, first, last) && Big(b, off + 8, 4) == w.home / 0x1_0000_0000
         && Big(b, off + 12, 4) == TagSum(cfg, q, w)
       else
         && Big(b, off + 4, 2) == (if cfg.csumV2 then TagSum(cfg, q, w) % 0x1_0000 else 0)
         && Big(b, off + 6, 2) == FlagsOf(w, first, last)
         && (cfg.has64 ==> Big(b, off + 8, 4) == w.home / 0x1_0000_0000)
  }

  lemma MagicSpelled(b: Block)
    ensures StartsWithMagic(b) <==> b[..4] == [0xC0, 0x3B, 0x39, 0x98]
    ensures Escaped(b) == InLog(b)
  {
    MagicBytes();
    if StartsWithMagic(b) {
      Be32Unique(b, 0, MAGIC);
      assert b[..4] == b[0..4];
    } else if b[..4] == [0xC0, 0x3B, 0x39, 0x98] {
      Pack32RoundTrip(b, 0, MAGIC);
    }
    assert Zeros(4) == [0, 0, 0, 0];
  }

  lemma SpelledPacks(v: Word)
    ensures Spelled(v, 4) == Pack32(v)
  {
    assert v / 0x100 / 0x100 == v / 0x1_0000 && v / 0x1_0000 / 0x100 == v / 0x100_0000;
    assert Spelled(v / 0x100_0000, 1) == [v / 0x100_0000];
    assert Spelled(v / 0x1_0000, 2) == [v / 0x100_0000, v / 0x1_0000 % 0x100];
    assert Spelled(v / 0x100, 3) == [v / 0x100_0000, v / 0x1_0000 % 0x100, v / 0x100 % 0x100];
  }

  lemma TagNumbers(cfg: Config, q: Word, w: Write<Block>, first: bool, last: bool)
    ensures TagFlags(last, first, StartsWithMagic(w.data)) == FlagsOf(w, first, last)
    ensures cfg.DataSum(q, Escaped(w.data)) == TagSum(cfg, q, w)
  {
    hide Pack32, Spelled, InLog, StartsWithMagic, Escaped;
    MagicSpelled(w.data);
    SpelledPacks(q);
  }

  /** A tag's fields, wherever the bytes before it end. */
  lemma TagDrawn(cfg: Config, front: seq<Byte>, q: Word, w: Write<Block>, first: bool, last: bool, rest: seq<Byte>)
    requires Expressible(cfg, w.home)
    ensures IsTag(cfg, front + TagFor(cfg, q, w, last, first) + rest, |front|, q, w, first, last)
  {
    hide Big, Be32, Be16, Pack32, Pack16, TagSum, FlagsOf, TagFlags, Escaped, StartsWithMagic;
    TagNumbers(cfg, q, w, first, last);
    var t := TagFor(cfg, q, w, last, first);
    var s := front + t + rest;
    var low, high, flags, sum := w.home % 0x1_0000_0000, w.home / 0x1_0000_0000, FlagsOf(w, first, last), TagSum(cfg, q, w);
    FlagBits(last, first, StartsWithMagic(w.data));
    if cfg.csumV3 {
      TagV3Fields(low, flags, high, sum, rest);
      Shifted(front, t + rest, 16);
    } else {
      PackZero();
      var check := if cfg.csumV2 then sum % 0x1_0000 else 0;
      var tail := (if cfg.has64 then Pack32(high) else []) + rest;
      ShortTagFields(low, check, flags, tail);
      assert t + rest == Pack32(low) + Pack16(check) + Pack16(flags) + tail;
      Shifted(front, t + rest, |t|);
      if cfg.has64 {
        HighField(Pack32(low) + Pack16(check) + Pack16(flags), high, rest);
      }
    }
    assert s == front + (t + rest);
  }

  /** Numbers of a tag, seen from the front of the block and from that of the tag. */
  lemma Shifted(front: seq<Byte>, s: seq<Byte>, n: nat)
    requires n <= |s|
    ensures forall k: nat :: k + 4 <= n ==> Big(front + s, |front| + k, 4) == Be32(s, k)
    ensures forall k: nat :: k + 2 <= n ==> Big(front + s, |front| + k, 2) == Be16(s, k)
  {
    hide Big, Be32, Be16;
    var b := front + s;
    forall k: nat | k + 4 <= n ensures Big(b, |front| + k, 4) == Be32(s, k) {
      BigFields(b, |front| + k);
      SameBig32(front, s, k);
    }
    forall k: nat | k + 2 <= n ensures Big(b, |front| + k, 2) == Be16(s, k) {
      BigHalf(b, |front| + k);
      SameBig16(front, s, k);
    }
  }

  lemma SameBig32(front: seq<Byte>, s: seq<Byte>, k: nat)
    requires k + 4 <= |s|
    ensures Be32(front + s, |front| + k) == Be32(s, k)
  {
  }

  lemma SameBig16(front: seq<Byte>, s: seq<Byte>, k: nat)
    requires k + 2 <= |s|
    ensures Be16(front + s, |front| + k) == Be16(s, k)
  {
  }

  /** Where tag `i` begins: the UUID follows the first one. */
  function TagPlace(cfg: Config, i: nat): nat {
    12 + i * TagSize(cfg) + if i > 0 then 16 else 0
  }

  lemma TagSizes(cfg: Config)
    ensures TagSize(cfg) == cfg.TagBytes()
  {
  }

  lemma TableStep(cfg: Config, q: Word, tx: seq<Write<Block>>, i: nat)
    requires i < |tx| && AllExpressible(cfg, tx)
    ensures TagTable(cfg, q, tx, i)
            == TagFor(cfg, q, tx[i], i + 1 == |tx|, i == 0) + ((if i == 0 then cfg.uuid else []) + TagTable(cfg, q, tx, i + 1))
  {
    hide TagFor;
    Regroup([], TagFor(cfg, q, tx[i], i + 1 == |tx|, i == 0), if i == 0 then cfg.uuid else [], TagTable(cfg, q, tx, i + 1), []);
  }

  lemma Regroup(a: seq<Byte>, b: seq<Byte>, c: seq<Byte>, d: seq<Byte>, e: seq<Byte>)
    ensures a + (b + (c + d)) + e == (a + b) + (c + d + e) == a + b + c + d + e
    ensures a + (b + (c + d)) == (a + b + c) + d
    ensures b + c + d == b + (c + d)
  {
  }

  /** The bytes of the tag table before tag `i`. */
  lemma {:induction false} TableFront(cfg: Config, q: Word, tx: seq<Write<Block>>, i: nat) returns (front: seq<Byte>)
    requires |cfg.uuid| == 16 && AllExpressible(cfg, tx) && i <= |tx|
    ensures TagTable(cfg, q, tx, 0) == front + TagTable(cfg, q, tx, i)
    ensures 12 + |front| == TagPlace(cfg, i)
    decreases i
  {
    hide TagFor, TagSize, TagTable;
    TagSizes(cfg);
    if i == 0 {
      front := [];
    } else {
      var before := TableFront(cfg, q, tx, i - 1);
      var t := TagFor(cfg, q, tx[i - 1], i == |tx|, i == 1);
      var u := if i == 1 then cfg.uuid else [];
      TableStep(cfg, q, tx, i - 1);
      Regroup(before, t, u, TagTable(cfg, q, tx, i), []);
      front := before + t + u;
      assert i * TagSize(cfg) == (i - 1) * TagSize(cfg) + TagSize(cfg);
    }
  }

  /** A descriptor of a transaction: header, one tag for each block, the UUID after the first
      tag, and the checksum in the last four bytes. */
  predicate IsDescriptor(cfg: Config, b: Block, q: Word, tx: seq<Write<Block>>) {
    && IsHeader(b, 1, q) && Sealed(cfg, b, |b| - 4)
    && 12 + TagSize(cfg) + 16 <= |b| && b[12 + TagSize(cfg)..12 + TagSize(cfg) + 16] == cfg.uuid
    && forall i :: 0 <= i < |tx| ==> IsTag(cfg, b, TagPlace(cfg, i), q, tx[i], i == 0, i + 1 == |tx|)
  }

  lemma HeaderDrawn(kind: Word, q: Word, rest: seq<Byte>)
    ensures var s := HeaderBytes(kind, q) + rest;
            Big(s, 0, 4) == 0xC03B3998 && Big(s, 4, 4) == kind && Big(s, 8, 4) == q
  {
    hide Big, Be32;
    HeaderFields(kind, q, rest);
    var s := HeaderBytes(kind, q) + rest;
    BigFields(s, 0);
    BigFields(s, 4);
    BigFields(s, 8);
  }

  /** What follows the padded content of a block: its checksum, if there is one. */
  lemma TailOf(cfg: Config, body: seq<Byte>) returns (tail: seq<Byte>)
    requires |body| == cfg.blockSize - cfg.TailBytes()
    ensures WithTail(cfg, body) == body + tail
  {
    tail := if cfg.Checksums() then Pack32(cfg.Sum(body + Zeros(4))) else [];
  }

  lemma DescriptorParts(cfg: Config, q: Word, tx: seq<Write<Block>>) returns (rest: seq<Byte>)
    requires |cfg.uuid| == 16 && 1 <= |tx| <= 8 && AllExpressible(cfg, tx)
    ensures DescriptorBlock(cfg, q, tx) == HeaderBytes(DESCRIPTOR_TYPE, q) + TagTable(cfg, q, tx, 0) + rest
    ensures MetaOk(cfg, DescriptorBlock(cfg, q, tx))
  {
    hide HeaderBytes, TagTable, MetaOk, WithTail;
    TagTableLength(cfg, q, tx, 0);
    var size := cfg.blockSize - cfg.TailBytes();
    var used := HeaderBytes(DESCRIPTOR_TYPE, q) + TagTable(cfg, q, tx, 0);
    TailVerifies(cfg, Padded(used, size));
    var tail := TailOf(cfg, Padded(used, size));
    rest := Zeros(size - |used|) + tail;
  }

  /** The builder draws a descriptor. */
  lemma DescriptorDrawn(cfg: Config, q: Word, tx: seq<Write<Block>>)
    requires |cfg.uuid| == 16 && 1 <= |tx| <= 8 && AllExpressible(cfg, tx)
    ensures IsDescriptor(cfg, DescriptorBlock(cfg, q, tx), q, tx)
  {
    hide HeaderBytes, TagTable, MetaOk, Big, Sealed, IsTag, TagSize, DescriptorBlock, TagPlace;
    var b := DescriptorBlock(cfg, q, tx);
    var head, table := HeaderBytes(DESCRIPTOR_TYPE, q), TagTable(cfg, q, tx, 0);
    var rest := DescriptorParts(cfg, q, tx);
    SealedTail(cfg, b);
    Regroup(head, table, rest, [], []);
    HeaderDrawn(DESCRIPTOR_TYPE, q, table + rest);
    assert b == head + (table + rest);
    forall i | 0 <= i < |tx| ensures IsTag(cfg, b, TagPlace(cfg, i), q, tx[i], i == 0, i + 1 == |tx|) {
      TagOfTable(cfg, q, tx, i, head, rest);
    }
    UuidOfTable(cfg, q, tx, head, rest);
  }

  lemma TagOfTable(cfg: Config, q: Word, tx: seq<Write<Block>>, i: nat, head: seq<Byte>, rest: seq<Byte>)
    requires |cfg.uuid| == 16 && AllExpressible(cfg, tx) && i < |tx| && |head| == 12
    ensures IsTag(cfg, head + TagTable(cfg, q, tx, 0) + rest, TagPlace(cfg, i), q, tx[i], i == 0, i + 1 == |tx|)
  {
    hide TagFor, IsTag, TagSize, TagTable;
    var front := TableFront(cfg, q, tx, i);
    var t := TagFor(cfg, q, tx[i], i + 1 == |tx|, i == 0);
    var u := if i == 0 then cfg.uuid else [];
    var more := TagTable(cfg, q, tx, i + 1);
    TableStep(cfg, q, tx, i);
    TagDrawn(cfg, head + front, q, tx[i], i == 0, i + 1 == |tx|, u + more + rest);
    Regroup(head + front, t, u, more, rest);
    Regroup([], head, front, TagTable(cfg, q, tx, i), rest);
    assert head + (front + TagTable(cfg, q, tx, i)) + rest == (head + front) + TagTable(cfg, q, tx, i) + rest;
  }

  lemma UuidOfTable(cfg: Config, q: Word, tx: seq<Write<Block>>, head: seq<Byte>, rest: seq<Byte>)
    requires |cfg.uuid| == 16 && AllExpressible(cfg, tx) && 0 < |tx| && |head| == 12
    ensures var s := head + TagTable(cfg, q, tx, 0) + rest;
            12 + TagSize(cfg) + 16 <= |s| && s[12 + TagSize(cfg)..12 + TagSize(cfg) + 16] == cfg.uuid
  {
    hide TagFor, TagSize, TagTable;
    TagSizes(cfg);
    var t, more := TagFor(cfg, q, tx[0], 1 == |tx|, true), TagTable(cfg, q, tx, 1);
    TableStep(cfg, q, tx, 0);
    Regroup(head, t, cfg.uuid, more, rest);
  }

  // ---------------------------------------------------------------- commit blocks

  /** A commit block: header, checksum type and size 4, and the checksum at 16. */
  predicate IsCommit(cfg: Config, b: Block, q: Word) {
    && IsHeader(b, 2, q) && Sealed(cfg, b, 16)
    && (cfg.csumV2 || cfg.csumV3 ==> b[12] == 4 && b[13] == 4)
  }

  lemma CommitDrawn(cfg: Config, q: Word)
    ensures IsCommit(cfg, CommitBlock(cfg, q), q)
  {
    hide HeaderBytes, CommitOk, Big, Be32, Sealed, Pack32;
    var b := CommitBlock(cfg, q);
    CommitRoundTrip(cfg, q);
    CommitIsOk(cfg, q);
    SealedCommit(cfg, b);
    assert b == HeaderBytes(COMMIT_TYPE, q) + b[12..];
    HeaderDrawn(COMMIT_TYPE, q, b[12..]);
  }

  lemma CommitIsOk(cfg: Config, q: Word)
    ensures CommitOk(cfg, CommitBlock(cfg, q))
  {
    hide CommitBlock, CommitOk;
    CommitRoundTrip(cfg, q);
  }

  // ---------------------------------------------------------------- any log block

  /** What the walker makes of any block: no log block without the magic number; otherwise
      its sequence number and its type, and for the three known types whether the checksum
      field holds the checksum of the rest. */
  lemma ParsedAs(cfg: Config, b: Block)
    ensures Parse(cfg, b).Header? <==> Big(b, 0, 4) == 0xC03B3998
    ensures Parse(cfg, b).Header? ==>
              && Parse(cfg, b).seqno == Big(b, 8, 4)
              && match Parse(cfg, b).kind
                 case Descriptor(ok, _) => Big(b, 4, 4) == 1 && (ok <==> Sealed(cfg, b, |b| - 4))
                 case Commit(ok) => Big(b, 4, 4) == 2 && (ok <==> Sealed(cfg, b, 16))
                 case Revoke(ok, _) => Big(b, 4, 4) == 5 && (ok <==> Sealed(cfg, b, |b| - 4))
                 case Unknown => Big(b, 4, 4) !in {1, 2, 5}
  {
    hide Big, Be32, Sealed, MetaOk, CommitOk, ParseTags, RevokeHomes;
    BigFields(b, 0);
    BigFields(b, 4);
    BigFields(b, 8);
    SealedTail(cfg, b);
    SealedCommit(cfg, b);
  }

  /** A tag is accepted for a logged block if its number is the checksum over UUID, sequence
      number and block: all of it in the V3 layout, its low half in V2. */
  lemma TagCheckedAs(cfg: Config, tag: Tag, q: Word, b: Block)
    ensures var sum := cfg.crc(cfg.crc(cfg.crc(0xFFFF_FFFF, cfg.uuid), Spelled(q, 4)), b);
            TagOk(cfg, tag, q, b) <==>
              if cfg.csumV3 then tag.check == sum else cfg.csumV2 ==> tag.check == sum % 0x1_0000
  {
    SpelledPacks(q);
  }

  // ---------------------------------------------------------------- superblocks

  /** The journal superblock: sequence number at 24, start at 28, and at 252 the checksum of
      the whole block. */
  lemma JsbDrawn(cfg: Config, b: Block, start: Word, q: Word)
    ensures var r := SetJsb(cfg, b, start, q);
            && Big(r, 24, 4) == q && Big(r, 28, 4) == start
            && JsbSequence(r) == Big(r, 24, 4) && JsbStart(r) == Big(r, 28, 4)
            && (cfg.csumV2 || cfg.csumV3 ==>
                  Big(r, 252, 4) == cfg.crc(0xFFFF_FFFF, r[..252] + [0, 0, 0, 0] + r[256..]))
  {
    hide Big, Be32, Pack32;
    var r := SetJsb(cfg, b, start, q);
    JsbReadsBack(cfg, b, start, q);
    BigFields(r, 24);
    BigFields(r, 28);
    if cfg.Checksums() {
      var b1 := JsbFields(cfg, b, start, q);
      var sum := cfg.crc(CRC_INIT, b1);
      BigFields(r, 252);
      assert r[252..256] == Pack32(sum);
      Pack32RoundTrip(r, 252, sum);
      ZeroedIs(r, 252);
      assert Patch(r, 252, Zeros(4)) == b1;
    }
  }

  /** The file system's superblock, 1024 bytes into the volume: RECOVER is bit 2 of the 32-bit
      field at 96, and metadata checksums are bit 10 of the one at 100. */
  lemma FeaturesDrawn(b: Block)
    ensures var at := if |b| > 1024 then 1024 else 0;
            && (Recover(b) <==> Little(b, at + 96, 4) / 4 % 2 == 1)
            && (MetadataSum(b) <==> Little(b, at + 100, 4) / 0x400 % 2 == 1)
  {
    hide Le32, Little;
    var at := SbOffset(b);
    LittleFields(b, at + 96);
    LittleFields(b, at + 100);
    BitsOfWord(b, at + 96);
    BitsOfWord(b, at + 100);
  }

  /** Its checksum is at 1020, over the bytes before. */
  lemma SumDrawn(cfg: Config, b: Block)
    requires MetadataSum(b)
    ensures var at := if |b| > 1024 then 1024 else 0;
            var r := SumSuperblock(cfg, b);
            && Little(r, at + 1020, 4) == cfg.crc(0xFFFF_FFFF, b[at..at + 1020])
            && r[at..at + 1020] == b[at..at + 1020]
  {
    hide PackLittle, Le32, Little, MetadataSum;
    var at := SbOffset(b);
    var r := SumSuperblock(cfg, b);
    var sum := cfg.crc(CRC_INIT, b[at..at + SB_SUM]);
    LittleFields(r, at + 1020);
    assert r[at + 1020..at + 1024] == PackLittle(sum);
    LittleRoundTrip(r, at + 1020, sum);
  }

  /** Setting RECOVER changes that bit and the checksum, and no other byte. */
  lemma RecoverDrawn(cfg: Config, b: Block, on: bool)
    ensures var at := if |b| > 1024 then 1024 else 0;
            var r := SetRecover(cfg, b, on);
            && (Little(r, at + 96, 4) / 4 % 2 == 1 <==> on)
            && (MetadataSum(b) ==> Little(r, at + 1020, 4) == cfg.crc(0xFFFF_FFFF, r[at..at + 1020]))
            && forall i :: 0 <= i < |b| && i != at + 96 && !(at + 1020 <= i < at + 1024) ==> r[i] == b[i]
  {
    hide PackLittle, Le32, Little, Bit2, WithBit2;
    var at := SbOffset(b);
    RecoverReadsBack(cfg, b, on);
    FeaturesDrawn(SetRecover(cfg, b, on));
    var b1 := WithRecover(b, on);
    if MetadataSum(b) {
      SumDrawn(cfg, b1);
    }
  }

  lemma BitsOfWord(b: seq<Byte>, off: nat)
    requires off + 4 <= |b|
    ensures Le32(b, off) / 4 % 2 == b[off] / 4 % 2
    ensures Le32(b, off) / 0x400 % 2 == b[off + 1] / 4 % 2
  {
    var b0: int, b1: int, b2: int, b3: int := b[off], b[off + 1], b[off + 2], b[off + 3];
    var high := b2 + 0x100 * b3;
    assert Le32(b, off) == b0 + 0x100 * b1 + 0x1_0000 * high;
    assert Le32(b, off) / 4 == b0 / 4 + 64 * (b1 + 0x100 * high);
    assert Le32(b, off) / 0x400 == b1 / 4 + 64 * high;
  }
}
