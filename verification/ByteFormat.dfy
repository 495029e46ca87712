/** The jbd2 byte layout of log blocks and superblocks, and the proof that it is lawful. */
module ByteFormat {
  import opened Words
  import opened Bytes
  import opened LogFormat

  /** The block sizes whose blocks fit the 4096-byte scratch buffers. */
  type BlockSize = n: nat | n == 1024 || n == 2048 || n == 4096 witness 1024

  type Block = b: seq<Byte> | |b| == 1024 || |b| == 2048 || |b| == 4096 witness seq(1024, i => 0)

  const MAGIC: Word := 0xC03B3998
  const CRC_INIT: Word := 0xFFFF_FFFF

  const DESCRIPTOR_TYPE: Word := 1
  const COMMIT_TYPE: Word := 2
  const REVOKE_TYPE: Word := 5

  /** What the superblocks fix: block size, UUID and features; and the checksum function. */
  datatype Config = Config(
    blockSize: BlockSize, uuid: seq<Byte>, csumV2: bool, csumV3: bool, has64: bool, crc: (Word, seq<Byte>) -> Word)
  {
    predicate Checksums() { csumV2 || csumV3 }

    function TagBytes(): nat {
      if csumV3 then 16 else if has64 then 12 else 8
    }

    function TailBytes(): nat {
      if Checksums() then 4 else 0
    }

    /** The checksum chained over the UUID and then `parts`. */
    function Sum(part: seq<Byte>): Word {
      crc(crc(CRC_INIT, uuid), part)
    }

    function DataSum(q: Word, data: seq<Byte>): Word {
      crc(crc(crc(CRC_INIT, uuid), Pack32(q)), data)
    }
  }

  // ---------------------------------------------------------------- tags

  predicate Bit(flags: Word, bit: Word)
    requires bit > 0
  {
    flags / bit % 2 == 1
  }

  const ESCAPE_BIT: Word := 1
  const SAME_UUID_BIT: Word := 2
  const LAST_TAG_BIT: Word := 8

  function Home32(cfg: Config, s: seq<Byte>): nat
    requires |s| >= cfg.TagBytes()
  {
    (Be32(s, 0) as int) + if cfg.has64 then 0x1_0000_0000 * (Be32(s, 8) as int) else 0
  }

  function Flags(cfg: Config, s: seq<Byte>): Word
    requires |s| >= cfg.TagBytes()
  {
    if cfg.csumV3 then Be32(s, 4) else Be16(s, 6)
  }

  function Check(cfg: Config, s: seq<Byte>): Word
    requires |s| >= cfg.TagBytes()
  {
    if cfg.csumV3 then Be32(s, 12) else Be16(s, 4)
  }

  /** The tag table of a descriptor: `s` is what remains of it. */
  function ParseTags(cfg: Config, s: seq<Byte>): seq<Tag>
    decreases |s|
  {
    if |s| < cfg.TagBytes() then []
    else
      var flags := Flags(cfg, s);
      var tag := Tag(Home32(cfg, s), Bit(flags, ESCAPE_BIT), Check(cfg, s));
      var skip := if Bit(flags, SAME_UUID_BIT) then 0 else 16;
      if Bit(flags, LAST_TAG_BIT) || |s| - cfg.TagBytes() < skip then [tag]
      else [tag] + ParseTags(cfg, s[cfg.TagBytes() + skip..])
  }

  function TagFlags(last: bool, first: bool, escaped: bool): Word {
    (if last then 8 else 0) + (if first then 0 else 2) + (if escaped then 1 else 0)
  }

  function StartsWithMagic(b: Block): bool {
    Be32(b, 0) == MAGIC
  }

  function ClearMagic(b: Block): Block {
    Patch(b, 0, Zeros(4))
  }

  function RestoreMagic(b: Block): Block {
    Patch(b, 0, [0xC0, 0x3B, 0x39, 0x98])
  }

  function Escaped(b: Block): Block {
    if StartsWithMagic(b) then ClearMagic(b) else b
  }

  /** A home address the layout can express. */
  predicate Expressible(cfg: Config, home: nat) {
    home < 0x1_0000_0000_0000_0000 && (!cfg.has64 ==> home < 0x1_0000_0000)
  }

  /** The tag written for one block of a transaction. */
  function TagFor(cfg: Config, q: Word, w: Write<Block>, last: bool, first: bool): (r: seq<Byte>)
    requires w.home < 0x1_0000_0000_0000_0000
    ensures |r| == cfg.TagBytes()
  {
    var flags := TagFlags(last, first, StartsWithMagic(w.data));
    var low := Pack32(w.home % 0x1_0000_0000);
    var high := Pack32(w.home / 0x1_0000_0000);
    var sum := cfg.DataSum(q, Escaped(w.data));
    if cfg.csumV3 then low + Pack32(flags) + high + Pack32(sum)
    else low + (if cfg.csumV2 then Pack16(sum % 0x1_0000) else Zeros(2)) + Pack16(flags) + (if cfg.has64 then high else [])
  }

  /** The tags from number `i` on; the first is followed by the UUID. */
  function TagTable(cfg: Config, q: Word, tx: seq<Write<Block>>, i: nat): seq<Byte>
    requires i <= |tx| && forall k :: 0 <= k < |tx| ==> tx[k].home < 0x1_0000_0000_0000_0000
    decreases |tx| - i
  {
    if i == |tx| then []
    else TagFor(cfg, q, tx[i], i + 1 == |tx|, i == 0) + (if i == 0 then cfg.uuid else []) + TagTable(cfg, q, tx, i + 1)
  }

  /** The tag the reader must see for one block. */
  function ExpectedTag(cfg: Config, q: Word, w: Write<Block>): Tag {
    var sum := cfg.DataSum(q, Escaped(w.data));
    Tag(w.home, StartsWithMagic(w.data), if cfg.csumV3 then sum else if cfg.csumV2 then sum % 0x1_0000 else 0)
  }

  function ExpectedTags(cfg: Config, q: Word, tx: seq<Write<Block>>, i: nat): (r: seq<Tag>)
    requires i <= |tx|
    ensures |r| == |tx| - i
    ensures forall k :: 0 <= k < |r| ==> r[k] == ExpectedTag(cfg, q, tx[i + k])
    decreases |tx| - i
  {
    if i == |tx| then [] else [ExpectedTag(cfg, q, tx[i])] + ExpectedTags(cfg, q, tx, i + 1)
  }

  lemma FlagBits(last: bool, first: bool, escaped: bool)
    ensures var f := TagFlags(last, first, escaped);
            && Bit(f, LAST_TAG_BIT) == last && Bit(f, SAME_UUID_BIT) == !first && Bit(f, ESCAPE_BIT) == escaped
            && f < 0x1_0000
  {
  }

  lemma TagV3Fields(low: Word, flags: Word, high: Word, sum: Word, rest: seq<Byte>)
    ensures var s := Pack32(low) + Pack32(flags) + Pack32(high) + Pack32(sum) + rest;
            Be32(s, 0) == low && Be32(s, 4) == flags && Be32(s, 8) == high && Be32(s, 12) == sum
  {
    hide Pack32, Be32;
    var a, b, c, d := Pack32(low), Pack32(flags), Pack32(high), Pack32(sum);
    var s := a + b + c + d + rest;
    WordBetween([], low, b + c + d + rest);
    assert s == [] + a + (b + c + d + rest);
    WordBetween(a, flags, c + d + rest);
    assert s == a + b + (c + d + rest);
    WordBetween(a + b, high, d + rest);
    assert s == (a + b) + c + (d + rest);
    WordBetween(a + b + c, sum, rest);
  }

  lemma ShortTagFields(low: Word, sum: Word, flags: Word, rest: seq<Byte>)
    requires sum < 0x1_0000 && flags < 0x1_0000
    ensures var s := Pack32(low) + Pack16(sum) + Pack16(flags) + rest;
            Be32(s, 0) == low && Be16(s, 4) == sum && Be16(s, 6) == flags
  {
    hide Pack32, Be32, Pack16, Be16;
    var a, b, c := Pack32(low), Pack16(sum), Pack16(flags);
    var s := a + b + c + rest;
    WordBetween([], low, b + c + rest);
    assert s == [] + a + (b + c + rest);
    HalfWordBetween(a, sum, c + rest);
    assert s == a + b + (c + rest);
    HalfWordBetween(a + b, flags, rest);
  }

  lemma HighField(front: seq<Byte>, high: Word, rest: seq<Byte>)
    requires |front| == 8
    ensures Be32(front + (Pack32(high) + rest), 8) == high
  {
    hide Pack32, Be32;
    WordBetween(front, high, rest);
    assert front + (Pack32(high) + rest) == front + Pack32(high) + rest;
  }

  /** Reading the fields of a written tag, whatever follows it. */
  lemma TagFields(cfg: Config, q: Word, w: Write<Block>, last: bool, first: bool, rest: seq<Byte>)
    requires Expressible(cfg, w.home)
    ensures var s := TagFor(cfg, q, w, last, first) + rest;
            && Home32(cfg, s) == w.home
            && Flags(cfg, s) == TagFlags(last, first, StartsWithMagic(w.data))
            && Check(cfg, s) == ExpectedTag(cfg, q, w).check
  {
    hide TagFlags, StartsWithMagic, Escaped, Pack32, Pack16, Be32, Be16;
    var flags := TagFlags(last, first, StartsWithMagic(w.data));
    var low, high := w.home % 0x1_0000_0000, w.home / 0x1_0000_0000;
    var sum := cfg.DataSum(q, Escaped(w.data));
    FlagBits(last, first, StartsWithMagic(w.data));
    if cfg.csumV3 {
      TagV3Fields(low, flags, high, sum, rest);
    } else {
      var check := if cfg.csumV2 then sum % 0x1_0000 else 0;
      var tail := (if cfg.has64 then Pack32(high) else []) + rest;
      PackZero();
      ShortTagFields(low, check, flags, tail);
      var front := Pack32(low) + Pack16(check) + Pack16(flags);
      assert TagFor(cfg, q, w, last, first) + rest == front + tail;
      if cfg.has64 {
        HighField(front, high, rest);
      }
    }
  }

  lemma PackZero()
    ensures Pack16(0) == Zeros(2)
  {
  }

  ghost predicate AllExpressible(cfg: Config, tx: seq<Write<Block>>) {
    forall k :: 0 <= k < |tx| ==> Expressible(cfg, tx[k].home)
  }

  /** The written tag table reads back, tag by tag, whatever pads it. */
  lemma {:induction false} TagTableRoundTrip(cfg: Config, q: Word, tx: seq<Write<Block>>, i: nat, pad: seq<Byte>)
    requires i < |tx| && |cfg.uuid| == 16 && AllExpressible(cfg, tx)
    ensures ParseTags(cfg, TagTable(cfg, q, tx, i) + pad) == ExpectedTags(cfg, q, tx, i)
    decreases |tx| - i
  {
    hide TagFor, TagFlags, Home32, Flags, Check, Bit, Escaped, StartsWithMagic;
    var last, first := i + 1 == |tx|, i == 0;
    var t := TagFor(cfg, q, tx[i], last, first);
    var u := if first then cfg.uuid else [];
    var rest := TagTable(cfg, q, tx, i + 1);
    var s := TagTable(cfg, q, tx, i) + pad;
    assert s == t + (u + rest + pad);
    TagFields(cfg, q, tx[i], last, first, u + rest + pad);
    FlagBits(last, first, StartsWithMagic(tx[i].data));
    if last {
      assert ExpectedTags(cfg, q, tx, i) == [ExpectedTag(cfg, q, tx[i])] + [];
    } else {
      DropFront(t + u, rest + pad);
      assert s == t + u + (rest + pad);
      TagTableRoundTrip(cfg, q, tx, i + 1, pad);
    }
  }

  lemma {:induction false} TagTableLength(cfg: Config, q: Word, tx: seq<Write<Block>>, i: nat)
    requires i <= |tx| <= TRANS_MAX && |cfg.uuid| == 16 && AllExpressible(cfg, tx)
    ensures |TagTable(cfg, q, tx, i)| <= 16 * (|tx| - i) + if i == 0 then 16 else 0
    decreases |tx| - i
  {
    if i < |tx| {
      TagTableLength(cfg, q, tx, i + 1);
    }
  }

  // ---------------------------------------------------------------- log blocks

  function HeaderBytes(kind: Word, q: Word): (r: seq<Byte>)
    ensures |r| == 12
  {
    Pack32(MAGIC) + Pack32(kind) + Pack32(q)
  }

  /** `content`, padded with zeros to `size` bytes. */
  function Padded(content: seq<Byte>, size: nat): (r: seq<Byte>)
    requires |content| <= size
    ensures |r| == size
  {
    content + Zeros(size - |content|)
  }

  /** Closes a descriptor or revoke block with its tail checksum, if the journal has one. */
  function WithTail(cfg: Config, body: seq<Byte>): Block
    requires |body| == cfg.blockSize - cfg.TailBytes()
  {
    if cfg.Checksums() then body + Pack32(cfg.Sum(body + Zeros(4))) else body
  }

  function DescriptorBlock(cfg: Config, q: Word, tx: seq<Write<Block>>): Block {
    if |cfg.uuid| == 16 && 1 <= |tx| <= TRANS_MAX && (forall k :: 0 <= k < |tx| ==> Expressible(cfg, tx[k].home)) then
      TagTableLength(cfg, q, tx, 0);
      WithTail(cfg, Padded(HeaderBytes(DESCRIPTOR_TYPE, q) + TagTable(cfg, q, tx, 0), cfg.blockSize - cfg.TailBytes()))
    else Zeros(cfg.blockSize)
  }

  /** The tail checksum of a descriptor or revoke block. */
  predicate MetaOk(cfg: Config, b: Block) {
    !cfg.Checksums() || cfg.Sum(Patch(b, |b| - 4, Zeros(4))) == Be32(b, |b| - 4)
  }

  const COMMIT_SUM := 16

  function CommitBody(cfg: Config, q: Word): Block {
    Padded(HeaderBytes(COMMIT_TYPE, q) + (if cfg.Checksums() then [4, 4] else []), cfg.blockSize)
  }

  function CommitBlock(cfg: Config, q: Word): Block {
    if cfg.Checksums() then Patch(CommitBody(cfg, q), COMMIT_SUM, Pack32(cfg.Sum(CommitBody(cfg, q))))
    else CommitBody(cfg, q)
  }

  predicate CommitOk(cfg: Config, b: Block) {
    !cfg.Checksums() || cfg.Sum(Patch(b, COMMIT_SUM, Zeros(4))) == Be32(b, COMMIT_SUM)
  }

  function RecordBytes(cfg: Config): nat {
    if cfg.has64 then 8 else 4
  }

  /** The first `n` records of a revoke block. */
  function RevokeRecords(cfg: Config, b: Block, n: nat): seq<nat>
    requires 16 + n * RecordBytes(cfg) <= |b|
  {
    seq(n, (i: nat) requires i < n =>
      var off := 16 + i * RecordBytes(cfg);
      RecordFits(cfg, |b|, n, i);
      if cfg.has64 then 0x1_0000_0000 * (Be32(b, off) as int) + (Be32(b, off + 4) as int) else Be32(b, off) as int)
  }

  lemma RecordFits(cfg: Config, size: nat, n: nat, i: nat)
    requires 16 + n * RecordBytes(cfg) <= size && i < n
    ensures 16 + i * RecordBytes(cfg) + RecordBytes(cfg) <= size
  {
  }

  function RevokeHomes(cfg: Config, b: Block): seq<nat> {
    var count := Be32(b, 12);
    var most := (|b| - 16) / RecordBytes(cfg);
    if count < 16 then []
    else
      var n := (count - 16) / RecordBytes(cfg);
      RevokeRecords(cfg, b, if n > most then most else n)
  }

  function ParseKind(cfg: Config, b: Block): Kind {
    var t := Be32(b, 4);
    if t == DESCRIPTOR_TYPE then Descriptor(MetaOk(cfg, b), ParseTags(cfg, b[12..|b| - cfg.TailBytes()]))
    else if t == COMMIT_TYPE then Commit(CommitOk(cfg, b))
    else if t == REVOKE_TYPE then Revoke(MetaOk(cfg, b), RevokeHomes(cfg, b))
    else Unknown
  }

  function Parse(cfg: Config, b: Block): LogBlock {
    if Be32(b, 0) != MAGIC then NotLog else Header(Be32(b, 8), ParseKind(cfg, b))
  }

  /** The per-tag checksum of a data block: 32 bits, or the low 16 in the V2 layout. */
  predicate TagOk(cfg: Config, tag: Tag, q: Word, b: Block) {
    if cfg.csumV3 then cfg.DataSum(q, b) == tag.check
    else if cfg.csumV2 then cfg.DataSum(q, b) % 0x1_0000 == tag.check
    else true
  }

  lemma HeaderFields(kind: Word, q: Word, rest: seq<Byte>)
    ensures var s := HeaderBytes(kind, q) + rest;
            Be32(s, 0) == MAGIC && Be32(s, 4) == kind && Be32(s, 8) == q
  {
    hide Pack32, Be32;
    var a, b, c := Pack32(MAGIC), Pack32(kind), Pack32(q);
    var s := a + b + c + rest;
    WordBetween([], MAGIC, b + c + rest);
    assert s == [] + a + (b + c + rest);
    WordBetween(a, kind, c + rest);
    assert s == a + b + (c + rest);
    WordBetween(a + b, q, rest);
  }

  lemma TailVerifies(cfg: Config, body: seq<Byte>)
    requires |body| == cfg.blockSize - cfg.TailBytes()
    ensures MetaOk(cfg, WithTail(cfg, body))
  {
    hide Pack32, Be32;
    if cfg.Checksums() {
      var sum := cfg.Sum(body + Zeros(4));
      WordBetween(body, sum, []);
      assert body + Pack32(sum) + [] == WithTail(cfg, body);
      assert Patch(WithTail(cfg, body), cfg.blockSize - 4, Zeros(4)) == body + Zeros(4);
    }
  }

  /** Descriptor round trip: what commit builds, the walker decodes to the same blocks,
      escape flags and checksums, in order, with the block checksum accepted. */
  lemma DescriptorRoundTrip(cfg: Config, q: Word, tx: seq<Write<Block>>)
    requires |cfg.uuid| == 16 && 1 <= |tx| <= TRANS_MAX && AllExpressible(cfg, tx)
    ensures Parse(cfg, DescriptorBlock(cfg, q, tx)) == Header(q, Descriptor(true, ExpectedTags(cfg, q, tx, 0)))
    ensures forall i :: 0 <= i < |tx| ==> TagOk(cfg, ExpectedTag(cfg, q, tx[i]), q, Escaped(tx[i].data))
  {
    hide HeaderBytes, TagTable, ParseTags, MetaOk, Be32, Escaped, StartsWithMagic, Pack32;
    TagTableLength(cfg, q, tx, 0);
    var size := cfg.blockSize - cfg.TailBytes();
    var head, table := HeaderBytes(DESCRIPTOR_TYPE, q), TagTable(cfg, q, tx, 0);
    var body := Padded(head + table, size);
    var pad := Zeros(size - |head + table|);
    var b := WithTail(cfg, body);
    assert b == DescriptorBlock(cfg, q, tx);
    TailVerifies(cfg, body);
    assert b == head + b[12..];
    HeaderFields(DESCRIPTOR_TYPE, q, b[12..]);
    assert b[12..size] == table + pad;
    TagTableRoundTrip(cfg, q, tx, 0, pad);
  }

  lemma CommitRoundTrip(cfg: Config, q: Word)
    ensures Parse(cfg, CommitBlock(cfg, q)) == Header(q, Commit(true))
  {
    hide HeaderBytes, Be32, Pack32;
    var body, b := CommitBody(cfg, q), CommitBlock(cfg, q);
    if cfg.Checksums() {
      var sum := cfg.Sum(body);
      WordBetween(body[..COMMIT_SUM], sum, body[COMMIT_SUM + 4..]);
      assert b == body[..COMMIT_SUM] + Pack32(sum) + body[COMMIT_SUM + 4..];
      assert Patch(b, COMMIT_SUM, Zeros(4)) == body;
    }
    assert b == HeaderBytes(COMMIT_TYPE, q) + b[12..];
    HeaderFields(COMMIT_TYPE, q, b[12..]);
  }
}
