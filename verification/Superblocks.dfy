/** The two superblock fields that recovery rewrites, magic escaping, and the byte format
    assembled from its parts. */
module Superblocks {
  import opened Words
  import opened Bytes
  import opened LogFormat
  import opened ByteFormat

  // ---------------------------------------------------------------- magic escaping

  /** A logged copy never begins with the journal magic. */
  lemma EscapedIsNotMagic(b: Block)
    ensures !StartsWithMagic(Escaped(b))
  {
    if StartsWithMagic(b) {
      assert Be32(ClearMagic(b), 0) == 0;
    }
  }

  lemma MagicBytes()
    ensures Pack32(MAGIC) == [0xC0, 0x3B, 0x39, 0x98]
  {
  }

  /** Restoring the magic of an escaped copy gives the block back. */
  lemma EscapeRoundTrip(b: Block)
    ensures (if StartsWithMagic(b) then RestoreMagic(Escaped(b)) else Escaped(b)) == b
  {
    if StartsWithMagic(b) {
      MagicBytes();
      Be32Unique(b, 0, MAGIC);
      assert forall i :: 0 <= i < 4 ==> b[i] == b[0..4][i];
      assert RestoreMagic(ClearMagic(b)) == b;
    }
  }

  // ---------------------------------------------------------------- journal superblock

  const JSB_SEQUENCE := 0x18
  const JSB_START := 0x1C
  const JSB_SUM := 0xFC

  function JsbSequence(b: Block): Word { Be32(b, JSB_SEQUENCE) }

  function JsbStart(b: Block): Word { Be32(b, JSB_START) }

  /** Both fields, with the checksum field zeroed. */
  function JsbFields(cfg: Config, b: Block, start: Word, q: Word): Block {
    var b1 := Patch(Patch(b, JSB_SEQUENCE, Pack32(q)), JSB_START, Pack32(start));
    if cfg.Checksums() then Patch(b1, JSB_SUM, Zeros(4)) else b1
  }

  function SetJsb(cfg: Config, b: Block, start: Word, q: Word): Block {
    var b1 := JsbFields(cfg, b, start, q);
    if cfg.Checksums() then Patch(b1, JSB_SUM, Pack32(cfg.crc(CRC_INIT, b1))) else b1
  }

  lemma JsbReadsBack(cfg: Config, b: Block, start: Word, q: Word)
    ensures JsbStart(SetJsb(cfg, b, start, q)) == start
    ensures JsbSequence(SetJsb(cfg, b, start, q)) == q
  {
    hide Pack32, Be32;
    var r := SetJsb(cfg, b, start, q);
    assert r[JSB_START..JSB_START + 4] == Pack32(start);
    Pack32RoundTrip(r, JSB_START, start);
    assert r[JSB_SEQUENCE..JSB_SEQUENCE + 4] == Pack32(q);
    Pack32RoundTrip(r, JSB_SEQUENCE, q);
  }

  /** Rewriting the fields forgets what they were, and the checksum with them. */
  lemma JsbOverwrites(cfg: Config, b: Block, start: Word, q: Word, start': Word, q': Word)
    ensures SetJsb(cfg, SetJsb(cfg, b, start, q), start', q') == SetJsb(cfg, b, start', q')
  {
    hide Pack32;
    assert JsbFields(cfg, SetJsb(cfg, b, start, q), start', q') == JsbFields(cfg, b, start', q');
  }

  /** The fields that fix the layout and the checksum seed are never written. */
  lemma JsbKeepsTheRest(cfg: Config, b: Block, start: Word, q: Word, i: nat)
    requires i < |b| && !(JSB_SEQUENCE <= i < JSB_START + 4) && !(JSB_SUM <= i < JSB_SUM + 4)
    ensures SetJsb(cfg, b, start, q)[i] == b[i]
  {
    hide Pack32;
  }

  // ---------------------------------------------------------------- file-system superblock

  const FEATURE_INCOMPAT := 0x60
  const FEATURE_RO_COMPAT := 0x64
  const SB_SUM := 0x3FC

  /** The superblock lies 1024 bytes into the volume: all of block 1 when blocks have 1024
      bytes, else a part of block 0. */
  function SbOffset(b: Block): (off: nat)
    ensures off + 1024 <= |b|
  {
    if |b| > 1024 then 1024 else 0
  }

  /** Bit 2 of a byte. */
  predicate Bit2(x: Byte) {
    x / 4 % 2 == 1
  }

  function WithBit2(x: Byte, on: bool): Byte {
    if Bit2(x) == on then x else if on then x + 4 else x - 4
  }

  predicate Recover(b: Block) {
    Bit2(b[SbOffset(b) + FEATURE_INCOMPAT])
  }

  /** metadata_csum: bit 0x400 of the read-only-compatible features. */
  predicate MetadataSum(b: Block) {
    Bit2(b[SbOffset(b) + FEATURE_RO_COMPAT + 1])
  }

  /** The block with the checksum of its superblock, if the volume has one. */
  function SumSuperblock(cfg: Config, b: Block): (r: Block)
    ensures |r| == |b|
  {
    var off := SbOffset(b);
    if MetadataSum(b) then Patch(b, off + SB_SUM, PackLittle(cfg.crc(CRC_INIT, b[off..off + SB_SUM]))) else b
  }

  function WithRecover(b: Block, on: bool): (r: Block)
    ensures |r| == |b|
  {
    var at := SbOffset(b) + FEATURE_INCOMPAT;
    b[at := WithBit2(b[at], on)]
  }

  function SetRecover(cfg: Config, b: Block, on: bool): Block {
    SumSuperblock(cfg, WithRecover(b, on))
  }

  lemma Bit2Facts(x: Byte, on: bool, on': bool)
    ensures Bit2(WithBit2(x, on)) == on
    ensures WithBit2(WithBit2(x, on), on') == WithBit2(x, on')
  {
  }

  lemma RecoverReadsBack(cfg: Config, b: Block, on: bool)
    ensures Recover(SetRecover(cfg, b, on)) == on
  {
    hide WithBit2, Bit2, PackLittle;
    Bit2Facts(b[SbOffset(b) + FEATURE_INCOMPAT], on, on);
  }

  /** Blocks that differ in the checksum alone get the same checksum. */
  lemma SumForgets(cfg: Config, b: Block, c: Block)
    requires |b| == |c| && MetadataSum(b)
    requires forall i :: 0 <= i < |b| && !(SbOffset(b) + SB_SUM <= i < SbOffset(b) + SB_SUM + 4) ==> b[i] == c[i]
    ensures SumSuperblock(cfg, b) == SumSuperblock(cfg, c)
  {
    hide Bit2, PackLittle;
    var off := SbOffset(b);
    assert forall i :: off <= i < off + SB_SUM ==> b[i] == c[i];
    assert b[off..off + SB_SUM] == c[off..off + SB_SUM];
    assert MetadataSum(c);
  }

  lemma RecoverOverwrites(cfg: Config, b: Block, on: bool, on': bool)
    ensures SetRecover(cfg, SetRecover(cfg, b, on), on') == SetRecover(cfg, b, on')
  {
    hide WithBit2, Bit2, PackLittle;
    Bit2Facts(b[SbOffset(b) + FEATURE_INCOMPAT], on, on');
    var c1, d1 := WithRecover(SetRecover(cfg, b, on), on'), WithRecover(b, on');
    assert MetadataSum(c1) == MetadataSum(d1) == MetadataSum(WithRecover(b, on));
    if MetadataSum(d1) {
      SumForgets(cfg, c1, d1);
    } else {
      assert c1 == d1;
    }
  }

  // ---------------------------------------------------------------- the format

  function JournalFormat(cfg: Config): Format<Block> {
    Format(
      (b: Block) => Parse(cfg, b),
      (tag: Tag, q: Word, b: Block) => TagOk(cfg, tag, q, b),
      (b: Block) => StartsWithMagic(b),
      (b: Block) => ClearMagic(b),
      (b: Block) => RestoreMagic(b),
      (q: Word, tx: seq<Write<Block>>) => DescriptorBlock(cfg, q, tx),
      (q: Word) => CommitBlock(cfg, q),
      (b: Block) => JsbStart(b),
      (b: Block) => JsbSequence(b),
      (b: Block, start: Word, q: Word) => SetJsb(cfg, b, start, q),
      (b: Block) => Recover(b),
      (b: Block, on: bool) => SetRecover(cfg, b, on))
  }

  /** The jbd2 layouts without checksums, with CSUM_V2 and with CSUM_V3, and with or
      without 64-bit block numbers, all satisfy the laws that crash safety rests on. */
  lemma JournalFormatIsLawful(cfg: Config)
    requires |cfg.uuid| == 16
    ensures Lawful(JournalFormat(cfg))
  {
    hide Parse, TagOk, StartsWithMagic, ClearMagic, RestoreMagic, DescriptorBlock, CommitBlock, JsbStart, JsbSequence,
         SetJsb, Recover, SetRecover;
    var fmt := JournalFormat(cfg);
    forall q: Word, tx: seq<Write<Block>> | FitsDescriptor(tx)
      ensures DescribedBy(fmt, q, tx, fmt.parse(fmt.descriptor(q, tx)))
    {
      DescriptorDescribes(cfg, q, tx);
    }
    forall q: Word ensures fmt.parse(fmt.commit(q)) == Header(q, Commit(true)) {
      CommitRoundTrip(cfg, q);
    }
    forall b: Block
      ensures fmt.parse(fmt.Logged(b)) == NotLog
      ensures fmt.Unlogged(fmt.Logged(b), fmt.startsWithMagic(b)) == b
    {
      EscapedParses(cfg, b);
      EscapeRoundTrip(b);
    }
    forall b: Block, s: Word, q: Word
      ensures fmt.jsbStart(fmt.setJsb(b, s, q)) == s && fmt.jsbSequence(fmt.setJsb(b, s, q)) == q
    {
      JsbReadsBack(cfg, b, s, q);
    }
    forall b: Block, s: Word, q: Word, s': Word, q': Word
      ensures fmt.setJsb(fmt.setJsb(b, s, q), s', q') == fmt.setJsb(b, s', q')
    {
      JsbOverwrites(cfg, b, s, q, s', q');
    }
    forall b: Block, on: bool ensures fmt.recover(fmt.setRecover(b, on)) == on {
      RecoverReadsBack(cfg, b, on);
    }
    forall b: Block, on: bool, on': bool
      ensures fmt.setRecover(fmt.setRecover(b, on), on') == fmt.setRecover(b, on')
    {
      RecoverOverwrites(cfg, b, on, on');
    }
  }

  lemma EscapedParses(cfg: Config, b: Block)
    ensures Parse(cfg, Escaped(b)) == NotLog
  {
    EscapedIsNotMagic(b);
  }

  lemma DescriptorDescribes(cfg: Config, q: Word, tx: seq<Write<Block>>)
    requires |cfg.uuid| == 16 && FitsDescriptor(tx)
    ensures DescribedBy(JournalFormat(cfg), q, tx, Parse(cfg, DescriptorBlock(cfg, q, tx)))
  {
    hide Parse, TagOk, StartsWithMagic, ClearMagic, DescriptorBlock;
    assert forall k :: 0 <= k < |tx| ==> Expressible(cfg, tx[k].home);
    DescriptorRoundTrip(cfg, q, tx);
  }
}
