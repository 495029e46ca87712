/** The in-place encoder and the decoding loop of descriptor blocks. */
module DescriptorCodec {
  import opened Words
  import opened Bytes
  import opened LogFormat
  import opened ByteFormat

  method Clear(buf: array<Byte>)
    modifies buf
    ensures buf[..] == Zeros(buf.Length)
  {
    var i := 0;
    while i < buf.Length
      invariant 0 <= i <= buf.Length
      invariant forall k :: 0 <= k < i ==> buf[k] == 0
    {
      buf[i] := 0;
      i := i + 1;
    }
  }

  /** Writing right after a prefix of zeros-padded content extends the content. */
  lemma PatchAppends(content: seq<Byte>, field: seq<Byte>, size: nat)
    requires |content| + |field| <= size
    ensures Patch(Padded(content, size), |content|, field) == Padded(content + field, size)
  {
  }

  lemma TableUnfold(cfg: Config, q: Word, tx: seq<Write<Block>>, i: nat)
    requires i < |tx| && forall k :: 0 <= k < |tx| ==> tx[k].home < 0x1_0000_0000_0000_0000
    ensures TagTable(cfg, q, tx, i)
            == TagFor(cfg, q, tx[i], i + 1 == |tx|, i == 0) + (if i == 0 then cfg.uuid else []) + TagTable(cfg, q, tx, i + 1)
  {
  }

  /** Appends a field to what the buffer shows. */
  method Append(buf: array<Byte>, at: nat, field: seq<Byte>, ghost shown: seq<Byte>)
    requires at == |shown| && at + |field| <= buf.Length && buf[..] == Padded(shown, buf.Length)
    modifies buf
    ensures buf[..] == Padded(shown + field, buf.Length)
  {
    hide Padded, Patch;
    PatchAppends(shown, field, buf.Length);
    Put(buf, at, field);
  }

  /** Builds the descriptor of a transaction in `buf`. */
  method BuildDescriptor(buf: array<Byte>, cfg: Config, q: Word, tx: seq<Write<Block>>)
    requires buf.Length == cfg.blockSize && |cfg.uuid| == 16 && 1 <= |tx| <= TRANS_MAX && AllExpressible(cfg, tx)
    modifies buf
    ensures buf[..] == DescriptorBlock(cfg, q, tx)
  {
    hide TagFor, TagTable, Pack32, HeaderBytes, Padded, Patch;
    TagTableLength(cfg, q, tx, 0);
    ghost var head, table := HeaderBytes(DESCRIPTOR_TYPE, q), TagTable(cfg, q, tx, 0);
    Clear(buf);
    EmptyIsZeros(cfg.blockSize);
    Append(buf, 0, HeaderBytes(DESCRIPTOR_TYPE, q), []);
    assert [] + head == head;
    var tagOff: nat := 12;
    var i := 0;
    ghost var written: seq<Byte> := [];
    assert head + written == head;
    assert written + table == table;
    while i < |tx|
      invariant 0 <= i <= |tx| && tagOff == 12 + |written|
      invariant written + TagTable(cfg, q, tx, i) == table && 12 + |written| <= cfg.blockSize
      invariant buf[..] == Padded(head + written, cfg.blockSize)
    {
      TableUnfold(cfg, q, tx, i);
      ghost var after := TagTable(cfg, q, tx, i + 1);
      var tag := TagFor(cfg, q, tx[i], i + 1 == |tx|, i == 0);
      assert written + (tag + (if i == 0 then cfg.uuid else []) + after) == written + tag + (if i == 0 then cfg.uuid else []) + after;
      Append(buf, tagOff, tag, head + written);
      assert head + written + tag == head + (written + tag);
      written := written + tag;
      tagOff := tagOff + cfg.TagBytes();
      if i == 0 {
        Append(buf, tagOff, cfg.uuid, head + written);
        assert head + written + cfg.uuid == head + (written + cfg.uuid);
        written := written + cfg.uuid;
        tagOff := tagOff + 16;
      }
      i := i + 1;
    }
    TableEnds(cfg, q, tx);
    assert written + [] == written;
    assert buf[..] == Padded(head + table, cfg.blockSize);
    if cfg.Checksums() {
      TailPatch(head + table, cfg.blockSize, cfg.Sum(buf[..]));
      Put(buf, cfg.blockSize - 4, Pack32(cfg.Sum(buf[..])));
    }
  }

  lemma EmptyIsZeros(size: nat)
    ensures Padded([], size) == Zeros(size)
  {
  }

  lemma TableEnds(cfg: Config, q: Word, tx: seq<Write<Block>>)
    requires forall k :: 0 <= k < |tx| ==> tx[k].home < 0x1_0000_0000_0000_0000
    ensures TagTable(cfg, q, tx, |tx|) == []
  {
  }

  lemma TailPatch(content: seq<Byte>, size: nat, sum: Word)
    requires |content| + 4 <= size
    ensures Padded(content, size) == Padded(content, size - 4) + Zeros(4)
    ensures Patch(Padded(content, size), size - 4, Pack32(sum)) == Padded(content, size - 4) + Pack32(sum)
  {
  }

  /** Where the walker stands after the tag at the front of `s`: None when the table ends. */
  function AfterTag(cfg: Config, s: seq<Byte>): (r: Option<nat>)
    requires |s| >= cfg.TagBytes()
    ensures r.Some? ==> cfg.TagBytes() <= r.value <= |s|
  {
    var skip := if Bit(Flags(cfg, s), SAME_UUID_BIT) then 0 else 16;
    if Bit(Flags(cfg, s), LAST_TAG_BIT) || |s| - cfg.TagBytes() < skip then None else Some(cfg.TagBytes() + skip)
  }

  function TagAt(cfg: Config, s: seq<Byte>): Tag
    requires |s| >= cfg.TagBytes()
  {
    Tag(Home32(cfg, s), Bit(Flags(cfg, s), ESCAPE_BIT), Check(cfg, s))
  }

  /** One turn of the tag loop, after the tags `done`. */
  lemma ParseStep(cfg: Config, s: seq<Byte>, done: seq<Tag>)
    ensures |s| < cfg.TagBytes() ==> done + ParseTags(cfg, s) == done
    ensures |s| >= cfg.TagBytes() ==>
              done + ParseTags(cfg, s) ==
              match AfterTag(cfg, s)
              case None => done + [TagAt(cfg, s)]
              case Some(n) => done + [TagAt(cfg, s)] + ParseTags(cfg, s[n..])
  {
    hide Home32, Flags, Check, Bit;
  }

  /** The tag loop of the log walker. */
  method ReadTags(cfg: Config, b: Block) returns (tags: seq<Tag>)
    ensures tags == ParseTags(cfg, b[12..|b| - cfg.TailBytes()])
  {
    hide Home32, Flags, Check, Bit, ParseTags;
    ghost var all := b[12..|b| - cfg.TailBytes()];
    tags := [];
    assert [] + ParseTags(cfg, all) == ParseTags(cfg, all);
    var remaining: nat := |b| - 12 - cfg.TailBytes();
    var p: nat := 12;
    while remaining >= cfg.TagBytes()
      invariant 12 <= p && p + remaining == |b| - cfg.TailBytes()
      invariant tags + ParseTags(cfg, b[p..p + remaining]) == ParseTags(cfg, all)
      decreases remaining
    {
      var s := b[p..p + remaining];
      ParseStep(cfg, s, tags);
      var flags := Flags(cfg, s);
      tags := tags + [Tag(Home32(cfg, s), Bit(flags, ESCAPE_BIT), Check(cfg, s))];
      if Bit(flags, LAST_TAG_BIT) {
        return;
      }
      var skip := if Bit(flags, SAME_UUID_BIT) then 0 else 16;
      if remaining - cfg.TagBytes() < skip {
        return;
      }
      assert s[cfg.TagBytes() + skip..] == b[p + cfg.TagBytes() + skip..p + remaining];
      p := p + cfg.TagBytes() + skip;
      remaining := remaining - cfg.TagBytes() - skip;
    }
    ParseStep(cfg, b[p..p + remaining], tags);
  }

  /** Checks a tail checksum by zeroing it in place and putting it back. */
  method VerifyMeta(buf: array<Byte>, cfg: Config) returns (ok: bool)
    requires buf.Length == cfg.blockSize
    modifies buf
    ensures buf[..] == old(buf[..])
    ensures ok == MetaOk(cfg, buf[..])
  {
    hide Pack32;
    if !cfg.Checksums() {
      return true;
    }
    var saved := buf[cfg.blockSize - 4..];
    var original := Be32(buf[..], cfg.blockSize - 4);
    Put(buf, cfg.blockSize - 4, Zeros(4));
    var computed := cfg.Sum(buf[..]);
    Put(buf, cfg.blockSize - 4, saved);
    assert buf[..] == old(buf[..]);
    ok := computed == original;
  }
}
