/** What the journal code needs to know about block contents.

    The protocol is written over an arbitrary block type `B` and a `Format` that
    reads and builds blocks, so that its proofs never look inside a block.
    `ByteFormat` supplies the jbd2 byte layout and proves that it is `Lawful`. */
module LogFormat {
  import opened Words

  /** One descriptor tag: the home block, the ESCAPE flag and the stored checksum. */
  datatype Tag = Tag(home: nat, escaped: bool, check: int)

  datatype Kind =
    | Descriptor(ok: bool, tags: seq<Tag>)
    | Commit(ok: bool)
    | Revoke(ok: bool, revoked: seq<nat>)
    | Unknown

  /** A log block as the walker sees it: no journal magic, or a header. `ok` is the
      verdict of the block checksum. */
  datatype LogBlock = NotLog | Header(seqno: Word, kind: Kind)

  /** One block of a transaction: its home address and new content. */
  datatype Write<B> = Write(home: nat, data: B)

  const TRANS_MAX := 8

  datatype Format<!B> = Format(
    parse: B -> LogBlock,
    tagOk: (Tag, Word, B) -> bool,          // per-tag checksum of a logged data block
    startsWithMagic: B -> bool,
    clearMagic: B -> B,
    restoreMagic: B -> B,
    descriptor: (Word, seq<Write<B>>) -> B, // built from the original contents
    commit: Word -> B,
    jsbStart: B -> Word,
    jsbSequence: B -> Word,
    setJsb: (B, Word, Word) -> B,
    recover: B -> bool,
    setRecover: (B, bool) -> B)
  {
    /** The copy of a block that goes to the log: escaped if it starts with the magic. */
    function Logged(b: B): B {
      if startsWithMagic(b) then clearMagic(b) else b
    }

    /** The home content that a logged copy stands for. */
    function Unlogged(b: B, escaped: bool): B {
      if escaped then restoreMagic(b) else b
    }

    /** A superblock up to the RECOVER bit and the checksum that covers it. */
    function Settled(b: B): B {
      setRecover(b, false)
    }
  }

  /** The tags a descriptor must carry for the transaction `tx` with sequence `q`. */
  ghost predicate TagsDescribe<B>(fmt: Format<B>, q: Word, tx: seq<Write<B>>, tags: seq<Tag>) {
    && |tags| == |tx|
    && forall i :: 0 <= i < |tx| ==>
         && tags[i].home == tx[i].home
         && tags[i].escaped == fmt.startsWithMagic(tx[i].data)
         && fmt.tagOk(tags[i], q, fmt.Logged(tx[i].data))
  }

  ghost predicate DescribedBy<B>(fmt: Format<B>, q: Word, tx: seq<Write<B>>, block: LogBlock) {
    && block.Header?
    && block.seqno == q
    && block.kind.Descriptor?
    && block.kind.ok
    && TagsDescribe(fmt, q, tx, block.kind.tags)
  }

  /** A transaction that fits one descriptor: 1 to 8 blocks with 32-bit addresses. */
  predicate FitsDescriptor<B>(tx: seq<Write<B>>) {
    && 1 <= |tx| <= TRANS_MAX
    && forall i :: 0 <= i < |tx| ==> tx[i].home < 0x1_0000_0000
  }

  /** The properties of the block encoding on which crash safety rests. */
  ghost predicate Lawful<B(!new)>(fmt: Format<B>) {
    && (forall q: Word, tx: seq<Write<B>> :: FitsDescriptor(tx) ==>
          DescribedBy(fmt, q, tx, fmt.parse(fmt.descriptor(q, tx))))
    && (forall q: Word :: fmt.parse(fmt.commit(q)) == Header(q, Commit(true)))
    && (forall b: B :: fmt.parse(fmt.Logged(b)) == NotLog)
    && (forall b: B :: fmt.Unlogged(fmt.Logged(b), fmt.startsWithMagic(b)) == b)
    && (forall b: B, s: Word, q: Word ::
          fmt.jsbStart(fmt.setJsb(b, s, q)) == s && fmt.jsbSequence(fmt.setJsb(b, s, q)) == q)
    && (forall b: B, s: Word, q: Word, s': Word, q': Word ::
          fmt.setJsb(fmt.setJsb(b, s, q), s', q') == fmt.setJsb(b, s', q'))
    && (forall b: B, on: bool :: fmt.recover(fmt.setRecover(b, on)) == on)
    && (forall b: B, on: bool, on': bool ::
          fmt.setRecover(fmt.setRecover(b, on), on') == fmt.setRecover(b, on'))
  }
}
