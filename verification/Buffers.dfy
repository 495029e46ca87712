/** Scratch buffers, and blocks read into them through the journal. */
module Buffers {
  import opened Words
  import opened Programs
  import opened Recovery
  import opened SmallBlocks
  import opened Journal
  import B = ByteFormat

  /** What reads return: the block itself, or its redirect while a checkpoint is pending. */
  ghost predicate Sees(fs: Mounted<B.Block>, d: Volume1024)
    reads fs, fs.dev
  {
    && fs.Valid() && |d| == |fs.dev.blocks|
    && forall n: nat :: n < |d| ==>
         ReadThrough(fs.fmt, fs.geo, fs.dev.blocks, if fs.replayActive then fs.redirects else map[], n) == Some(d[n])
  }

  /** Reads a block into a scratch buffer. */
  method Load(fs: Mounted<B.Block>, ghost d: Volume1024, n: nat, a: array<Byte>)
    requires Sees(fs, d) && n < |d| && |d[n]| == a.Length
    modifies a
    ensures a[..] == d[n] && Sees(fs, d)
  {
    hide Answers, TableIs, ReadThrough;
    var r := fs.ReadBlock(n);
    var b := r.value;
    var i := 0;
    while i < a.Length
      invariant 0 <= i <= a.Length && a[..i] == b[..i] && Sees(fs, d)
    {
      a[i] := b[i];
      i := i + 1;
    }
  }

  /** With a clean journal reads go straight to the device. */
  lemma SeesDisk(fs: Mounted<B.Block>, d: Volume1024)
    requires Sees(fs, d) && WellPlaced(fs.geo, |d|) && fs.start == 0
    ensures d == fs.dev.blocks
  {
    forall n: nat | n < |d| ensures d[n] == fs.dev.blocks[n] {
      HomeIsNotTruncated(fs.geo, |d|, n);
    }
  }
}
