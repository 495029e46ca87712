/** Volumes with blocks of 1024 bytes, the only ones that are written to, and transactions of
    such blocks. */
module SmallBlocks {
  import opened Words
  import opened LogFormat
  import opened LogWalk
  import opened Commit
  import opened CrashSafety
  import B = ByteFormat

  const SIZE := 1024

  type Bytes1024 = b: seq<Byte> | |b| == SIZE witness seq(SIZE, i => 0)

  type Volume1024 = Disk<B.Block>

  function BlockWrite(home: nat, data: Bytes1024): (w: Write<B.Block>)
    ensures w.home == home && w.data == data
  {
    Write(home, data)
  }

  ghost predicate DistinctHomes<T>(tx: Tx<T>) {
    forall a, b :: 0 <= a < b < |tx| ==> tx[a].home != tx[b].home
  }

  lemma AppliedInList<T>(tx: Tx<T>, n: nat, before: T, k: nat)
    requires DistinctHomes(tx) && k < |tx| && tx[k].home == n
    ensures Applied(tx, n, before) == tx[k].data
  {
    AppliedIsWritten(tx, k, before);
  }

  lemma AfterNothing<T>(d: Disk<T>)
    ensures After([], d) == d
  {
  }

  // ---------------------------------------------------------------- inode slots

  type InodeSize = n: nat | n == 128 || n == 256 || n == 512 || n == 1024 witness 128

  function InodesIn(size: InodeSize): nat { SIZE / size }

  /** Where slot `k` of a block of the inode table begins. */
  function SlotAt(size: InodeSize, k: nat): nat { k * size }

  lemma SlotFits(size: InodeSize, k: nat)
    requires k < InodesIn(size)
    ensures k * size + size <= SIZE && SlotAt(size, k) + size <= SIZE
  {
  }

  lemma SlotsApart(size: InodeSize, k: nat, j: nat)
    requires k < j
    ensures k * size + size <= j * size && SlotAt(size, k) + size <= SlotAt(size, j)
  {
  }
}
