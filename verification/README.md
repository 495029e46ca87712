# A verified model of the ext4 driver's write path

This project models, in Dafny 4.11, the crash-consistent write path of a DOS ext4 driver
and proves properties of the model. Every bug it reports is a theorem with a concrete
input or an exact condition. `dafny verify dfyconfig.toml` checks everything.

The model follows five layers.

1. **Journal** (`src/ext4/journal.c`, `src/ext4/fs.c`). `LogWalk` is the log walker as a
   trace of events; `Programs` is sequences of single-block writes on a device that stops
   accepting writes at any point; `Recovery` is the SCAN, REVOKE, FLUSH and BUILD passes
   over them; `Commit`, `Convergence`, `CrashSafety` and `Runs` prove crash safety, up to
   whole runs of interrupted sessions and interrupted mounts. `Passes`, `Journal` and
   `Mounting` are the same code imperatively: classes with the driver's fields and tables,
   whose methods are proved to perform exactly those programs. The protocol is written
   over an arbitrary block type with a `Format` of encoding functions; `ByteFormat`,
   `Superblocks` and `DescriptorCodec` give the jbd2 bytes and prove the laws the protocol
   needs, and `JournalOnDisk` puts both together with the real checksum. `LogLayout` draws the
   journal's blocks field by field, independently of the readers and builders, and measures
   these against the drawings. `Revocation` is what committed revokes do, down to bytes, and
   `RecoverBit` what the RECOVER bit says about the journal at every write.
2. **CRC-32C** (`src/util/crc32c.c`): `Crc32c` proves the table form against bit-by-bit
   division by the generator of section 12.1 of RFC 3720 (without the final inversion).
3. **Allocation** (`src/ext4/extent.c`): `Extents` and `ExtentTree` (lookup, extension,
   truncation of extent lists; trees of any depth), `Bitmaps`, `Volumes`, `Truncation`,
   `AllocatorRuns` (bitmaps, split counters, superblock count, whole runs) say what the calls
   mean. `VolumeOnDisk` reads that volume off the bytes of bitmap, descriptor, superblock and
   inode blocks and gives the transactions as such blocks; `VolumeSafety` joins them with the
   journal: what a mount finds after any of their writes was the last. `Allocator` and
   `Truncater` are the calls as they run: blocks read through the journal into scratch
   buffers, edited there byte by byte, and committed. `FileBytes` says what readers see: which
   bytes an extension appends and a truncation keeps, on the device, whenever writes stop.
   `Sectors` is the inode's sector count, `VolumeLayout` draws bitmaps, descriptors,
   superblock counts and inodes. `MakeDirs` is the second transaction of directory creation.
4. **Directories** (`src/ext4/dir.c`, `src/ext4/htree.c`, `src/ext4/extent.c`): `DirSlots`
   (blocks as record lists), `DirBlock` (the same edits on bytes, in place), `HTree` and
   `IndexBlock` (the hash index against the linear scan, and its bytes in the root block),
   `HalfMd4`, `Ancestry`, `Moves` (cross-directory rename on a namespace), `MoveExample`,
   `NamespaceOnDisk` (the namespace read off the bytes of its blocks, and the move as a
   transaction), `Mover` (the call as it runs) and `DirLayout` (the records as drawn, their
   alignment, and the one that a move writes).
5. **Names and dates** (`tools/tsr.c`): `DosTime`, `Aliases`, `AliasCode`.

`SmallBlocks` and `Buffers` hold what the block-level modules share: blocks of 1024 bytes,
inode slots, and scratch buffers filled through the journal.

## Findings

- *Replay of an uncommitted log.* SCAN starts `end_seq` at 0 and compares it as a sequence
  number, so a log without any valid commit is ignored exactly when its sequence lies in
  1..2^31 (`Recovery.UncommittedLogIsIgnored`); with sequence 0 an uncommitted block is
  written home (`JournalOnDisk.UncommittedBlockIsReplayed` is such a disk).
- *Extending an extent of 0x7FFF blocks* sets the uninitialised flag and loses every
  mapping of that extent; all other extensions keep every mapping
  (`Extents.ExtendKeepsMappingsIff`, `Volumes.ExtendKeepsConsistent`).
- *RECOVER can be clear while the journal is dirty.* `docs/dos-internals.md:238` gives the bit as
  the sign that the journal wants replay, and commit sets it first. But a transaction that
  carries the superblock home, as every extension and every freed block does, overwrites it
  with the copy read before that, and the journal is cleaned only later. The bit guards the
  journal at every write if and only if all such copies have it set
  (`RecoverBit.RecoverGuardsIff`); of an extension's sixteen block writes the thirteenth clears
  it too early (`RecoverBit.ExtensionIsUnguarded`). This driver replays all the same, as it
  looks at the journal superblock alone.
- *Emptying a file with uninitialised extents* takes the flag for a part of the length and
  frees 0x8000 blocks too many for each of them (`Extents.EmptyingFrees`,
  `Extents.EmptyingIsExactIff`, `Extents.PreallocatedFreesOthers`).
- *An interrupted truncation can alias.* The comment at `src/ext4/extent.c:2187-2195` says it
  never does. Once one block has been freed the inode still claims it, and an extension of
  another file before a file-system check shares a block exactly when a freed block lies
  below every other free block that is scanned or, with four extents in use, comes right
  after the last one (`Truncation.CutTruncateLeaksIff`, `AllocatorRuns.CutTruncateAliasesIff`,
  `AllocatorRuns.CutTruncateCanAlias`).
- *Truncation counts blocks in 32 bits.* The boundary is right up to 1 KiB below 4 TiB, and for
  no size beyond (`FileBytes.BlockCountIff`); a file cut to exactly 4 TiB keeps nothing
  (`FileBytes.FourTebibytes`).
- *A directory made in a directory whose inode lies in the same block of the inode table* stays
  without its block. The transaction lists that block twice, from two buffers, and the last
  one wins: the new inode keeps no extent, and the block taken for it is mapped by nobody
  (`MakeDirs.MakeDirOnDisk`, `MakeDirs.NewDirMapsIff`, `MakeDirs.NewDirCanBeLost`). Inodes 13
  and 14 of 256 bytes share a block (`MakeDirs.NestedDirectoriesShare`). File removal lists its
  two inodes in the same way (`MakeDirs.BothEditsStayIff`, `MakeDirs.FirstEditIsLost`).
- *While a checkpoint is pending*, a block that its transaction lists twice is read as first
  listed, though recovery will leave it as last listed (`Mounting.PendingReadsAgreeIff`,
  `Mounting.TwoContentsDiffer`).
- *A move takes the first record of the inode*, not the named one: with two links of one
  file in a directory block the other link can go (`DirSlots.RemovesTheNamedEntryIff`,
  `DirSlots.OtherLinkGoes`).
- *Moving a hashed directory breaks a full index.* The checksum tail is stamped into its root
  block without a look at the flag that says hashed. The index survives if and only if it ends
  before the tail; with 123 entries every name whose hash is not below the last key is then
  looked for in the root block (`HTree.StampKeepsLeavesIff`, `HTree.StampLosesNames`,
  `IndexBlock.TailStampsIndex`, `MoveExample.MoveBreaksFullIndex`).
- *An alias is a fixed point* exactly when the base name has at least four safe characters
  (`Aliases.FixedPointIff`).

Where comments or documents and code differ, the model follows the code: replay is
performed and writes exist (`docs/dos-internals.md:236-244` and `:270-272` say otherwise);
hashed parents are accepted by create and cross-directory rename (`src/ext4/extent.h:50`
and `:106` say they are refused); the replay and revoke tables are unsorted
(`src/ext4/journal.h:53-54`, `:100-101`); extension does not prefer the contiguous block
unless all four extents are in use (`src/ext4/extent.h:58-60`); the checksum of the journal
superblock covers its whole block, not 1 KiB of it (`src/ext4/journal.c:615-616`).

## Assumptions

The preconditions are what the code relies on, each a named predicate.

- `Programs.WellPlaced`: log blocks map to distinct device blocks apart from the
  superblock, and every byte offset fits 32 bits (offsets are truncated to 32 bits; the
  truncation itself is `LogWalk.Truncated`).
- `Commit.ValidTx`: one to eight blocks outside the journal with 32-bit numbers, and a log
  long enough. A block may be listed more than once.
- `Commit.Quiet`: past block `first` the log holds no descriptor or revoke header with one
  of the next sequence numbers. It is assumed of the first disk only and proved kept.
  `Runs.Silent` is the same for all sequence numbers; no bound on the number of transactions
  is needed then. `Runs.Takes` is either.
- `Recovery.TagsAtHome`, `Programs.CopiesOnly`: descriptor tags name blocks of the volume
  outside the journal.
- `Bitmaps.Supported`: blocks of 1024 bytes, a descriptor table of one block, at most
  8192 blocks in a group, first data block at least 1.
- `Extents.Ordered`: initialised extents of 1..0x7FFF blocks in ascending order, ending
  below logical block 2^32.
- `VolumeOnDisk.DiskOk`: superblock, descriptors, bitmaps and inode-table blocks are different
  blocks of 1024 bytes outside the journal, each inode has a slot of its own and a leaf of at
  most four extents, and groups lie inside the volume. `Truncater.FitToTruncate` adds that the
  file's extents are ordered, that the blocks to free lie in the groups, and that RECOVER is
  clear, as a complete mount leaves it.
- `NamespaceOnDisk.StoreOk`, `NamespaceOnDisk.ContentOk`: directories own different blocks
  outside the journal and apart from the inode table, and each block parses.
- `DirSlots.WellFormed`: records hold what they claim, live ones have a name, and the
  checksum tail comes last.

A single-block write is atomic. The device is a block array with a counter of the writes
it still accepts, as the test device has (`src/blockdev/file_bdev.c:22-34`).

## Model

| member | source | states |
|---|---|---|
| Words.SeqDiffIsDistance | src/ext4/journal.c:83-86 | within half the number space the wrapping difference is the true distance |
| Bytes.Put | src/ext4/journal.c:89-98 | an in-place write of a field is a patch of the buffer and changes nothing else |
| Bytes.Pack32RoundTrip | src/util/endian.h:22-27 | a big-endian word reads back wherever it stands |
| Bytes.LittleRoundTrip | src/util/endian.h:10-15 | a little-endian word reads back wherever it stands |
| LogWalk.ScanFindsLastCommit | src/ext4/journal.c:434-442 | with at least one commit, SCAN reports the last one's sequence and replay goes on |
| LogWalk.ScanOfUncommittedLog | src/ext4/journal.c:363-465 | with none, replay stops if and only if the sequence lies in 1..2^31 |
| LogWalk.LaterPassesSeeCommittedPrefix | src/ext4/journal.c:359-432 | the later passes see exactly the events up to the last commit of what SCAN saw, without error |
| LogWalk.WalkWindow | src/ext4/journal.c:425-432 | a walk meets only sequence numbers its guard can reach, so wrapping comparisons are sound |
| LogWalk.WrapIsRing | src/ext4/journal.c:120-122 | log blocks form a ring from `first` to the last one |
| LogWalk.FindExact | src/ext4/journal.c:101-118 | a log block lies in the extent that covers it, as far from its start as its number, and nowhere if there is none |
| LogWalk.WalkEnds | src/ext4/journal.c:377-422 | an unreadable block, one without magic, one of another sequence number and an invalid or unknown one end the walk with -2, 0, 0 or -3, and 0, and add nothing to it |
| LogWalk.WalkStops | src/ext4/journal.c:371-374 | past the last committed transaction the later passes see nothing |
| LogWalk.GuardNeverFires | src/ext4/journal.c:425-432 | the guard never ends a walk in a log where no descriptor's data run into the block it started from |
| LogWalk.GuardFires | src/ext4/journal.c:425-432 | a descriptor whose data go once around the ring is acted on maxlen + 5 times before the walk fails with -6 |
| Programs.InterruptedCopies | src/ext4/journal.c:518-530 | copies stopped anywhere leave the log and every block they do not target as they were |
| Programs.CompletedCopies | src/ext4/journal.c:518-530 | a full run leaves in each block its last copy, or its old content |
| Programs.CopiesConverge | src/ext4/journal.c:475-487 | copies stopped anywhere and then run in full leave the disk of one full run |
| Recovery.RevokeTableMeaning | src/ext4/journal.c:144-187 | the bounded table answers for every block and sequence what the committed revokes say, wrapping comparisons included |
| Recovery.ReplayIsExact | src/ext4/journal.c:446-494 | every block ends with the payload of its last committed tag not covered by a committed revoke, magic restored, or its old content if there is none |
| Revocation.RevokedByIff | src/ext4/journal.c:179-187 | in the window of a walk the wrapping comparison finds a block revoked if and only if some committed revoke that is not older lists it |
| Revocation.RevokedIsNotWritten | src/ext4/journal.c:446-494 | replay leaves a block alone if every committed tag of it is covered by such a revoke |
| Revocation.RevokesOverflowIff | src/ext4/journal.c:144-161 | the REVOKE pass gives up if and only if the committed revokes name more than 32 different blocks |
| Revocation.RevokedDiskReplay | src/ext4/journal.c:333-355 | a jbd2 log of a committed block and a later revoke block, in every layout: the block is left alone if it is listed and written if not; with more than 32 blocks listed replay stops with -5 and writes nothing |
| Recovery.UncommittedLogIsIgnored | src/ext4/journal.c:456-465 | a log without a valid commit is ignored if and only if its sequence lies in 1..2^31 |
| Recovery.UncommittedTagIsFlushed | src/ext4/journal.c:363-465 | in any block format: with sequence 0 the block of a lone uncommitted descriptor is written home |
| JournalOnDisk.UncommittedBlockIsReplayed | src/ext4/journal.c:363-465 | the failing input: a disk of eight jbd2 blocks whose replay writes a block that was never committed |
| Recovery.BuildCodeIsFlushCode | src/ext4/journal.c:278-312 | BUILD ends with FLUSH's code unless its map overflows |
| Recovery.BuildOverflowsIff | src/ext4/journal.c:126-142 | the map overflows if and only if FLUSH would write more than 64 different blocks before it stops |
| Recovery.SoftReplayIsHardReplay | src/ext4/fs.c:70-93 | the map overflows if and only if hard replay would write more than 64 different blocks; otherwise both end with the same code and, if it is 0, every read through the map gives what FLUSH would have put on disk |
| Passes.ScanningMeaning | src/ext4/journal.c:406-411 | the SCAN fold ends at the successor of the last commit and changes nothing else |
| Passes.RevokingMeaning | src/ext4/journal.c:413-419 | the REVOKE fold builds the revoke table of the log, or fails with -5 when it is full |
| Passes.BuildingMeaning | src/ext4/journal.c:278-312 | the BUILD fold builds the redirect map, with its errors -7, -8 and -1 |
| Passes.FlushingMeaning | src/ext4/journal.c:278-316 | the FLUSH fold on a failing device is the run of the FLUSH write program, stop point included |
| Convergence.InterruptedMount | src/ext4/fs.c:55-60 | a mount cut at any write and then a complete one leave what one complete mount leaves, RECOVER bit aside |
| Convergence.InterruptedMounts | src/ext4/fs.c:43-60 | the same for any number of interrupted mounts |
| Convergence.MountOfClean | src/ext4/journal.c:871-873 | a mount of a clean journal copies nothing and at most clears RECOVER |
| Commit.LogWritesKeepQuiet | src/ext4/journal.c:774-810 | the log writes of a commit, cut anywhere, keep the log free of headers a later walk would act on |
| Commit.PendingFacts | src/ext4/journal.c:774-816 | once the journal superblock lands the log holds exactly descriptor, data and commit, and no home block has changed |
| CrashSafety.StaleTail | src/ext4/journal.c:377-394 | past the transaction a walk meets at most stale commit blocks, which are harmless |
| CrashSafety.PendingReplay | src/ext4/journal.c:884-907 | recovery of a pending log performs exactly the writes of its checkpoint |
| CrashSafety.CutBeforeLanding | src/ext4/journal.c:774-816 | cut before the journal-superblock write, recovery leaves every home block old |
| CrashSafety.PendingRecovers | src/ext4/journal.c:446-494 | recovery of a pending log applies all blocks of the transaction and no other |
| CrashSafety.CommitIsAtomic | src/ext4/journal.c:774-848 | for every cut of a commit and any interrupted mounts before a complete one: all blocks new if the journal-superblock write landed, all old if not; journal clean, RECOVER clear |
| Runs.CutSession | src/ext4/journal.c:831-840 | a session of commits cut anywhere recovers to exactly its landed prefix |
| Runs.RoundsAreAtomic | src/ext4/journal.c:629-916 | over any number of cut sessions, each with interrupted mounts and a complete one, the disk holds exactly the landed transactions in order, and is ready for more |
| Runs.SilentIffAlwaysQuiet | src/ext4/journal.c:377-432 | a log is quiet for every sequence number and distance if and only if it holds no descriptor or revoke header past block `first` |
| Runs.EndlessRoundsAreAtomic | src/ext4/journal.c:629-916 | from such a log the same holds without any bound on sessions and transactions, however often sequence numbers wrap |
| Runs.FinishedLeaves | src/ext4/journal.c:851-916 | a finished commit leaves its transaction at home, RECOVER clear and a log that can take one transaction less |
| Runs.FinishedSession | src/ext4/journal.c:629-916 | a session that finishes leaves all its transactions at home, in order |
| RecoverBit.RecoverGuardsIff | src/ext4/journal.c:774-912 | RECOVER is set whenever the journal is dirty during a commit if and only if every copy of the superblock in the transaction has it set |
| RecoverBit.UnmarkedAfter | src/ext4/journal.c:884-899 | right after the copy of a superblock without it, the journal is dirty and RECOVER clear |
| RecoverBit.ExtensionIsUnguarded | src/ext4/extent.c:1122-1255 | the failing input: every extension on a clean volume, after thirteen of its sixteen block writes |
| Journal.Device.Write | src/blockdev/file_bdev.c:22-34 | a write is done entirely or fails; the fault counter counts the ones done |
| Journal.Mounted.FindLogBlock | src/ext4/journal.c:102-118 | the first extent covering a log block gives its 32-bit-truncated address |
| Journal.Mounted.UpsertReplay | src/ext4/journal.c:126-142 | the array table is a map of at most 64 entries; a repeated block replaces its entry |
| Journal.Mounted.UpsertRevoke | src/ext4/journal.c:144-161 | the array table is a map of at most 32 entries that keeps the highest sequence |
| Journal.Mounted.TestRevoked | src/ext4/journal.c:179-187 | a tag is skipped if and only if its block's recorded revoke is not older |
| Journal.Mounted.Lookup | src/ext4/journal.c:496-510 | a redirect is found if and only if the map is active and holds the block |
| Journal.Mounted.ReadBlock | src/ext4/fs.c:70-93 | reads go through the active map, with the magic restored, or to the block itself |
| Journal.Mounted.HandleTag | src/ext4/journal.c:278-316 | one tag is skipped, verified, mapped or copied home, with errors -7, -8, -1, -2 |
| Journal.Mounted.WalkLog | src/ext4/journal.c:359-443 | the walker's loop computes the fold of the pass over the log's trace, every exit code included |
| Journal.Mounted.Replay | src/ext4/journal.c:446-494 | a writable device gets exactly the writes of hard replay, a read-only one the soft-replay map and no write |
| Journal.Mounted.Checkpoint | src/ext4/journal.c:851-916 | the redirects go home, then the journal superblock, then RECOVER; -3 on a read-only device; no-op when clean |
| Journal.Mounted.Commit | src/ext4/journal.c:629-849 | refusals -2, -3, -4, -7 in order and without a write; otherwise the writes of the commit program, with the map active if and only if the transaction landed and did not finish; blocks may be listed twice, and the map then holds the first copy |
| Mounting.Open | src/ext4/fs.c:52-61 | on a writable device 0 if and only if replay finishes with 0, else -6; the checkpoint's failure is ignored; on a read-only one the soft replay's code and map; the object matches the disk |
| Mounting.ReadsNew | src/ext4/journal.c:818-834 | whichever checkpoint write fails, a read of a transaction block returns the first content listed for it |
| Mounting.PendingReadsAgreeIff | src/ext4/journal.c:496-510 | reads of the transaction's blocks then agree with what recovery leaves if and only if no block is listed with a first content that differs from its last |
| Mounting.TwoContentsDiffer | src/ext4/journal.c:496-510 | the failing input: one block with two contents |
| Mounting.ReadsOld | src/ext4/journal.c:884-914 | and a read of any other block returns what it held before, RECOVER bit and checksum aside |
| Mounting.CrashTest | tools/host_crash_recovery_test.c:1-20 | arm a fault, commit, open with a second fault, open again: the transaction is there entirely or not at all |
| Crc32c.TableStepDivides | src/util/crc32c.c:26 | one table step is the division of eight message bits |
| Crc32c.Chaining | src/util/crc32c.c:22-29 | continuing from a checksum is the checksum of the concatenation |
| Crc32c.OneByteIsDetected | src/util/crc32c.c:22-29 | changing exactly one byte changes the checksum, for every seed and length |
| Crc32c.CheckValue | src/util/crc32c.c:22-29 | the digits 1 to 9 give the check value 0xE3069283, once inverted |
| Crc32c.Table.Build | src/util/crc32c.c:9-20 | the built table holds eight shifts of every index |
| Crc32c.Table.Crc32c | src/util/crc32c.c:22-29 | the loop over the lazily built table computes the bit-by-bit remainder |
| ByteFormat.TagTableRoundTrip | src/ext4/journal.c:238-329 | reading the tag table written for any transaction gives its blocks, flags and checksums in order, in all layouts |
| ByteFormat.DescriptorRoundTrip | src/ext4/journal.c:689-772 | the descriptor built parses to its sequence and tags with a valid tail, and each logged payload passes its tag checksum |
| ByteFormat.CommitRoundTrip | src/ext4/journal.c:794-806 | the commit block built parses and verifies |
| LogLayout.DescriptorDrawn | src/ext4/journal.c:689-772 | the descriptor built has the jbd2 drawing: header, each tag's number, flags, high half and checksum at their offsets, the UUID after the first, and the checksum of the whole block at its end |
| LogLayout.CommitDrawn | src/ext4/journal.c:794-806 | so has the commit block, with its checksum at offset 16 |
| LogLayout.RevokeReads | src/ext4/journal.c:333-355 | a block drawn as a revoke block, with records of four or eight bytes, is read as exactly its list |
| LogLayout.RevokeRoundTrip | src/ext4/journal.c:333-355 | reading a written revoke block gives its sequence number and its blocks in order, in all layouts |
| LogLayout.ParsedAs | src/ext4/journal.c:383-422 | of any block: whether it is a log block, its sequence number and type, and that it is taken as valid if and only if its checksum field holds the checksum of the rest |
| LogLayout.TagCheckedAs | src/ext4/journal.c:208-236 | a tag is accepted if and only if its number is the checksum over UUID, sequence number and block, or its low half in the V2 layout |
| Superblocks.EscapedIsNotMagic | src/ext4/journal.c:715-719 | no logged payload begins with the journal magic |
| Superblocks.EscapeRoundTrip | src/ext4/fs.c:79-85 | restoring the magic of an escaped copy gives the block back |
| Superblocks.JsbReadsBack | src/ext4/journal.c:555-583 | both rewritten fields read back |
| Superblocks.JsbOverwrites | src/ext4/journal.c:555-583 | a second rewrite leaves no trace of the first, checksum included |
| Superblocks.JsbKeepsTheRest | src/ext4/journal.c:568-580 | no other byte of the journal superblock changes |
| Superblocks.RecoverReadsBack | src/ext4/journal.c:587-606 | RECOVER reads back as set |
| Superblocks.RecoverOverwrites | src/ext4/journal.c:587-624 | setting or clearing it again leaves no trace of the first time, checksum included |
| Superblocks.JournalFormatIsLawful | src/ext4/journal.c:689-806 | the layouts that are written, without checksums, V2 and V3, 32- and 64-bit, in blocks of 1024, 2048 and 4096 bytes, satisfy every law the commit and recovery proofs use; revoke blocks, which are only read, are `LogLayout.RevokeReads` |
| LogLayout.JsbDrawn | src/ext4/journal.c:555-583 | sequence number and start lie at 24 and 28, and at 252 the checksum of the whole block with that field zeroed |
| LogLayout.FeaturesDrawn | src/ext4/journal.c:603-611 | RECOVER is bit 2 of the field at 96 and metadata checksums bit 10 of that at 100, 1024 bytes into the volume |
| LogLayout.RecoverDrawn | src/ext4/journal.c:587-624 | setting RECOVER changes that bit and the checksum of the first 1020 bytes, and no other byte |
| DescriptorCodec.BuildDescriptor | src/ext4/journal.c:689-772 | the in-place builder writes the descriptor whose round trip is proved, every byte |
| DescriptorCodec.ReadTags | src/ext4/journal.c:238-329 | the walker's tag loop reads the tag list of the table |
| DescriptorCodec.VerifyMeta | src/ext4/journal.c:193-205 | zeroing and restoring the tail in place leaves the buffer as it was and verifies it |
| JournalOnDisk.OneByteChangesSum | src/util/crc32c.c:22-29 | the same detection for the journal's byte strings and 32-bit values |
| JournalOnDisk.CheckValueOfBytes | src/util/crc32c.c:22-29 | the same check value for byte strings |
| JournalOnDisk.ChangedHeaderIsRefused | src/ext4/journal.c:193-221 | a valid descriptor, revoke or commit block of which one byte changed, checksum field included, is not taken for a valid one |
| JournalOnDisk.DecisionIgnoresData | src/ext4/journal.c:359-432 | what replay decides does not depend on the data blocks of the log |
| JournalOnDisk.ChangedByteIsNeverApplied | src/ext4/journal.c:288-316 | a full-checksum replay of a log with one changed byte in a logged block never copies from it, and stops with -8 if the log was sound before |
| JournalOnDisk.DiskRunsAreAtomic | src/ext4/journal.c:629-916 | whole-run crash safety for the real block layout |
| JournalOnDisk.FreshJournalIsReady | src/ext4/journal.c:381-394 | a journal in one extent whose log holds no header satisfies every assumption of the run theorem, for every sequence |
| JournalOnDisk.FreshRunsAreAtomic | src/ext4/journal.c:629-916 | whole-run crash safety from such a journal, for any number of sessions and transactions |
| Extents.LookupExact | src/ext4/extent.c:76-93 | in a sorted list the extent that covers a block decides, wherever it stands and whether or not it is initialised |
| Extents.LookupMisses | src/ext4/extent.c:94 | a block no extent covers is a hole |
| Extents.ExtendAddsOne | src/ext4/extent.c:1183-1209 | an extension, merging or appending, adds one mapping after the last and keeps all others |
| Extents.OverflowLosesTheExtent | src/ext4/extent.c:1183-1188 | the failing input: a merge into 0x7FFF blocks makes mapped blocks holes |
| Extents.ExtendKeepsMappingsIff | src/ext4/extent.c:1183-1209 | mappings are kept if and only if no extent of 0x7FFF blocks grows |
| Extents.KeptLookup | src/ext4/extent.c:2258-2283 | after a cut, lookups below the boundary are unchanged and holes above |
| Extents.FreedExact | src/ext4/extent.c:2284-2288 | the walk frees exactly the blocks mapped at or above the boundary |
| Extents.FreedDistinct | src/ext4/extent.c:2284-2288 | and each of them once |
| Extents.CutUndoesExtend | src/ext4/extent.c:2258-2283 | a cut at or below the old end forgets an extension, and frees its block first |
| Extents.EmptyingFrees | src/ext4/extent.c:2258-2288 | truncation to nothing frees the mapped blocks and 0x8000 more for each uninitialised extent |
| Extents.EmptyingIsExactIff | src/ext4/extent.c:2258-2288 | it frees as many blocks as are mapped if and only if no extent is uninitialised |
| Extents.PreallocatedFreesOthers | src/ext4/extent.c:2258-2288 | the failing input: one preallocated block mapped, 0x8001 blocks freed |
| ExtentTree.DescendIsLookup | src/ext4/extent.c:67-121 | descent through an index of any depth finds what a scan of all leaf entries finds |
| ExtentTree.TreeLookupExact | src/ext4/extent.c:54-122 | lookup returns a block if and only if a leaf entry of the tree maps it |
| ExtentTree.ExtentLookup | src/ext4/extent.c:54-122 | the loops compute that descent, with codes -1, -2, -3, -5 |
| Bitmaps.FindFreeIsLowest | src/ext4/extent.c:896-930 | the scan takes the lowest free block, and fails only when no scanned bit is clear |
| Bitmaps.TakeAgrees | src/ext4/extent.c:932-939 | setting a clear bit and counting down, borrow included, keep count and bitmap in step |
| Bitmaps.ReleaseAgrees | src/ext4/extent.c:1944-1952 | clearing a set bit and counting up, carry included, keep them in step |
| Volumes.TakeKeeps | src/ext4/extent.c:917-939 | taking a block makes it and no other used and keeps all counts |
| Volumes.TakeUndone | src/ext4/extent.c:1925-1980 | freeing the block just taken restores the volume, counter halves included |
| Volumes.ReleaseKeeps | src/ext4/extent.c:1925-1980 | freeing a used block makes it and no other free and keeps all counts |
| Volumes.CandidateIsFree | src/ext4/extent.c:1038-1121 | the block an extension takes was free |
| AllocatorRuns.CandidateIsLowest | src/ext4/extent.c:896-930 | the block found is the lowest free one of the volume, blocks that do not fill a byte of their bitmap aside |
| AllocatorRuns.NoCandidateIffFull | src/ext4/extent.c:896-930 | when groups fill their bytes, an extension with a free extent slot finds no block if and only if none is free |
| Volumes.EmptyFilesAreConsistent | src/ext4/extent.c:1013-1017 | where the allocator's invariant begins: right counts, metadata marked used, and files without extents |
| Volumes.ExtendSucceedsIff | src/ext4/extent.c:993-1139 | an extension succeeds if and only if the inode allows it and a block is found |
| Volumes.ExtendKeepsConsistent | src/ext4/extent.c:955-1257 | counts, used marks, no aliasing and no metadata mapped are all kept, if and only if the extents can express the new block |
| Volumes.ExtendedMaps | src/ext4/extent.c:1183-1209 | over all files, exactly one new mapping, to a block that was free |
| Volumes.ExtendableAgainIff | src/ext4/extent.c:1018-1022 | a file can be extended again if and only if the last extension added a whole block |
| Truncation.CutTruncateIsSafe | src/ext4/extent.c:2284-2288 | at every transaction boundary counts are right, surviving blocks are marked used and exactly the blocks freed so far are free |
| Truncation.CutTruncateLeaksIff | src/ext4/extent.c:2187-2195 | a truncation cut between its transactions is consistent if and only if nothing was freed yet |
| Truncation.TruncateIsExact | src/ext4/extent.c:2243-2344 | lookups are kept below the block count of the new size and holes from it on, exactly the blocks mapped there are freed, and the invariant is kept |
| FileBytes.BlockCountIff | src/ext4/extent.c:2243-2245 | that count separates the blocks that begin below the new size from the others if and only if the size is at most 1 KiB below 4 TiB |
| FileBytes.FourTebibytes | src/ext4/extent.c:2243-2245 | the failing input: the count of 4 TiB is 0 |
| FileBytes.TruncateInBytes | src/ext4/extent.c:2243-2344 | logical block l maps what it did if 1024 l lies below the new size and is a hole otherwise, and exactly the blocks mapped in those holes become free |
| AllocatorRuns.TruncateForgetsExtend | src/ext4/extent.c:2248-2333 | an extension followed by a cut at or below the old end is that cut alone |
| AllocatorRuns.TruncateUndoesExtends | src/ext4/extent.c:1178-1232 | any number of whole-block extensions and a cut to the old size restore the whole volume |
| AllocatorRuns.RunKeepsConsistent | src/ext4/extent.c:883-1289 | any run of extensions and truncations keeps conservation and no aliasing |
| AllocatorRuns.CutTruncateAliasesIff | src/ext4/extent.c:2187-2195 | after a cut truncation an extension of another file aliases if and only if a freed block lies below every other free block that is scanned or, with four extents, comes right after the last one |
| AllocatorRuns.CutTruncateCanAlias | src/ext4/extent.c:2187-2195 | the failing input: two files in one group of eight blocks end up mapping one block |
| Sectors.ExtendKeepsSectors | src/ext4/extent.c:1225-1232 | the sector count stays that of the mapped blocks if and only if it does not wrap |
| Sectors.FreedCounts | src/ext4/extent.c:2248-2293 | the blocks freed and the blocks kept are all that were mapped |
| Sectors.CutKeepsSectors | src/ext4/extent.c:2320-2327 | truncation keeps the sector count right |
| VolumeLayout.BitmapDrawn | src/ext4/extent.c:917-921 | block k of a group is bit k mod 8 of byte k div 8, the lowest bit first |
| VolumeLayout.AddressesRun | src/ext4/extent.c:922-924 | block numbers run through the groups from the first data block on, without gap |
| VolumeLayout.CountDrawn | src/ext4/extent.c:899-902 | a group's free count lies at 12, and at 44 in wide descriptors |
| VolumeLayout.DescDrawn | src/ext4/extent.c:932-946 | count, bitmap checksum and descriptor checksum go to their offsets, the last over the descriptor with that field zeroed, and no other byte changes |
| VolumeLayout.FreeDrawn | src/ext4/extent.c:1128-1132 | the superblock's count lies at 12, and its high half at 344 |
| VolumeLayout.InodeDrawn | src/ext4/extent.c:1191-1232 | size, sectors, extent header and extents lie at the offsets of an ext4 inode |
| VolumeLayout.TouchDrawn | src/ext4/extent.c:433-440 | the last edit of an inode writes the time at 16 and the checksum at 124 and 130, over the inode with these zeroed, and nothing else |
| VolumeLayout.TouchIsTouched | src/ext4/extent.c:433-440 | a move touches its parents' inodes in the same way |
| VolumeLayout.LinksDrawn | src/ext4/extent.c:2743-2761 | links are counted in the two bytes at 26 |
| VolumeLayout.ParentDrawn | src/ext4/extent.c:1616-1619 | a new directory adds one there to its parent's |
| VolumeOnDisk.SetBitSets | src/ext4/extent.c:917-921 | setting or clearing a bit of a bitmap block changes that bit only |
| VolumeOnDisk.DescEditSets | src/ext4/extent.c:932-946 | counting in one descriptor and both its checksums leave every other group's count |
| VolumeOnDisk.WithFreeSets | src/ext4/extent.c:1122-1152 | the superblock's count reads back after it is written and summed |
| VolumeOnDisk.ExtendedInodeFile | src/ext4/extent.c:1178-1235 | the bytes of the extended inode are the inode of the extended file |
| VolumeOnDisk.WithCutFile | src/ext4/extent.c:2248-2293 | the cut table in the inode's bytes is the cut extent list |
| VolumeOnDisk.ExtendOnDisk | src/ext4/extent.c:1242-1255 | the five blocks, once in place, hold the extended volume and the data |
| VolumeOnDisk.FreeOnDisk | src/ext4/extent.c:1925-1980 | the three blocks hold the volume with that block released, and are a transaction the journal takes |
| VolumeOnDisk.InodeOnDisk | src/ext4/extent.c:2320-2341 | the inode's block holds the volume with that file replaced |
| VolumeSafety.ExtendIsAtomic | src/ext4/extent.c:955-1257 | whichever of an extension's block writes is the last, and however recovery is interrupted, the next mount finds the old volume or the extended one with its data, the latter exactly when the journal superblock landed |
| VolumeSafety.TruncateOnDisk | src/ext4/extent.c:2243-2344 | after the first transactions of a truncation the bytes hold its stage of that number |
| VolumeSafety.TruncateIsStaged | src/ext4/extent.c:2187-2195 | whichever of all the block writes of a truncation is the last, the next mount finds the stage that the landed transactions reach, counts right |
| Allocator.FindFreeBlock | src/ext4/extent.c:883-953 | the scan over descriptors and bitmap bytes finds the specified block and marks it in the scratch bitmap |
| Allocator.TakeContiguous | src/ext4/extent.c:1066-1112 | with four extents only the next block is taken, if it is in range and free |
| Allocator.EditDescs | src/ext4/extent.c:388-399 | in place: the count, the bitmap's checksum and the descriptor's own |
| Allocator.EditSuper | src/ext4/extent.c:1122-1152 | in place: the superblock's count and checksum |
| Allocator.ExtendInode | src/ext4/extent.c:1178-1235 | in place: the last extent or a new one, size, sectors, time and checksum, and no other inode of the block |
| Allocator.ExtendBlock | src/ext4/extent.c:955-1289 | a refusal, a read-only device or an unfinished journal change nothing; otherwise exactly the writes of the commit of the five blocks, whatever the bitmaps say |
| FileBytes.Append | src/ext4/extent.c:1238-1255 | after a call that succeeds, the bytes behind the old end are the data, cut at 1024, and then zeros; every other byte of every file is as it was; with sixteen block writes to go the call succeeds |
| FileBytes.AppendIsAtomic | src/ext4/extent.c:955-1257 | whichever write of it is the last, readers find after the next mount either that or every byte of every file as it was |
| Truncater.FreeOneBlock | src/ext4/extent.c:1925-1980 | exactly the writes of the commit of the three blocks that free one |
| Truncater.FreeTail | src/ext4/extent.c:2248-2293 | the reverse walk commits the frees of the list one by one, each built from what the last one left, and cuts the copied table; a failure ends it |
| Truncater.Truncate | src/ext4/extent.c:2198-2344 | larger sizes are refused and the same size does nothing; otherwise exactly the writes of the session whose transactions are those of `VolumeSafety.TruncateIsStaged` |
| FileBytes.Cut | src/ext4/extent.c:2198-2344 | after a call that succeeds, the file has the new size, its blocks that begin below it have all their bytes, all others are holes and free, and every byte of every other file is as it was |
| FileBytes.CutIsAtomicToReaders | src/ext4/extent.c:2187-2195 | whichever of its writes is the last, readers find after the next mount either that or every byte of every file as it was |
| MakeDirs.BothEditsStayIff | src/ext4/extent.c:2169-2175 | of two inodes edited in separate buffers of one transaction both edits stay if and only if they lie in different blocks, or the first changed nothing |
| MakeDirs.FirstEditIsLost | src/ext4/extent.c:2169-2175 | the failing input: inodes 13 and 14 in one block, of which 13 keeps its zeros |
| MakeDirs.MakeDirOnDisk | src/ext4/extent.c:1573-1640 | the seven blocks hold the volume with one block taken, and with the new directory's inode written unless its parent's shares the block |
| MakeDirs.NewDirMapsIff | src/ext4/extent.c:1573-1640 | the new directory maps its block if and only if the two inodes lie in different blocks; otherwise it stays empty and nobody maps that block |
| MakeDirs.NewDirCanBeLost | src/ext4/extent.c:1573-1640 | the failing input: a consistent volume whose empty inode 13 does not find the block taken for it |
| MakeDirs.SharedIff | src/ext4/extent.c:1603-1613 | two inodes of a group share a block if and only if their indices fall into the same run of as many as a block holds |
| MakeDirs.NestedDirectoriesShare | src/ext4/extent.c:1603-1613 | the failing input: inodes 13 and 14 of 256 bytes |
| MakeDirs.MakeDirIsAtomic | src/ext4/extent.c:1622-1640 | however that transaction is cut and recovered, the next mount finds the volume before it or the one above |
| DirSlots.InsertKeepsTiling | src/ext4/extent.c:334-357 | insertion keeps an exact tiling with the tail last |
| DirSlots.InsertChangesOneName | src/ext4/extent.c:712-725 | insertion changes what lookup finds under the new name only |
| DirSlots.InsertFailsIff | src/ext4/extent.c:334-362 | insertion fails if and only if no record has room |
| DirSlots.RemoveKeepsTiling | src/ext4/extent.c:2708-2736 | removal keeps an exact tiling with the tail last |
| DirSlots.RemoveChangesOneName | src/ext4/extent.c:2708-2736 | removal changes what lookup finds under one name only |
| DirSlots.RemovesTheNamedEntryIff | src/ext4/extent.c:366-382 | the entry meant is removed if and only if no record of the same inode precedes it |
| DirSlots.OtherLinkGoes | src/ext4/extent.c:366-382 | the failing input: two names of one inode in a block, where a removal meant for the second takes the first |
| DirSlots.RemoveUndoesInsert | src/ext4/extent.c:2708-2736 | insertion and then removal restore the live entries in order |
| DirSlots.InsertKeepsUnique | src/ext4/extent.c:712-725 | names stay pairwise different |
| DirSlots.RemoveKeepsUnique | src/ext4/extent.c:2708-2736 | names stay pairwise different |
| DirSlots.SetUpChangesDotDot | src/ext4/extent.c:2693-2699 | rewriting ".." changes what is found under that name only |
| DirLayout.RecordIsRead | src/ext4/extent.c:366-382 | a drawn record, inode at 0, length at 4, name length at 6, type at 7, name from 8 on, is read as such |
| DirLayout.SlotIsDrawn | src/ext4/extent.c:712-725 | every live record of the list is drawn so in the block, at the end of a chain of record lengths |
| DirLayout.DotsAreDrawn | src/ext4/extent.c:1534-1552 | a directory's first block holds "." in twelve bytes and then ".." |
| DirLayout.TailDrawn | src/ext4/extent.c:474-492 | the checksum record is the last twelve bytes, of type 0xDE and without an inode |
| DirLayout.StampDrawn | src/ext4/extent.c:474-492 | stamping puts there the checksum of the block with that field zeroed, and changes no byte before the record |
| DirLayout.SizeIsLeast | src/ext4/extent.c:345 | a name takes up the least multiple of four that holds it and eight bytes |
| DirLayout.InsertKeepsAligned | src/ext4/extent.c:334-357 | insertion keeps all record lengths multiples of four |
| DirLayout.RemoveKeepsAligned | src/ext4/extent.c:2708-2736 | so does removal |
| DirBlock.InsertFrom | src/ext4/extent.c:712-725 | the edited bytes parse as the insertion into the record list |
| DirBlock.RemoveFromBlock | src/ext4/extent.c:2724-2740 | the edited bytes parse as the removal from the record list |
| DirBlock.TailKeepsRecords | src/ext4/extent.c:474-492 | restamping the checksum tail changes no record |
| DirBlock.UpIsAt12 | src/ext4/extent.c:2491 | the word at offset 12 is the inode of ".." |
| DirBlock.UpIsWritten | src/ext4/extent.c:2695-2698 | writing it rewrites ".." and nothing else |
| DirBlock.FindSlot | src/ext4/extent.c:334-362 | the scan finds the first record with room and cuts it to its real size |
| DirBlock.FindEntry | src/ext4/extent.c:366-382 | the scan finds the first record of an inode and its predecessor |
| DirBlock.Restamp | src/ext4/extent.c:474-492 | the tail is written with the checksum of the block with the field zeroed |
| DirBlock.InsertBytes | src/ext4/extent.c:712-726 | in place: exactly the bytes of the new record, the cut one before it and the tail |
| DirBlock.RemoveBytes | src/ext4/extent.c:2724-2741 | in place: exactly the bytes of the removal and the tail |
| DirBlock.InsertEntry | src/ext4/extent.c:712-726 | in place: the block's records become the insertion's, or nothing changes |
| DirBlock.RemoveEntry | src/ext4/extent.c:2724-2741 | in place: the block's records become the removal's, or nothing changes |
| DirBlock.LookupBlock | src/ext4/dir.c:33-52 | the iterator finds the first live entry of a name |
| HTree.ScanPicksLastKey | src/ext4/htree.c:163-172 | the leaf of the last key not above the hash, or the first leaf |
| HTree.ScanIndex | src/ext4/htree.c:239-247 | the loop over the index computes that leaf |
| IndexBlock.FindLeafInBlock | src/ext4/htree.c:186-249 | the scan over the bytes of the root block finds the leaf at 36 + 8 i for the i before the first entry whose hash, at 32 + 8 i, lies above the name's |
| IndexBlock.CodeDrawn | src/ext4/htree.c:217-224 | -3 if and only if the byte at 30 is not 0; otherwise -4 if and only if the count at 34 is 0 or does not fit |
| IndexBlock.ServesIsLast | src/ext4/htree.c:230-247 | with ascending hashes it is the last entry whose hash is not above |
| HTree.IndexAgreesIff | src/ext4/htree.c:186-249 | hashing and scanning one leaf agree with the scan of all blocks for every name outside the root block, if and only if each entry sits in its hash's leaf |
| HTree.InsertKeepsPlacedIff | src/ext4/extent.c:668-688 | an insertion keeps that if and only if it goes to the leaf of its hash |
| HTree.InsertHashedKeepsAgreement | src/ext4/extent.c:2647-2665 | insertion through the index keeps both lookups in agreement and changes one name |
| HTree.InsertLinearChangesOneName | src/ext4/extent.c:689-707 | insertion into a linear directory changes one name, and fails only when no block has room |
| HTree.LinearAfterRemove | src/ext4/dir.c:73-86 | removal from one block changes the directory's lookup at one name |
| HTree.RemoveKeepsPlaced | src/ext4/extent.c:2619-2628 | removal from any leaf keeps entries in the leaves of their hashes |
| IndexBlock.TailStampsIndex | src/ext4/extent.c:474-492 | stamping the checksum tail into a root block changes its index as `HTree.Stamp` says |
| HTree.StampKeepsLeavesIff | src/ext4/extent.c:2693-2699 | a stamped index still sends every hash to a leaf if and only if it does not reach into the tail |
| HTree.StampLosesNames | src/ext4/extent.c:2693-2699 | with 123 entries every name whose hash is not below the last key is lost |
| HalfMd4.RoundFunctions | src/ext4/htree.c:16-18 | F, G and H are the functions of section 3.4 of RFC 1320 |
| HalfMd4.HIsParity | src/ext4/htree.c:18 | a bit of H is set if and only if an odd number of the three is |
| HalfMd4.PrepHashbuf | src/ext4/htree.c:72-101 | exactly eight words are filled, each with its bytes after the padding |
| HalfMd4.KnownWords | src/ext4/htree.c:72-101 | known words, with bytes above 0x7F read unsigned and signed |
| HalfMd4.MajorIsUsable | src/ext4/htree.c:151-155 | directory hashes are the raw values rounded down to even ones, 0xFFFFFFFC instead of the end mark, and ordered as these |
| Ancestry.AncestorWalk | src/ext4/extent.c:2478-2495 | the loop computes the bounded walk |
| Ancestry.WalkExact | src/ext4/extent.c:2478-2495 | in a tree the walk refuses exactly the ancestors within 64 steps, and lets through only directories that are no ancestor however deep |
| Ancestry.MoveKeepsTreeIff | src/ext4/extent.c:2566-2577 | re-parenting keeps a tree if and only if the new parent is not below what is moved |
| Moves.RelinkedExact | src/ext4/extent.c:2743-2761 | one link less, one more, all others kept, whether or not both inodes share a table block |
| Moves.TwoCopiesLoseTheDecrement | src/ext4/extent.c:2588-2607 | two copies of a shared table block in one transaction would lose the decrement |
| Moves.RemovedIsTheEntry | src/ext4/extent.c:2609-2641 | the name that goes is an entry of the file in the old directory |
| Moves.EmptyNamespaceIsOk | src/ext4/extent.c:2478-2491 | an empty root directory satisfies the invariant of moves |
| Moves.MoveKeepsNamespace | src/ext4/extent.c:2519-2777 | a successful move keeps a tree with names and ".." in agreement, changes no ".." but the moved one, and moves exactly one name; all indexes are still right if and only if the moved directory's, if it is hashed, survives the stamp over its root block |
| MoveExample.MoveBreaksFullIndex | src/ext4/extent.c:2693-2699 | the failing input: a moved directory whose index has 123 entries |
| Moves.MoveKeepsLinks | src/ext4/extent.c:2743-2761 | every directory's link count stays two more than its number of subdirectories, if and only if the new parent's count does not wrap |
| NamespaceOnDisk.MoveOnDisk | src/ext4/extent.c:2760-2777 | the three to five blocks of a move, once in place, hold the moved namespace, stamp included, and are a transaction the journal takes |
| NamespaceOnDisk.MoveIsAtomic | src/ext4/extent.c:2519-2777 | whichever block write of a move is the last, and however recovery is interrupted, the next mount finds the old namespace or the moved one, a tree with names and ".." in agreement |
| DirLayout.MoveWritesRecord | src/ext4/extent.c:2667-2680 | the new parent's block then holds a record with the file's inode, type 2 for a directory and 1 otherwise, and the new name, on a multiple of four if all records were |
| Mover.WalkUp | src/ext4/extent.c:2478-2495 | the walk over the bytes at offset 12 of each directory's first block is the bounded walk |
| Mover.FindOldBlock | src/ext4/extent.c:2609-2641 | block 0 of a linear directory, the first leaf with the inode in a hashed one, read through the journal |
| Mover.FindNewBlock | src/ext4/extent.c:2647-2665 | block 0 of a linear directory, the leaf of the name's hash in a hashed one |
| Mover.Check | src/ext4/extent.c:2545-2680 | the refusals in order, without a write |
| Mover.BuildMove | src/ext4/extent.c:2588-2770 | the scratch buffers hold exactly the blocks of the move, one buffer for a shared table block |
| Mover.Rename | src/ext4/extent.c:2519-2777 | a refusal, a read-only device or an unfinished journal change nothing; otherwise exactly the writes of the commit of those blocks |
| DosTime.DayNumberIsCivil | tools/tsr.c:396-431 | the code's leap rule and month table number days as a closed form of the Gregorian calendar does |
| DosTime.MonthsAreCivil | tools/tsr.c:400 | each month is followed by the next in that form |
| DosTime.DateOfRoundTrip | tools/tsr.c:412-431 | the split of a day number is a valid date with that day number |
| DosTime.YearRange | tools/tsr.c:412-434 | 32-bit times fall in 1970..2106 |
| DosTime.DosRoundTrip | tools/tsr.c:433-446 | from 1980 on, decoding gives the time rounded down to an even second |
| DosTime.DosIsMonotone | tools/tsr.c:433-446 | packed values are ordered as their times |
| DosTime.SplitYears | tools/tsr.c:412-419 | the year loop ends within 136 turns, so the 200-year guard never fires |
| DosTime.SplitMonths | tools/tsr.c:423-430 | the month index stays in the table and the day is right |
| DosTime.UnixToDos | tools/tsr.c:396-447 | the conversion computes the packed form whose round trip is proved |
| DosTime.KnownTimes | tools/tsr.c:433-446 | known values: 31 March 2024, a leap day, and a time before 1980 |
| Aliases.AliasIsFixedPoint | tools/tsr.c:540-596 | a long name's alias with four safe base characters, typed back in lower case, encodes to itself |
| Aliases.FixedPointIff | tools/tsr.c:571-577 | it does if and only if the base has four safe characters |
| Aliases.AliasResolves | tools/tsr.c:704-716 | a unique alias that is no entry's own name resolves to its entry |
| Aliases.AliasPathResolves | tools/tsr.c:680-722 | a path typed with aliases leads where the path of real names leads |
| AliasCode.LfnHash | tools/tsr.c:510-519 | the loop computes the 16-bit hash |
| Aliases.HashIgnoresCase | tools/tsr.c:510-519 | the case of letters does not matter to it |
| Aliases.OneLetterChangesSuffix | tools/tsr.c:580-585 | names that differ in exactly one letter, case aside, never share an alias suffix |
| Aliases.KnownAliases | tools/tsr.c:540-596 | known aliases: a long name with its hash, and a name that fits |
| Aliases.KnownBareAlias | tools/tsr.c:566-596 | a name whose base has no safe character gets an underscore |
| Aliases.SafeCharacters | tools/tsr.c:521-526 | the safe characters are the ASCII capitals, the digits and three signs |
| Aliases.UppersOf | tools/tsr.c:515 | conversion takes each small letter to the capital in the same place of the alphabet and leaves all other bytes |
| Aliases.FitsDosIff | tools/tsr.c:543-562 | the names that fit are those of a base of at most eight safe characters and, after a dot, at most three; their 11 bytes are both in capitals, padded |
| AliasCode.NameIs83Safe | tools/tsr.c:627-652 | true if and only if the name has at most one dot, safe characters and parts of at most 8 and 3 |
| AliasCode.To83 | tools/tsr.c:540-596 | the buffer is filled with the 11 bytes of the name, all of them |
| AliasCode.AliasLookup | tools/tsr.c:662-674 | the fallback finds the first entry other than "." and ".." with that alias |
| AliasCode.PathLookupWithAlias | tools/tsr.c:680-722 | the walk over a path string resolves its segments in order, exact names first |
| AliasCode.SplitPath | tools/tsr.c:680-722 | segments joined by any number of slashes, with any number at both ends, are split into the same segments |
| AliasCode.EveryPath | tools/tsr.c:680-722 | and every string is such a path |

## Left out

- The partition offset and sector arithmetic: blocks are addressed by number; only the 32-bit truncation of byte offsets is modelled.
- `ext4_journal_init`, superblock and feature parsing: geometry, UUID, features and the places of bitmaps and inodes are parameters.
- Commit's error -8 (tags do not fit a descriptor): eight tags always fit 1024 bytes.
- Commit's zeroing of the caller's buffer when it escapes a block: callers pass scratch buffers; the logged copy is what is modelled.
- The device codes of failed writes: a commit cut by the device returns -1 here.
- Volumes whose descriptor table spans several blocks, and uninitialised bitmaps: the code assumes the first away and derives the second from mkfs facts.
- Writing calls on blocks larger than 1024 bytes: the block-level model of the allocator and of moves is for blocks of 1024 bytes, the journal's is for all sizes it replays.
- The checksum functions of bitmaps, descriptors, inodes and directory blocks are parameters; where and over which bytes they are written is modelled.
- Error strings, directory and unused-inode counters, and rewriting a block in place (`ext4_file_write_block`).
- The caller's own copy of the inode in extension is taken to agree with the disk.
- Truncater.Truncate: requires ordered extents; what happens to uninitialised ones is stated for truncation to nothing only, in `Extents.EmptyingFrees`.
- VolumeSafety.TruncateIsStaged: speaks of one truncation from a mounted volume; a run of calls is stated on volumes, in `AllocatorRuns.RunKeepsConsistent`.
- MakeDirs.MakeDirOnDisk: the first transaction, which takes the inode, and the search for room in the parent are parameters; a fresh inode is one without size and extents.
- ExtentTree.ExtentLookup: trees are finite values, so an on-disk cycle, on which the code would not end, is not expressible.
- Moves.MoveKeepsNamespace: parents are directories and the file is an entry of the old one, as callers guarantee; each directory owns its blocks.
- The mixing rounds of the name hash and the hash-version switch: the index proofs hold for any hash.
- Same-directory rename, create, rmdir, delete as whole calls: several transactions each, or in-place name edits about which the index claims nothing.
- Locking, interrupt handling, far pointers and all other DOS plumbing.
