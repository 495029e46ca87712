/** Directories and link counts as bytes in the blocks of a volume, and a move between
    directories as one transaction of such blocks. */
module NamespaceOnDisk {
  import opened Words
  import opened Bytes
  import opened LogFormat
  import opened LogWalk
  import opened Programs
  import opened Recovery
  import opened Convergence
  import opened Commit
  import opened CrashSafety
  import opened DirSlots
  import opened HTree
  import opened Ancestry
  import opened IndexBlock
  import opened Moves
  import opened SmallBlocks
  import B = ByteFormat
  import D = DirBlock
  import J = Superblocks

  /** The blocks of a directory in logical order, and its hashed flag. */
  datatype Site = Site(blocks: seq<nat>, hashed: bool)

  /** Where a move finds things: the blocks of directories and of the inode table, and the
      slot of each inode in it. None of this changes in a move. `meta` says whether the
      volume has metadata checksums; the two functions compute them, each seeded with an
      inode number. */
  datatype Store = Store(
    dirs: map<Word, Site>, files: set<Word>, tables: set<nat>, loc: Locator, inodeSize: InodeSize,
    typed: bool, meta: bool, dirSum: (Word, seq<Byte>) -> Word, inodeSum: (Word, seq<Byte>) -> Word)

  // ---------------------------------------------------------------- link counts in table blocks

  const LINKS_AT := 0x1A

  function LinkAt(b: Bytes1024, size: InodeSize, k: nat): Word
    requires k < InodesIn(size)
  {
    SlotFits(size, k);
    Le16(b, k * size + LINKS_AT)
  }

  function LinkRow(b: Bytes1024, size: InodeSize): (r: seq<Word>)
    ensures |r| == InodesIn(size)
  {
    seq(InodesIn(size), k requires 0 <= k < InodesIn(size) => LinkAt(b, size, k))
  }

  function SetLink(b: Bytes1024, size: InodeSize, k: nat, lc: Word): (r: Bytes1024)
    requires k < InodesIn(size) && lc < 0x1_0000
  {
    SlotFits(size, k);
    Patch(b, k * size + LINKS_AT, PackLittle16(lc))
  }

  const SUM_LOW := 0x7C
  const SUM_HIGH := 0x82

  /** The inode at `off` with its 16-bit checksum; the field counts as zero. */
  function WithLowSum(s: Store, b: Bytes1024, off: nat, ino: Word): (r: Bytes1024)
    requires off + s.inodeSize <= SIZE
  {
    var sum := s.inodeSum(ino, Patch(b, off + SUM_LOW, Zeros(2))[off..off + s.inodeSize]);
    Patch(b, off + SUM_LOW, PackLittle16(sum % 0x1_0000))
  }

  /** The same for larger inodes, with both halves. */
  function WithSums(s: Store, b: Bytes1024, off: nat, ino: Word): (r: Bytes1024)
    requires off + s.inodeSize <= SIZE && s.inodeSize > 128
  {
    var zeroed := Patch(Patch(b, off + SUM_LOW, Zeros(2)), off + SUM_HIGH, Zeros(2));
    var sum := s.inodeSum(ino, zeroed[off..off + s.inodeSize]);
    Patch(Patch(b, off + SUM_LOW, PackLittle16(sum % 0x1_0000)), off + SUM_HIGH, PackLittle16(sum / 0x1_0000))
  }

  /** The last edit of an inode: its time, and on volumes with metadata checksums its
      checksum. */
  function Touch(s: Store, b: Bytes1024, k: nat, ino: Word, now: Word): (r: Bytes1024)
    requires k < InodesIn(s.inodeSize)
  {
    SlotFits(s.inodeSize, k);
    var off := k * s.inodeSize;
    var b1 := Patch(b, off + 0x10, PackLittle(now));
    if !s.meta then b1 else if s.inodeSize == 128 then WithLowSum(s, b1, off, ino) else WithSums(s, b1, off, ino)
  }

  /** A field of another slot, or beside the link count, leaves the counts alone. */
  lemma PatchKeepsLinks(b: Bytes1024, size: InodeSize, k: nat, at: nat, f: seq<Byte>)
    requires k < InodesIn(size) && at + |f| <= size && (at + |f| <= LINKS_AT || at >= LINKS_AT + 2)
    ensures k * size + at + |f| <= SIZE
    ensures LinkRow(Patch(b, k * size + at, f), size) == LinkRow(b, size)
  {
    SlotFits(size, k);
    var b': Bytes1024 := Patch(b, k * size + at, f);
    forall j | 0 <= j < InodesIn(size) ensures LinkAt(b', size, j) == LinkAt(b, size, j) {
      SlotFits(size, j);
      if j < k { SlotsApart(size, j, k); } else if k < j { SlotsApart(size, k, j); }
    }
  }

  lemma SetLinkSets(b: Bytes1024, size: InodeSize, k: nat, lc: Word)
    requires k < InodesIn(size) && lc < 0x1_0000
    ensures LinkRow(SetLink(b, size, k, lc), size) == LinkRow(b, size)[k := lc]
  {
    SlotFits(size, k);
    var b' := SetLink(b, size, k, lc);
    forall j | 0 <= j < InodesIn(size) ensures LinkAt(b', size, j) == if j == k then lc else LinkAt(b, size, j) {
      SlotFits(size, j);
      if j < k {
        SlotsApart(size, j, k);
      } else if k < j {
        SlotsApart(size, k, j);
      } else {
        LittleRoundTrip16(b', k * size + LINKS_AT, lc);
      }
    }
  }

  lemma SumKeepsLinks(b: Bytes1024, size: InodeSize, k: nat, f: seq<Byte>, g: seq<Byte>)
    requires k < InodesIn(size) && |f| == 2 && |g| == 2
    ensures k * size + size <= SIZE
    ensures LinkRow(Patch(b, k * size + SUM_LOW, f), size) == LinkRow(b, size)
    ensures size > 128 ==> LinkRow(Patch(Patch(b, k * size + SUM_LOW, f), k * size + SUM_HIGH, g), size) == LinkRow(b, size)
  {
    hide LinkRow;
    SlotFits(size, k);
    PatchKeepsLinks(b, size, k, SUM_LOW, f);
    if size > 128 {
      PatchKeepsLinks(Patch(b, k * size + SUM_LOW, f), size, k, SUM_HIGH, g);
    }
  }

  lemma TouchKeepsLinks(s: Store, b: Bytes1024, k: nat, ino: Word, now: Word)
    requires k < InodesIn(s.inodeSize)
    ensures LinkRow(Touch(s, b, k, ino, now), s.inodeSize) == LinkRow(b, s.inodeSize)
  {
    hide LinkRow, PackLittle, PackLittle16, Patch;
    var size := s.inodeSize;
    SlotFits(size, k);
    var off := k * size;
    PatchKeepsLinks(b, size, k, 0x10, PackLittle(now));
    var b1: Bytes1024 := Patch(b, off + 0x10, PackLittle(now));
    forall f: seq<Byte>, g: seq<Byte> | |f| == 2 && |g| == 2
      ensures LinkRow(Patch(b1, off + SUM_LOW, f), size) == LinkRow(b1, size)
      ensures size > 128 ==> LinkRow(Patch(Patch(b1, off + SUM_LOW, f), off + SUM_HIGH, g), size) == LinkRow(b1, size)
    {
      SumKeepsLinks(b1, size, k, f, g);
    }
  }

  // ---------------------------------------------------------------- directories in blocks

  predicate Placed1024(p: Site, d: Volume1024) {
    forall i :: 0 <= i < |p.blocks| ==> p.blocks[i] < |d| && |d[p.blocks[i]]| == SIZE
  }

  /** A directory as its blocks hold it. */
  function DirAt(p: Site, d: Volume1024): (r: Directory)
    requires Placed1024(p, d)
    ensures |r.blocks| == |p.blocks|
  {
    Directory(seq(|p.blocks|, i requires 0 <= i < |p.blocks| => D.Parse(d[p.blocks[i]], 0)),
              if p.hashed && p.blocks != [] && HasIndex(d[p.blocks[0]]) then Some(IndexOf(d[p.blocks[0]])) else None)
  }

  predicate Readable(s: Store, d: Volume1024) {
    && (forall q :: q in s.dirs ==> Placed1024(s.dirs[q], d))
    && (forall t :: t in s.tables ==> t < |d| && |d[t]| == SIZE)
  }

  /** The volume that the blocks hold. */
  function Namespace(s: Store, d: Volume1024): (v: Volume)
    requires Readable(s, d)
    ensures v.dirs.Keys == s.dirs.Keys && v.files == s.files && v.tables.Keys == s.tables
  {
    Volume(map q | q in s.dirs :: DirAt(s.dirs[q], d), s.files, map t | t in s.tables :: LinkRow(d[t], s.inodeSize))
  }

  /** In the root block of a hashed directory ".." covers the index. */
  predicate CoversIndex(b: Slots) {
    b.Slot? && b.rest.Slot? && b.rest.rec == SIZE - 12 && b.rest.rest.End?
  }

  /** Block `i` of a directory: tiled, with the dots in block 0; ending in a checksum tail on
      volumes that have them, but for the root block of a hashed directory, which holds the
      index. */
  ghost predicate BlockOk(s: Store, self: Word, i: nat, b: seq<Byte>) {
    && |b| == SIZE && D.Tiled(b)
    && (i == 0 ==> Dotted(D.Parse(b, 0), self))
    && (self in s.dirs && s.dirs[self].hashed && i == 0 ==> HasIndex(b) && CoversIndex(D.Parse(b, 0)))
    && (s.meta && !(self in s.dirs && s.dirs[self].hashed && i == 0) ==> EndsInTail(D.Parse(b, 0)))
  }

  ghost predicate ContentOk(s: Store, d: Volume1024) {
    && Readable(s, d)
    && forall q, i :: q in s.dirs && 0 <= i < |s.dirs[q].blocks| ==> BlockOk(s, q, i, d[s.dirs[q].blocks[i]])
  }

  ghost predicate OwnBlocks(s: Store) {
    forall p, i, q, j ::
      (p in s.dirs && q in s.dirs && 0 <= i < |s.dirs[p].blocks| && 0 <= j < |s.dirs[q].blocks|
       && s.dirs[p].blocks[i] == s.dirs[q].blocks[j]) ==> p == q && i == j
  }

  predicate Journaled(geo: Geometry, n: nat) {
    n < 0x1_0000_0000 && n != geo.sbBlock
  }

  /** Directory blocks and inode-table blocks are all different, lie outside the journal and
      the superblock, and have 32-bit numbers. */
  ghost predicate StoreOk(s: Store, geo: Geometry, size: nat) {
    && OwnBlocks(s) && OwnSlots(s.loc)
    && (forall q, i :: q in s.dirs && 0 <= i < |s.dirs[q].blocks| ==>
          Home(geo, size, s.dirs[q].blocks[i]) && Journaled(geo, s.dirs[q].blocks[i]) && s.dirs[q].blocks[i] !in s.tables)
    && (forall t :: t in s.tables ==> Home(geo, size, t) && Journaled(geo, t))
    && (forall q :: q in s.dirs ==> s.loc(q).0 in s.tables && s.loc(q).1 < InodesIn(s.inodeSize))
  }

  // ---------------------------------------------------------------- the edited blocks

  function Csum(s: Store, dir: Word): D.Block -> Word {
    (b: D.Block) => s.dirSum(dir, b)
  }

  /** Block bytes without the first entry of an inode. */
  function Without(s: Store, dir: Word, b: Bytes1024, file: Word): (r: Option<Bytes1024>) {
    D.FoundIsRecord(b, 0, None, file);
    match D.FindInode(b, 0, None, file)
    case None => None
    case Some((at, prev)) => Some(D.Stamped(D.Removed(b, at, prev), s.meta, Csum(s, dir)))
  }

  /** Block bytes with a new entry where the first record has room. */
  function With(s: Store, dir: Word, b: Bytes1024, ino: Word, kind: Byte, name: ShortName): (r: Option<Bytes1024>) {
    match D.SpaceAt(b, 0, RoundUp4(8 + |name|))
    case None => None
    case Some(p) => Some(D.Stamped(D.Inserted(b, p, ino, kind, name), s.meta, Csum(s, dir)))
  }

  /** The first block of a moved directory. */
  function Reparented(s: Store, dir: Word, b: Bytes1024, parent: Word): Bytes1024 {
    D.Stamped(Patch(b, 12, PackLittle(parent)), s.meta, Csum(s, dir))
  }

  /** The checksum stamped into that block, if any. */
  function StampOf(s: Store, dir: Word, b: Bytes1024, parent: Word): Option<Word> {
    if s.meta then Some(s.dirSum(dir, D.WithTail(Patch(b, 12, PackLittle(parent)), 0))) else None
  }

  lemma WithoutIsRemove(s: Store, dir: Word, i: nat, b: Bytes1024, file: Word)
    requires BlockOk(s, dir, i, b) && file != 0 && !(dir in s.dirs && s.dirs[dir].hashed && i == 0)
    requires i == 0 ==> file != dir && file != Up(D.Parse(b, 0))
    ensures match Without(s, dir, b, file)
            case None => Remove(D.Parse(b, 0), file) == None
            case Some(b') => Remove(D.Parse(b, 0), file) == Some(D.Parse(b', 0)) && BlockOk(s, dir, i, b')
  {
    hide D.Parse, D.FindInode, D.Removed, D.Stamped, WellFormed, EndsInTail, Remove, Dotted, Up, Total, CoversIndex, HasIndex;
    D.RemoveFromBlock(b, file);
    if D.FindInode(b, 0, None, file).Some? {
      var (at, prev) := D.FindInode(b, 0, None, file).value;
      D.FoundIsRecord(b, 0, None, file);
      var edited := D.Removed(b, at, prev);
      RemoveKeepsTiling(D.Parse(b, 0), file);
      if s.meta { RemoveKeepsTail(D.Parse(b, 0), file); }
      if i == 0 { RemoveKeepsDots(D.Parse(b, 0), dir, file); }
      D.StampKeepsRecords(edited, s.meta, Csum(s, dir));
    }
  }

  lemma WithIsInsert(s: Store, dir: Word, i: nat, b: Bytes1024, ino: Word, kind: Byte, name: ShortName)
    requires BlockOk(s, dir, i, b) && Writable(ino, kind, name) && !(dir in s.dirs && s.dirs[dir].hashed && i == 0)
    ensures match With(s, dir, b, ino, kind, name)
            case None => Insert(D.Parse(b, 0), ino, kind, name) == None
            case Some(b') => Insert(D.Parse(b, 0), ino, kind, name) == Some(D.Parse(b', 0)) && BlockOk(s, dir, i, b')
  {
    hide D.Parse, D.SpaceAt, D.Inserted, D.Stamped, WellFormed, EndsInTail, Insert, Dotted, Total, CoversIndex, HasIndex, RoundUp4;
    D.InsertFrom(b, 0, ino, kind, name);
    if D.SpaceAt(b, 0, RoundUp4(8 + |name|)).Some? {
      var edited := D.Inserted(b, D.SpaceAt(b, 0, RoundUp4(8 + |name|)).value, ino, kind, name);
      InsertKeepsTiling(D.Parse(b, 0), ino, kind, name);
      if s.meta { InsertKeepsTail(D.Parse(b, 0), ino, kind, name); }
      if i == 0 { InsertKeepsDots(D.Parse(b, 0), dir, ino, kind, name); }
      D.StampKeepsRecords(edited, s.meta, Csum(s, dir));
    }
  }

  lemma SetUpKeepsShape(b: Slots, self: Word, parent: Word)
    requires Dotted(b, self) && WellFormed(b) && parent != 0
    ensures var b' := SetUp(b, parent);
            && WellFormed(b') && Total(b') == Total(b) && Dotted(b', self) && Up(b') == parent
            && (EndsInTail(b) ==> EndsInTail(b')) && (CoversIndex(b) ==> CoversIndex(b'))
  {
    if EndsInTail(b) {
      assert EndsInTail(b.rest) && EndsInTail(b.rest.rest);
      assert EndsInTail(SetUp(b, parent).rest);
    }
  }

  /** What the bytes of a hashed directory's root block say about its second record. */
  lemma RootRecord(b: Bytes1024, self: Word)
    requires Dotted(D.Parse(b, 0), self) && CoversIndex(D.Parse(b, 0))
    ensures D.Header(b, 0) && Le16(b, 4) == 12 && D.Header(b, 12)
    ensures Le16(b, 16) == SIZE - 12 && Le32(b, 12) != 0 && b[18] == 2
  {
    hide Join;
    D.Unfold(b, 0);
    D.Unfold(b, 12);
  }

  lemma SameRootRecord(b: Bytes1024, b': Bytes1024)
    requires D.Header(b, 12) && Le16(b, 16) == SIZE - 12 && Le32(b, 12) != 0 && b[18] == 2
    requires forall i :: 12 <= i < 22 ==> b'[i] == b[i]
    ensures D.Header(b', 12) && Le16(b', 16) == SIZE - 12 && D.At(b', 12, Slots.End) == D.At(b, 12, Slots.End)
  {
    hide Join;
    assert b[20..22] == b'[20..22];
  }

  lemma NothingPastBlock(b: Bytes1024)
    ensures D.Parse(b, SIZE) == Slots.End
  {
  }

  /** A tail stamped into a root block lies under the record of "..", so no record changes. */
  lemma RootTailKeepsRecords(b: Bytes1024, self: Word, sum: Word)
    requires Dotted(D.Parse(b, 0), self) && CoversIndex(D.Parse(b, 0))
    ensures D.Parse(D.WithTail(b, sum), 0) == D.Parse(b, 0)
  {
    hide D.Parse, D.WithTail, Dotted, Le16, Le32, D.At, CoversIndex;
    var b': Bytes1024 := D.WithTail(b, sum);
    RootRecord(b, self);
    D.WithTailFront(b, sum, 0, SIZE - 12);
    SameRootRecord(b, b');
    NothingPastBlock(b);
    NothingPastBlock(b');
    D.Unfold(b, 12);
    D.Unfold(b', 12);
    D.PrefixAndRest(b, b', 0);
  }

  /** The edit of a moved directory's first block is what the model says: ".." names the new
      parent, every other record is as it was, and the index is as the stamp leaves it. */
  lemma ReparentedIsSetUp(s: Store, dir: Word, b: Bytes1024, parent: Word)
    requires BlockOk(s, dir, 0, b) && dir in s.dirs && parent != 0
    ensures var b' := Reparented(s, dir, b, parent);
            && BlockOk(s, dir, 0, b') && D.Parse(b', 0) == SetUp(D.Parse(b, 0), parent)
            && (s.dirs[dir].hashed ==>
                  IndexOf(b') == match StampOf(s, dir, b, parent) case None => IndexOf(b) case Some(sum) => Stamp(IndexOf(b), sum))
  {
    hide D.Parse, D.WithTail, Dotted, Up, WellFormed, EndsInTail, Total, CoversIndex, Stamp, IndexOf, HasIndex, PackLittle, Patch, SetUp;
    var b1: Bytes1024 := Patch(b, 12, PackLittle(parent));
    D.UpIsWritten(b, dir, parent);
    SetUpKeepsShape(D.Parse(b, 0), dir, parent);
    if s.dirs[dir].hashed {
      UpKeepsIndex(b, parent);
      if s.meta {
        var sum := s.dirSum(dir, D.WithTail(b1, 0));
        RootTailKeepsRecords(b1, dir, sum);
        TailStampsIndex(b1, sum);
      }
    } else {
      D.StampKeepsRecords(b1, s.meta, Csum(s, dir));
    }
  }

  // ---------------------------------------------------------------- the transaction

  /** Block `i` of the old directory and block `j` of the new one exist, and so do the parents'
      inodes and the first block of a moved directory. */
  predicate Sited(s: Store, d: Volume1024, from: Word, i: nat, file: Word, to: Word, j: nat) {
    && Readable(s, d)
    && from in s.dirs && i < |s.dirs[from].blocks| && to in s.dirs && j < |s.dirs[to].blocks|
    && s.loc(from).0 in s.tables && s.loc(from).1 < InodesIn(s.inodeSize)
    && s.loc(to).0 in s.tables && s.loc(to).1 < InodesIn(s.inodeSize)
    && (file in s.dirs ==> s.dirs[file].blocks != [])
  }

  function OldBytes(s: Store, d: Volume1024, from: Word, i: nat, file: Word): Bytes1024
    requires Readable(s, d) && from in s.dirs && i < |s.dirs[from].blocks|
  {
    var b := d[s.dirs[from].blocks[i]];
    match Without(s, from, b, file) case None => b case Some(b') => b'
  }

  function NewBytes(s: Store, d: Volume1024, to: Word, j: nat, file: Word, kind: Byte, name: ShortName): Bytes1024
    requires Readable(s, d) && to in s.dirs && j < |s.dirs[to].blocks|
  {
    var b := d[s.dirs[to].blocks[j]];
    match With(s, to, b, file, kind, name) case None => b case Some(b') => b'
  }

  function MovedBytes(s: Store, d: Volume1024, file: Word, to: Word): Bytes1024
    requires Readable(s, d) && file in s.dirs && s.dirs[file].blocks != []
  {
    Reparented(s, file, d[s.dirs[file].blocks[0]], to)
  }

  /** An inode edited in its table block: the new link count, for directories, then time and
      checksum. */
  function InodeEdit(s: Store, b: Bytes1024, ino: Word, isDir: bool, lc: Word, now: Word): Bytes1024
    requires s.loc(ino).1 < InodesIn(s.inodeSize) && lc < 0x1_0000
  {
    Touch(s, if isDir then SetLink(b, s.inodeSize, s.loc(ino).1, lc) else b, s.loc(ino).1, ino, now)
  }

  function FromTable(s: Store, d: Volume1024, from: Word, isDir: bool, now: Word): Bytes1024
    requires Readable(s, d) && s.loc(from).0 in s.tables && s.loc(from).1 < InodesIn(s.inodeSize)
  {
    var b := d[s.loc(from).0];
    InodeEdit(s, b, from, isDir, OneLess(LinkAt(b, s.inodeSize, s.loc(from).1)), now)
  }

  /** The new parent's table block: the buffer of the old parent's when it is the same block. */
  function ToTable(s: Store, d: Volume1024, from: Word, to: Word, isDir: bool, now: Word): Bytes1024
    requires Readable(s, d) && s.loc(from).0 in s.tables && s.loc(from).1 < InodesIn(s.inodeSize)
    requires s.loc(to).0 in s.tables && s.loc(to).1 < InodesIn(s.inodeSize)
  {
    var b := if s.loc(from).0 == s.loc(to).0 then FromTable(s, d, from, isDir, now) else d[s.loc(to).0];
    InodeEdit(s, b, to, isDir, OneMore(LinkAt(b, s.inodeSize, s.loc(to).1)), now)
  }

  /** The blocks of the transaction in order: three to five of them. */
  function MoveTx(s: Store, d: Volume1024, from: Word, i: nat, file: Word, to: Word, j: nat, kind: Byte, name: ShortName,
                  now: Word): Tx<B.Block>
    requires Sited(s, d, from, i, file, to, j)
  {
    var isDir := file in s.dirs;
    var shared := s.loc(from).0 == s.loc(to).0;
    [BlockWrite(s.dirs[from].blocks[i], OldBytes(s, d, from, i, file)),
     BlockWrite(s.dirs[to].blocks[j], NewBytes(s, d, to, j, file, kind, name))]
    + (if shared then [BlockWrite(s.loc(from).0, ToTable(s, d, from, to, isDir, now))]
       else [BlockWrite(s.loc(from).0, FromTable(s, d, from, isDir, now)), BlockWrite(s.loc(to).0, ToTable(s, d, from, to, isDir, now))])
    + (if isDir then [BlockWrite(s.dirs[file].blocks[0], MovedBytes(s, d, file, to))] else [])
  }

  /** What is in block `n` afterwards. */
  function NewContent(s: Store, d: Volume1024, from: Word, i: nat, file: Word, to: Word, j: nat, kind: Byte, name: ShortName,
                      now: Word, n: nat): B.Block
    requires Sited(s, d, from, i, file, to, j) && n < |d|
  {
    var isDir := file in s.dirs;
    if n == s.dirs[from].blocks[i] then OldBytes(s, d, from, i, file)
    else if n == s.dirs[to].blocks[j] then NewBytes(s, d, to, j, file, kind, name)
    else if n == s.loc(to).0 then ToTable(s, d, from, to, isDir, now)
    else if n == s.loc(from).0 then FromTable(s, d, from, isDir, now)
    else if isDir && n == s.dirs[file].blocks[0] then MovedBytes(s, d, file, to)
    else d[n]
  }

  /** The transaction is one that the journal takes. */
  lemma MoveTxIsValid(s: Store, geo: Geometry, d: Volume1024, from: Word, i: nat, file: Word, to: Word, j: nat,
                      kind: Byte, name: ShortName, now: Word)
    requires Sited(s, d, from, i, file, to, j) && StoreOk(s, geo, |d|) && from != to && file != from && file != to
    ensures var tx := MoveTx(s, d, from, i, file, to, j, kind, name, now);
            && 3 <= |tx| <= 5 && DistinctHomes(tx) && FitsDescriptor(tx)
            && forall k :: 0 <= k < |tx| ==> Home(geo, |d|, tx[k].home) && tx[k].home != geo.sbBlock
  {
    hide OldBytes, NewBytes, MovedBytes, FromTable, ToTable, Home, OwnSlots;
    OwnBlock(s, from, i, to, j);
    if file in s.dirs {
      OwnBlock(s, from, i, file, 0);
      OwnBlock(s, to, j, file, 0);
    }
  }

  lemma OwnBlock(s: Store, p: Word, i: nat, q: Word, j: nat)
    requires OwnBlocks(s) && p in s.dirs && i < |s.dirs[p].blocks| && q in s.dirs && j < |s.dirs[q].blocks|
    ensures s.dirs[p].blocks[i] == s.dirs[q].blocks[j] ==> p == q && i == j
  {
  }

  lemma MoveTxContents(s: Store, geo: Geometry, d: Volume1024, from: Word, i: nat, file: Word, to: Word, j: nat,
                       kind: Byte, name: ShortName, now: Word, n: nat)
    requires Sited(s, d, from, i, file, to, j) && StoreOk(s, geo, |d|) && from != to && file != from && file != to && n < |d|
    ensures After(MoveTx(s, d, from, i, file, to, j, kind, name, now), d)[n] ==
            NewContent(s, d, from, i, file, to, j, kind, name, now, n)
  {
    hide OldBytes, NewBytes, MovedBytes, FromTable, ToTable, StoreOk, Readable, DistinctHomes, Applied;
    var tx := MoveTx(s, d, from, i, file, to, j, kind, name, now);
    MoveTxIsValid(s, geo, d, from, i, file, to, j, kind, name, now);
    var shared := s.loc(from).0 == s.loc(to).0;
    assert tx[0].home == s.dirs[from].blocks[i] && tx[1].home == s.dirs[to].blocks[j] && tx[2].home == s.loc(from).0;
    assert !shared ==> tx[3].home == s.loc(to).0;
    assert file in s.dirs ==> tx[|tx| - 1].home == s.dirs[file].blocks[0];
    if n == tx[0].home {
      AppliedInList(tx, n, d[n], 0);
    } else if n == tx[1].home {
      AppliedInList(tx, n, d[n], 1);
    } else if n == s.loc(to).0 {
      AppliedInList(tx, n, d[n], if shared then 2 else 3);
    } else if n == tx[2].home {
      AppliedInList(tx, n, d[n], 2);
    } else if file in s.dirs && n == s.dirs[file].blocks[0] {
      AppliedInList(tx, n, d[n], |tx| - 1);
    } else {
      AppliedElsewhere(tx, n, d[n]);
    }
  }

  // ---------------------------------------------------------------- what the blocks then hold

  /** A block of a directory that holds entries: any but the root block of a hashed one. */
  predicate HoldsEntries(s: Store, q: Word, i: nat) {
    !(q in s.dirs && s.dirs[q].hashed && i == 0)
  }

  /** What a move needs of the volume: the old entry is there, there is room for the new one,
      and no directory is its own child or grandchild. */
  ghost predicate Movable(s: Store, geo: Geometry, d: Volume1024, from: Word, i: nat, file: Word, to: Word, j: nat,
                          kind: Byte, name: ShortName) {
    && StoreOk(s, geo, |d|) && ContentOk(s, d) && Sited(s, d, from, i, file, to, j)
    && from != to && file != from && file != to && file != 0 && to != 0 && Writable(file, kind, name)
    && HoldsEntries(s, from, i) && HoldsEntries(s, to, j)
    && (i == 0 ==> file != Up(D.Parse(d[s.dirs[from].blocks[0]], 0)))
    && Without(s, from, d[s.dirs[from].blocks[i]], file).Some?
    && With(s, to, d[s.dirs[to].blocks[j]], file, kind, name).Some?
  }

  lemma DirBlockAfter(s: Store, geo: Geometry, d: Volume1024, from: Word, i: nat, file: Word, to: Word, j: nat,
                      kind: Byte, name: ShortName, now: Word, q: Word, m: nat)
    requires Movable(s, geo, d, from, i, file, to, j, kind, name) && q in s.dirs && m < |s.dirs[q].blocks|
    ensures var n := s.dirs[q].blocks[m];
            && n < |d| && BlockOk(s, q, m, d[n])
            && After(MoveTx(s, d, from, i, file, to, j, kind, name, now), d)[n] ==
               if q == from && m == i then OldBytes(s, d, from, i, file)
               else if q == to && m == j then NewBytes(s, d, to, j, file, kind, name)
               else if q == file && m == 0 then MovedBytes(s, d, file, to)
               else d[n]
  {
    hide OldBytes, NewBytes, MovedBytes, FromTable, ToTable, MoveTx, Without, With, BlockOk, Writable, OwnBlocks, OwnSlots, Home,
         HoldsEntries, Journaled;
    var n := s.dirs[q].blocks[m];
    assert n !in s.tables;
    MoveTxContents(s, geo, d, from, i, file, to, j, kind, name, now, n);
    OwnBlock(s, q, m, from, i);
    OwnBlock(s, q, m, to, j);
    if file in s.dirs { OwnBlock(s, q, m, file, 0); }
  }

  /** What each block of a directory parses as afterwards. */
  lemma DirBlockParses(s: Store, geo: Geometry, d: Volume1024, from: Word, i: nat, file: Word, to: Word, j: nat,
                       kind: Byte, name: ShortName, now: Word, q: Word, m: nat)
    requires Movable(s, geo, d, from, i, file, to, j, kind, name) && q in s.dirs && m < |s.dirs[q].blocks|
    ensures var n := s.dirs[q].blocks[m];
            var b, b' := d[n], After(MoveTx(s, d, from, i, file, to, j, kind, name, now), d)[n];
            && |b| == SIZE && BlockOk(s, q, m, b')
            && (q == from && m == i ==> Remove(D.Parse(b, 0), file) == Some(D.Parse(b', 0)))
            && (q == to && m == j ==> Insert(D.Parse(b, 0), file, kind, name) == Some(D.Parse(b', 0)))
            && (q == file && m == 0 ==> D.Parse(b', 0) == SetUp(D.Parse(b, 0), to))
            && (!(q == from && m == i) && !(q == to && m == j) && !(q == file && m == 0) ==> b' == b)
            && (s.dirs[q].hashed && m == 0 ==>
                  && HasIndex(b) && HasIndex(b')
                  && IndexOf(b') == if q == file && s.meta then Stamp(IndexOf(b), StampOf(s, file, b, to).value) else IndexOf(b))
  {
    DirBlockAfter(s, geo, d, from, i, file, to, j, kind, name, now, q, m);
    var n := s.dirs[q].blocks[m];
    var b := d[n];
    assert BlockOk(s, q, m, b) && |b| == SIZE;
    hide MoveTx, After, StoreOk, ContentOk, Remove, Insert, SetUp, D.Parse, IndexOf, HasIndex, Stamp, Without, With, Up, Readable;
    if q == from && m == i {
      WithoutIsRemove(s, from, i, b, file);
    } else if q == to && m == j {
      WithIsInsert(s, to, j, b, file, kind, name);
    } else if q == file && m == 0 {
      ReparentedIsSetUp(s, file, b, to);
    }
  }

  /** The directories afterwards. */
  lemma DirsAfter(s: Store, geo: Geometry, d: Volume1024, from: Word, i: nat, file: Word, to: Word, j: nat,
                  kind: Byte, name: ShortName, now: Word, q: Word)
    requires Movable(s, geo, d, from, i, file, to, j, kind, name) && q in s.dirs
    ensures var d' := After(MoveTx(s, d, from, i, file, to, j, kind, name, now), d);
            && Placed1024(s.dirs[q], d) && Placed1024(s.dirs[q], d')
            && (forall m :: 0 <= m < |s.dirs[q].blocks| ==> BlockOk(s, q, m, d'[s.dirs[q].blocks[m]]))
            && var was, now' := DirAt(s.dirs[q], d), DirAt(s.dirs[q], d');
            && (q == from ==> Remove(was.blocks[i], file).Some? && now' == was.(blocks := was.blocks[i := Remove(was.blocks[i], file).value]))
            && (q == to ==> Insert(was.blocks[j], file, kind, name).Some?
                            && now' == was.(blocks := was.blocks[j := Insert(was.blocks[j], file, kind, name).value]))
            && (q == file ==> was.blocks != [] && now' == WithUp(was, to, StampOf(s, file, d[s.dirs[file].blocks[0]], to)))
            && (q != from && q != to && q != file ==> now' == was)
  {
    hide MoveTx, After, StoreOk, Remove, Insert, SetUp, D.Parse, IndexOf, HasIndex, Stamp, Without, With, Up, BlockOk, Writable;
    var p := s.dirs[q];
    var d' := After(MoveTx(s, d, from, i, file, to, j, kind, name, now), d);
    forall m | 0 <= m < |p.blocks|
      ensures BlockOk(s, q, m, d'[p.blocks[m]]) && |d'[p.blocks[m]]| == SIZE
      ensures !(q == from && m == i) && !(q == to && m == j) && !(q == file && m == 0) ==> d'[p.blocks[m]] == d[p.blocks[m]]
    {
      DirBlockParses(s, geo, d, from, i, file, to, j, kind, name, now, q, m);
      BlockSize(s, q, m, d'[p.blocks[m]]);
    }
    if q == from { DirBlockParses(s, geo, d, from, i, file, to, j, kind, name, now, q, i); }
    if q == to { DirBlockParses(s, geo, d, from, i, file, to, j, kind, name, now, q, j); }
    if p.blocks != [] { DirBlockParses(s, geo, d, from, i, file, to, j, kind, name, now, q, 0); }
  }

  lemma BlockSize(s: Store, q: Word, m: nat, b: seq<Byte>)
    requires BlockOk(s, q, m, b)
    ensures |b| == SIZE
  {
  }

  lemma InodeEditRow(s: Store, b: Bytes1024, ino: Word, isDir: bool, lc: Word, now: Word)
    requires s.loc(ino).1 < InodesIn(s.inodeSize) && lc < 0x1_0000
    ensures LinkRow(InodeEdit(s, b, ino, isDir, lc, now), s.inodeSize) ==
            if isDir then LinkRow(b, s.inodeSize)[s.loc(ino).1 := lc] else LinkRow(b, s.inodeSize)
  {
    hide LinkRow, Touch, SetLink;
    var k := s.loc(ino).1;
    if isDir {
      SetLinkSets(b, s.inodeSize, k, lc);
      TouchKeepsLinks(s, SetLink(b, s.inodeSize, k, lc), k, ino, now);
    } else {
      TouchKeepsLinks(s, b, k, ino, now);
    }
  }

  lemma RowAt(b: Bytes1024, size: InodeSize, k: nat)
    requires k < InodesIn(size)
    ensures LinkRow(b, size)[k] == LinkAt(b, size, k) < 0x1_0000
  {
  }

  function FromRow(loc: Locator, tables: map<nat, seq<Word>>, from: Word): seq<Word>
    requires Located(loc, tables, from)
  {
    var row := tables[loc(from).0];
    row[loc(from).1 := OneLess(row[loc(from).1])]
  }

  function ToRow(loc: Locator, tables: map<nat, seq<Word>>, from: Word, to: Word): seq<Word>
    requires Located(loc, tables, from) && Located(loc, tables, to)
  {
    var row := if loc(from).0 == loc(to).0 then FromRow(loc, tables, from) else tables[loc(to).0];
    row[loc(to).1 := OneMore(row[loc(to).1])]
  }

  /** The rows of relinked tables. */
  lemma RelinkedRows(loc: Locator, tables: map<nat, seq<Word>>, from: Word, to: Word)
    requires Located(loc, tables, from) && Located(loc, tables, to)
    ensures Relinked(loc, tables, from, to).Keys == tables.Keys
    ensures forall t :: t in tables ==>
              Relinked(loc, tables, from, to)[t] ==
              if t == loc(to).0 then ToRow(loc, tables, from, to)
              else if t == loc(from).0 then FromRow(loc, tables, from) else tables[t]
  {
  }

  lemma EditedRows(s: Store, d: Volume1024, from: Word, to: Word, isDir: bool, now: Word)
    requires Readable(s, d) && s.loc(from).0 in s.tables && s.loc(from).1 < InodesIn(s.inodeSize)
    requires s.loc(to).0 in s.tables && s.loc(to).1 < InodesIn(s.inodeSize)
    ensures var tables := Namespace(s, d).tables;
            && Located(s.loc, tables, from) && Located(s.loc, tables, to)
            && LinkRow(FromTable(s, d, from, isDir, now), s.inodeSize) ==
               (if isDir then FromRow(s.loc, tables, from) else tables[s.loc(from).0])
            && LinkRow(ToTable(s, d, from, to, isDir, now), s.inodeSize) ==
               (if isDir then ToRow(s.loc, tables, from, to) else tables[s.loc(to).0])
  {
    hide LinkRow, InodeEdit, DirAt;
    var size, a, b := s.inodeSize, s.loc(from), s.loc(to);
    RowAt(d[a.0], size, a.1);
    InodeEditRow(s, d[a.0], from, isDir, OneLess(LinkAt(d[a.0], size, a.1)), now);
    var base: Bytes1024 := if a.0 == b.0 then FromTable(s, d, from, isDir, now) else d[b.0];
    RowAt(base, size, b.1);
    InodeEditRow(s, base, to, isDir, OneMore(LinkAt(base, size, b.1)), now);
  }

  /** The link counts afterwards, also when both inodes share a table block. */
  lemma TablesAfter(s: Store, geo: Geometry, d: Volume1024, from: Word, i: nat, file: Word, to: Word, j: nat,
                    kind: Byte, name: ShortName, now: Word, t: nat)
    requires Movable(s, geo, d, from, i, file, to, j, kind, name) && t in s.tables
    ensures var d' := After(MoveTx(s, d, from, i, file, to, j, kind, name, now), d);
            var tables := Namespace(s, d).tables;
            && t < |d| && |d'[t]| == SIZE
            && Located(s.loc, tables, from) && Located(s.loc, tables, to)
            && LinkRow(d'[t], s.inodeSize) == (if file in s.dirs then Relinked(s.loc, tables, from, to)[t] else tables[t])
  {
    hide OldBytes, NewBytes, MovedBytes, MoveTx, After, LinkRow, FromTable, ToTable, Without, With, BlockOk, Writable, DirAt,
         Relinked, FromRow, ToRow, OwnSlots, OwnBlocks, Home, HoldsEntries;
    MoveTxContents(s, geo, d, from, i, file, to, j, kind, name, now, t);
    EditedRows(s, d, from, to, file in s.dirs, now);
    RelinkedRows(s.loc, Namespace(s, d).tables, from, to);
    NotADirBlock(s, geo, |d|, t, from, i);
    NotADirBlock(s, geo, |d|, t, to, j);
    if file in s.dirs { NotADirBlock(s, geo, |d|, t, file, 0); }
  }

  lemma NotADirBlock(s: Store, geo: Geometry, size: nat, t: nat, q: Word, i: nat)
    requires StoreOk(s, geo, size) && t in s.tables && q in s.dirs && i < |s.dirs[q].blocks|
    ensures s.dirs[q].blocks[i] != t
  {
  }

  // ---------------------------------------------------------------- the move on disk

  /** What a caller provides: a volume laid out as this module expects, an entry that is
      neither "." nor "..", and a new parent whose index, if any, points at leaves. */
  ghost predicate MoveReady(s: Store, geo: Geometry, d: Volume1024, from: Word, file: Word, to: Word) {
    && StoreOk(s, geo, |d|) && ContentOk(s, d) && geo.first + 7 <= geo.maxlen
    && from in s.dirs && to in s.dirs && file != from
    && (s.dirs[from].blocks != [] ==> file != Up(D.Parse(d[s.dirs[from].blocks[0]], 0)))
    && (DirAt(s.dirs[to], d).index.Some? ==> PointsAtLeaves(DirAt(s.dirs[to], d).index.value))
  }

  /** Where the old entry stands and where the new one goes. */
  function OldAt(s: Store, d: Volume1024, from: Word, file: Word): nat
    requires Readable(s, d) && from in s.dirs
  {
    var r := FindOld(DirAt(s.dirs[from], d), file);
    if r.Some? then r.value else 0
  }

  function NewAt(hash: Hash, s: Store, d: Volume1024, to: Word, name: ShortName): nat
    requires Readable(s, d) && to in s.dirs
  {
    Place(hash, DirAt(s.dirs[to], d), name)
  }

  function KindOf(s: Store, file: Word): Byte {
    if !s.typed then 0 else if file in s.dirs then FT_DIR else FT_REGULAR
  }

  lemma IndexOfHashed(s: Store, d: Volume1024, q: Word)
    requires ContentOk(s, d) && q in s.dirs && s.dirs[q].blocks != []
    ensures DirAt(s.dirs[q], d).index.Some? <==> s.dirs[q].hashed
    ensures q != 0
  {
    assert BlockOk(s, q, 0, d[s.dirs[q].blocks[0]]);
  }

  lemma NotRefused(hash: Hash, s: Store, geo: Geometry, d: Volume1024, from: Word, file: Word, to: Word,
                   name: ShortName)
    requires MoveReady(s, geo, d, from, file, to)
    requires !Refuses(hash, Namespace(s, d), from, file, to, name, s.typed)
    ensures var i, j := OldAt(s, d, from, file), NewAt(hash, s, d, to, name);
            && FindOld(DirAt(s.dirs[from], d), file) == Some(i)
            && InsertInto(DirAt(s.dirs[to], d).blocks, j, file, KindOf(s, file), name).Some?
            && Movable(s, geo, d, from, i, file, to, j, KindOf(s, file), name)
  {
    hide Without, With, StoreOk, BlockOk, Remove, Insert, D.Parse, IndexOf, HasIndex, Ancestry.Walk, Par, HTree.Scan, Up;
    var i, j := OldAt(s, d, from, file), NewAt(hash, s, d, to, name);
    IndexOfHashed(s, d, from);
    IndexOfHashed(s, d, to);
    if s.dirs[to].hashed {
      ScanPointsAtLeaf(DirAt(s.dirs[to], d).index.value.keys, hash(name), DirAt(s.dirs[to], d).index.value.first);
    }
    assert BlockOk(s, from, i, d[s.dirs[from].blocks[i]]) && BlockOk(s, to, j, d[s.dirs[to].blocks[j]]);
    StoreSites(s, geo, |d|, from);
    StoreSites(s, geo, |d|, to);
    WithoutIsRemove(s, from, i, d[s.dirs[from].blocks[i]], file);
    WithIsInsert(s, to, j, d[s.dirs[to].blocks[j]], file, KindOf(s, file), name);
  }

  lemma StoreSites(s: Store, geo: Geometry, size: nat, q: Word)
    requires StoreOk(s, geo, size) && q in s.dirs
    ensures s.loc(q).0 in s.tables && s.loc(q).1 < InodesIn(s.inodeSize)
  {
  }

  function TxOf(hash: Hash, s: Store, d: Volume1024, from: Word, file: Word, to: Word, name: ShortName, now: Word): Tx<B.Block>
    requires Readable(s, d) && from in s.dirs && to in s.dirs
    requires Sited(s, d, from, OldAt(s, d, from, file), file, to, NewAt(hash, s, d, to, name))
  {
    MoveTx(s, d, from, OldAt(s, d, from, file), file, to, NewAt(hash, s, d, to, name), KindOf(s, file), name, now)
  }

  function StampIn(s: Store, d: Volume1024, file: Word, to: Word): Option<Word>
    requires Readable(s, d)
  {
    if file in s.dirs && s.dirs[file].blocks != [] then StampOf(s, file, d[s.dirs[file].blocks[0]], to) else None
  }

  /** The blocks of a move hold what the move means: once they are all in place, the volume
      they hold is the moved one, and it is laid out as before. */
  lemma MoveOnDisk(hash: Hash, s: Store, geo: Geometry, d: Volume1024, from: Word, file: Word, to: Word,
                   name: ShortName, now: Word)
    requires MoveReady(s, geo, d, from, file, to)
    requires !Refuses(hash, Namespace(s, d), from, file, to, name, s.typed)
    ensures Sited(s, d, from, OldAt(s, d, from, file), file, to, NewAt(hash, s, d, to, name))
    ensures var tx := TxOf(hash, s, d, from, file, to, name, now);
            var d', v := After(tx, d), Namespace(s, d);
            && ValidTx(geo, |d|, tx)
            && Located(s.loc, v.tables, from) && Located(s.loc, v.tables, to)
            && ContentOk(s, d')
            && Namespace(s, d') == Moved(hash, s.loc, v, from, file, to, name, s.typed, StampIn(s, d, file, to))
  {
    hide MoveTx, BlockOk, Remove, Insert, D.Parse, Ancestry.Walk, Par, HTree.Scan, Up, DirAt, FindOld, Place, Movable, StoreOk, LinkRow, SetUp,
         Relinked, Home, WithUp;
    NotRefused(hash, s, geo, d, from, file, to, name);
    var i, j, kind := OldAt(s, d, from, file), NewAt(hash, s, d, to, name), KindOf(s, file);
    assert Sited(s, d, from, i, file, to, j) by { MovableSited(s, geo, d, from, i, file, to, j, kind, name); }
    var tx := TxOf(hash, s, d, from, file, to, name, now);
    MovableValid(s, geo, d, from, i, file, to, j, kind, name, now);
    var d' := After(tx, d);
    forall q | q in s.dirs
      ensures Placed1024(s.dirs[q], d')
      ensures forall m :: 0 <= m < |s.dirs[q].blocks| ==> BlockOk(s, q, m, d'[s.dirs[q].blocks[m]])
    {
      DirsAfter(s, geo, d, from, i, file, to, j, kind, name, now, q);
    }
    forall t | t in s.tables
      ensures t < |d| && |d'[t]| == SIZE
    {
      TablesAfter(s, geo, d, from, i, file, to, j, kind, name, now, t);
    }
    assert ContentOk(s, d');
    TablesLocated(s, geo, d, from, to);
    MovedMaps(hash, s, geo, d, from, file, to, name, now);
  }

  lemma MovableSited(s: Store, geo: Geometry, d: Volume1024, from: Word, i: nat, file: Word, to: Word, j: nat, kind: Byte,
                     name: ShortName)
    requires Movable(s, geo, d, from, i, file, to, j, kind, name)
    ensures Sited(s, d, from, i, file, to, j)
  {
  }

  lemma MovableValid(s: Store, geo: Geometry, d: Volume1024, from: Word, i: nat, file: Word, to: Word, j: nat, kind: Byte,
                     name: ShortName, now: Word)
    requires Movable(s, geo, d, from, i, file, to, j, kind, name) && geo.first + 7 <= geo.maxlen
    ensures Sited(s, d, from, i, file, to, j) && ValidTx(geo, |d|, MoveTx(s, d, from, i, file, to, j, kind, name, now))
    ensures from != to && file != from && file != to
  {
    hide MoveTx, Without, With, BlockOk, StoreOk, Home;
    MoveTxIsValid(s, geo, d, from, i, file, to, j, kind, name, now);
  }

  lemma TablesLocated(s: Store, geo: Geometry, d: Volume1024, from: Word, to: Word)
    requires StoreOk(s, geo, |d|) && Readable(s, d) && from in s.dirs && to in s.dirs
    ensures Located(s.loc, Namespace(s, d).tables, from) && Located(s.loc, Namespace(s, d).tables, to)
  {
    hide LinkRow, DirAt;
    StoreSites(s, geo, |d|, from);
    StoreSites(s, geo, |d|, to);
  }

  /** Each directory of the moved volume. */
  lemma MovedDirs(hash: Hash, s: Store, geo: Geometry, d: Volume1024, from: Word, file: Word, to: Word,
                  name: ShortName, now: Word, q: Word)
    requires MoveReady(s, geo, d, from, file, to) && q in s.dirs
    requires !Refuses(hash, Namespace(s, d), from, file, to, name, s.typed)
    requires Sited(s, d, from, OldAt(s, d, from, file), file, to, NewAt(hash, s, d, to, name))
    requires Located(s.loc, Namespace(s, d).tables, from) && Located(s.loc, Namespace(s, d).tables, to)
    ensures var d' := After(TxOf(hash, s, d, from, file, to, name, now), d);
            var m := Moved(hash, s.loc, Namespace(s, d), from, file, to, name, s.typed, StampIn(s, d, file, to));
            && Placed1024(s.dirs[q], d') && q in m.dirs && m.dirs.Keys == s.dirs.Keys && m.files == s.files
            && DirAt(s.dirs[q], d') == m.dirs[q]
  {
    hide MoveTx, BlockOk, Remove, Insert, D.Parse, Ancestry.Walk, Par, HTree.Scan, Up, DirAt, Movable, StoreOk, LinkRow, SetUp,
         Relinked, Home, WithUp, After, StampOf, Located;
    NotRefused(hash, s, geo, d, from, file, to, name);
    var i, j, kind := OldAt(s, d, from, file), NewAt(hash, s, d, to, name), KindOf(s, file);
    DirsAfter(s, geo, d, from, i, file, to, j, kind, name, now, q);
  }

  /** The volume in the blocks is the moved one. */
  lemma MovedMaps(hash: Hash, s: Store, geo: Geometry, d: Volume1024, from: Word, file: Word, to: Word,
                  name: ShortName, now: Word)
    requires MoveReady(s, geo, d, from, file, to)
    requires !Refuses(hash, Namespace(s, d), from, file, to, name, s.typed)
    requires Sited(s, d, from, OldAt(s, d, from, file), file, to, NewAt(hash, s, d, to, name))
    requires ContentOk(s, After(TxOf(hash, s, d, from, file, to, name, now), d))
    requires Located(s.loc, Namespace(s, d).tables, from) && Located(s.loc, Namespace(s, d).tables, to)
    ensures Namespace(s, After(TxOf(hash, s, d, from, file, to, name, now), d)) ==
            Moved(hash, s.loc, Namespace(s, d), from, file, to, name, s.typed, StampIn(s, d, file, to))
  {
    hide MoveTx, BlockOk, DirAt, Movable, StoreOk, LinkRow, Relinked, After, StampIn, Refuses, Located, Sited;
    var d' := After(TxOf(hash, s, d, from, file, to, name, now), d);
    var v', m := Namespace(s, d'), Moved(hash, s.loc, Namespace(s, d), from, file, to, name, s.typed, StampIn(s, d, file, to));
    hide Moved;
    MovedDirs(hash, s, geo, d, from, file, to, name, now, from) by { RefusesFacts(hash, Namespace(s, d), from, file, to, name, s.typed); }
    forall q | q in s.dirs ensures v'.dirs[q] == m.dirs[q] {
      MovedDirs(hash, s, geo, d, from, file, to, name, now, q);
    }
    assert v'.dirs == m.dirs;
    MovedRows(hash, s, geo, d, from, file, to, name, now);
    assert v'.tables == m.tables;
  }

  lemma MovedRows(hash: Hash, s: Store, geo: Geometry, d: Volume1024, from: Word, file: Word, to: Word,
                  name: ShortName, now: Word)
    requires MoveReady(s, geo, d, from, file, to)
    requires !Refuses(hash, Namespace(s, d), from, file, to, name, s.typed)
    requires Sited(s, d, from, OldAt(s, d, from, file), file, to, NewAt(hash, s, d, to, name))
    requires ContentOk(s, After(TxOf(hash, s, d, from, file, to, name, now), d))
    requires Located(s.loc, Namespace(s, d).tables, from) && Located(s.loc, Namespace(s, d).tables, to)
    ensures Namespace(s, After(TxOf(hash, s, d, from, file, to, name, now), d)).tables ==
            Moved(hash, s.loc, Namespace(s, d), from, file, to, name, s.typed, StampIn(s, d, file, to)).tables
  {
    hide MoveTx, BlockOk, DirAt, Movable, StoreOk, LinkRow, Relinked, After, StampIn, Refuses, Located, Sited, Moved, FindOld,
         InsertInto, PointsAtLeaves, Up;
    var v := Namespace(s, d);
    var v' := Namespace(s, After(TxOf(hash, s, d, from, file, to, name, now), d));
    MovedTables(hash, s.loc, v, from, file, to, name, s.typed, StampIn(s, d, file, to));
    NotRefused(hash, s, geo, d, from, file, to, name);
    RelinkedRows(s.loc, v.tables, from, to);
    forall t | t in s.tables
      ensures v'.tables[t] == if file in s.dirs then Relinked(s.loc, v.tables, from, to)[t] else v.tables[t]
    {
      TablesAfter(s, geo, d, from, OldAt(s, d, from, file), file, to, NewAt(hash, s, d, to, name), KindOf(s, file), name, now, t);
    }
    assert v'.tables == if file in s.dirs then Relinked(s.loc, v.tables, from, to) else v.tables;
  }

  // ---------------------------------------------------------------- crash safety

  /** The volume depends on the directory and table blocks alone. */
  lemma SameBlocks(s: Store, geo: Geometry, d: Volume1024, d': Volume1024)
    requires StoreOk(s, geo, |d|) && |d'| == |d| && ContentOk(s, d)
    requires forall n :: 0 <= n < |d| && !InJournal(geo, n) && n != geo.sbBlock ==> d'[n] == d[n]
    ensures ContentOk(s, d') && Namespace(s, d') == Namespace(s, d)
  {
    hide BlockOk, D.Parse, HasIndex, IndexOf, LinkRow, OwnBlocks, OwnSlots;
    forall q, i | q in s.dirs && 0 <= i < |s.dirs[q].blocks|
      ensures d'[s.dirs[q].blocks[i]] == d[s.dirs[q].blocks[i]]
    {
    }
    forall q | q in s.dirs ensures Placed1024(s.dirs[q], d') && DirAt(s.dirs[q], d') == DirAt(s.dirs[q], d) {
      assert DirAt(s.dirs[q], d').blocks == DirAt(s.dirs[q], d).blocks;
    }
    forall t | t in s.tables ensures d'[t] == d[t] {
    }
  }

  lemma ShownVolume(fmt: Format<B.Block>, s: Store, geo: Geometry, d: Volume1024, tx: Tx<B.Block>, d': Volume1024)
    requires StoreOk(s, geo, |d|) && ContentOk(s, After(tx, d)) && ShowsApplied(fmt, geo, d', tx, d)
    ensures ContentOk(s, d') && Namespace(s, d') == Namespace(s, After(tx, d))
  {
    hide ContentOk, StoreOk, InJournal, Applied;
    var a := After(tx, d);
    forall n | 0 <= n < |d| && !InJournal(geo, n) && n != geo.sbBlock ensures d'[n] == a[n] {
      assert Shows(fmt, geo, d', n, Applied(tx, n, d[n]));
    }
    SameBlocks(s, geo, a, d');
  }

  lemma FirstBlock(s: Store, d: Volume1024, q: Word)
    requires Readable(s, d) && q in s.dirs && s.dirs[q].blocks != []
    ensures Namespace(s, d).dirs[q] == DirAt(s.dirs[q], d)
    ensures DirAt(s.dirs[q], d).blocks[0] == D.Parse(d[s.dirs[q].blocks[0]], 0)
  {
  }

  lemma IndexIsOk(hash: Hash, v: Volume, q: Word)
    requires NamespaceOk(hash, v) && q in v.dirs
    ensures v.dirs[q].blocks != [] && (v.dirs[q].index.Some? ==> PointsAtLeaves(v.dirs[q].index.value))
  {
    assert DirOk(hash, v.dirs[q], q);
  }

  /** A caller that follows the namespace meets what a move needs. */
  lemma CallersAreReady(hash: Hash, s: Store, geo: Geometry, d: Volume1024, from: Word, file: Word, to: Word,
                        name: ShortName)
    requires StoreOk(s, geo, |d|) && ContentOk(s, d) && geo.first + 7 <= geo.maxlen
    requires var v := Namespace(s, d);
             NamespaceOk(hash, v) && Callable(v, from, file, to, name) && !Refuses(hash, v, from, file, to, name, s.typed)
    ensures MoveReady(s, geo, d, from, file, to)
  {
    hide StoreOk, BlockOk, Child, Refuses, IsTree, Up, EntriesAgree, Listed, ListedOnce, PointsAtLeaves, BlocksOk, Placed, DirAt,
         LinkRow, NamespaceOk, Callable;
    var v := Namespace(s, d);
    RefusesFacts(hash, v, from, file, to, name, s.typed);
    ChildIsBelow(hash, v, from, file, to, name);
    FirstBlock(s, d, from);
    IndexIsOk(hash, v, to);
  }

  /** What `ext4_rename_xdir` promises: whichever write of the move is the last to reach the
      device, and however often recovery is cut short after it, the volume found at the next
      mount is the old one or the moved one, and the latter exactly when the journal
      superblock was written. Either way it is a tree in which names and ".." agree. */
  lemma MoveIsAtomic(hash: Hash, cfg: B.Config, s: Store, geo: Geometry, d: Volume1024, from: Word, file: Word,
                     to: Word, name: ShortName, now: Word, budget: nat, mounts: seq<nat>)
    requires |cfg.uuid| == 16 && StoreOk(s, geo, |d|) && ContentOk(s, d) && geo.first + 7 <= geo.maxlen
    requires var fmt := J.JournalFormat(cfg);
             WellPlaced(geo, |d|) && Ready(fmt, geo, d, fmt.jsbSequence(Jsb(geo, d)), 0)
    requires var v := Namespace(s, d);
             NamespaceOk(hash, v) && Callable(v, from, file, to, name) && !Refuses(hash, v, from, file, to, name, s.typed)
    ensures Sited(s, d, from, OldAt(s, d, from, file), file, to, NewAt(hash, s, d, to, name))
    ensures var fmt, tx, v := J.JournalFormat(cfg), TxOf(hash, s, d, from, file, to, name, now), Namespace(s, d);
            var cut := Run(fmt, geo, d, budget, CommitProgram(fmt, geo, fmt.jsbSequence(Jsb(geo, d)), tx)).disk;
            var found := Mount(fmt, geo, Mounts(fmt, geo, cut, mounts), -1);
            && ContentOk(s, found) && Located(s.loc, v.tables, from) && Located(s.loc, v.tables, to)
            && Namespace(s, found) ==
               (if budget >= LandingWrites(tx) then Moved(hash, s.loc, v, from, file, to, name, s.typed, StampIn(s, d, file, to))
                else v)
            && NamesOk(Namespace(s, found))
            && fmt.jsbStart(Jsb(geo, found)) == 0 && !fmt.recover(found[geo.sbBlock])
  {
    hide StoreOk, BlockOk, Refuses, Callable, NamesOk, DirsOk, Moved, MoveTx, Run, CommitProgram, Mounts, Mount, Ready,
         ShowsApplied, Lawful, J.JournalFormat, StampIn, ValidTx, After, MoveReady, OldAt, NewAt;
    var fmt, v := J.JournalFormat(cfg), Namespace(s, d);
    J.JournalFormatIsLawful(cfg);
    CallersAreReady(hash, s, geo, d, from, file, to, name);
    assert MoveReady(s, geo, d, from, file, to) ==> from in s.dirs && to in s.dirs by { RefusesFacts(hash, v, from, file, to, name, s.typed); }
    MoveOnDisk(hash, s, geo, d, from, file, to, name, now);
    var tx := TxOf(hash, s, d, from, file, to, name, now);
    CommitIsAtomic(fmt, geo, d, fmt.jsbSequence(Jsb(geo, d)), tx, budget, mounts);
    var cut := Run(fmt, geo, d, budget, CommitProgram(fmt, geo, fmt.jsbSequence(Jsb(geo, d)), tx)).disk;
    var found := Mount(fmt, geo, Mounts(fmt, geo, cut, mounts), -1);
    MoveKeepsNamespace(hash, s.loc, v, from, file, to, name, s.typed, StampIn(s, d, file, to));
    if budget >= LandingWrites(tx) {
      ShownVolume(fmt, s, geo, d, tx, found);
    } else {
      AfterNothing(d);
      ShownVolume(fmt, s, geo, d, [], found);
    }
  }
}
