/** `ext4_rename_xdir` as it runs: blocks read through the journal into scratch buffers,
    edited there byte by byte, and committed as one transaction. */
module Mover {
  import opened Words
  import opened Bytes
  import opened LogWalk
  import opened Programs
  import opened Commit
  import opened DirSlots
  import opened HTree
  import opened Ancestry
  import opened IndexBlock
  import opened Moves
  import opened SmallBlocks
  import opened NamespaceOnDisk
  import opened Journal
  import opened Buffers
  import B = ByteFormat
  import D = DirBlock

  lemma UpOf(s: Store, d: Volume1024, q: Word)
    requires ContentOk(s, d) && q in s.dirs && s.dirs[q].blocks != []
    ensures Climbable(Namespace(s, d)).Keys == set p | p in s.dirs && s.dirs[p].blocks != []
    ensures |d[s.dirs[q].blocks[0]]| == SIZE
    ensures Climbable(Namespace(s, d))[q] == Le32(d[s.dirs[q].blocks[0]], 12)
  {
    hide D.Parse, Le32, Up, Dotted;
    var b := d[s.dirs[q].blocks[0]];
    assert BlockOk(s, q, 0, b);
    D.UpIsAt12(b, q);
  }

  lemma ClimbableKeys(s: Store, d: Volume1024)
    requires Readable(s, d)
    ensures Climbable(Namespace(s, d)).Keys == set p | p in s.dirs && s.dirs[p].blocks != []
  {
  }

  /** The ancestor walk, over the bytes at offset 12 of each directory's first block. */
  method WalkUp(fs: Mounted<B.Block>, ghost d: Volume1024, s: Store, moved: Word, start: Word, buf: array<Byte>) returns (rc: int)
    requires Sees(fs, d) && ContentOk(s, d) && buf.Length == SIZE
    modifies buf
    ensures rc == Ancestry.Walk(Climbable(Namespace(s, d)), moved, start, 0) && Sees(fs, d)
  {
    hide Climbable, Namespace, BlockOk, Le32;
    ghost var par := Climbable(Namespace(s, d));
    ClimbableKeys(s, d);
    var cur, depth := start, 0;
    while depth < MAX_DEPTH
      invariant 0 <= depth <= MAX_DEPTH && Sees(fs, d)
      invariant Ancestry.Walk(par, moved, start, 0) == Ancestry.Walk(par, moved, cur, depth)
    {
      if cur == moved { return 1; }
      if cur == ROOT || cur == 0 { return 0; }
      if cur !in s.dirs || s.dirs[cur].blocks == [] { return -1; }
      UpOf(s, d, cur);
      Load(fs, d, s.dirs[cur].blocks[0], buf);
      cur := Le32(buf[..], 12);
      depth := depth + 1;
    }
    return -1;
  }

  lemma FoundIsRemovable(s: Store, d: Volume1024, q: Word, i: nat, file: Word)
    requires ContentOk(s, d) && q in s.dirs && i < |s.dirs[q].blocks| && file != 0
    ensures |d[s.dirs[q].blocks[i]]| == SIZE
    ensures D.FindInode(d[s.dirs[q].blocks[i]], 0, None, file).Some? <==> Remove(DirAt(s.dirs[q], d).blocks[i], file).Some?
  {
    hide D.Parse, D.FindInode, Remove, HasIndex, IndexOf;
    assert BlockOk(s, q, i, d[s.dirs[q].blocks[i]]);
    D.RemoveFromBlock(d[s.dirs[q].blocks[i]], file);
  }

  /** Looks for the block that holds an entry of the file, and leaves it in the buffer. */
  method FindOldBlock(fs: Mounted<B.Block>, ghost d: Volume1024, s: Store, from: Word, file: Word, buf: array<Byte>)
      returns (found: bool, i: nat)
    requires Sees(fs, d) && ContentOk(s, d) && buf.Length == SIZE && from in s.dirs && file != 0
    modifies buf
    ensures found == FindOld(DirAt(s.dirs[from], d), file).Some? && Sees(fs, d)
    ensures found ==> FindOld(DirAt(s.dirs[from], d), file) == Some(i) && buf[..] == d[s.dirs[from].blocks[i]]
  {
    hide D.FindInode, Remove, BlockOk, Sees, DirAt;
    var p := s.dirs[from];
    ghost var blocks := DirAt(p, d).blocks;
    found, i := false, 0;
    if p.blocks == [] {
      return;
    }
    IndexOfHashed(s, d, from);
    if !p.hashed {
      FoundIsRemovable(s, d, from, 0, file);
      Load(fs, d, p.blocks[0], buf);
      var r := D.FindEntry(buf, file);
      return r.Some?, 0;
    }
    i := 1;
    while i < |p.blocks|
      invariant 1 <= i && Sees(fs, d)
      invariant FindLeafWith(blocks, file, 1) == FindLeafWith(blocks, file, i)
      decreases |p.blocks| - i
    {
      FoundIsRemovable(s, d, from, i, file);
      Load(fs, d, p.blocks[i], buf);
      var r := D.FindEntry(buf, file);
      if r.Some? { return true, i; }
      i := i + 1;
    }
  }

  /** The block for the new entry: block 0, or the leaf that the index gives for the hash. */
  method FindNewBlock(fs: Mounted<B.Block>, ghost d: Volume1024, hash: Hash, s: Store, to: Word, name: ShortName, buf: array<Byte>)
      returns (j: nat)
    requires Sees(fs, d) && ContentOk(s, d) && buf.Length == SIZE && to in s.dirs
    modifies buf
    ensures j == NewAt(hash, s, d, to, name) && Sees(fs, d)
  {
    hide BlockOk, Sees, D.Parse, IndexOf, Le16, Le32;
    var p := s.dirs[to];
    if !p.hashed || p.blocks == [] {
      return 0;
    }
    assert HasIndex(d[p.blocks[0]]) by { RootHasIndex(s, d, to); }
    Load(fs, d, p.blocks[0], buf);
    var rc, leaf := FindLeafInBlock(buf, hash(name));
    j := leaf;
  }

  lemma RootHasIndex(s: Store, d: Volume1024, q: Word)
    requires ContentOk(s, d) && q in s.dirs && s.dirs[q].blocks != [] && s.dirs[q].hashed
    ensures HasIndex(d[s.dirs[q].blocks[0]])
  {
    assert BlockOk(s, q, 0, d[s.dirs[q].blocks[0]]);
  }

  /** An inode's 16-bit checksum, in place: the field is zeroed, summed over and restored
      before the new value goes in. */
  method PutLowSum(a: array<Byte>, s: Store, off: nat, ino: Word)
    requires a.Length == SIZE && off + s.inodeSize <= SIZE
    modifies a
    ensures a[..] == WithLowSum(s, old(a[..]), off, ino)
  {
    hide PackLittle16;
    ghost var b := a[..];
    var saved := a[off + SUM_LOW..off + SUM_LOW + 2];
    Put(a, off + SUM_LOW, Zeros(2));
    var sum := s.inodeSum(ino, a[off..off + s.inodeSize]);
    Put(a, off + SUM_LOW, saved);
    assert a[..] == b;
    Put(a, off + SUM_LOW, PackLittle16(sum % 0x1_0000));
  }

  /** Both fields zeroed and restored. */
  lemma PutBack(b: Bytes1024, off: nat)
    requires off + SUM_HIGH + 2 <= SIZE
    ensures var zeroed := Patch(Patch(b, off + SUM_LOW, Zeros(2)), off + SUM_HIGH, Zeros(2));
            Patch(Patch(zeroed, off + SUM_LOW, b[off + SUM_LOW..off + SUM_LOW + 2]),
                  off + SUM_HIGH, b[off + SUM_HIGH..off + SUM_HIGH + 2]) == b
  {
  }

  method PutSums(a: array<Byte>, s: Store, off: nat, ino: Word)
    requires a.Length == SIZE && off + s.inodeSize <= SIZE && s.inodeSize > 128
    modifies a
    ensures a[..] == WithSums(s, old(a[..]), off, ino)
  {
    hide PackLittle16, Patch;
    ghost var b := a[..];
    PutBack(b, off);
    var low, high := a[off + SUM_LOW..off + SUM_LOW + 2], a[off + SUM_HIGH..off + SUM_HIGH + 2];
    Put(a, off + SUM_LOW, Zeros(2));
    Put(a, off + SUM_HIGH, Zeros(2));
    var sum := s.inodeSum(ino, a[off..off + s.inodeSize]);
    Put(a, off + SUM_LOW, low);
    Put(a, off + SUM_HIGH, high);
    Put(a, off + SUM_LOW, PackLittle16(sum % 0x1_0000));
    Put(a, off + SUM_HIGH, PackLittle16(sum / 0x1_0000));
  }

  method TouchInPlace(a: array<Byte>, s: Store, k: nat, ino: Word, now: Word)
    requires a.Length == SIZE && k < InodesIn(s.inodeSize)
    modifies a
    ensures a[..] == Touch(s, old(a[..]), k, ino, now)
  {
    hide PackLittle, WithLowSum, WithSums, Patch;
    SlotFits(s.inodeSize, k);
    var off := k * s.inodeSize;
    Put(a, off + 0x10, PackLittle(now));
    if s.meta {
      if s.inodeSize == 128 {
        PutLowSum(a, s, off, ino);
      } else {
        PutSums(a, s, off, ino);
      }
    }
  }

  /** The edit of one parent's inode, in place. */
  method EditInode(a: array<Byte>, s: Store, ino: Word, isDir: bool, more: bool, now: Word)
    requires a.Length == SIZE && s.loc(ino).1 < InodesIn(s.inodeSize)
    modifies a
    ensures var lc := LinkAt(old(a[..]), s.inodeSize, s.loc(ino).1);
            a[..] == InodeEdit(s, old(a[..]), ino, isDir, if more then OneMore(lc) else OneLess(lc), now)
  {
    hide Touch, PackLittle16, Le16;
    var k := s.loc(ino).1;
    SlotFits(s.inodeSize, k);
    if isDir {
      var lc := Le16(a[..], k * s.inodeSize + LINKS_AT);
      Put(a, k * s.inodeSize + LINKS_AT, PackLittle16(if more then OneMore(lc) else OneLess(lc)));
    }
    TouchInPlace(a, s, k, ino, now);
  }

  lemma EntryBlock(s: Store, d: Volume1024, q: Word, i: nat)
    requires ContentOk(s, d) && q in s.dirs && i < |s.dirs[q].blocks|
    ensures BlockOk(s, q, i, d[s.dirs[q].blocks[i]]) && |d[s.dirs[q].blocks[i]]| == SIZE
  {
  }

  /** Whether there is room for the new entry shows in the bytes. */
  lemma RoomShows(s: Store, d: Volume1024, to: Word, j: nat, file: Word, kind: Byte, name: ShortName)
    requires ContentOk(s, d) && to in s.dirs && Writable(file, kind, name)
    ensures j < |s.dirs[to].blocks| ==>
              |d[s.dirs[to].blocks[j]]| == SIZE
              && (D.SpaceAt(d[s.dirs[to].blocks[j]], 0, RoundUp4(8 + |name|)).Some? <==>
                  InsertInto(DirAt(s.dirs[to], d).blocks, j, file, kind, name).Some?)
    ensures j >= |s.dirs[to].blocks| ==> InsertInto(DirAt(s.dirs[to], d).blocks, j, file, kind, name).None?
  {
    hide D.Parse, D.SpaceAt, Insert, BlockOk, HasIndex, IndexOf, RoundUp4;
    if j < |s.dirs[to].blocks| {
      EntryBlock(s, d, to, j);
      D.InsertFrom(d[s.dirs[to].blocks[j]], 0, file, kind, name);
    }
  }

  /** The new entry, in place in the buffer that holds the block. */
  method WriteEntry(a: array<Byte>, ghost d: Volume1024, s: Store, to: Word, ghost j: nat, file: Word, kind: Byte, name: ShortName)
      returns (ok: bool)
    requires ContentOk(s, d) && to in s.dirs && j < |s.dirs[to].blocks| && a[..] == d[s.dirs[to].blocks[j]] && a.Length == SIZE
    requires Writable(file, kind, name)
    modifies a
    ensures ok <==> InsertInto(DirAt(s.dirs[to], d).blocks, j, file, kind, name).Some?
    ensures ok ==> a[..] == NewBytes(s, d, to, j, file, kind, name)
  {
    hide D.SpaceAt, D.Inserted, D.Stamped, Insert, BlockOk, DirAt, RoundUp4, InsertInto;
    RoomShows(s, d, to, j, file, kind, name);
    ok := D.InsertBytes(a, file, kind, name, s.meta, Csum(s, to));
  }

  /** The old entry, taken away in the buffer that holds its block. */
  method EraseEntry(a: array<Byte>, ghost d: Volume1024, s: Store, from: Word, ghost i: nat, file: Word)
    requires ContentOk(s, d) && from in s.dirs && i < |s.dirs[from].blocks| && a[..] == d[s.dirs[from].blocks[i]]
    requires a.Length == SIZE && file != 0 && Remove(DirAt(s.dirs[from], d).blocks[i], file).Some?
    modifies a
    ensures a[..] == OldBytes(s, d, from, i, file)
  {
    hide D.FindInode, D.Removed, D.Stamped, Remove, BlockOk, DirAt, D.Header;
    FoundIsRemovable(s, d, from, i, file);
    var r := D.FindEntry(a, file);
    D.FoundIsRecord(a[..], 0, None, file);
    var (at, prev) := r.value;
    D.RemoveBytes(a, at, prev, s.meta, Csum(s, from));
  }

  /** The moved directory's "..", in place. */
  method Reparent(a: array<Byte>, s: Store, dir: Word, parent: Word)
    requires a.Length == SIZE
    modifies a
    ensures a[..] == Reparented(s, dir, old(a[..]), parent)
  {
    hide PackLittle, D.Stamped;
    Put(a, 12, PackLittle(parent));
    D.Restamp(a, s.meta, Csum(s, dir));
  }

  /** The inode edits of both parents. When their inodes share a block, both edits go to the
      same buffer. */
  method EditParents(fs: Mounted<B.Block>, ghost d: Volume1024, s: Store, from: Word, to: Word, isDir: bool, now: Word)
      returns (fromBuf: array<Byte>, toBuf: array<Byte>)
    requires Sees(fs, d) && ContentOk(s, d)
    requires s.loc(from).0 in s.tables && s.loc(from).1 < InodesIn(s.inodeSize)
    requires s.loc(to).0 in s.tables && s.loc(to).1 < InodesIn(s.inodeSize)
    ensures Sees(fs, d) && fresh(fromBuf) && fresh(toBuf)
    ensures toBuf[..] == ToTable(s, d, from, to, isDir, now)
    ensures s.loc(from).0 != s.loc(to).0 ==> fromBuf[..] == FromTable(s, d, from, isDir, now)
  {
    hide InodeEdit, LinkAt, BlockOk, Sees;
    fromBuf := new Byte[SIZE];
    var parent := new Byte[SIZE];
    Load(fs, d, s.loc(from).0, fromBuf);
    Load(fs, d, s.loc(to).0, parent);
    toBuf := if s.loc(from).0 == s.loc(to).0 then fromBuf else parent;
    EditInode(fromBuf, s, from, isDir, false, now);
    EditInode(toBuf, s, to, isDir, true, now);
  }

  lemma BlockNumber(s: Store, d: Volume1024, q: Word, i: nat)
    requires ContentOk(s, d) && q in s.dirs && i < |s.dirs[q].blocks|
    ensures s.dirs[q].blocks[i] < |d|
  {
  }

  lemma NamespaceDirs(s: Store, d: Volume1024)
    requires ContentOk(s, d)
    ensures Namespace(s, d).dirs.Keys == s.dirs.Keys && Namespace(s, d).files == s.files
    ensures forall q :: q in s.dirs ==> Namespace(s, d).dirs[q] == DirAt(s.dirs[q], d)
  {
    hide DirAt;
  }

  lemma EntryIsWritable(s: Store, file: Word, name: ShortName)
    requires file != 0 && name != []
    ensures Writable(file, KindOf(s, file), name)
  {
  }

  /** Everything that a move that is not refused writes, in scratch buffers. Room for the new
      entry is looked for before anything else is edited. */
  method BuildMove(fs: Mounted<B.Block>, ghost d: Volume1024, s: Store, from: Word, i: nat, file: Word, to: Word, j: nat,
                   kind: Byte, name: ShortName, now: Word) returns (tx: Tx<B.Block>)
    requires Sees(fs, d) && ContentOk(s, d) && Sited(s, d, from, i, file, to, j) && file != 0 && Writable(file, kind, name)
    requires Remove(DirAt(s.dirs[from], d).blocks[i], file).Some?
    requires InsertInto(DirAt(s.dirs[to], d).blocks, j, file, kind, name).Some?
    ensures Sees(fs, d) && tx == MoveTx(s, d, from, i, file, to, j, kind, name, now)
  {
    hide Sees, BlockOk, DirAt, OldBytes, NewBytes, Reparented, FromTable, ToTable, Remove, InsertInto, Writable;
    var isDir := file in s.dirs;
    var shared := s.loc(from).0 == s.loc(to).0;
    var old_, new_ := new Byte[SIZE], new Byte[SIZE];
    Load(fs, d, s.dirs[from].blocks[i], old_);
    Load(fs, d, s.dirs[to].blocks[j], new_);
    var ok := WriteEntry(new_, d, s, to, j, file, kind, name);
    EraseEntry(old_, d, s, from, i, file);
    var fromBuf, toBuf := EditParents(fs, d, s, from, to, isDir, now);
    tx := [BlockWrite(s.dirs[from].blocks[i], old_[..]), BlockWrite(s.dirs[to].blocks[j], new_[..])];
    if shared {
      tx := tx + [BlockWrite(s.loc(from).0, toBuf[..])];
    } else {
      tx := tx + [BlockWrite(s.loc(from).0, fromBuf[..]), BlockWrite(s.loc(to).0, toBuf[..])];
    }
    if isDir {
      var moved := new Byte[SIZE];
      Load(fs, d, s.dirs[file].blocks[0], moved);
      Reparent(moved, s, file, to);
      tx := tx + [BlockWrite(s.dirs[file].blocks[0], moved[..])];
    }
  }

  /** Looks for the old entry and for room for the new one. */
  method FindPlaces(fs: Mounted<B.Block>, ghost d: Volume1024, hash: Hash, s: Store, from: Word, file: Word, to: Word,
                    name: ShortName) returns (ok: bool, i: nat, j: nat)
    requires Sees(fs, d) && ContentOk(s, d) && from in s.dirs && to in s.dirs && file != 0 && name != []
    ensures Sees(fs, d)
    ensures ok <==> FindOld(DirAt(s.dirs[from], d), file).Some?
                    && InsertInto(DirAt(s.dirs[to], d).blocks, NewAt(hash, s, d, to, name), file, KindOf(s, file), name).Some?
    ensures ok ==> i == OldAt(s, d, from, file) && j == NewAt(hash, s, d, to, name)
  {
    hide ContentOk, FindOld, InsertInto, DirAt, Writable, Remove, Sees, NewAt, Insert;
    var scratch := new Byte[SIZE];
    ok, i := FindOldBlock(fs, d, s, from, file, scratch);
    j := FindNewBlock(fs, d, hash, s, to, name, scratch);
    if !ok { return; }
    var kind := KindOf(s, file);
    EntryIsWritable(s, file, name);
    RoomShows(s, d, to, j, file, kind, name);
    if j >= |s.dirs[to].blocks| { return false, 0, 0; }
    EntryBlock(s, d, to, j);
    BlockNumber(s, d, to, j);
    Load(fs, d, s.dirs[to].blocks[j], scratch);
    ok := WriteEntry(scratch, d, s, to, j, file, kind, name);
  }

  /** The refusals, in terms of the blocks. */
  lemma RefusedWhen(hash: Hash, s: Store, d: Volume1024, from: Word, file: Word, to: Word, name: ShortName)
    requires ContentOk(s, d)
    ensures Refuses(hash, Namespace(s, d), from, file, to, name, s.typed) <==>
            || from == to || name == [] || file == 0 || file == ROOT
            || from !in s.dirs || to !in s.dirs || (file !in s.dirs && file !in s.files)
            || (file in s.dirs && (file == to || Ancestry.Walk(Climbable(Namespace(s, d)), file, to, 0) != 0 || s.dirs[file].blocks == []))
            || FindOld(DirAt(s.dirs[from], d), file).None?
            || InsertInto(DirAt(s.dirs[to], d).blocks, NewAt(hash, s, d, to, name), file, KindOf(s, file), name).None?
  {
    hide Namespace, ContentOk, FindOld, InsertInto, Ancestry.Walk, DirAt, Climbable, Place;
    NamespaceDirs(s, d);
  }

  /** The checks of a move, in order, and where its entries are. */
  method Check(fs: Mounted<B.Block>, ghost d: Volume1024, hash: Hash, s: Store, from: Word, file: Word, to: Word, name: ShortName)
      returns (ok: bool, i: nat, j: nat)
    requires Sees(fs, d) && ContentOk(s, d)
    ensures Sees(fs, d)
    ensures ok <==> !Refuses(hash, Namespace(s, d), from, file, to, name, s.typed)
    ensures ok ==> from in s.dirs && to in s.dirs && i == OldAt(s, d, from, file) && j == NewAt(hash, s, d, to, name)
  {
    hide Namespace, ContentOk, FindOld, InsertInto, Ancestry.Walk, DirAt, Sees, Climbable, Refuses, OldAt, NewAt, KindOf;
    RefusedWhen(hash, s, d, from, file, to, name);
    ok, i, j := false, 0, 0;
    if from == to || name == [] || file == 0 || file == ROOT { return; }
    if from !in s.dirs || to !in s.dirs || (file !in s.dirs && file !in s.files) { return; }
    if file in s.dirs {
      if file == to { return; }
      var scratch := new Byte[SIZE];
      var above := WalkUp(fs, d, s, file, to, scratch);
      if above != 0 || s.dirs[file].blocks == [] { return; }
    }
    ok, i, j := FindPlaces(fs, d, hash, s, from, file, to, name);
  }

  /** Moves the entry of `file` to another directory under a new name. A refusal, a read-only
      device or an unfinished journal give -1 and change nothing. Any other call performs
      exactly the commit of the move's transaction. */
  method Rename(fs: Mounted<B.Block>, ghost d: Volume1024, hash: Hash, s: Store, from: Word, file: Word, to: Word,
                name: ShortName, now: Word) returns (rc: int)
    requires Sees(fs, d) && WellPlaced(fs.geo, |d|) && ContentOk(s, d)
    requires from in s.dirs && to in s.dirs ==> MoveReady(s, fs.geo, d, from, file, to)
    modifies fs, fs.dev
    ensures fs.Valid()
    ensures Refuses(hash, Namespace(s, d), from, file, to, name, s.typed) || !fs.dev.writable || old(fs.start) != 0 ==>
              rc == -1 && fs.dev.blocks == old(fs.dev.blocks) && fs.dev.writesLeft == old(fs.dev.writesLeft)
    ensures !Refuses(hash, Namespace(s, d), from, file, to, name, s.typed) && fs.dev.writable && old(fs.start) == 0 ==>
              && d == old(fs.dev.blocks) && from in s.dirs && to in s.dirs
              && Sited(s, d, from, OldAt(s, d, from, file), file, to, NewAt(hash, s, d, to, name))
              && var tx := TxOf(hash, s, d, from, file, to, name, now);
                 var run := Run(fs.fmt, fs.geo, old(fs.dev.blocks), old(fs.dev.writesLeft),
                                CommitProgram(fs.fmt, fs.geo, old(fs.sequence), tx));
                 && fs.dev.blocks == run.disk && fs.dev.writesLeft == run.budget
                 && (rc == 0 <==> run.ending == Finished(0))
  {
    hide Namespace, ContentOk, MoveReady, FindOld, InsertInto, CommitProgram, Run, MoveTx, DirAt, WellPlaced, Writable, Remove,
         Refuses, Sited, OldAt, NewAt, KindOf;
    var ok, i, j := Check(fs, d, hash, s, from, file, to, name);
    if !ok { return -1; }
    var kind := KindOf(s, file);
    if fs.start == 0 { SeesDisk(fs, d); }
    MoveFacts(hash, s, fs.geo, d, from, file, to, name, now);
    var tx := BuildMove(fs, d, s, from, i, file, to, j, kind, name, now);
    rc := fs.Commit(tx);
    if rc != 0 { rc := -1; }
  }

  lemma MoveFacts(hash: Hash, s: Store, geo: Geometry, d: Volume1024, from: Word, file: Word, to: Word,
                  name: ShortName, now: Word)
    requires ContentOk(s, d) && MoveReady(s, geo, d, from, file, to)
    requires !Refuses(hash, Namespace(s, d), from, file, to, name, s.typed)
    ensures file != 0 && from in s.dirs && to in s.dirs && Writable(file, KindOf(s, file), name)
    ensures var i, j := OldAt(s, d, from, file), NewAt(hash, s, d, to, name);
            && i < |DirAt(s.dirs[from], d).blocks| && Remove(DirAt(s.dirs[from], d).blocks[i], file).Some?
            && InsertInto(DirAt(s.dirs[to], d).blocks, j, file, KindOf(s, file), name).Some?
            && Sited(s, d, from, i, file, to, j)
            && ValidTx(geo, |d|, MoveTx(s, d, from, i, file, to, j, KindOf(s, file), name, now))
  {
    hide Namespace, DirAt, Writable, Remove, Refuses, MoveTx, Sited, Insert, InsertInto, Place, D.Parse, BlockOk, StoreOk;
    NotRefused(hash, s, geo, d, from, file, to, name);
    RefusesFacts(hash, Namespace(s, d), from, file, to, name, s.typed);
    var i, j, kind := OldAt(s, d, from, file), NewAt(hash, s, d, to, name), KindOf(s, file);
    assert name != [] by { RefusesEmptyName(hash, Namespace(s, d), from, file, to, name, s.typed); }
    EntryIsWritable(s, file, name);
    MovableSited(s, geo, d, from, i, file, to, j, kind, name);
    MovableValid(s, geo, d, from, i, file, to, j, kind, name, now);
  }

  lemma RefusesEmptyName(hash: Hash, v: Volume, from: Word, file: Word, to: Word, name: ShortName, typed: bool)
    requires !Refuses(hash, v, from, file, to, name, typed)
    ensures name != []
  {
  }
}
