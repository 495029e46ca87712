/** Moving an entry between directories: `ext4_rename_xdir`. */
module Moves {
  import opened Words
  import opened DirSlots
  import opened HTree
  import opened Ancestry

  /** A directory: its blocks, and the index of a hashed one. */
  datatype Directory = Directory(blocks: Blocks, index: Option<Index>)

  /** Where an inode's link count lies: inode-table block and slot. */
  type Locator = Word -> (nat, nat)

  /** The volume as a move sees it: directories, other inodes, and the link counts in the
      blocks of the inode table. */
  datatype Volume = Volume(dirs: map<Word, Directory>, files: set<Word>, tables: map<nat, seq<Word>>)

  const FT_REGULAR: Byte := 1
  const FT_DIR: Byte := 2

  function Par(v: Volume): Parents {
    map d | d in v.dirs :: if v.dirs[d].blocks == [] then 0 else Up(v.dirs[d].blocks[0])
  }

  /** The entries that the ancestor walk can read: of directories with a first block. */
  function Climbable(v: Volume): Parents {
    map d | d in v.dirs && v.dirs[d].blocks != [] :: Up(v.dirs[d].blocks[0])
  }

  // ---------------------------------------------------------------- the parts of a move

  /** The block of the old entry: the first block of a linear directory, any leaf of a
      hashed one. */
  function FindOld(d: Directory, file: Word): (r: Option<nat>)
    ensures r.Some? ==> r.value < |d.blocks| && Remove(d.blocks[r.value], file).Some?
  {
    if d.index.Some? then FindLeafWith(d.blocks, file, 1)
    else if d.blocks != [] && Remove(d.blocks[0], file).Some? then Some(0)
    else None
  }

  function FindLeafWith(blocks: Blocks, file: Word, b: nat): (r: Option<nat>)
    ensures r.Some? ==> b <= r.value < |blocks| && Remove(blocks[r.value], file).Some?
    decreases |blocks| - b
  {
    if b >= |blocks| then None
    else if Remove(blocks[b], file).Some? then Some(b)
    else FindLeafWith(blocks, file, b + 1)
  }

  /** The block for the new entry: the first of a linear directory, the leaf of the name's
      hash in a hashed one. */
  function Place(hash: Hash, d: Directory, name: Name): nat {
    match d.index
    case None => 0
    case Some(ix) => FindLeaf(ix, hash(name))
  }

  /** The link-count decrement stops at 0, the increment wraps at 16 bits. */
  function OneLess(lc: Word): Word { if lc > 0 then lc - 1 else lc }

  function OneMore(lc: Word): Word { (lc + 1) % 0x1_0000 }

  predicate Located(loc: Locator, tables: map<nat, seq<Word>>, ino: Word) {
    loc(ino).0 in tables && loc(ino).1 < |tables[loc(ino).0]|
  }

  function Links(loc: Locator, tables: map<nat, seq<Word>>, ino: Word): Word
    requires Located(loc, tables, ino)
  {
    tables[loc(ino).0][loc(ino).1]
  }

  function SetLinks(loc: Locator, tables: map<nat, seq<Word>>, ino: Word, lc: Word): map<nat, seq<Word>>
    requires Located(loc, tables, ino)
  {
    var row: seq<Word> := tables[loc(ino).0];
    var edited: seq<Word> := row[loc(ino).1 := lc];
    tables[loc(ino).0 := edited]
  }

  /** Link counts after a directory moved from `old_` to `new_`. */
  function Relinked(loc: Locator, tables: map<nat, seq<Word>>, from: Word, to: Word): map<nat, seq<Word>>
    requires Located(loc, tables, from) && Located(loc, tables, to)
  {
    var t := SetLinks(loc, tables, from, OneLess(Links(loc, tables, from)));
    SetLinks(loc, t, to, OneMore(Links(loc, t, to)))
  }

  /** Name lengths are one byte. */
  type ShortName = n: Name | |n| <= 255

  /** The type byte of the new entry, on volumes that keep it. */
  function Kind(v: Volume, file: Word, typed: bool): Byte {
    if !typed then 0 else if file in v.dirs then FT_DIR else FT_REGULAR
  }

  /** The calls that a move refuses. */
  predicate Refuses(hash: Hash, v: Volume, from: Word, file: Word, to: Word, name: ShortName, typed: bool) {
    || from == to || name == [] || file == 0 || file == ROOT
    || from !in v.dirs || to !in v.dirs || (file !in v.dirs && file !in v.files)
    || (file in v.dirs && (file == to || Walk(Climbable(v), file, to, 0) != 0 || v.dirs[file].blocks == []))
    || FindOld(v.dirs[from], file).None?
    || InsertInto(v.dirs[to].blocks, Place(hash, v.dirs[to], name), file, Kind(v, file, typed), name).None?
  }

  function WithoutEntry(d: Directory, file: Word): Directory
    requires FindOld(d, file).Some?
  {
    var b := FindOld(d, file).value;
    d.(blocks := d.blocks[b := Remove(d.blocks[b], file).value])
  }

  function WithEntry(hash: Hash, d: Directory, file: Word, kind: Byte, name: ShortName): Directory
    requires InsertInto(d.blocks, Place(hash, d, name), file, kind, name).Some?
  {
    d.(blocks := InsertInto(d.blocks, Place(hash, d, name), file, kind, name).value)
  }

  /** The moved directory: ".." rewritten and, on a volume with metadata checksums, a tail
      stamped into its first block, hashed or not. `stamp` is the checksum stamped. */
  function WithUp(d: Directory, parent: Word, stamp: Option<Word>): Directory
    requires d.blocks != []
  {
    Directory(d.blocks[0 := SetUp(d.blocks[0], parent)],
              if d.index.Some? && stamp.Some? then Some(Stamp(d.index.value, stamp.value)) else d.index)
  }

  /** Whether the index of a moved directory stands that stamp. */
  predicate Survives(d: Directory, stamp: Option<Word>) {
    d.index.Some? && stamp.Some? ==> ClearOfTail(d.index.value)
  }

  /** The volume after a move that is not refused. */
  function Moved(hash: Hash, loc: Locator, v: Volume, from: Word, file: Word, to: Word, name: ShortName, typed: bool,
                 stamp: Option<Word>): Volume
    requires !Refuses(hash, v, from, file, to, name, typed)
    requires Located(loc, v.tables, from) && Located(loc, v.tables, to)
  {
    var d1 := v.dirs[from := WithoutEntry(v.dirs[from], file)];
    var d2 := d1[to := WithEntry(hash, v.dirs[to], file, Kind(v, file, typed), name)];
    if file in v.dirs then
      v.(dirs := d2[file := WithUp(v.dirs[file], to, stamp)], tables := Relinked(loc, v.tables, from, to))
    else v.(dirs := d2)
  }

  // ---------------------------------------------------------------- shared inode blocks

  /** Distinct inodes lie in distinct slots. */
  ghost predicate OwnSlots(loc: Locator) {
    forall a, b :: loc(a) == loc(b) ==> a == b
  }

  /** One link less, one more, and every other inode as before, whether or not the two lie
      in one table block. */
  lemma RelinkedExact(loc: Locator, tables: map<nat, seq<Word>>, from: Word, to: Word, i: Word)
    requires OwnSlots(loc) && from != to
    requires Located(loc, tables, from) && Located(loc, tables, to) && Located(loc, tables, i)
    ensures Located(loc, Relinked(loc, tables, from, to), i)
    ensures Links(loc, Relinked(loc, tables, from, to), i) ==
            var was := Links(loc, tables, i);
            if i == from then if was == 0 then 0 else was - 1
            else if i == to then (was + 1) % 0x1_0000
            else was
  {
    assert loc(i) == loc(from) ==> i == from;
    assert loc(i) == loc(to) ==> i == to;
    assert loc(from) != loc(to);
  }

  /** Blocks of a transaction written in order. */
  function WriteAll(tables: map<nat, seq<Word>>, tx: seq<(nat, seq<Word>)>): map<nat, seq<Word>>
    decreases |tx|
  {
    if tx == [] then tables else WriteAll(tables[tx[0].0 := tx[0].1], tx[1..])
  }

  lemma WriteTwo(tables: map<nat, seq<Word>>, a: (nat, seq<Word>), b: (nat, seq<Word>))
    ensures WriteAll(tables, [a]) == tables[a.0 := a.1]
    ensures WriteAll(tables, [a, b]) == tables[a.0 := a.1][b.0 := b.1]
  {
    assert [a][1..] == [] && [b][1..] == [] && [a, b][1..] == [b];
    assert WriteAll(tables[a.0 := a.1], [b]) == tables[a.0 := a.1][b.0 := b.1];
  }

  /** If a shared table block went into the transaction as two separately edited copies, the
      decrement would be lost. */
  lemma TwoCopiesLoseTheDecrement(loc: Locator, tables: map<nat, seq<Word>>, from: Word, to: Word)
    requires OwnSlots(loc) && from != to && loc(from).0 == loc(to).0
    requires Located(loc, tables, from) && Located(loc, tables, to) && Links(loc, tables, from) > 0
    ensures var first := SetLinks(loc, tables, from, OneLess(Links(loc, tables, from)))[loc(from).0];
            var second := SetLinks(loc, tables, to, OneMore(Links(loc, tables, to)))[loc(to).0];
            var t := WriteAll(tables, [(loc(from).0, first), (loc(to).0, second)]);
            Located(loc, t, from) && Links(loc, t, from) == Links(loc, tables, from)
  {
    var first := SetLinks(loc, tables, from, OneLess(Links(loc, tables, from)))[loc(from).0];
    var second := SetLinks(loc, tables, to, OneMore(Links(loc, tables, to)))[loc(to).0];
    WriteTwo(tables, (loc(from).0, first), (loc(to).0, second));
    assert loc(from).1 != loc(to).1 by {
      assert loc(from) != loc(to);
    }
  }

  // ---------------------------------------------------------------- the invariant

  predicate Plain(n: Name) {
    n != DOT && n != DOTDOT && n != []
  }

  /** Tiled blocks, each name once, "." and ".." first. */
  ghost predicate BlocksOk(d: Directory, self: Word) {
    && d.blocks != [] && AllWellFormed(d.blocks) && (forall s <- d.blocks :: UniqueNames(s)) && OneHome(d.blocks)
    && Dotted(d.blocks[0], self)
  }

  /** A hashed directory is indexed right. */
  ghost predicate IndexOk(hash: Hash, d: Directory) {
    d.index.Some? ==> IndexFits(d.index.value) && PointsAtLeaves(d.index.value) && Placed(hash, d.index.value, d.blocks)
  }

  ghost predicate DirOk(hash: Hash, d: Directory, self: Word) {
    BlocksOk(d, self) && IndexOk(hash, d)
  }

  ghost predicate DirsOk(hash: Hash, v: Volume) {
    forall d :: d in v.dirs ==> DirOk(hash, v.dirs[d], d)
  }

  function Child(v: Volume, p: Word, n: Name): Word {
    if p in v.dirs then Linear(v.dirs[p].blocks, n) else 0
  }

  /** An entry for a directory stands in the directory that its ".." names. */
  ghost predicate EntriesAgree(v: Volume) {
    forall p, n :: Plain(n) && Child(v, p, n) in v.dirs ==> Child(v, p, n) != ROOT && Par(v)[Child(v, p, n)] == p
  }

  /** Every directory but the root has an entry there, */
  ghost predicate Listed(v: Volume) {
    forall d :: d in v.dirs && d != ROOT ==> exists n :: Plain(n) && Child(v, Par(v)[d], n) == d
  }

  /** and only one. */
  ghost predicate ListedOnce(v: Volume) {
    forall p, n, m :: Plain(n) && Plain(m) && Child(v, p, n) in v.dirs && Child(v, p, n) == Child(v, p, m) ==> n == m
  }

  ghost predicate AllBlocksOk(v: Volume) {
    forall d :: d in v.dirs ==> BlocksOk(v.dirs[d], d)
  }

  /** A tree of directories in which names and ".." tell the same story. */
  ghost predicate NamesOk(v: Volume) {
    AllBlocksOk(v) && IsTree(Par(v)) && EntriesAgree(v) && Listed(v) && ListedOnce(v)
  }

  /** The same, with every index right. */
  ghost predicate NamespaceOk(hash: Hash, v: Volume) {
    NamesOk(v) && DirsOk(hash, v)
  }

  /** The first block of an empty root directory of 1024 bytes. */
  function RootBlock(): Slots {
    Slot(ROOT, 12, 1, FT_DIR, DOT, Slot(ROOT, 1012, 2, FT_DIR, DOTDOT, End))
  }

  lemma RootBlockIsOk()
    ensures WellFormed(RootBlock()) && UniqueNames(RootBlock()) && Dotted(RootBlock(), ROOT) && Up(RootBlock()) == ROOT
    ensures forall n :: Plain(n) ==> Lookup(RootBlock(), n) == 0
  {
    assert RoundUp4(9) == 12 && RoundUp4(10) == 12;
    assert DOT[0] == DOTDOT[0] && |DOT| != |DOTDOT|;
    forall n | Plain(n) ensures Lookup(RootBlock(), n) == 0 {
      assert Lookup(RootBlock().rest, n) == 0;
    }
  }

  /** An empty volume is a tree to start from, whatever the files outside it. */
  lemma EmptyNamespaceIsOk(hash: Hash, files: set<Word>, tables: map<nat, seq<Word>>)
    ensures NamespaceOk(hash, Volume(map[ROOT := Directory([RootBlock()], None)], files, tables))
  {
    hide WellFormed, UniqueNames, Dotted, Up, RootBlock, Lookup, Plain;
    var v := Volume(map[ROOT := Directory([RootBlock()], None)], files, tables);
    RootBlockIsOk();
    assert Par(v) == map[ROOT := ROOT];
    assert Climbs(Par(v), ROOT, 0);
    forall p, n | Plain(n) ensures Child(v, p, n) == 0 {
      assert p in v.dirs ==> p == ROOT;
      LinearMisses([RootBlock()], n);
    }
  }

  // ---------------------------------------------------------------- single directories

  lemma DotsAreFound(hash: Hash, d: Directory, self: Word)
    requires DirOk(hash, d, self)
    ensures Linear(d.blocks, DOT) == self && Linear(d.blocks, DOTDOT) == Up(d.blocks[0])
  {
    DotsInBlock(d.blocks[0], self);
  }

  lemma DotsInBlock(s: Slots, self: Word)
    requires Dotted(s, self) && WellFormed(s)
    ensures Lookup(s, DOT) == self && Lookup(s, DOTDOT) == Up(s) != 0
  {
    hide RoundUp4;
    RoundUpFacts(9);
    RoundUpFacts(10);
    assert DOT[0] == DOTDOT[0] && |DOT| != |DOTDOT|;
    assert Live(s.rest);
  }

  /** The name that goes with the old entry. */
  function RemovedName(d: Directory, file: Word): Name
    requires FindOld(d, file).Some?
  {
    var r := First(d.blocks[FindOld(d, file).value], file);
    if r.Some? then r.value.name else []
  }

  lemma {:induction false} RemoveIsFirst(s: Slots, ino: Word, n: Name)
    requires WellFormed(s) && ino != 0 && Remove(s, ino).Some?
    ensures First(s, ino).Some? && Live(First(s, ino).value)
    ensures Removes(s, ino, n) <==> n == First(s, ino).value.name
    decreases s
  {
    if s.ino != ino {
      RemoveIsFirst(s.rest, ino, n);
    } else {
      RoundUpFacts(8 + s.nl as nat);
    }
  }

  lemma OldBlockShape(hash: Hash, d: Directory, self: Word, file: Word)
    requires DirOk(hash, d, self) && FindOld(d, file).Some? && file != 0 && file != self && file != Up(d.blocks[0])
    ensures var b := FindOld(d, file).value;
            && RemovedName(d, file) != DOT && RemovedName(d, file) != DOTDOT && RemovedName(d, file) != []
            && Linear(d.blocks, RemovedName(d, file)) == file
            && forall n :: Removes(d.blocks[b], file, n) <==> n == RemovedName(d, file)
  {
    hide Dotted, Up, Placed, PointsAtLeaves;
    var b := FindOld(d, file).value;
    var m := RemovedName(d, file);
    RemoveIsFirst(d.blocks[b], file, m);
    forall n ensures Removes(d.blocks[b], file, n) <==> n == m {
      RemoveIsFirst(d.blocks[b], file, n);
    }
    RemovedWasListed(d.blocks[b], file, m);
    forall a | 0 <= a < b ensures Lookup(d.blocks[a], m) == 0 {
      OneHomeMeans(d.blocks, a, b, m);
    }
    LinearFinds(d.blocks, m, b);
    DotsAreFound(hash, d, self);
    FirstHasName(d.blocks[b], file);
  }

  lemma {:induction false} FirstHasName(s: Slots, ino: Word)
    requires WellFormed(s) && ino != 0 && First(s, ino).Some?
    ensures First(s, ino).value.name != []
    decreases s
  {
    if s.ino != ino {
      FirstHasName(s.rest, ino);
    }
  }

  /** The old directory after the move: sound, and without the one name. */
  lemma OldDirAfter(hash: Hash, d: Directory, self: Word, file: Word, n: Name)
    requires DirOk(hash, d, self) && FindOld(d, file).Some? && file != 0 && file != self && file != Up(d.blocks[0])
    ensures var d' := WithoutEntry(d, file);
            && DirOk(hash, d', self) && Up(d'.blocks[0]) == Up(d.blocks[0])
            && Linear(d'.blocks, n) == if n == RemovedName(d, file) then 0 else Linear(d.blocks, n)
  {
    hide Dotted, Up, RemovedName, Lookup;
    var b := FindOld(d, file).value;
    OldBlockShape(hash, d, self, file);
    RemoveKeepsTiling(d.blocks[b], file);
    RemoveKeepsUnique(d.blocks[b], file);
    if b == 0 { RemoveKeepsDots(d.blocks[0], self, file); }
    LinearAfterRemove(d.blocks, b, file, n);
    var ix := if d.index.Some? then d.index.value else Index(1, []);
    OneHomeAfterRemove(d.blocks, b, file);
    if d.index.Some? { RemoveKeepsPlaced(hash, ix, d.blocks, b, file); }
  }

  lemma InsertKeepsOneHome(blocks: Blocks, b: nat, ino: Word, kind: Byte, name: Name)
    requires AllWellFormed(blocks) && OneHome(blocks) && Writable(ino, kind, name) && Absent(blocks, name)
    requires InsertInto(blocks, b, ino, kind, name).Some?
    ensures OneHome(InsertInto(blocks, b, ino, kind, name).value)
  {
    var after := InsertInto(blocks, b, ino, kind, name).value;
    forall a, n | 0 <= a < |blocks|
      ensures Lookup(after[a], n) == if a == b && n == name then ino else Lookup(blocks[a], n)
    {
      InsertIntoLookup(blocks, b, ino, kind, name, a, n);
    }
  }

  lemma InsertIntoLinear(blocks: Blocks, b: nat, ino: Word, kind: Byte, name: Name, n: Name)
    requires AllWellFormed(blocks) && Writable(ino, kind, name) && Absent(blocks, name)
    requires InsertInto(blocks, b, ino, kind, name).Some?
    ensures Linear(InsertInto(blocks, b, ino, kind, name).value, n) == if n == name then ino else Linear(blocks, n)
  {
    var after := InsertInto(blocks, b, ino, kind, name).value;
    forall a, m | 0 <= a < |blocks|
      ensures Lookup(after[a], m) == if a == b && m == name then ino else Lookup(blocks[a], m)
    {
      InsertIntoLookup(blocks, b, ino, kind, name, a, m);
    }
    LinearAfterInsert(blocks, after, b, ino, name, n);
  }

  /** The new directory after the move: sound, with the one new name. */
  lemma NewDirAfter(hash: Hash, d: Directory, self: Word, file: Word, kind: Byte, name: ShortName, n: Name)
    requires DirOk(hash, d, self) && Writable(file, kind, name) && Absent(d.blocks, name)
    requires InsertInto(d.blocks, Place(hash, d, name), file, kind, name).Some?
    ensures var d' := WithEntry(hash, d, file, kind, name);
            && DirOk(hash, d', self) && Up(d'.blocks[0]) == Up(d.blocks[0])
            && Linear(d'.blocks, n) == if n == name then file else Linear(d.blocks, n)
  {
    hide Dotted, Up, Lookup, Insert;
    var b := Place(hash, d, name);
    InsertIntoLinear(d.blocks, b, file, kind, name, n);
    InsertKeepsOneHome(d.blocks, b, file, kind, name);
    InsertKeepsTiling(d.blocks[b], file, kind, name);
    InsertKeepsUnique(d.blocks[b], file, kind, name);
    if b == 0 { InsertKeepsDots(d.blocks[0], self, file, kind, name); }
    if d.index.Some? {
      var ix := d.index.value;
      ScanPointsAtLeaf(ix.keys, hash(name), ix.first);
      InsertKeepsPlacedIff(hash, ix, d.blocks, b, file, kind, name);
    }
  }

  /** The moved directory: ".." rewritten, and everything else found as before; its index
      is right exactly when it stands the stamp. */
  lemma MovedDirAfter(hash: Hash, d: Directory, self: Word, parent: Word, stamp: Option<Word>, n: Name)
    requires DirOk(hash, d, self) && parent != 0
    ensures var d' := WithUp(d, parent, stamp);
            && BlocksOk(d', self) && Up(d'.blocks[0]) == parent
            && (n != DOTDOT ==> Linear(d'.blocks, n) == Linear(d.blocks, n))
            && (IndexOk(hash, d') <==> Survives(d, stamp))
  {
    hide Up, WellFormed, UniqueNames, Lookup, SetUp, Stamp;
    var d' := WithUp(d, parent, stamp);
    forall m ensures Lookup(d'.blocks[0], m) == if m == DOTDOT then parent else Lookup(d.blocks[0], m) {
      SetUpChangesDotDot(d.blocks[0], self, parent, m);
    }
    SetUpChangesDotDot(d.blocks[0], self, parent, n);
    DotDotIsThere(d.blocks[0], self);
    forall a, b, m | 0 <= a < b < |d.blocks| && Lookup(d'.blocks[a], m) != 0 ensures Lookup(d'.blocks[b], m) == 0 {
      assert Lookup(d.blocks[a], m) != 0;
    }
    if n != DOTDOT {
      LinearSame(d.blocks, d'.blocks, n);
    }
    if d.index.Some? {
      assert Placed(hash, d.index.value, d'.blocks);
      if stamp.Some? {
        StampKeepsLeavesIff(d.index.value, stamp.value);
      }
    }
  }

  lemma DotDotIsThere(s: Slots, self: Word)
    requires Dotted(s, self) && WellFormed(s)
    ensures Lookup(s, DOTDOT) != 0
  {
    DotsInBlock(s, self);
  }

  // ---------------------------------------------------------------- the whole move

  /** What the callers of a move provide: the entry exists, and the new name is free. */
  ghost predicate Callable(v: Volume, from: Word, file: Word, to: Word, name: ShortName) {
    && (exists n :: Plain(n) && Child(v, from, n) == file)
    && to in v.dirs && Absent(v.dirs[to].blocks, name) && Plain(name)
    && v.files !! v.dirs.Keys
  }

  /** The child of a directory is neither that directory nor the one above it. */
  lemma ChildIsBelow(hash: Hash, v: Volume, from: Word, file: Word, to: Word, name: ShortName)
    requires NamespaceOk(hash, v) && Callable(v, from, file, to, name) && from in v.dirs && file != 0 && file != ROOT
    requires file in v.dirs || file in v.files
    ensures file != from && file != Up(v.dirs[from].blocks[0])
    ensures file in v.dirs ==> Par(v)[file] == from
  {
    hide Dotted, Up, Placed, PointsAtLeaves, Linear, IsTree;
    assert Par(v)[from] == Up(v.dirs[from].blocks[0]);
    TreeParents(v);
    if file in v.dirs {
      var n :| Plain(n) && Child(v, from, n) == file;
      NoShortCycle(Par(v), file);
    }
  }

  lemma TreeParents(v: Volume)
    requires IsTree(Par(v))
    ensures forall d :: d in v.dirs ==> Par(v)[d] in v.dirs
  {
    assert Par(v).Keys == v.dirs.Keys;
  }

  /** Each directory after the move. */
  lemma DirAfterMove(hash: Hash, loc: Locator, v: Volume, from: Word, file: Word, to: Word,
                     name: ShortName, typed: bool, stamp: Option<Word>, p: Word, n: Name)
    requires NamespaceOk(hash, v) && Callable(v, from, file, to, name) && !Refuses(hash, v, from, file, to, name, typed)
    requires Located(loc, v.tables, from) && Located(loc, v.tables, to) && p in v.dirs
    ensures var v' := Moved(hash, loc, v, from, file, to, name, typed, stamp);
            && v'.dirs.Keys == v.dirs.Keys && v'.files == v.files
            && BlocksOk(v'.dirs[p], p)
            && (IndexOk(hash, v'.dirs[p]) <==> (p == file ==> Survives(v.dirs[file], stamp)))
            && Up(v'.dirs[p].blocks[0]) == (if p == file then to else Up(v.dirs[p].blocks[0]))
    ensures n != DOTDOT ==>
              Child(Moved(hash, loc, v, from, file, to, name, typed, stamp), p, n) ==
                (if p == from && n == RemovedName(v.dirs[from], file) then 0
                 else if p == to && n == name then file
                 else Child(v, p, n))
  {
    hide DirOk, BlocksOk, IndexOk, Survives, Up, Linear, IsTree, Relinked, RemovedName, WithoutEntry, WithEntry, WithUp, Place,
         Insert, Remove, FindOld, Walk, EntriesAgree, Listed, ListedOnce;
    ChildIsBelow(hash, v, from, file, to, name);
    assert DirOk(hash, v.dirs[p], p) && DirOk(hash, v.dirs[from], from) && DirOk(hash, v.dirs[to], to);
    assert p != 0 && to != 0 && v.dirs[p].blocks != [] by { DirFacts(hash, v.dirs[p], p); DirFacts(hash, v.dirs[to], to); }
    DirOkIs(hash, v.dirs[p], p);
    if p == from {
      OldDirAfter(hash, v.dirs[from], from, file, n);
      DirOkIs(hash, WithoutEntry(v.dirs[from], file), from);
    } else if p == to {
      NewDirAfter(hash, v.dirs[to], to, file, Kind(v, file, typed), name, n);
      DirOkIs(hash, WithEntry(hash, v.dirs[to], file, Kind(v, file, typed), name), to);
    } else if p == file {
      MovedDirAfter(hash, v.dirs[file], file, to, stamp, n);
    }
  }

  lemma DirFacts(hash: Hash, d: Directory, self: Word)
    requires DirOk(hash, d, self)
    ensures self != 0 && d.blocks != []
  {
  }

  lemma BlockFacts(d: Directory, self: Word)
    requires BlocksOk(d, self)
    ensures d.blocks != []
  {
  }

  lemma DirOkIs(hash: Hash, d: Directory, self: Word)
    ensures DirOk(hash, d, self) <==> BlocksOk(d, self) && IndexOk(hash, d)
  {
  }

  /** The ".." entries after a move: the moved directory's, and no other, has changed. */
  lemma ParAfterMove(hash: Hash, loc: Locator, v: Volume, from: Word, file: Word, to: Word,
                     name: ShortName, typed: bool, stamp: Option<Word>)
    requires NamespaceOk(hash, v) && Callable(v, from, file, to, name) && !Refuses(hash, v, from, file, to, name, typed)
    requires Located(loc, v.tables, from) && Located(loc, v.tables, to)
    ensures var v' := Moved(hash, loc, v, from, file, to, name, typed, stamp);
            && AllBlocksOk(v') && v'.dirs.Keys == v.dirs.Keys
            && (DirsOk(hash, v') <==> (file in v.dirs ==> Survives(v.dirs[file], stamp)))
            && Par(v') == if file in v.dirs then Par(v)[file := to] else Par(v)
  {
    hide BlocksOk, IndexOk, Survives, Up, IsTree, Moved, Refuses, Callable, EntriesAgree, Listed, ListedOnce;
    var v' := Moved(hash, loc, v, from, file, to, name, typed, stamp);
    DirAfterMove(hash, loc, v, from, file, to, name, typed, stamp, to, []) by { RefusesFacts(hash, v, from, file, to, name, typed); }
    forall p | p in v.dirs
      ensures BlocksOk(v'.dirs[p], p)
      ensures IndexOk(hash, v'.dirs[p]) <==> (p == file ==> Survives(v.dirs[file], stamp))
      ensures v.dirs[p].blocks != [] && v'.dirs[p].blocks != []
      ensures Up(v'.dirs[p].blocks[0]) == if p == file then to else Up(v.dirs[p].blocks[0])
    {
      DirAfterMove(hash, loc, v, from, file, to, name, typed, stamp, p, []);
      BlockFacts(v'.dirs[p], p);
      BlockFacts(v.dirs[p], p);
    }
  }

  lemma RefusesFacts(hash: Hash, v: Volume, from: Word, file: Word, to: Word, name: ShortName, typed: bool)
    requires !Refuses(hash, v, from, file, to, name, typed)
    ensures from in v.dirs && to in v.dirs && from != to && file != 0 && file != ROOT && FindOld(v.dirs[from], file).Some?
    ensures file in v.dirs || file in v.files
    ensures file in v.dirs ==> Walk(Climbable(v), file, to, 0) == 0
  {
  }

  /** What a name finds after the move of `file`. */
  function ChildNow(v: Volume, from: Word, file: Word, to: Word, name: Name, gone: Name, p: Word, n: Name): Word {
    if p == from && n == gone then 0 else if p == to && n == name then file else Child(v, p, n)
  }

  ghost predicate OneNameMoved(v: Volume, v': Volume, from: Word, file: Word, to: Word, name: Name, gone: Name) {
    forall p, n :: Plain(n) ==> Child(v', p, n) == ChildNow(v, from, file, to, name, gone, p, n)
  }

  /** What each name finds after a move. */
  lemma ChildAfterMove(hash: Hash, loc: Locator, v: Volume, from: Word, file: Word, to: Word,
                       name: ShortName, typed: bool, stamp: Option<Word>, p: Word, n: Name)
    requires NamespaceOk(hash, v) && Callable(v, from, file, to, name) && !Refuses(hash, v, from, file, to, name, typed)
    requires Located(loc, v.tables, from) && Located(loc, v.tables, to) && Plain(n)
    ensures FindOld(v.dirs[from], file).Some?
    ensures Child(Moved(hash, loc, v, from, file, to, name, typed, stamp), p, n) ==
              (if p == from && n == RemovedName(v.dirs[from], file) then 0
               else if p == to && n == name then file
               else Child(v, p, n))
  {
    hide Moved, NamespaceOk, Refuses, Callable, FindOld, RemovedName, Linear;
    RefusesFacts(hash, v, from, file, to, name, typed);
    if p in v.dirs {
      DirAfterMove(hash, loc, v, from, file, to, name, typed, stamp, p, n);
    } else {
      DirAfterMove(hash, loc, v, from, file, to, name, typed, stamp, to, n);
    }
  }

  /** The name that goes is the file's, and for a directory it is its only one. */
  lemma RemovedIsTheEntry(hash: Hash, v: Volume, from: Word, file: Word, to: Word, name: ShortName, typed: bool)
    requires NamespaceOk(hash, v) && Callable(v, from, file, to, name) && !Refuses(hash, v, from, file, to, name, typed)
    ensures FindOld(v.dirs[from], file).Some? && from in v.dirs
    ensures Plain(RemovedName(v.dirs[from], file)) && Child(v, from, RemovedName(v.dirs[from], file)) == file
  {
    hide Dotted, Up, IsTree, RemovedName, FindOld, Linear;
    ChildIsBelow(hash, v, from, file, to, name);
    assert DirOk(hash, v.dirs[from], from);
    OldBlockShape(hash, v.dirs[from], from, file);
  }

  /** A directory move keeps a tree: names and ".." still tell one story, the moved ".."
      names the new parent and no other has changed, each directory's blocks are sound, and
      exactly the old name is gone and the new one there. Moves of other files change no
      "..". All indexes are still right exactly when that of the moved directory, if it is
      hashed, stands the stamp over its root block. */
  lemma MoveKeepsNamespace(hash: Hash, loc: Locator, v: Volume, from: Word, file: Word, to: Word,
                           name: ShortName, typed: bool, stamp: Option<Word>)
    requires NamespaceOk(hash, v) && Callable(v, from, file, to, name) && !Refuses(hash, v, from, file, to, name, typed)
    requires Located(loc, v.tables, from) && Located(loc, v.tables, to)
    ensures FindOld(v.dirs[from], file).Some?
    ensures var v' := Moved(hash, loc, v, from, file, to, name, typed, stamp);
            var gone := RemovedName(v.dirs[from], file);
            && NamesOk(v')
            && (NamespaceOk(hash, v') <==> (file in v.dirs ==> Survives(v.dirs[file], stamp)))
            && Par(v') == (if file in v.dirs then Par(v)[file := to] else Par(v))
            && Child(v, from, gone) == file && Plain(gone)
            && OneNameMoved(v, v', from, file, to, name, gone)
  {
    hide Moved, Refuses, FindOld, RemovedName, Child, Plain, Absent, DirsOk, Climbable, AllBlocksOk, Survives, Walk, Located, IsTree, Par,
         EntriesAgree, Listed, ListedOnce;
    RefusesFacts(hash, v, from, file, to, name, typed);
    var v' := Moved(hash, loc, v, from, file, to, name, typed, stamp);
    var gone := RemovedName(v.dirs[from], file);
    ParAfterMove(hash, loc, v, from, file, to, name, typed, stamp);
    RemovedIsTheEntry(hash, v, from, file, to, name, typed);
    forall p, n | Plain(n)
      ensures Child(v', p, n) == ChildNow(v, from, file, to, name, gone, p, n)
    {
      ChildAfterMove(hash, loc, v, from, file, to, name, typed, stamp, p, n);
    }
    AllReadable(v);
    TreeAfterMove(v, from, file, to);
    ChildIsBelow(hash, v, from, file, to, name);
    NewNameWasFree(v, to, name);
    NoZero(v);
    assert NamesBefore(v, v', from, file, to, name, gone);
    EntriesAgreeAfter(v, v', from, file, to, name, gone);
    ListedAfter(v, v', from, file, to, name, gone);
    ListedOnceAfter(v, v', from, file, to, name, gone);
  }

  lemma NoZero(v: Volume)
    requires IsTree(Par(v))
    ensures 0 !in v.dirs
  {
    assert 0 !in Par(v);
  }

  lemma NewNameWasFree(v: Volume, to: Word, name: ShortName)
    requires to in v.dirs && Absent(v.dirs[to].blocks, name)
    ensures Child(v, to, name) == 0
  {
    LinearMisses(v.dirs[to].blocks, name);
  }

  lemma AllReadable(v: Volume)
    requires AllBlocksOk(v)
    ensures Climbable(v) == Par(v)
  {
    hide Dotted, Up, WellFormed, UniqueNames, OneHome;
    assert forall d :: d in v.dirs ==> v.dirs[d].blocks != [];
  }

  lemma TreeAfterMove(v: Volume, from: Word, file: Word, to: Word)
    requires IsTree(Par(v)) && to in v.dirs && file != ROOT
    requires file in v.dirs ==> Walk(Par(v), file, to, 0) == 0
    ensures file in v.dirs ==> IsTree(Par(v)[file := to])
  {
    hide IsTree;
    if file in v.dirs {
      assert file in Par(v) && to in Par(v);
      WalkExact(Par(v), file, to, 0);
      MoveKeepsTree(Par(v), file, to);
    }
  }

  /** What is known of the names around a move. */
  ghost predicate NamesBefore(v: Volume, v': Volume, from: Word, file: Word, to: Word, name: ShortName, gone: Name) {
    && EntriesAgree(v) && Listed(v) && ListedOnce(v) && v'.dirs.Keys == v.dirs.Keys
    && from in v.dirs && to in v.dirs && from != to && file != ROOT && 0 !in v.dirs
    && Par(v') == (if file in v.dirs then Par(v)[file := to] else Par(v))
    && (file in v.dirs ==> Par(v)[file] == from)
    && Plain(gone) && Plain(name) && Child(v, from, gone) == file && Child(v, to, name) == 0
    && OneNameMoved(v, v', from, file, to, name, gone)
  }

  lemma EntriesAgreeAfter(v: Volume, v': Volume, from: Word, file: Word, to: Word, name: ShortName, gone: Name)
    requires NamesBefore(v, v', from, file, to, name, gone)
    ensures EntriesAgree(v')
  {
    hide Child, Plain, Listed;
    forall p, n | Plain(n) && Child(v', p, n) in v'.dirs
      ensures Child(v', p, n) != ROOT && Par(v')[Child(v', p, n)] == p
    {
      if Child(v', p, n) == file && !(p == to && n == name) {
        OnlyEntry(v, from, file, gone, p, n);
      }
    }
  }

  lemma ListedAfter(v: Volume, v': Volume, from: Word, file: Word, to: Word, name: ShortName, gone: Name)
    requires NamesBefore(v, v', from, file, to, name, gone)
    ensures Listed(v')
  {
    hide Child, Plain, EntriesAgree, ListedOnce;
    forall d | d in v'.dirs && d != ROOT
      ensures exists n :: Plain(n) && Child(v', Par(v')[d], n) == d
    {
      if d == file {
        assert Child(v', to, name) == d;
      } else {
        var n :| Plain(n) && Child(v, Par(v)[d], n) == d;
        assert Child(v', Par(v')[d], n) == d;
      }
    }
  }

  lemma ListedOnceAfter(v: Volume, v': Volume, from: Word, file: Word, to: Word, name: ShortName, gone: Name)
    requires NamesBefore(v, v', from, file, to, name, gone)
    ensures ListedOnce(v')
  {
    hide Child, Plain, Listed;
    forall p, n, m | Plain(n) && Plain(m) && Child(v', p, n) in v'.dirs && Child(v', p, n) == Child(v', p, m)
      ensures n == m
    {
      if p == to && (n == name || m == name) {
        NoSecondName(v, from, file, to, if n == name then m else n);
      }
    }
  }

  lemma OnlyEntry(v: Volume, from: Word, file: Word, gone: Name, p: Word, n: Name)
    requires EntriesAgree(v) && ListedOnce(v) && file in v.dirs && Plain(gone) && Plain(n)
    requires Child(v, from, gone) == file && Child(v, p, n) == file
    ensures p == from && n == gone
  {
  }

  lemma NoSecondName(v: Volume, from: Word, file: Word, to: Word, n: Name)
    requires EntriesAgree(v) && file in v.dirs && Par(v)[file] == from && from != to && Plain(n)
    ensures Child(v, to, n) != file
  {
  }

  // ---------------------------------------------------------------- link counts

  function Subdirs(par: Parents, p: Word): set<Word> {
    set c | c in par && c != ROOT && par[c] == p
  }

  /** Every directory's link count is two more than its number of subdirectories. */
  ghost predicate LinksAgree(loc: Locator, v: Volume) {
    forall p :: p in v.dirs ==>
      Located(loc, v.tables, p) && Links(loc, v.tables, p) == 2 + |Subdirs(Par(v), p)|
  }

  /** A directory move keeps all link counts right exactly when the new parent's fits 16
      bits. */
  lemma MoveKeepsLinks(hash: Hash, loc: Locator, v: Volume, from: Word, file: Word, to: Word,
                       name: ShortName, typed: bool, stamp: Option<Word>)
    requires NamespaceOk(hash, v) && Callable(v, from, file, to, name) && !Refuses(hash, v, from, file, to, name, typed)
    requires LinksAgree(loc, v) && OwnSlots(loc) && file in v.dirs
    ensures Located(loc, v.tables, from) && Located(loc, v.tables, to)
    ensures LinksAgree(loc, Moved(hash, loc, v, from, file, to, name, typed, stamp)) <==> |Subdirs(Par(v), to)| + 3 < 0x1_0000
  {
    hide NamespaceOk, Refuses, Relinked, Callable, OwnSlots, Links, Moved, Par, Located, Subdirs;
    RefusesFacts(hash, v, from, file, to, name, typed);
    ParAfterMove(hash, loc, v, from, file, to, name, typed, stamp);
    MovedTables(hash, loc, v, from, file, to, name, typed, stamp);
    ParKeys(v);
    ParentOfMoved(hash, v, from, file, to, name);
    var v' := Moved(hash, loc, v, from, file, to, name, typed, stamp);
    forall p | p in v'.dirs
      ensures Located(loc, v'.tables, p)
      ensures Links(loc, v'.tables, p) == 2 + |Subdirs(Par(v'), p)| <==> (p == to ==> |Subdirs(Par(v), to)| + 3 < 0x1_0000)
    {
      LinksAfter(loc, v.tables, Par(v), from, file, to, p);
    }
  }

  lemma MovedTables(hash: Hash, loc: Locator, v: Volume, from: Word, file: Word, to: Word, name: ShortName, typed: bool,
                    stamp: Option<Word>)
    requires !Refuses(hash, v, from, file, to, name, typed)
    requires Located(loc, v.tables, from) && Located(loc, v.tables, to)
    ensures Moved(hash, loc, v, from, file, to, name, typed, stamp).tables ==
            if file in v.dirs then Relinked(loc, v.tables, from, to) else v.tables
  {
    hide Refuses, Relinked, Located;
    RefusesFacts(hash, v, from, file, to, name, typed);
  }

  lemma LinksAfter(loc: Locator, tables: map<nat, seq<Word>>, par: Parents, from: Word, file: Word,
                   to: Word, p: Word)
    requires OwnSlots(loc) && file in par && file != ROOT && par[file] == from && from != to
    requires forall i :: i in {from, to, p} ==>
               Located(loc, tables, i) && Links(loc, tables, i) == 2 + |Subdirs(par, i)|
    ensures Located(loc, Relinked(loc, tables, from, to), p)
    ensures Links(loc, Relinked(loc, tables, from, to), p) == 2 + |Subdirs(par[file := to], p)|
            <==> (p == to ==> |Subdirs(par, to)| + 3 < 0x1_0000)
  {
    hide Relinked, Links, Located, Subdirs, OwnSlots;
    RelinkedExact(loc, tables, from, to, p);
    SubdirsAfter(par, from, file, to, p);
  }

  lemma ParKeys(v: Volume)
    ensures Par(v).Keys == v.dirs.Keys
  {
  }

  lemma ParentOfMoved(hash: Hash, v: Volume, from: Word, file: Word, to: Word, name: ShortName)
    requires NamespaceOk(hash, v) && Callable(v, from, file, to, name) && from in v.dirs && file in v.dirs
    requires file != 0 && file != ROOT
    ensures Par(v)[file] == from
  {
    ChildIsBelow(hash, v, from, file, to, name);
  }

  lemma SubdirsAfter(par: Parents, from: Word, file: Word, to: Word, p: Word)
    requires file in par && file != ROOT && par[file] == from && from != to
    ensures |Subdirs(par[file := to], p)| ==
            |Subdirs(par, p)| + (if p == to then 1 else if p == from then -1 else 0)
  {
    var after := par[file := to];
    if p == from {
      assert Subdirs(after, p) == Subdirs(par, p) - {file};
    } else if p == to {
      assert Subdirs(after, p) == Subdirs(par, p) + {file};
    } else {
      assert Subdirs(after, p) == Subdirs(par, p);
    }
  }
}
