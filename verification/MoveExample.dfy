/** A move that breaks an index: a hashed directory of 123 leaves on a volume with metadata
    checksums. */
module MoveExample {
  import opened Words
  import opened DirSlots
  import opened HTree
  import opened Ancestry
  import opened Moves

  const SUBDIR: Word := 12
  const TARGET: Word := 13
  const A: Name := [0x61]
  const B: Name := [0x62]

  function Record(ino: Word, rec: nat, name: ShortName, rest: Slots): Slots {
    Slot(ino, rec, |name|, FT_DIR, name, rest)
  }

  function Tail(): Slots {
    Slot(0, 12, 0, SENTINEL_KIND, [], End)
  }

  function EmptyLeaf(): Slots {
    Slot(0, 1012, 0, 0, [], Tail())
  }

  function WithDots(self: Word, rec: nat, rest: Slots): Slots {
    Record(self, 12, DOT, Record(ROOT, rec, DOTDOT, rest))
  }

  /** The root directory with two subdirectories. */
  function RootRecords(): Slots {
    WithDots(ROOT, 12, Record(SUBDIR, 12, A, Record(TARGET, 976, B, Tail())))
  }

  function TargetRecords(): Slots {
    WithDots(TARGET, 1000, Tail())
  }

  /** The root block of the hashed subdirectory: ".." covers the index. */
  function IndexRecords(): Slots {
    WithDots(SUBDIR, 1012, End)
  }

  /** A full index: 123 entries, one leaf each. */
  function FullIndex(): Index {
    Index(1, seq(122, i requires 0 <= i < 122 => (2 * i + 2, i + 2)))
  }

  function FullBlocks(): Blocks {
    [IndexRecords()] + seq(123, _ => EmptyLeaf())
  }

  function FullVolume(tables: map<nat, seq<Word>>): Volume {
    Volume(map[ROOT := Directory([RootRecords()], None),
               SUBDIR := Directory(FullBlocks(), Some(FullIndex())),
               TARGET := Directory([TargetRecords()], None)], {}, tables)
  }

  ghost predicate Sound(s: Slots) {
    WellFormed(s) && UniqueNames(s)
  }

  lemma RecordFacts(ino: Word, rec: nat, name: ShortName, rest: Slots)
    requires ino != 0 && name != [] && RoundUp4(8 + |name|) <= rec && Sound(rest) && Lookup(rest, name) == 0
    ensures var s := Record(ino, rec, name, rest);
            Sound(s) && Total(s) == rec + Total(rest)
            && forall n :: Lookup(s, n) == if n == name then ino else Lookup(rest, n)
  {
  }

  lemma DeletedFacts(rec: nat, kind: Byte, rest: Slots)
    requires rec >= 8 && Sound(rest) && (kind == SENTINEL_KIND ==> rest.End?)
    ensures var s := Slot(0, rec, 0, kind, [], rest);
            && Sound(s) && Total(s) == rec + Total(rest) && forall n :: Lookup(s, n) == Lookup(rest, n)
  {
  }

  lemma TailFacts()
    ensures Sound(Tail()) && Total(Tail()) == 12 && forall n :: Lookup(Tail(), n) == 0
    ensures Sound(EmptyLeaf()) && Total(EmptyLeaf()) == 1024 && forall n :: Lookup(EmptyLeaf(), n) == 0
  {
    DeletedFacts(12, SENTINEL_KIND, End);
    DeletedFacts(1012, 0, Tail());
  }

  lemma NamesDiffer()
    ensures Plain(A) && Plain(B) && A != B && DOT != DOTDOT && DOT != [] && DOTDOT != []
    ensures !Plain(DOT) && !Plain(DOTDOT)
  {
    assert A[0] == 0x61 && B[0] == 0x62 && DOT[0] == 0x2E && DOTDOT[0] == 0x2E && |DOT| == 1 && |DOTDOT| == 2;
  }

  lemma DotsFacts(self: Word, rec: nat, rest: Slots)
    requires self != 0 && rec >= 12 && Sound(rest) && Lookup(rest, DOT) == 0 && Lookup(rest, DOTDOT) == 0
    ensures var s := WithDots(self, rec, rest);
            && Sound(s) && Dotted(s, self) && Total(s) == 12 + rec + Total(rest) && Up(s) == ROOT
            && forall n :: Plain(n) ==> Lookup(s, n) == Lookup(rest, n)
  {
    hide Sound, Lookup;
    NamesDiffer();
    assert RoundUp4(9) == 12 && RoundUp4(10) == 12;
    RecordFacts(ROOT, rec, DOTDOT, rest);
    RecordFacts(self, 12, DOT, Record(ROOT, rec, DOTDOT, rest));
  }

  lemma RootFacts()
    ensures Sound(RootRecords()) && Dotted(RootRecords(), ROOT) && Total(RootRecords()) == 1024 && Up(RootRecords()) == ROOT
    ensures forall n :: Plain(n) ==> Lookup(RootRecords(), n) == if n == A then SUBDIR else if n == B then TARGET else 0
  {
    hide Sound, Lookup, Plain, Record, WithDots, Tail, EmptyLeaf, Dotted, Up, Total;
    TailFacts();
    NamesDiffer();
    assert RoundUp4(9) == 12;
    RecordFacts(TARGET, 976, B, Tail());
    RecordFacts(SUBDIR, 12, A, Record(TARGET, 976, B, Tail()));
    PlainIsNoDot();
    DotsFacts(ROOT, 12, Record(SUBDIR, 12, A, Record(TARGET, 976, B, Tail())));
  }

  lemma PlainIsNoDot()
    ensures DOT != A && DOT != B && DOTDOT != A && DOTDOT != B
  {
    NamesDiffer();
  }

  lemma OtherFacts()
    ensures Sound(TargetRecords()) && Dotted(TargetRecords(), TARGET) && Up(TargetRecords()) == ROOT
    ensures Sound(IndexRecords()) && Dotted(IndexRecords(), SUBDIR) && Up(IndexRecords()) == ROOT
    ensures Total(TargetRecords()) == Total(IndexRecords()) == 1024
    ensures forall n :: Plain(n) ==> Lookup(TargetRecords(), n) == 0 && Lookup(IndexRecords(), n) == 0
  {
    hide Lookup, Plain, Sound, Record, WithDots, Tail, EmptyLeaf, Dotted, Up, Total;
    TailFacts();
    EndFacts();
    DotsFacts(TARGET, 1000, Tail());
    DotsFacts(SUBDIR, 1012, End);
  }

  lemma EndFacts()
    ensures Sound(End) && Total(End) == 0 && forall n :: Lookup(End, n) == 0
  {
  }

  /** What every plain name finds in the example. */
  lemma Children(tables: map<nat, seq<Word>>, p: Word, n: Name)
    requires Plain(n)
    ensures Child(FullVolume(tables), p, n) ==
            if p == ROOT && n == A then SUBDIR else if p == ROOT && n == B then TARGET else 0
  {
    hide Lookup, Plain, RootRecords, TargetRecords, IndexRecords, EmptyLeaf, Sound, Dotted, Up, Total, Linear;
    RootFacts();
    OtherFacts();
    TailFacts();
    if p == SUBDIR {
      LinearMisses(FullBlocks(), n);
    } else if p == TARGET {
      LinearMisses([TargetRecords()], n);
    } else if p == ROOT {
      if Lookup(RootRecords(), n) == 0 {
        LinearMisses([RootRecords()], n);
      } else {
        LinearFinds([RootRecords()], n, 0);
      }
    }
  }

  lemma OneBlockOk(s: Slots, self: Word)
    requires Sound(s) && Dotted(s, self)
    ensures BlocksOk(Directory([s], None), self)
  {
    hide Lookup, WellFormed, UniqueNames, Dotted;
  }

  lemma HashedOk(hash: Hash)
    ensures BlocksOk(Directory(FullBlocks(), Some(FullIndex())), SUBDIR)
    ensures IndexOk(hash, Directory(FullBlocks(), Some(FullIndex())))
  {
    hide Lookup, WellFormed, UniqueNames, Dotted, IndexRecords, EmptyLeaf, Up, Total;
    OtherFacts();
    TailFacts();
    assert forall s <- FullBlocks() :: s == IndexRecords() || s == EmptyLeaf();
  }

  lemma DirectoriesOk(hash: Hash, tables: map<nat, seq<Word>>)
    ensures DirsOk(hash, FullVolume(tables)) && AllBlocksOk(FullVolume(tables))
  {
    hide Lookup, RootRecords, TargetRecords, FullBlocks, Sound, Dotted, Up, Total, BlocksOk, IndexOk;
    RootFacts();
    OtherFacts();
    OneBlockOk(RootRecords(), ROOT);
    OneBlockOk(TargetRecords(), TARGET);
    HashedOk(hash);
    forall d | d in FullVolume(tables).dirs
      ensures BlocksOk(FullVolume(tables).dirs[d], d) && IndexOk(hash, FullVolume(tables).dirs[d])
    {
      LinearIndexOk(hash, FullVolume(tables).dirs[d]);
    }
  }

  lemma LinearIndexOk(hash: Hash, d: Directory)
    ensures d.index.None? ==> IndexOk(hash, d)
  {
  }

  lemma ParentsAreRoot(tables: map<nat, seq<Word>>)
    ensures Par(FullVolume(tables)) == map[ROOT := ROOT, SUBDIR := ROOT, TARGET := ROOT]
    ensures IsTree(Par(FullVolume(tables)))
  {
    hide Up, RootRecords, TargetRecords, IndexRecords, EmptyLeaf;
    RootFacts();
    OtherFacts();
    var par := Par(FullVolume(tables));
    assert par == map[ROOT := ROOT, SUBDIR := ROOT, TARGET := ROOT];
    assert Climbs(par, ROOT, 0) && Climbs(par, SUBDIR, 1) && Climbs(par, TARGET, 1);
  }

  lemma ExampleIsSound(hash: Hash, tables: map<nat, seq<Word>>)
    ensures NamespaceOk(hash, FullVolume(tables))
  {
    var v := FullVolume(tables);
    hide Child, Plain, FullVolume, DirsOk, AllBlocksOk, IsTree, Par;
    DirectoriesOk(hash, tables);
    ParentsAreRoot(tables);
    forall p, n | Plain(n)
      ensures Child(v, p, n) == if p == ROOT && n == A then SUBDIR else if p == ROOT && n == B then TARGET else 0
    {
      Children(tables, p, n);
    }
    NamesDiffer();
    assert v.dirs.Keys == {ROOT, SUBDIR, TARGET} by { Keys(tables); }
    assert Child(v, ROOT, A) == SUBDIR && Child(v, ROOT, B) == TARGET;
  }

  lemma Keys(tables: map<nat, seq<Word>>)
    ensures FullVolume(tables).dirs.Keys == {ROOT, SUBDIR, TARGET} && FullVolume(tables).files == {}
  {
  }

  lemma FindsTheRecord()
    ensures Remove(RootRecords(), SUBDIR).Some?
  {
    hide Lookup, Total, WellFormed;
    var s := RootRecords();
    assert s.rest.rest.ino == SUBDIR && s.rest.ino == ROOT && s.ino == ROOT;
    assert RemoveAfter(s.rest, SUBDIR).Some?;
    assert RemoveAfter(s, SUBDIR).Some?;
  }

  lemma HasRoom()
    ensures Insert(TargetRecords(), SUBDIR, FT_DIR, A).Some?
  {
    hide Lookup, Total, WellFormed;
    var t := TargetRecords();
    assert RoundUp4(9) == 12 && RoundUp4(10) == 12;
    assert HasSpace(t.rest, 12) && !HasSpace(t, 12);
    assert Insert(t.rest, SUBDIR, FT_DIR, A).Some?;
  }

  lemma MoveIsAccepted(hash: Hash, tables: map<nat, seq<Word>>)
    ensures Callable(FullVolume(tables), ROOT, SUBDIR, TARGET, A)
    ensures !Refuses(hash, FullVolume(tables), ROOT, SUBDIR, TARGET, A, true)
  {
    hide Lookup, Remove, Insert, RootRecords, TargetRecords, IndexRecords, EmptyLeaf, Par, Dotted, Up, Total, Plain, Child;
    var v := FullVolume(tables);
    NamesDiffer();
    Children(tables, ROOT, A);
    OtherFacts();
    ParentsAreRoot(tables);
    assert Walk(Par(v), SUBDIR, ROOT, 1) == 0;
    assert Walk(Par(v), SUBDIR, TARGET, 0) == 0;
    FindsTheRecord();
    HasRoom();
  }

  lemma Leaves(h: Word, sum: Word)
    requires h >= 244
    ensures FindLeaf(FullIndex(), h) == 123 && FindLeaf(Stamp(FullIndex(), sum), h) == 0
  {
    ScanPast(FullIndex().keys, h, 1, 121);
    ScanPast(Stamp(FullIndex(), sum).keys, h, 1, 121);
  }

  lemma IndexAfter(hash: Hash, loc: Locator, tables: map<nat, seq<Word>>, stamp: Option<Word>)
    requires Located(loc, tables, ROOT) && Located(loc, tables, TARGET)
    requires !Refuses(hash, FullVolume(tables), ROOT, SUBDIR, TARGET, A, true)
    ensures var v' := Moved(hash, loc, FullVolume(tables), ROOT, SUBDIR, TARGET, A, true, stamp);
            SUBDIR in v'.dirs && v'.dirs[SUBDIR].index == WithUp(FullVolume(tables).dirs[SUBDIR], TARGET, stamp).index
  {
    hide RootRecords, TargetRecords, FullBlocks, FullIndex, WithUp, Relinked, Located, Refuses;
    RefusesFacts(hash, FullVolume(tables), ROOT, SUBDIR, TARGET, A, true);
  }

  /** The move: a sound volume, an accepted call, and afterwards an index that sends every
      hash from its last key on to the root block. */
  lemma MoveBreaksFullIndex(hash: Hash, loc: Locator, tables: map<nat, seq<Word>>, sum: Word, h: Word)
    requires Located(loc, tables, ROOT) && Located(loc, tables, TARGET) && h >= 244
    ensures var v := FullVolume(tables);
            && NamespaceOk(hash, v) && Callable(v, ROOT, SUBDIR, TARGET, A) && !Refuses(hash, v, ROOT, SUBDIR, TARGET, A, true)
            && FindLeaf(v.dirs[SUBDIR].index.value, h) == 123
            && var v' := Moved(hash, loc, v, ROOT, SUBDIR, TARGET, A, true, Some(sum));
            && !NamespaceOk(hash, v')
            && SUBDIR in v'.dirs && v'.dirs[SUBDIR].index.Some? && FindLeaf(v'.dirs[SUBDIR].index.value, h) == 0
  {
    var v := FullVolume(tables);
    ExampleIsSound(hash, tables);
    MoveIsAccepted(hash, tables);
    hide NamespaceOk, NamesOk, Callable, Refuses, FullBlocks, RootRecords, TargetRecords, Par, IsTree, RemovedName, OneNameMoved,
         FindOld, Moved, Child, Plain, Linear, Stamp, FindLeaf, Located;
    MoveKeepsNamespace(hash, loc, v, ROOT, SUBDIR, TARGET, A, true, Some(sum));
    Leaves(h, sum);
    IndexAfter(hash, loc, tables, Some(sum));
  }
}
