/** Directory records as they are drawn: where the fields of an entry lie, on which offsets
    entries begin, and what a move writes for its new name. */
module DirLayout {
  import opened Words
  import opened Bytes
  import opened LogWalk
  import opened CrashSafety
  import opened DirSlots
  import opened DirBlock
  import opened HTree
  import opened SmallBlocks
  import opened Moves
  import M = Moves
  import Ancestry
  import N = NamespaceOnDisk

  // ---------------------------------------------------------------- one record

  /** A record: inode in four bytes, record length in two, name length and type in one each,
      and the name from offset 8 on. Numbers have their least significant byte first. */
  predicate IsRecord(b: Block, off: nat, rec: nat, ino: Word, kind: Byte, name: Name) {
    && 8 + |name| <= rec && off + rec <= |b|
    && Little(b, off, 4) == ino && Little(b, off + 4, 2) == rec && b[off + 6] == |name| && b[off + 7] == kind
    && b[off + 8..off + 8 + |name|] == name
  }

  /** Record lengths lead from `off` to `to`. */
  predicate Chain(b: Block, off: nat, to: nat)
    decreases |b| - off
  {
    off == to || (off + 8 <= |b| && Little(b, off + 4, 2) >= 8 && Chain(b, off + Little(b, off + 4, 2), to))
  }

  predicate HasSlot(s: Slots, ino: Word, kind: Byte, name: Name) {
    s.Slot? && ((s.ino == ino && s.kind == kind && s.name == name) || HasSlot(s.rest, ino, kind, name))
  }

  /** Some record of the block, reached from its start, is this one. */
  ghost predicate Records(b: Block, off: nat, ino: Word, kind: Byte, name: Name) {
    exists at: nat, rec: nat :: Chain(b, off, at) && IsRecord(b, at, rec, ino, kind, name)
  }

  lemma LiveIsDrawn(b: Block, off: nat)
    requires Header(b, off) && WellFormed(Parse(b, off)) && Parse(b, off).ino != 0
    ensures var s := Parse(b, off); IsRecord(b, off, s.rec, s.ino, s.kind, s.name)
  {
    hide Little, Le32, Le16, RoundUp4;
    LittleFields(b, off);
    LittleHalf(b, off + 4);
    LiveNameFits(Parse(b, off));
  }

  lemma LiveNameFits(s: Slots)
    requires s.Slot? && WellFormed(s) && s.ino != 0
    ensures 8 + |s.name| <= s.rec && |s.name| == s.nl
  {
  }

  /** A live record of the parsed list is drawn in the block. */
  lemma {:induction false} SlotIsDrawn(b: Block, off: nat, ino: Word, kind: Byte, name: Name)
    requires WellFormed(Parse(b, off)) && HasSlot(Parse(b, off), ino, kind, name) && ino != 0
    ensures Records(b, off, ino, kind, name)
    decreases |b| - off
  {
    hide Little, Le32, Le16, IsRecord, At;
    var s := Parse(b, off);
    if s.ino == ino && s.kind == kind && s.name == name {
      LiveIsDrawn(b, off);
      assert Chain(b, off, off);
    } else {
      var next := off + Le16(b, off + 4);
      LittleHalf(b, off + 4);
      SlotIsDrawn(b, next, ino, kind, name);
      var at: nat, rec: nat :| Chain(b, next, at) && IsRecord(b, at, rec, ino, kind, name);
      assert Chain(b, off, at);
    }
  }

  /** And a drawn record is read as such. */
  lemma RecordIsRead(b: Block, off: nat, rec: nat, ino: Word, kind: Byte, name: Name, rest: Slots)
    requires IsRecord(b, off, rec, ino, kind, name) && rec >= 8 && ino != 0
    ensures Header(b, off) && At(b, off, rest) == Slot(ino, rec, |name|, kind, name, rest)
  {
    hide Little, Le32, Le16;
    LittleFields(b, off);
    LittleHalf(b, off + 4);
  }

  /** The first block of a directory: "." in twelve bytes, and from there on "..", with the
      inode of the directory above. */
  lemma DotsAreDrawn(b: Block, self: Word)
    requires WellFormed(Parse(b, 0)) && Dotted(Parse(b, 0), self)
    ensures |b| >= 20 && IsRecord(b, 0, 12, self, b[7], [0x2E])
    ensures IsRecord(b, 12, Little(b, 16, 2), Up(Parse(b, 0)), b[19], [0x2E, 0x2E])
  {
    hide Little, Le32, Le16, At, IsRecord;
    DottedHeaders(b, self);
    assert Parse(b, 0) == At(b, 0, Parse(b, 12)) && Parse(b, 12) == Parse(b, 0).rest;
    LiveIsDrawn(b, 0);
    LiveIsDrawn(b, 12);
    LittleHalf(b, 16);
    KindAt(b, 0, Parse(b, 12));
    KindAt(b, 12, Parse(b, 12).rest);
  }

  lemma KindAt(b: Block, off: nat, rest: Slots)
    requires Header(b, off)
    ensures off + 8 <= |b| && At(b, off, rest).kind == b[off + 7]
  {
  }

  lemma {:induction false} InsertedHas(s: Slots, ino: Word, kind: Byte, name: Name)
    requires |name| <= 255 && Insert(s, ino, kind, name).Some?
    ensures HasSlot(Insert(s, ino, kind, name).value, ino, kind, name)
    decreases s
  {
    hide RoundUp4;
    if !HasSpace(s, RoundUp4(8 + |name|)) {
      InsertedHas(s.rest, ino, kind, name);
    }
  }

  /** The checksum record: the last twelve bytes, without an inode, of type 0xDE. */
  lemma TailDrawn(b: Block, sum: Word)
    requires |b| >= 12
    ensures var r, at := WithTail(b, sum), |b| - 12;
            && Little(r, at, 4) == 0 && Little(r, at + 4, 2) == 12 && r[at + 6] == 0 && r[at + 7] == 0xDE
            && Little(r, at + 8, 4) == sum && r[..at] == b[..at]
  {
    hide PackLittle, PackLittle16, Le32, Le16, Little;
    var r, at, f := WithTail(b, sum), |b| - 12, TailBytes(sum);
    LittleFields(r, at);
    LittleHalf(r, at + 4);
    LittleFields(r, at + 8);
    assert r[at..at + 12] == f;
    SubSlice(r, at, 12, 0, 4);
    SubSlice(r, at, 12, 4, 6);
    SubSlice(r, at, 12, 8, 12);
    assert f[0..4] == PackLittle(0) && f[4..6] == PackLittle16(12) && f[8..12] == PackLittle(sum);
    LittleRoundTrip(r, at, 0);
    LittleRoundTrip16(r, at + 4, 12);
    LittleRoundTrip(r, at + 8, sum);
    assert r[at + 6] == f[6] && r[at + 7] == f[7];
  }

  /** Stamping writes that record with the checksum of the block as it then is, its last four
      bytes taken as zero, and no byte before it. */
  lemma StampDrawn(b: Block, csum: Block -> Word)
    requires |b| >= 12
    ensures var r, at := Stamped(b, true, csum), |b| - 12;
            && Little(r, at, 4) == 0 && Little(r, at + 4, 2) == 12 && r[at + 6] == 0 && r[at + 7] == 0xDE
            && Little(r, at + 8, 4) == csum(r[..at + 8] + [0, 0, 0, 0]) && r[..at] == b[..at]
  {
    hide PackLittle16, Le32, Le16, Little;
    var sum := csum(WithTail(b, 0));
    TailDrawn(b, sum);
    var at := |b| - 12;
    assert PackLittle(0) == [0, 0, 0, 0];
    assert WithTail(b, sum) == b[..at] + TailBytes(sum);
    assert WithTail(b, sum)[..at + 8] + [0, 0, 0, 0] == WithTail(b, 0);
  }

  // ---------------------------------------------------------------- alignment

  /** Every record length is a multiple of four. */
  predicate Aligned(s: Slots) {
    s.Slot? ==> s.rec % 4 == 0 && Aligned(s.rest)
  }

  /** A name takes up the least multiple of four that holds it and eight bytes more. */
  lemma SizeIsLeast(n: nat)
    ensures RoundUp4(n) % 4 == 0 && n <= RoundUp4(n) < n + 4
  {
  }

  lemma {:induction false} InsertKeepsAligned(s: Slots, ino: Word, kind: Byte, name: Name)
    requires |name| <= 255 && Aligned(s) && Insert(s, ino, kind, name).Some?
    ensures Aligned(Insert(s, ino, kind, name).value)
    decreases s
  {
    if HasSpace(s, RoundUp4(8 + |name|)) {
      SizeIsLeast(8 + s.nl);
    } else {
      InsertKeepsAligned(s.rest, ino, kind, name);
    }
  }

  lemma {:induction false} RemoveAfterKeepsAligned(s: Slots, ino: Word)
    requires s.Slot? && Aligned(s) && RemoveAfter(s, ino).Some?
    ensures Aligned(RemoveAfter(s, ino).value)
    decreases s
  {
    if s.rest.ino != ino {
      RemoveAfterKeepsAligned(s.rest, ino);
    }
  }

  lemma RemoveKeepsAligned(s: Slots, ino: Word)
    requires Aligned(s) && Remove(s, ino).Some?
    ensures Aligned(Remove(s, ino).value)
  {
    if s.ino != ino {
      RemoveAfterKeepsAligned(s, ino);
    }
  }

  /** So every record of such a block begins on a multiple of four. */
  lemma {:induction false} RecordsAreAligned(b: Block, off: nat, to: nat)
    requires Aligned(Parse(b, off)) && off % 4 == 0 && Chain(b, off, to) && to < |b| && Total(Parse(b, off)) == |b| - off
    ensures to % 4 == 0
    decreases |b| - off
  {
    hide Little, Le16, At;
    if off != to {
      LittleHalf(b, off + 4);
      assert Header(b, off);
      RecordsAreAligned(b, off + Le16(b, off + 4), to);
    }
  }

  // ---------------------------------------------------------------- what a move writes

  /** The type of the new entry: 2 for a directory, 1 for any other file, and 0 on volumes
      whose entries have no type. */
  function TypeOf(s: N.Store, file: Word): Byte {
    if !s.typed then 0 else if file in s.dirs then 2 else 1
  }

  /** Once a move is in place, the block of the new parent that it chose holds a record with the
      file's inode, its type and the new name, on a multiple of four if all records were. */
  lemma {:induction false} MoveWritesRecord(hash: Hash, s: N.Store, geo: Geometry, d: Volume1024, from: Word, file: Word, to: Word,
                                            name: M.ShortName, now: Word)
    requires N.MoveReady(s, geo, d, from, file, to)
    requires !M.Refuses(hash, N.Namespace(s, d), from, file, to, name, s.typed)
    ensures N.Sited(s, d, from, N.OldAt(s, d, from, file), file, to, N.NewAt(hash, s, d, to, name))
    ensures var n := s.dirs[to].blocks[N.NewAt(hash, s, d, to, name)];
            var b := After(N.TxOf(hash, s, d, from, file, to, name, now), d)[n];
            && Records(b, 0, file, TypeOf(s, file), name)
            && (Aligned(Parse(d[n], 0)) ==>
                  exists at: nat, rec: nat :: Chain(b, 0, at) && at % 4 == 0 && IsRecord(b, at, rec, file, TypeOf(s, file), name))
  {
    hide N.Namespace, N.TxOf, After, Parse, M.Refuses, M.Moved, N.ContentOk, M.Located, Insert, Aligned, Records, WellFormed, Total;
    N.MoveOnDisk(hash, s, geo, d, from, file, to, name, now);
    NewBlockIs(hash, s, geo, d, from, file, to, name, now);
    var n := s.dirs[to].blocks[N.NewAt(hash, s, d, to, name)];
    var b := After(N.TxOf(hash, s, d, from, file, to, name, now), d)[n];
    var was := Parse(d[n], 0);
    InsertedHas(was, file, TypeOf(s, file), name);
    SlotIsDrawn(b, 0, file, TypeOf(s, file), name);
    if Aligned(was) {
      InsertKeepsAligned(was, file, TypeOf(s, file), name);
      AlignedRecord(b, file, TypeOf(s, file), name);
    }
  }

  lemma AlignedRecord(b: Block, ino: Word, kind: Byte, name: Name)
    requires Records(b, 0, ino, kind, name) && Aligned(Parse(b, 0)) && Tiled(b)
    ensures exists at: nat, rec: nat :: Chain(b, 0, at) && at % 4 == 0 && IsRecord(b, at, rec, ino, kind, name)
  {
    hide IsRecord, Aligned, WellFormed;
    var at: nat, rec: nat :| Chain(b, 0, at) && IsRecord(b, at, rec, ino, kind, name);
    assert at < |b| by { RecordInside(b, at, rec, ino, kind, name); }
    RecordsAreAligned(b, 0, at);
  }

  lemma RecordInside(b: Block, at: nat, rec: nat, ino: Word, kind: Byte, name: Name)
    requires IsRecord(b, at, rec, ino, kind, name)
    ensures at < |b|
  {
  }

  lemma {:induction false} NewBlockIs(hash: Hash, s: N.Store, geo: Geometry, d: Volume1024, from: Word, file: Word, to: Word,
                                      name: M.ShortName, now: Word)
    requires N.MoveReady(s, geo, d, from, file, to)
    requires !M.Refuses(hash, N.Namespace(s, d), from, file, to, name, s.typed)
    requires N.Sited(s, d, from, N.OldAt(s, d, from, file), file, to, N.NewAt(hash, s, d, to, name))
    requires var d' := After(N.TxOf(hash, s, d, from, file, to, name, now), d);
             && N.ContentOk(s, d') && M.Located(s.loc, N.Namespace(s, d).tables, from) && M.Located(s.loc, N.Namespace(s, d).tables, to)
             && N.Namespace(s, d') == M.Moved(hash, s.loc, N.Namespace(s, d), from, file, to, name, s.typed, N.StampIn(s, d, file, to))
    ensures file != 0
    ensures var n := s.dirs[to].blocks[N.NewAt(hash, s, d, to, name)];
            var d' := After(N.TxOf(hash, s, d, from, file, to, name, now), d);
            && Tiled(d'[n]) && Insert(Parse(d[n], 0), file, TypeOf(s, file), name) == Some(Parse(d'[n], 0))
  {
    hide N.TxOf, After, Parse, Insert, N.BlockOk, N.StoreOk, Ancestry.Walk, M.Moved, M.Refuses, N.Namespace, N.DirAt, FindOld, Tiled,
         M.Place, N.ContentOk;
    var v, j := N.Namespace(s, d), N.NewAt(hash, s, d, to, name);
    var d' := After(N.TxOf(hash, s, d, from, file, to, name, now), d);
    MovedTo(hash, s.loc, v, from, file, to, name, s.typed, N.StampIn(s, d, file, to));
    BlockOf(s, d, to);
    BlockOf(s, d', to);
  }

  lemma MovedTo(hash: Hash, loc: M.Locator, v: M.Volume, from: Word, file: Word, to: Word, name: M.ShortName, typed: bool,
                stamp: Option<Word>)
    requires !M.Refuses(hash, v, from, file, to, name, typed)
    requires M.Located(loc, v.tables, from) && M.Located(loc, v.tables, to)
    ensures file != 0 && to in v.dirs && M.Kind(v, file, typed) == (if !typed then 0 else if file in v.dirs then 2 else 1)
    ensures var d := v.dirs[to];
            var j := M.Place(hash, d, name);
            && to in M.Moved(hash, loc, v, from, file, to, name, typed, stamp).dirs
            && j < |d.blocks| == |M.Moved(hash, loc, v, from, file, to, name, typed, stamp).dirs[to].blocks|
            && Insert(d.blocks[j], file, M.Kind(v, file, typed), name)
               == Some(M.Moved(hash, loc, v, from, file, to, name, typed, stamp).dirs[to].blocks[j])
  {
    hide Insert, FindOld, Ancestry.Walk, M.Place, M.WithoutEntry, M.WithUp, M.Relinked;
  }

  lemma BlockOf(s: N.Store, d: Volume1024, q: Word)
    requires N.ContentOk(s, d) && q in s.dirs
    ensures q in N.Namespace(s, d).dirs && |N.Namespace(s, d).dirs[q].blocks| == |s.dirs[q].blocks|
    ensures N.Namespace(s, d).dirs[q] == N.DirAt(s.dirs[q], d) && N.Namespace(s, d).dirs.Keys == s.dirs.Keys
    ensures forall i :: 0 <= i < |s.dirs[q].blocks| ==>
              && s.dirs[q].blocks[i] < |d| && Tiled(d[s.dirs[q].blocks[i]])
              && N.Namespace(s, d).dirs[q].blocks[i] == Parse(d[s.dirs[q].blocks[i]], 0)
  {
    hide Parse, Tiled;
    forall i | 0 <= i < |s.dirs[q].blocks| ensures Tiled(d[s.dirs[q].blocks[i]]) {
      assert N.BlockOk(s, q, i, d[s.dirs[q].blocks[i]]);
    }
  }
}
