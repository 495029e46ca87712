/** Directory blocks as bytes, edited in place, against their slot lists. */
module DirBlock {
  import opened Words
  import opened Bytes
  import opened DirSlots

  type Block = seq<Byte>

  /** A record header at `off` that the walkers accept. */
  predicate Header(b: Block, off: nat) {
    off + 8 <= |b| && 8 <= Le16(b, off + 4) <= |b| - off
  }

  /** The record at `off`, followed by `rest`. */
  function At(b: Block, off: nat, rest: Slots): (r: Slots)
    requires Header(b, off)
    ensures r.Slot? && r.rec == Le16(b, off + 4) && r.rest == rest && r.ino == Le32(b, off)
  {
    var ino, rec, nl := Le32(b, off), Le16(b, off + 4), b[off + 6];
    Slot(ino, rec, if ino != 0 then nl else 0, b[off + 7],
         if ino != 0 && 8 + nl <= rec then b[off + 8..off + 8 + nl] else [], rest)
  }

  /** The records from `off` on, as the linear iterator meets them. */
  function Parse(b: Block, off: nat): Slots
    decreases |b| - off
  {
    if !Header(b, off) then End else At(b, off, Parse(b, off + Le16(b, off + 4)))
  }

  /** A block covered exactly by well-formed records. */
  predicate Tiled(b: Block) {
    WellFormed(Parse(b, 0)) && Total(Parse(b, 0)) == |b| && |b| < 0x1_0000
  }

  /** `p` is where some record at or after `off` starts. */
  predicate Reaches(b: Block, off: nat, p: nat)
    decreases |b| - off
  {
    off == p || (Header(b, off) && off + Le16(b, off + 4) <= p && Reaches(b, off + Le16(b, off + 4), p))
  }

  lemma SameRecord(b: Block, b': Block, off: nat, rest: Slots)
    requires |b| == |b'| && Header(b, off)
    requires forall i :: off <= i < off + Le16(b, off + 4) ==> b[i] == b'[i]
    ensures Header(b', off) && Le16(b', off + 4) == Le16(b, off + 4) && At(b', off, rest) == At(b, off, rest)
  {
    hide Join;
    var nl := b[off + 6];
    assert b'[off + 4] == b[off + 4] && b'[off + 5] == b[off + 5];
    if 8 + nl <= Le16(b, off + 4) {
      assert b[off + 8..off + 8 + nl] == b'[off + 8..off + 8 + nl];
    }
  }

  lemma SameHeader(b: Block, b': Block, off: nat)
    requires |b| == |b'| && forall i :: off <= i < |b| ==> b[i] == b'[i]
    ensures Header(b', off) == Header(b, off)
  {
    hide Join;
  }

  lemma Unfold(b: Block, off: nat)
    requires Header(b, off)
    ensures Parse(b, off) == At(b, off, Parse(b, off + Le16(b, off + 4)))
  {
  }

  predicate SameFrom(b: Block, b': Block, off: nat) {
    |b| == |b'| && forall i :: off <= i < |b| ==> b[i] == b'[i]
  }

  lemma SameFromLater(b: Block, b': Block, off: nat, later: nat)
    requires SameFrom(b, b', off) && off <= later
    ensures SameFrom(b, b', later)
  {
  }

  lemma SameHead(b: Block, b': Block, off: nat, rest: Slots)
    requires SameFrom(b, b', off)
    ensures Header(b', off) == Header(b, off)
    ensures Header(b, off) ==> Le16(b', off + 4) == Le16(b, off + 4) && At(b', off, rest) == At(b, off, rest)
  {
    SameHeader(b, b', off);
    if Header(b, off) {
      SameRecord(b, b', off, rest);
    }
  }

  lemma {:induction false} SameSuffix(b: Block, b': Block, off: nat)
    requires SameFrom(b, b', off)
    ensures Parse(b', off) == Parse(b, off)
    decreases |b| - off
  {
    hide SameFrom, At, Le16;
    if Header(b, off) {
      var next := off + Le16(b, off + 4);
      SameHead(b, b', off, Parse(b, next));
      SameFromLater(b, b', off, next);
      SameSuffix(b, b', next);
    } else {
      SameHead(b, b', off, End);
    }
  }

  // ---------------------------------------------------------------- insertion, as bytes

  function EntryBytes(ino: Word, rec: nat, kind: Byte, name: Name): (r: seq<Byte>)
    requires rec < 0x1_0000 && |name| <= 255
    ensures |r| == 8 + |name|
  {
    PackLittle(ino) + PackLittle16(rec) + [|name|, kind] + name
  }

  /** Offset of the first record that can give away `need` bytes. */
  function SpaceAt(b: Block, off: nat, need: nat): (r: Option<nat>)
    ensures r.Some? ==> Header(b, r.value) && HasSpace(At(b, r.value, End), need)
    decreases |b| - off
  {
    if !Header(b, off) then None
    else if HasSpace(At(b, off, End), need) then Some(off)
    else SpaceAt(b, off + Le16(b, off + 4), need)
  }

  /** The record at `p` cut to its real size. */
  function CutAt(b: Block, p: nat): (r: Block)
    requires Header(b, p) && Real(At(b, p, End)) <= Le16(b, p + 4)
    ensures |r| == |b|
  {
    if Le32(b, p) != 0 then Patch(b, p + 4, PackLittle16(Real(At(b, p, End)))) else b
  }

  function Inserted(b: Block, p: nat, ino: Word, kind: Byte, name: Name): (r: Block)
    requires Header(b, p) && |name| <= 255 && HasSpace(At(b, p, End), RoundUp4(8 + |name|))
    ensures |r| == |b|
  {
    var size := Real(At(b, p, End));
    Patch(CutAt(b, p), p + size, EntryBytes(ino, Le16(b, p + 4) - size, kind, name))
  }

  lemma EntryReadsBack(b: Block, off: nat, ino: Word, rec: nat, kind: Byte, name: Name, rest: Slots)
    requires ino != 0 && 8 + |name| <= rec < 0x1_0000 && |name| <= 255 && off + rec <= |b|
    requires b[off..off + 8 + |name|] == EntryBytes(ino, rec, kind, name)
    ensures Header(b, off) && At(b, off, rest) == Slot(ino, rec, |name|, kind, name, rest)
  {
    hide Join, PackLittle, PackLittle16;
    var f := EntryBytes(ino, rec, kind, name);
    var g := b[off..off + 8 + |name|];
    SubSlice(b, off, 8 + |name|, 0, 4);
    SubSlice(b, off, 8 + |name|, 4, 6);
    SubSlice(b, off, 8 + |name|, 8, 8 + |name|);
    assert f[0..4] == PackLittle(ino) && f[4..6] == PackLittle16(rec) && f[8..8 + |name|] == name;
    assert b[off + 6] == g[6] == f[6] == |name| && b[off + 7] == g[7] == f[7] == kind;
    LittleRoundTrip(b, off, ino);
    LittleRoundTrip16(b, off + 4, rec);
  }

  function Resized(r: Slots, rec: nat, rest: Slots): Slots
    requires r.Slot?
  {
    Slot(r.ino, rec, r.nl, r.kind, r.name, rest)
  }

  /** A record whose length field alone changed. */
  lemma ResizeReadsBack(b: Block, b': Block, off: nat, rec: nat, rest: Slots)
    requires Header(b, off) && |b'| == |b| && 8 <= rec < 0x1_0000 && off + rec <= |b|
    requires var used := if Le32(b, off) != 0 then 8 + b[off + 6] as nat else 8;
             && used <= rec && used <= Le16(b, off + 4)
             && forall i :: off <= i < off + used && !(off + 4 <= i < off + 6) ==> b'[i] == b[i]
    requires b'[off + 4..off + 6] == PackLittle16(rec)
    ensures Header(b', off) && Le16(b', off + 4) == rec && At(b', off, rest) == Resized(At(b, off, End), rec, rest)
  {
    hide Join, PackLittle16;
    var nl := b[off + 6];
    LittleRoundTrip16(b', off + 4, rec);
    if Le32(b, off) != 0 {
      assert b'[off + 8..off + 8 + nl] == b[off + 8..off + 8 + nl];
    }
  }

  lemma Patched(b: Block, off: nat, f: seq<Byte>)
    requires off + |f| <= |b|
    ensures Patch(b, off, f)[off..off + |f|] == f
  {
  }

  lemma ReuseDeleted(b: Block, p: nat, ino: Word, kind: Byte, name: Name)
    requires Header(b, p) && Writable(ino, kind, name) && |b| < 0x1_0000
    requires Le32(b, p) == 0 && Le16(b, p + 4) >= 8 + |name|
    ensures var rec := Le16(b, p + 4);
            Parse(Patch(b, p, EntryBytes(ino, rec, kind, name)), p)
            == Slot(ino, rec, |name|, kind, name, Parse(b, p + rec))
  {
    hide Le16, Le32, At, EntryBytes;
    var rec := Le16(b, p + 4);
    var f := EntryBytes(ino, rec, kind, name);
    var b' := Patch(b, p, f);
    Patched(b, p, f);
    SameSuffix(b, b', p + rec);
    EntryReadsBack(b', p, ino, rec, kind, name, Parse(b, p + rec));
    Unfold(b', p);
  }

  /** `b'` is `b` with the record at `p` cut to `size` bytes and an entry in the rest. */
  lemma AfterLive(b: Block, b': Block, p: nat, size: nat, ino: Word, kind: Byte, name: Name)
    requires Header(b, p) && Writable(ino, kind, name) && |b| < 0x1_0000 && |b'| == |b|
    requires Le32(b, p) != 0 && 8 + b[p + 6] <= size && size + 8 + |name| <= Le16(b, p + 4)
    requires b'[p + 4..p + 6] == PackLittle16(size)
    requires b'[p + size..p + size + 8 + |name|] == EntryBytes(ino, Le16(b, p + 4) - size, kind, name)
    requires forall i :: p <= i < p + size && !(p + 4 <= i < p + 6) ==> b'[i] == b[i]
    requires SameFrom(b, b', p + Le16(b, p + 4))
    ensures var rec := Le16(b, p + 4);
            Parse(b', p) ==
            Resized(At(b, p, End), size, Slot(ino, rec - size, |name|, kind, name, Parse(b, p + rec)))
  {
    hide Le16, Le32, EntryBytes, PackLittle16, At, Parse;
    var rec := Le16(b, p + 4);
    SameSuffix(b, b', p + rec);
    EntryReadsBack(b', p + size, ino, rec - size, kind, name, Parse(b, p + rec));
    Unfold(b', p + size);
    ResizeReadsBack(b, b', p, size, Parse(b', p + size));
    Unfold(b', p);
  }

  lemma TwoPatches(b: Block, p: nat, size: nat, rec: nat, cut: seq<Byte>, f: seq<Byte>)
    requires |cut| == 2 && 8 <= size && size + |f| <= rec && p + rec <= |b|
    ensures var b' := Patch(Patch(b, p + 4, cut), p + size, f);
            && b'[p + 4..p + 6] == cut && b'[p + size..p + size + |f|] == f
            && (forall i :: p <= i < p + size && !(p + 4 <= i < p + 6) ==> b'[i] == b[i])
            && SameFrom(b, b', p + rec)
  {
    var b1 := Patch(b, p + 4, cut);
    var b' := Patch(b1, p + size, f);
    Patched(b, p + 4, cut);
    Patched(b1, p + size, f);
    assert b'[p + 4..p + 6] == b1[p + 4..p + 6];
  }

  lemma InsertAfterLive(b: Block, p: nat, ino: Word, kind: Byte, name: Name)
    requires Header(b, p) && Writable(ino, kind, name) && |b| < 0x1_0000 && Le32(b, p) != 0
    requires HasSpace(At(b, p, End), RoundUp4(8 + |name|))
    ensures var rec, size := Le16(b, p + 4), Real(At(b, p, End));
            Parse(Inserted(b, p, ino, kind, name), p) ==
            Resized(At(b, p, End), size, Slot(ino, rec - size, |name|, kind, name, Parse(b, p + rec)))
  {
    hide Join, Le16, Le32, EntryBytes, PackLittle16, Parse, RoundUp4, At, Real, Sentinel;
    var rec, size := Le16(b, p + 4), Real(At(b, p, End));
    RoundUpFacts(8 + |name|);
    LiveSize(b, p);
    var cut, f := PackLittle16(size), EntryBytes(ino, rec - size, kind, name);
    TwoPatches(b, p, size, rec, cut, f);
    hide Patch, SameFrom;
    AfterLive(b, Inserted(b, p, ino, kind, name), p, size, ino, kind, name);
  }

  lemma LiveSize(b: Block, p: nat)
    requires Header(b, p) && Le32(b, p) != 0
    ensures Real(At(b, p, End)) >= 8 + b[p + 6] as nat
  {
    hide Join, RoundUp4;
    RoundUpFacts(8 + b[p + 6] as nat);
  }

  /** What insertion does at the head of a list. */
  lemma InsertAtHead(b: Block, p: nat, rest: Slots, ino: Word, kind: Byte, name: Name)
    requires Header(b, p) && Writable(ino, kind, name)
    requires HasSpace(At(b, p, End), RoundUp4(8 + |name|))
    ensures var size := Real(At(b, p, End));
            var entry := Slot(ino, Le16(b, p + 4) - size, |name|, kind, name, rest);
            Insert(At(b, p, rest), ino, kind, name) ==
            Some(if Le32(b, p) != 0 then Resized(At(b, p, End), size, entry) else entry)
  {
    hide Join, RoundUp4;
  }

  /** At the record with room, the edited bytes parse as the slot list's insertion. */
  lemma InsertHere(b: Block, p: nat, ino: Word, kind: Byte, name: Name)
    requires Header(b, p) && Writable(ino, kind, name) && |b| < 0x1_0000
    requires HasSpace(At(b, p, End), RoundUp4(8 + |name|))
    ensures Insert(Parse(b, p), ino, kind, name) == Some(Parse(Inserted(b, p, ino, kind, name), p))
  {
    hide Le16, Le32, EntryBytes, PackLittle16, Patch, Parse, RoundUp4, Insert;
    RoundUpFacts(8 + |name|);
    Unfold(b, p);
    InsertAtHead(b, p, Parse(b, p + Le16(b, p + 4)), ino, kind, name);
    if Le32(b, p) == 0 {
      ReuseDeleted(b, p, ino, kind, name);
    } else {
      InsertAfterLive(b, p, ino, kind, name);
    }
  }

  /** Whether a record has room, and whether it is a sentinel, is seen in the record. */
  lemma HeadFacts(b: Block, off: nat, rest: Slots)
    requires Header(b, off)
    ensures At(b, off, rest) == Resized(At(b, off, End), Le16(b, off + 4), rest)
    ensures forall need :: HasSpace(At(b, off, rest), need) == HasSpace(At(b, off, End), need)
    ensures Sentinel(At(b, off, rest)) == Sentinel(At(b, off, End))
    ensures Real(At(b, off, rest)) == Real(At(b, off, End))
  {
    hide Join, RoundUp4;
  }

  lemma InsertPast(b: Block, off: nat, rest: Slots, ino: Word, kind: Byte, name: Name)
    requires Header(b, off) && |name| <= 255 && !HasSpace(At(b, off, End), RoundUp4(8 + |name|))
    ensures Insert(At(b, off, rest), ino, kind, name) ==
            match Insert(rest, ino, kind, name) case None => None case Some(r) => Some(At(b, off, r))
  {
    hide RoundUp4, HasSpace, At;
    HeadFacts(b, off, rest);
    var r := Insert(rest, ino, kind, name);
    if r.Some? {
      HeadFacts(b, off, r.value);
    }
  }

  /** The bytes before the edited record are not touched. */
  lemma InsertedKeepsFront(b: Block, p: nat, ino: Word, kind: Byte, name: Name)
    requires Header(b, p) && |name| <= 255 && HasSpace(At(b, p, End), RoundUp4(8 + |name|))
    ensures forall i :: 0 <= i < p ==> Inserted(b, p, ino, kind, name)[i] == b[i]
  {
    hide Join, RoundUp4, At, EntryBytes, PackLittle16, HasSpace;
  }

  lemma {:induction false} SpaceIsLater(b: Block, off: nat, need: nat)
    ensures SpaceAt(b, off, need).Some? ==> SpaceAt(b, off, need).value >= off
    decreases |b| - off
  {
    hide At, Le16, HasSpace;
    if Header(b, off) && !HasSpace(At(b, off, End), need) {
      SpaceIsLater(b, off + Le16(b, off + 4), need);
    }
  }

  /** The edit of the bytes is the insertion into the slot list, seen from any record. */
  lemma {:induction false} InsertFrom(b: Block, off: nat, ino: Word, kind: Byte, name: Name)
    requires Writable(ino, kind, name) && |b| < 0x1_0000
    ensures match SpaceAt(b, off, RoundUp4(8 + |name|))
            case None => Insert(Parse(b, off), ino, kind, name) == None
            case Some(p) => Insert(Parse(b, off), ino, kind, name) == Some(Parse(Inserted(b, p, ino, kind, name), off))
    decreases |b| - off
  {
    hide Le16, At, HasSpace, Inserted, RoundUp4, Insert;
    var need := RoundUp4(8 + |name|);
    if Header(b, off) {
      var next := off + Le16(b, off + 4);
      if HasSpace(At(b, off, End), need) {
        InsertHere(b, off, ino, kind, name);
      } else {
        InsertPast(b, off, Parse(b, next), ino, kind, name);
        InsertFrom(b, next, ino, kind, name);
        SpaceIsLater(b, next, need);
        if SpaceAt(b, next, need).Some? {
          var p := SpaceAt(b, next, need).value;
          var b' := Inserted(b, p, ino, kind, name);
          InsertedKeepsFront(b, p, ino, kind, name);
          SameRecord(b, b', off, Parse(b', next));
        }
      }
    } else {
      InsertNowhere(ino, kind, name);
    }
  }

  lemma InsertNowhere(ino: Word, kind: Byte, name: Name)
    requires |name| <= 255
    ensures Insert(End, ino, kind, name) == None
  {
  }

  // ---------------------------------------------------------------- removal, as bytes

  /** Offset of the first record of inode `ino`, and of the record before it. */
  function FindInode(b: Block, off: nat, prev: Option<nat>, ino: Word): (r: Option<(nat, Option<nat>)>)
    decreases |b| - off
  {
    if !Header(b, off) then None
    else if Sentinel(At(b, off, End)) then FindInode(b, off + Le16(b, off + 4), prev, ino)
    else if Le32(b, off) == ino then Some((off, prev))
    else FindInode(b, off + Le16(b, off + 4), Some(off), ino)
  }

  function Removed(b: Block, at: nat, prev: Option<nat>): (r: Block)
    requires Header(b, at) && (prev.Some? ==> Header(b, prev.value))
    ensures |r| == |b|
  {
    match prev
    case Some(p) => Patch(b, p + 4, PackLittle16((Le16(b, p + 4) + Le16(b, at + 4)) % 0x1_0000))
    case None => Patch(b, at, [0, 0, 0, 0])
  }

  lemma {:induction false} FoundIsRecord(b: Block, off: nat, prev: Option<nat>, ino: Word)
    requires prev.Some? ==> Header(b, prev.value) && prev.value < off
    ensures var r := FindInode(b, off, prev, ino);
            r.Some? ==>
              && Header(b, r.value.0) && r.value.0 >= off
              && (r.value.1 == prev || (r.value.1.Some? && off <= r.value.1.value))
              && (r.value.1.Some? ==> Header(b, r.value.1.value) && r.value.1.value < r.value.0)
    decreases |b| - off
  {
    hide At, Le32, Sentinel;
    if Header(b, off) {
      var next := off + Le16(b, off + 4);
      if Sentinel(At(b, off, End)) {
        FoundIsRecord(b, next, prev, ino);
      } else if Le32(b, off) != ino {
        FoundIsRecord(b, next, Some(off), ino);
      }
    }
  }

  /** No record follows a sentinel of a tiled block. */
  lemma NothingAfterSentinel(b: Block, off: nat, prev: Option<nat>, ino: Word)
    requires Header(b, off) && WellFormed(Parse(b, off)) && Sentinel(At(b, off, End))
    ensures FindInode(b, off, prev, ino) == None
  {
    hide Join, RoundUp4;
    var next := off + Le16(b, off + 4);
    HeadFacts(b, off, Parse(b, next));
    assert Parse(b, next).End?;
  }

  lemma OnePatch(b: Block, p: nat, f: seq<Byte>, from: nat)
    requires |f| == 2 && p + 6 <= from <= |b|
    ensures var b' := Patch(b, p + 4, f);
            && b'[p + 4..p + 6] == f && SameFrom(b, b', from)
            && forall i :: 0 <= i < |b| && !(p + 4 <= i < p + 6) ==> b'[i] == b[i]
  {
    Patched(b, p + 4, f);
  }

  /** The record at `p` absorbs what follows it, up to `p + rec`. */
  lemma Absorb(b: Block, p: nat, rec: nat)
    requires Header(b, p) && |b| < 0x1_0000 && Le16(b, p + 4) <= rec && p + rec <= |b|
    requires Le32(b, p) != 0 ==> 8 + b[p + 6] as nat <= Le16(b, p + 4)
    ensures Parse(Patch(b, p + 4, PackLittle16(rec)), p) == Resized(At(b, p, End), rec, Parse(b, p + rec))
  {
    hide Le16, Le32, PackLittle16, At, Patch, SameFrom, Parse;
    var f := PackLittle16(rec);
    var b' := Patch(b, p + 4, f);
    OnePatch(b, p, f, p + rec);
    ResizeReadsBack(b, b', p, rec, Parse(b', p + rec));
    Unfold(b', p);
    SameSuffix(b, b', p + rec);
  }

  lemma NameFits(b: Block, p: nat)
    requires Header(b, p) && WellFormed(Parse(b, p)) && Le32(b, p) != 0
    ensures 8 + b[p + 6] as nat <= Le16(b, p + 4)
  {
    hide Join, RoundUp4;
    RoundUpFacts(8 + b[p + 6] as nat);
  }

  lemma RemovePast(b: Block, off: nat, rest: Slots, ino: Word)
    requires Header(b, off) && rest.Slot? && !Sentinel(rest) && rest.ino != ino
    ensures RemoveAfter(At(b, off, rest), ino) ==
            match RemoveAfter(rest, ino) case None => None case Some(r) => Some(At(b, off, r))
  {
    hide At, Sentinel;
    HeadFacts(b, off, rest);
    if RemoveAfter(rest, ino).Some? {
      HeadFacts(b, off, RemoveAfter(rest, ino).value);
    }
  }

  lemma AbsorbedIsRemoved(b: Block, off: nat, ino: Word)
    requires Header(b, off) && Header(b, off + Le16(b, off + 4)) && |b| < 0x1_0000
    requires Le32(b, off) != 0 ==> 8 + b[off + 6] as nat <= Le16(b, off + 4)
    requires var next := off + Le16(b, off + 4); !Sentinel(At(b, next, End)) && Le32(b, next) == ino
    ensures var next := off + Le16(b, off + 4);
            RemoveAfter(Parse(b, off), ino) == Some(Parse(Removed(b, next, Some(off)), off))
  {
    hide Le16, Le32, At, Sentinel, Patch, PackLittle16, Parse;
    var next := off + Le16(b, off + 4);
    var after := next + Le16(b, next + 4);
    Unfold(b, off);
    Unfold(b, next);
    HeadFacts(b, off, Parse(b, next));
    HeadFacts(b, next, Parse(b, after));
    Absorb(b, off, after - off);
  }

  lemma RemovedKeepsFront(b: Block, at: nat, p: nat)
    requires Header(b, at) && Header(b, p)
    ensures forall i :: 0 <= i < p ==> Removed(b, at, Some(p))[i] == b[i]
  {
    hide Le16, PackLittle16;
  }

  /** Removal after a record: the edit of the bytes is the removal from the slot list. */
  lemma {:induction false} RemoveAfterFrom(b: Block, off: nat, ino: Word)
    requires Header(b, off) && WellFormed(Parse(b, off)) && |b| < 0x1_0000
    requires !Sentinel(At(b, off, End)) && Le32(b, off) != ino
    ensures var r := FindInode(b, off + Le16(b, off + 4), Some(off), ino);
            match r
            case None => RemoveAfter(Parse(b, off), ino) == None
            case Some((at, prev)) =>
              && prev.Some? && prev.value >= off && Header(b, at) && Header(b, prev.value)
              && RemoveAfter(Parse(b, off), ino) == Some(Parse(Removed(b, at, prev), off))
    decreases |b| - off
  {
    hide Le16, Le32, At, Sentinel, Patch, PackLittle16, RoundUp4, Removed, Real;
    var next := off + Le16(b, off + 4);
    HeadFacts(b, off, Parse(b, next));
    var r := FindInode(b, next, Some(off), ino);
    if Header(b, next) {
      HeadFacts(b, next, Parse(b, next + Le16(b, next + 4)));
      if Sentinel(At(b, next, End)) {
        NothingAfterSentinel(b, next, Some(off), ino);
        NothingAfterSentinel(b, next, Some(next), ino);
      } else if Le32(b, next) == ino {
        if Le32(b, off) != 0 { NameFits(b, off); }
        AbsorbedIsRemoved(b, off, ino);
      } else {
        RemoveAfterFrom(b, next, ino);
        var later := FindInode(b, next + Le16(b, next + 4), Some(next), ino);
        if later.Some? {
          var (at, prev) := later.value;
          RemovedKeepsFront(b, at, prev.value);
          SameRecord(b, Removed(b, at, prev), off, Parse(Removed(b, at, prev), next));
          RemovePast(b, off, Parse(b, next), ino);
        } else {
          RemovePast(b, off, Parse(b, next), ino);
        }
      }
    }
  }

  lemma ZeroWord(b: Block)
    requires |b| >= 4 && b[0] == b[1] == b[2] == b[3] == 0
    ensures Le32(b, 0) == 0
  {
  }

  lemma ZeroedRecord(b: Block, b': Block, rest: Slots)
    requires Header(b, 0) && |b'| == |b| && SameFrom(b, b', 4) && b'[0] == b'[1] == b'[2] == b'[3] == 0
    ensures Header(b', 0) && Le16(b', 4) == Le16(b, 4)
    ensures var r := At(b, 0, End); At(b', 0, rest) == Slot(0, r.rec, 0, r.kind, [], rest)
  {
    hide Join, Le32;
    ZeroWord(b');
  }

  lemma ZeroedInode(b: Block)
    requires Header(b, 0)
    ensures var r := At(b, 0, End);
            Parse(Patch(b, 0, [0, 0, 0, 0]), 0) == Slot(0, r.rec, 0, r.kind, [], Parse(b, Le16(b, 4)))
  {
    var b' := Patch(b, 0, [0, 0, 0, 0]);
    assert SameFrom(b, b', 4);
    hide Parse, Patch, Le16, Le32, At, SameFrom;
    var next := 0 + Le16(b, 4);
    ZeroedRecord(b, b', Parse(b', next));
    Unfold(b', 0);
    SameFromLater(b, b', 4, next);
    SameSuffix(b, b', next);
  }

  /** The edit of the bytes is the removal from the slot list. */
  lemma RemoveFromBlock(b: Block, ino: Word)
    requires WellFormed(Parse(b, 0)) && |b| < 0x1_0000 && ino != 0
    ensures var r := FindInode(b, 0, None, ino);
            match r
            case None => Remove(Parse(b, 0), ino) == None
            case Some((at, prev)) =>
              && Header(b, at) && (prev.Some? ==> Header(b, prev.value))
              && Remove(Parse(b, 0), ino) == Some(Parse(Removed(b, at, prev), 0))
  {
    hide Le16, Le32, At, Sentinel, Patch, PackLittle16, RoundUp4, Real;
    if Header(b, 0) {
      var next := 0 + Le16(b, 4);
      HeadFacts(b, 0, Parse(b, next));
      if Sentinel(At(b, 0, End)) {
        NothingAfterSentinel(b, 0, None, ino);
      } else if Le32(b, 0) == ino {
        ZeroedInode(b);
      } else {
        RemoveAfterFrom(b, 0, ino);
      }
    }
  }

  // ---------------------------------------------------------------- the tail

  /** The checksum tail that is written after every edit. */
  function TailBytes(sum: Word): (r: seq<Byte>)
    ensures |r| == TAIL_BYTES
  {
    PackLittle(0) + PackLittle16(12) + [0, SENTINEL_KIND] + PackLittle(sum)
  }

  function WithTail(b: Block, sum: Word): (r: Block)
    requires |b| >= TAIL_BYTES
    ensures |r| == |b|
  {
    Patch(b, |b| - TAIL_BYTES, TailBytes(sum))
  }

  /** The block ends in a checksum tail. */
  predicate HasTail(b: Block, off: nat)
    decreases |b| - off
  {
    Header(b, off)
    && if Sentinel(At(b, off, End)) then off + TAIL_BYTES == |b| else HasTail(b, off + Le16(b, off + 4))
  }

  lemma {:induction false} TailIsLater(b: Block, off: nat)
    requires HasTail(b, off)
    ensures |b| >= off + TAIL_BYTES
    ensures !Sentinel(At(b, off, End)) ==> off + Le16(b, off + 4) + TAIL_BYTES <= |b|
    decreases |b| - off
  {
    if !Sentinel(At(b, off, End)) {
      TailIsLater(b, off + Le16(b, off + 4));
    }
  }

  lemma TailReadsBack(b: Block, sum: Word)
    requires |b| >= TAIL_BYTES
    ensures var off := |b| - TAIL_BYTES;
            && Header(WithTail(b, sum), off)
            && Parse(WithTail(b, sum), off) == Slot(0, 12, 0, SENTINEL_KIND, [], End)
  {
    hide Join, PackLittle;
    var off, b' := |b| - TAIL_BYTES, WithTail(b, sum);
    var f := TailBytes(sum);
    var g := b'[off..off + |f|];
    Patched(b, off, f);
    SubSlice(b', off, 12, 0, 4);
    SubSlice(b', off, 12, 4, 6);
    assert f[0..4] == PackLittle(0) && f[4..6] == PackLittle16(12);
    assert b'[off + 6] == g[6] == f[6] == 0 && b'[off + 7] == g[7] == f[7] == SENTINEL_KIND;
    LittleRoundTrip(b', off, 0);
    LittleRoundTrip16(b', off + 4, 12);
  }

  lemma TailParses(b: Block, off: nat)
    requires HasTail(b, off) && Sentinel(At(b, off, End))
    ensures Parse(b, off) == Slot(0, 12, 0, SENTINEL_KIND, [], End)
  {
    hide Join;
    assert !Header(b, off + 12);
  }

  /** Same bytes in a record and same records after it: same records. */
  lemma PrefixAndRest(b: Block, b': Block, off: nat)
    requires Header(b, off) && |b'| == |b|
    requires var next := off + Le16(b, off + 4);
             (forall i :: off <= i < next ==> b'[i] == b[i]) && Parse(b', next) == Parse(b, next)
    ensures Parse(b', off) == Parse(b, off)
  {
    hide Le16, At, Parse;
    var next := off + Le16(b, off + 4);
    SameRecord(b, b', off, Parse(b, next));
    Unfold(b, off);
    Unfold(b', off);
  }

  lemma TailHead(b: Block, off: nat)
    requires HasTail(b, off)
    ensures Header(b, off) && |b| >= off + TAIL_BYTES
    ensures !Sentinel(At(b, off, End)) ==>
              HasTail(b, off + Le16(b, off + 4)) && off + Le16(b, off + 4) + TAIL_BYTES <= |b|
  {
    hide At, Le16, Sentinel;
    TailIsLater(b, off);
  }

  lemma WithTailFront(b: Block, sum: Word, from: nat, to: nat)
    requires to + TAIL_BYTES <= |b|
    ensures forall i :: from <= i < to ==> WithTail(b, sum)[i] == b[i]
  {
    hide TailBytes;
  }

  /** Restamping the tail changes no record. */
  lemma {:induction false} TailKeepsRecords(b: Block, off: nat, sum: Word)
    requires HasTail(b, off) && |b| >= TAIL_BYTES
    ensures Parse(WithTail(b, sum), off) == Parse(b, off)
    decreases |b| - off
  {
    hide HasTail, Parse, WithTail, At, Le16, Sentinel;
    TailHead(b, off);
    if Sentinel(At(b, off, End)) {
      TailParses(b, off);
      TailReadsBack(b, sum);
      TailIsLast(b, off);
    } else {
      var next := off + Le16(b, off + 4);
      TailKeepsRecords(b, next, sum);
      WithTailFront(b, sum, off, next);
      PrefixAndRest(b, WithTail(b, sum), off);
    }
  }

  lemma TailIsLast(b: Block, off: nat)
    requires HasTail(b, off) && Sentinel(At(b, off, End))
    ensures off == |b| - TAIL_BYTES
  {
    hide At, Le16, Sentinel;
  }

  lemma {:induction false} TailFromRecords(b: Block, off: nat)
    requires EndsInTail(Parse(b, off)) && Total(Parse(b, off)) + off == |b|
    ensures HasTail(b, off) && |b| >= TAIL_BYTES
    decreases |b| - off
  {
    hide Le16, Le32, At;
    var next := off + Le16(b, off + 4);
    HeadFacts(b, off, Parse(b, next));
    if !Sentinel(At(b, off, End)) {
      TailFromRecords(b, next);
    }
  }

  // ---------------------------------------------------------------- ".."

  /** The four bytes at offset 12 are the inode of "..". */
  lemma UpIsAt12(b: Block, self: Word)
    requires Dotted(Parse(b, 0), self)
    ensures |b| >= 20 && Le32(b, 12) == Up(Parse(b, 0))
  {
    hide Join;
    assert Header(b, 0) && Header(b, 12);
  }

  lemma DottedHeaders(b: Block, self: Word)
    requires Dotted(Parse(b, 0), self)
    ensures Header(b, 0) && Le16(b, 4) == 12 && Header(b, 12) && Le32(b, 12) != 0
  {
    hide Join;
  }

  lemma UpPatch(b: Block, off: nat, v: Word)
    requires off + 4 <= |b|
    ensures var b' := Patch(b, off, PackLittle(v));
            && Le32(b', off) == v && SameFrom(b, b', off + 4)
            && forall i :: 0 <= i < off ==> b'[i] == b[i]
  {
    hide Join, PackLittle;
    Patched(b, off, PackLittle(v));
    LittleRoundTrip(Patch(b, off, PackLittle(v)), off, v);
  }

  /** Writing them rewrites "..". */
  lemma UpIsWritten(b: Block, self: Word, parent: Word)
    requires Dotted(Parse(b, 0), self) && parent != 0 && |b| >= 16
    ensures Parse(Patch(b, 12, PackLittle(parent)), 0) == SetUp(Parse(b, 0), parent)
  {
    hide Join, Patch, PackLittle, Le16, Le32, At, SameFrom, Parse, Dotted;
    DottedHeaders(b, self);
    UpPatch(b, 12, parent);
    var b' := Patch(b, 12, PackLittle(parent));
    var end := 12 + Le16(b, 16);
    SecondRecord(b, b', parent, Parse(b, end));
    SameFromLater(b, b', 16, end);
    SameSuffix(b, b', end);
    Unfold(b', 12);
    Unfold(b, 12);
    SameRecord(b, b', 0, Parse(b', 12));
    Unfold(b, 0);
    Unfold(b', 0);
    HeadFacts(b, 0, Parse(b', 12));
    HeadFacts(b, 0, Parse(b, 12));
    HeadFacts(b, 12, Parse(b, end));
  }

  lemma SecondRecord(b: Block, b': Block, parent: Word, rest: Slots)
    requires Header(b, 12) && |b'| == |b| && SameFrom(b, b', 16) && Le32(b', 12) == parent && parent != 0
    requires Le32(b, 12) != 0
    ensures Header(b', 12) && Le16(b', 16) == Le16(b, 16)
    ensures var r := At(b, 12, End); At(b', 12, rest) == Slot(parent, r.rec, r.nl, r.kind, r.name, rest)
  {
    hide Join, Le32;
  }

  // ---------------------------------------------------------------- the code

  /** Finds room for `need` bytes and cuts the record that gives it. */
  method FindSlot(a: array<Byte>, need: nat) returns (found: bool, slotOff: nat, slotRec: nat)
    requires a.Length < 0x1_0000
    modifies a
    ensures match SpaceAt(old(a[..]), 0, need)
            case None => !found && a[..] == old(a[..])
            case Some(p) =>
              var b := old(a[..]);
              var size := Real(At(b, p, End));
              && found && slotOff == p + size && slotRec == Le16(b, p + 4) - size
              && a[..] == CutAt(b, p)
  {
    hide RoundUp4, Le16, Le32, At, HasSpace, Real, Sentinel, PackLittle16, Patch;
    var off := 0;
    ghost var b := a[..];
    slotOff, slotRec := 0, 0;
    while off + 8 <= a.Length
      invariant a[..] == b && SpaceAt(b, 0, need) == SpaceAt(b, off, need)
      decreases a.Length - off
    {
      var rec := Le16(a[..], off + 4);
      if rec < 8 || rec > a.Length - off {
        return false, 0, 0;
      }
      ReadHead(b, off, need);
      var ino, nl := Le32(a[..], off), a[off + 6];
      if !(a[off + 7] == SENTINEL_KIND && rec == TAIL_BYTES && ino == 0) {
        var size := if ino != 0 then RoundUp4(8 + nl as nat) else 0;
        if rec >= size + need {
          if ino != 0 {
            Put(a, off + 4, PackLittle16(size));
          }
          return true, off + size, rec - size;
        }
      }
      off := off + rec;
    }
    return false, 0, 0;
  }

  /** What the walkers read of a record. */
  lemma ReadHead(b: Block, off: nat, need: nat)
    requires Header(b, off)
    ensures var rec, ino := Le16(b, off + 4), Le32(b, off);
            var size := if ino != 0 then RoundUp4(8 + b[off + 6] as nat) else 0;
            var tail := b[off + 7] == SENTINEL_KIND && rec == TAIL_BYTES && ino == 0;
            && Real(At(b, off, End)) == size && Sentinel(At(b, off, End)) == tail
            && HasSpace(At(b, off, End), need) == (!tail && rec >= size + need)
            && Live(At(b, off, End)) == (ino != 0 && b[off + 6] > 0 && b[off + 6] as nat + 8 <= rec)
  {
    hide Join, RoundUp4;
  }

  /** The bytes after the checksum tail, if the volume has one, is restamped. */
  function Stamped(b: Block, stamp: bool, csum: Block -> Word): (r: Block)
    requires stamp ==> |b| >= TAIL_BYTES
    ensures |r| == |b|
  {
    if stamp then WithTail(b, csum(WithTail(b, 0))) else b
  }

  lemma StampKeepsRecords(b: Block, stamp: bool, csum: Block -> Word)
    requires stamp ==> EndsInTail(Parse(b, 0)) && Total(Parse(b, 0)) == |b|
    ensures stamp ==> |b| >= TAIL_BYTES
    ensures Parse(Stamped(b, stamp, csum), 0) == Parse(b, 0)
  {
    if stamp {
      TailFromRecords(b, 0);
      TailKeepsRecords(b, 0, csum(WithTail(b, 0)));
    }
  }

  method Restamp(a: array<Byte>, stamp: bool, csum: Block -> Word)
    requires stamp ==> a.Length >= TAIL_BYTES
    modifies a
    ensures a[..] == Stamped(old(a[..]), stamp, csum)
  {
    if stamp {
      Put(a, a.Length - TAIL_BYTES, TailBytes(0));
      var sum := csum(a[..]);
      ghost var zeroed := a[..];
      Put(a, a.Length - TAIL_BYTES, TailBytes(sum));
      assert zeroed == WithTail(old(a[..]), 0);
      assert a[..] == WithTail(old(a[..]), sum);
    }
  }

  /** Writes an entry where the first record has room, and restamps the tail. */
  method InsertBytes(a: array<Byte>, ino: Word, kind: Byte, name: Name, stamp: bool, csum: Block -> Word) returns (ok: bool)
    requires a.Length < 0x1_0000 && |name| <= 255 && (stamp ==> a.Length >= TAIL_BYTES)
    modifies a
    ensures match SpaceAt(old(a[..]), 0, RoundUp4(8 + |name|))
            case None => !ok && a[..] == old(a[..])
            case Some(p) => ok && a[..] == Stamped(Inserted(old(a[..]), p, ino, kind, name), stamp, csum)
  {
    hide Parse, SpaceAt, At, Le16, Le32, Real, HasSpace, RoundUp4, CutAt, Patch, Stamped;
    ghost var b := a[..];
    var slotOff, slotRec;
    ok, slotOff, slotRec := FindSlot(a, RoundUp4(8 + |name|));
    if !ok { return; }
    RoundUpFacts(8 + |name|);
    ghost var p := SpaceAt(b, 0, RoundUp4(8 + |name|)).value;
    SlotFits(b, p, RoundUp4(8 + |name|));
    Put(a, slotOff, EntryBytes(ino, slotRec, kind, name));
    assert a[..] == Inserted(b, p, ino, kind, name);
    Restamp(a, stamp, csum);
  }

  /** The same, seen as records: they become those of the slot list's insertion, or nothing
      changes. */
  method InsertEntry(a: array<Byte>, ino: Word, kind: Byte, name: Name, stamp: bool, csum: Block -> Word) returns (ok: bool)
    requires Tiled(a[..]) && Writable(ino, kind, name) && (stamp ==> EndsInTail(Parse(a[..], 0)))
    modifies a
    ensures match Insert(Parse(old(a[..]), 0), ino, kind, name)
            case None => !ok && a[..] == old(a[..])
            case Some(s) => ok && Parse(a[..], 0) == s
    ensures Tiled(a[..]) && (stamp ==> EndsInTail(Parse(a[..], 0)))
  {
    hide Parse, SpaceAt, At, HasSpace, RoundUp4, WellFormed, Insert, EndsInTail, Stamped, Inserted;
    ghost var b := a[..];
    InsertFrom(b, 0, ino, kind, name);
    if stamp { StampKeepsRecords(b, stamp, csum); }
    ok := InsertBytes(a, ino, kind, name, stamp, csum);
    if ok {
      ghost var edited := Inserted(b, SpaceAt(b, 0, RoundUp4(8 + |name|)).value, ino, kind, name);
      InsertKeepsTiling(Parse(b, 0), ino, kind, name);
      if stamp { InsertKeepsTail(Parse(b, 0), ino, kind, name); }
      StampKeepsRecords(edited, stamp, csum);
    }
  }

  lemma SlotFits(b: Block, p: nat, need: nat)
    requires Header(b, p) && HasSpace(At(b, p, End), need) && |b| < 0x1_0000
    ensures var size := Real(At(b, p, End));
            size + need <= Le16(b, p + 4) < 0x1_0000 && p + Le16(b, p + 4) <= |b|
  {
    hide Join, RoundUp4;
  }

  /** Finds the first record of an inode and the record before it. */
  method FindEntry(a: array<Byte>, ino: Word) returns (r: Option<(nat, Option<nat>)>)
    ensures r == FindInode(a[..], 0, None, ino)
  {
    hide Le16, Le32, At, HasSpace, Real, Sentinel;
    var off, prev: Option<nat> := 0, None;
    while off + 8 <= a.Length
      invariant FindInode(a[..], 0, None, ino) == FindInode(a[..], off, prev, ino)
      decreases a.Length - off
    {
      var rec := Le16(a[..], off + 4);
      if rec < 8 || rec > a.Length - off {
        return None;
      }
      ReadHead(a[..], off, 0);
      if !(a[off + 7] == SENTINEL_KIND && rec == TAIL_BYTES && Le32(a[..], off) == 0) {
        if Le32(a[..], off) == ino {
          return Some((off, prev));
        }
        prev := Some(off);
      }
      off := off + rec;
    }
    return None;
  }

  /** Takes away the record at `at`, whose predecessor is `prev`, and restamps the tail. */
  method RemoveBytes(a: array<Byte>, at: nat, prev: Option<nat>, stamp: bool, csum: Block -> Word)
    requires Header(a[..], at) && (prev.Some? ==> Header(a[..], prev.value)) && (stamp ==> a.Length >= TAIL_BYTES)
    modifies a
    ensures a[..] == Stamped(Removed(old(a[..]), at, prev), stamp, csum)
  {
    hide Le16, PackLittle16, Patch, Stamped;
    ghost var b := a[..];
    match prev {
      case Some(p) =>
        Put(a, p + 4, PackLittle16((Le16(a[..], p + 4) + Le16(a[..], at + 4)) % 0x1_0000));
      case None =>
        Put(a, at, [0, 0, 0, 0]);
    }
    assert a[..] == Removed(b, at, prev);
    Restamp(a, stamp, csum);
  }

  /** Removes the first entry of an inode: the records become those of the slot list's
      removal, or nothing changes. */
  method RemoveEntry(a: array<Byte>, ino: Word, stamp: bool, csum: Block -> Word) returns (ok: bool)
    requires Tiled(a[..]) && ino != 0 && (stamp ==> EndsInTail(Parse(a[..], 0)))
    modifies a
    ensures match Remove(Parse(old(a[..]), 0), ino)
            case None => !ok && a[..] == old(a[..])
            case Some(s) => ok && Parse(a[..], 0) == s
    ensures Tiled(a[..]) && (stamp ==> EndsInTail(Parse(a[..], 0)))
  {
    hide Parse, FindInode, WellFormed, Remove, EndsInTail, Stamped, Removed, At;
    ghost var b := a[..];
    RemoveFromBlock(b, ino);
    if stamp { StampKeepsRecords(b, stamp, csum); }
    var r := FindEntry(a, ino);
    if r.None? { return false; }
    var (at, prev) := r.value;
    RemoveBytes(a, at, prev, stamp, csum);
    ghost var edited := Removed(b, at, prev);
    RemoveKeepsTiling(Parse(b, 0), ino);
    if stamp { RemoveKeepsTail(Parse(b, 0), ino); }
    StampKeepsRecords(edited, stamp, csum);
    ok := true;
  }

  /** The linear lookup in one block: the inode of the first live entry of the name. */
  method LookupBlock(a: array<Byte>, name: Name) returns (found: Word)
    ensures found == Lookup(Parse(a[..], 0), name)
  {
    hide Le16, Le32, At, HasSpace, Real, Sentinel, Live;
    var off := 0;
    while off + 8 <= a.Length
      invariant Lookup(Parse(a[..], 0), name) == Lookup(Parse(a[..], off), name)
      decreases a.Length - off
    {
      var rec := Le16(a[..], off + 4);
      if rec < 8 || rec > a.Length - off {
        return 0;
      }
      NameOf(a[..], off);
      ReadHead(a[..], off, 0);
      HeadFacts(a[..], off, Parse(a[..], off + rec));
      var ino, nl := Le32(a[..], off), a[off + 6];
      if ino != 0 && nl > 0 && nl as nat + 8 <= rec && a[off + 8..off + 8 + nl] == name {
        return ino;
      }
      off := off + rec;
    }
    return 0;
  }

  lemma NameOf(b: Block, off: nat)
    requires Header(b, off)
    ensures forall rest :: Live(At(b, off, rest)) == Live(At(b, off, End))
    ensures Live(At(b, off, End)) ==> off + 8 + b[off + 6] <= |b| && At(b, off, End).name == b[off + 8..off + 8 + b[off + 6]]
  {
    hide Join;
  }
}
