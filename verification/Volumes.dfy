/** The allocator's state, block extension and truncation as functions on it, and the
    invariants they keep. */
module Volumes {
  import opened Words
  import opened Extents
  import opened Bitmaps

  /** A regular file: byte size, extents, and its count of 512-byte sectors. */
  datatype File = File(size: nat, leaf: Leaf, sectors: Word)

  /** What is on disk: descriptors with their bitmaps, the superblock's free count, and
      the inodes. */
  datatype Volume = Volume(groups: seq<Group>, free: nat, files: map<nat, File>)

  const MAX_EXTENTS := 4
  const SECTORS_PER_BLOCK := 2

  // ---------------------------------------------------------------- single blocks

  predicate Used(lay: Layout, v: Volume, n: nat)
    requires lay.perGroup > 0 && Sized(lay, v.groups)
  {
    InRange(lay, |v.groups|, n) && (PartsAddress(lay, |v.groups|, n); v.groups[GroupOf(lay, n)].bitmap[BitOf(lay, n)])
  }

  function Take(lay: Layout, v: Volume, g: nat, bit: nat): Volume
    requires g < |v.groups| && bit < |v.groups[g].bitmap| && v.free > 0
  {
    var was := v.groups[g];
    v.(groups := v.groups[g := Less(was, lay.wide).(bitmap := was.bitmap[bit := true])], free := v.free - 1)
  }

  /** The superblock's count is 64 bits wide on volumes with wide descriptors, else 32. */
  function FreeMore(lay: Layout, free: nat): nat {
    (free + 1) % if lay.wide then 0x1_0000_0000_0000_0000 else 0x1_0000_0000
  }

  /** Clears the block's bit and raises both counts, whatever the bit was. */
  function Release(lay: Layout, v: Volume, n: nat): (r: Volume)
    requires lay.perGroup > 0 && Sized(lay, v.groups) && InRange(lay, |v.groups|, n)
    ensures Sized(lay, r.groups) && |r.groups| == |v.groups| && r.files == v.files
  {
    PartsAddress(lay, |v.groups|, n);
    var g := GroupOf(lay, n);
    var was := v.groups[g];
    v.(groups := v.groups[g := More(was, lay.wide).(bitmap := was.bitmap[BitOf(lay, n) := false])],
       free := FreeMore(lay, v.free))
  }

  /** Each group's count is its number of clear bits; the superblock's is their sum. */
  ghost predicate CountsAgree(lay: Layout, v: Volume) {
    && Supported(lay, |v.groups|)
    && (forall k :: 0 <= k < |v.groups| ==> GroupAgrees(lay, v.groups[k]))
    && Sized(lay, v.groups)
    && v.free == TotalFree(v.groups)
  }

  lemma {:induction false} FreeBounded(lay: Layout, groups: seq<Group>)
    requires forall k :: 0 <= k < |groups| ==> GroupAgrees(lay, groups[k])
    ensures TotalFree(groups) <= |groups| * lay.perGroup
    decreases |groups|
  {
    if groups != [] {
      ClearBounded(groups[0].bitmap);
      FreeBounded(lay, groups[1..]);
      assert |groups| * lay.perGroup == lay.perGroup + (|groups| - 1) * lay.perGroup;
    }
  }

  /** One group replaced by another that agrees, and the sum adjusted. */
  lemma GroupReplaced(lay: Layout, v: Volume, g: nat, group: Group, free: nat)
    requires CountsAgree(lay, v) && g < |v.groups| && GroupAgrees(lay, group)
    requires free + Count(v.groups[g]) == v.free + Count(group)
    ensures CountsAgree(lay, v.(groups := v.groups[g := group], free := free))
  {
    hide Count;
    assert |group.bitmap| == lay.perGroup;
    TotalUpdate(v.groups, g, group);
  }

  /** Taking a clear bit: that block, and no other, becomes used; all counts stay right. */
  lemma TakeKeeps(lay: Layout, v: Volume, g: nat, bit: nat)
    requires CountsAgree(lay, v) && g < |v.groups| && bit < lay.perGroup && !v.groups[g].bitmap[bit]
    ensures v.free > 0
    ensures CountsAgree(lay, Take(lay, v, g, bit))
    ensures forall m :: Used(lay, Take(lay, v, g, bit), m) <==> Used(lay, v, m) || m == Address(lay, g, bit)
  {
    hide GroupAgrees;
    var was := v.groups[g];
    assert |was.bitmap| == lay.perGroup;
    TakeAgrees(lay, was, bit);
    var taken := Less(was, lay.wide).(bitmap := was.bitmap[bit := true]);
    TotalUpdate(v.groups, g, taken);
    GroupReplaced(lay, v, g, taken, v.free - 1);
    AddressParts(lay, g, bit);
    AddressInRange(lay, |v.groups|, g, bit);
    FreeBounded(lay, v.groups);
    SmallVolume(lay, |v.groups|);
    TakenUsed(lay, v, g, bit);
  }

  lemma FreeMoreSmall(lay: Layout, free: nat)
    requires free < 0xFFFF_FFFF
    ensures FreeMore(lay, free) == free + 1
  {
  }

  lemma SmallVolume(lay: Layout, groups: nat)
    requires Supported(lay, groups)
    ensures groups * lay.perGroup <= 0x4_0000
  {
    assert groups <= 32;
    Scaled(groups, 32, lay.perGroup);
  }

  lemma TakenUsed(lay: Layout, v: Volume, g: nat, bit: nat)
    requires lay.perGroup > 0 && Sized(lay, v.groups) && v.free > 0
    requires g < |v.groups| && bit < lay.perGroup && !v.groups[g].bitmap[bit]
    ensures Sized(lay, Take(lay, v, g, bit).groups)
    ensures forall m :: Used(lay, Take(lay, v, g, bit), m) <==> Used(lay, v, m) || m == Address(lay, g, bit)
  {
    hide Address, GroupOf, BitOf, InRange;
    AddressParts(lay, g, bit);
    AddressInRange(lay, |v.groups|, g, bit);
    forall m ensures Used(lay, Take(lay, v, g, bit), m) <==> Used(lay, v, m) || m == Address(lay, g, bit) {
      if InRange(lay, |v.groups|, m) {
        PartsAddress(lay, |v.groups|, m);
      }
    }
  }

  lemma GroupSized(lay: Layout, v: Volume, g: nat)
    requires CountsAgree(lay, v) && g < |v.groups|
    ensures |v.groups[g].bitmap| == lay.perGroup && (!lay.wide ==> v.groups[g].hi == 0)
  {
  }

  /** Releasing the block just taken restores the volume, counter halves included. */
  lemma TakeUndone(lay: Layout, v: Volume, g: nat, bit: nat)
    requires CountsAgree(lay, v) && v.free > 0
    requires g < |v.groups| && bit < lay.perGroup && !v.groups[g].bitmap[bit]
    ensures Sized(lay, Take(lay, v, g, bit).groups) && InRange(lay, |v.groups|, Address(lay, g, bit))
    ensures Release(lay, Take(lay, v, g, bit), Address(lay, g, bit)) == v
  {
    hide Address, GroupOf, BitOf, InRange, FreeMore, TotalFree, Clear, GroupAgrees;
    AddressParts(lay, g, bit);
    AddressInRange(lay, |v.groups|, g, bit);
    FreeBounded(lay, v.groups);
    SmallVolume(lay, |v.groups|);
    FreeMoreSmall(lay, v.free - 1);
    GroupSized(lay, v, g);
    var was := v.groups[g];
    TakeAgrees(lay, was, bit);
    LessCounts(was, lay.wide);
    assert was.bitmap[bit := true][bit := false] == was.bitmap;
    assert v.groups[g := was] == v.groups;
  }

  lemma ReleaseCounts(lay: Layout, v: Volume, n: nat, g: nat, bit: nat)
    requires CountsAgree(lay, v) && InRange(lay, |v.groups|, n) && g == GroupOf(lay, n) && bit == BitOf(lay, n)
    requires g < |v.groups| && bit < |v.groups[g].bitmap| && v.groups[g].bitmap[bit]
    ensures CountsAgree(lay, Release(lay, v, n))
  {
    hide GroupAgrees, Clear, FreeMore, More, GroupOf, BitOf, InRange, TotalFree;
    ReleaseAgrees(lay, v.groups[g], bit);
    var released := More(v.groups[g], lay.wide).(bitmap := v.groups[g].bitmap[bit := false]);
    FreeBounded(lay, v.groups);
    SmallVolume(lay, |v.groups|);
    FreeMoreSmall(lay, v.free);
    GroupReplaced(lay, v, g, released, v.free + 1);
    assert Release(lay, v, n) == v.(groups := v.groups[g := released], free := v.free + 1);
  }

  /** Releasing a used block: that block, and no other, becomes free; all counts stay
      right. */
  lemma ReleaseKeeps(lay: Layout, v: Volume, n: nat)
    requires CountsAgree(lay, v) && Used(lay, v, n)
    ensures CountsAgree(lay, Release(lay, v, n))
    ensures forall m :: Used(lay, Release(lay, v, n), m) <==> Used(lay, v, m) && m != n
  {
    hide GroupAgrees, Release, GroupOf, BitOf, InRange, TotalFree;
    PartsAddress(lay, |v.groups|, n);
    ReleaseCounts(lay, v, n, GroupOf(lay, n), BitOf(lay, n));
    ReleasedUsed(lay, v, n);
  }

  lemma ReleasedUsed(lay: Layout, v: Volume, n: nat)
    requires lay.perGroup > 0 && Sized(lay, v.groups) && Used(lay, v, n)
    ensures forall m :: Used(lay, Release(lay, v, n), m) <==> Used(lay, v, m) && m != n
  {
    hide Address, GroupOf, BitOf, InRange;
    PartsAddress(lay, |v.groups|, n);
    forall m ensures Used(lay, Release(lay, v, n), m) <==> Used(lay, v, m) && m != n {
      if InRange(lay, |v.groups|, m) {
        PartsAddress(lay, |v.groups|, m);
      }
    }
  }

  // ---------------------------------------------------------------- the invariant

  function MapsTo(v: Volume, ino: nat, l: Word): Option<nat> {
    if ino in v.files then Lookup(v.files[ino].leaf, l) else None
  }

  ghost predicate FilesOk(v: Volume) {
    forall i :: i in v.files ==> |v.files[i].leaf| <= MAX_EXTENTS && Ordered(v.files[i].leaf)
  }

  /** Every mapped block is marked used and holds no metadata. */
  ghost predicate MappedUsed(lay: Layout, v: Volume)
    requires lay.perGroup > 0 && Sized(lay, v.groups)
  {
    forall i, l: Word :: MapsTo(v, i, l).Some? ==>
      Used(lay, v, MapsTo(v, i, l).value) && MapsTo(v, i, l).value !in lay.meta
  }

  /** No block is mapped twice, by one file or by two. */
  ghost predicate NoAlias(v: Volume) {
    forall i, l: Word, j, m: Word :: MapsTo(v, i, l).Some? && MapsTo(v, i, l) == MapsTo(v, j, m) ==> i == j && l == m
  }

  ghost predicate MetaUsed(lay: Layout, v: Volume)
    requires lay.perGroup > 0 && Sized(lay, v.groups)
  {
    forall n :: n in lay.meta ==> Used(lay, v, n)
  }

  ghost predicate Consistent(lay: Layout, v: Volume) {
    CountsAgree(lay, v) && FilesOk(v) && MappedUsed(lay, v) && NoAlias(v) && MetaUsed(lay, v)
  }

  /** A volume of empty files starts consistent once its counts are right and its metadata
      is marked used. */
  lemma EmptyFilesAreConsistent(lay: Layout, v: Volume)
    requires CountsAgree(lay, v) && MetaUsed(lay, v)
    requires forall i :: i in v.files ==> v.files[i].leaf == []
    ensures Consistent(lay, v)
  {
  }

  // ---------------------------------------------------------------- extension

  /** The inode states that extension refuses. */
  predicate ExtendRefuses(f: File) {
    || |f.leaf| > MAX_EXTENTS
    || (f.leaf == [] && f.size != 0)
    || (f.leaf != [] && (f.leaf[|f.leaf| - 1].len >= 0x8000 || f.size != End(f.leaf) * BLOCK_SIZE))
  }

  /** Group and bit of the block an extension takes. With all four extents in use only the
      block after the last one will do. */
  function Candidate(lay: Layout, v: Volume, leaf: Leaf): (r: Option<(nat, nat)>)
    requires lay.perGroup > 0 && Sized(lay, v.groups)
    ensures r.Some? ==> r.value.0 < |v.groups| && r.value.1 < lay.perGroup
  {
    if |leaf| < MAX_EXTENTS then FindFree(lay, v.groups, 0)
    else
      var n := Contiguous(leaf);
      if InRange(lay, |v.groups|, n) && !Used(lay, v, n) then
        PartsAddress(lay, |v.groups|, n);
        Some((GroupOf(lay, n), BitOf(lay, n)))
      else None
  }

  function Grown(f: File, n: nat, bytes: Word): File {
    File((f.size + bytes) % 0x1_0000_0000_0000_0000, Extend(f.leaf, n), Plus(f.sectors, SECTORS_PER_BLOCK))
  }

  /** The volume after an extension takes block `bit` of group `g`. */
  function ExtendedAt(lay: Layout, v: Volume, ino: nat, bytes: Word, g: nat, bit: nat): Volume
    requires ino in v.files && v.free > 0 && g < |v.groups| && bit < |v.groups[g].bitmap|
  {
    Take(lay, v, g, bit).(files := v.files[ino := Grown(v.files[ino], Address(lay, g, bit), bytes)])
  }

  /** The result of an extension, or None when it is refused. */
  function Extended(lay: Layout, v: Volume, ino: nat, bytes: Word): Option<Volume>
    requires lay.perGroup > 0 && Sized(lay, v.groups) && ino in v.files
  {
    var f := v.files[ino];
    if ExtendRefuses(f) then None
    else match Candidate(lay, v, f.leaf)
      case None => None
      case Some((g, bit)) => if v.free == 0 then None else Some(ExtendedAt(lay, v, ino, bytes, g, bit))
  }

  /** The file's extents can express the block that an extension would take. */
  predicate Fits(lay: Layout, v: Volume, ino: nat)
    requires lay.perGroup > 0 && Sized(lay, v.groups) && ino in v.files
  {
    match Candidate(lay, v, v.files[ino].leaf)
    case None => true
    case Some((g, bit)) => HasRoom(v.files[ino].leaf, Address(lay, g, bit))
  }

  /** A candidate is a clear bit, so its block is neither metadata nor mapped. */
  lemma CandidateIsFree(lay: Layout, v: Volume, leaf: Leaf)
    requires CountsAgree(lay, v) && Candidate(lay, v, leaf).Some?
    ensures var (g, bit) := Candidate(lay, v, leaf).value;
            && g < |v.groups| && bit < lay.perGroup && !v.groups[g].bitmap[bit]
            && !Used(lay, v, Address(lay, g, bit))
            && v.free > 0
            && (|leaf| >= MAX_EXTENTS ==> Address(lay, g, bit) == Contiguous(leaf))
  {
    hide GroupAgrees;
    var (g, bit) := Candidate(lay, v, leaf).value;
    if |leaf| < MAX_EXTENTS {
      FindFreeIsLowest(lay, v.groups, 0);
      AddressParts(lay, g, bit);
    } else {
      PartsAddress(lay, |v.groups|, Contiguous(leaf));
    }
    TakeKeeps(lay, v, g, bit);
  }

  /** Whether the file's extents can express one more block. */
  predicate HasRoom(leaf: Leaf, n: nat) {
    End(leaf) < 0xFFFF_FFFF && !Overflows(leaf, n)
  }

  /** After an extension each file maps what it did, and the extended one also the new
      block at its end. */
  lemma ExtendMaps(lay: Layout, v: Volume, ino: nat, bytes: Word, g: nat, bit: nat, i: nat, l: Word)
    requires FilesOk(v) && ino in v.files && v.free > 0 && g < |v.groups| && bit < |v.groups[g].bitmap|
    requires HasRoom(v.files[ino].leaf, Address(lay, g, bit))
    ensures MapsTo(ExtendedAt(lay, v, ino, bytes, g, bit), i, l) ==
            if i == ino && l == End(v.files[ino].leaf) then Some(Address(lay, g, bit)) else MapsTo(v, i, l)
  {
    hide Lookup, Extend, Overflows, Ordered, Address;
    ExtendAddsOne(v.files[ino].leaf, Address(lay, g, bit), l);
  }

  lemma NoRoomBreaksOrder(leaf: Leaf, n: nat)
    requires Ordered(leaf) && !HasRoom(leaf, n)
    ensures !Ordered(Extend(leaf, n))
  {
    var longer := Extend(leaf, n);
    if leaf != [] {
      LastInitialised(leaf);
    }
    assert !Initialised(longer[|longer| - 1]);
  }

  lemma SameUsed(lay: Layout, v: Volume, v': Volume)
    requires lay.perGroup > 0 && Sized(lay, v.groups) && v.groups == v'.groups
    ensures forall m :: Used(lay, v', m) == Used(lay, v, m)
  {
  }

  /** A block that was free becomes the new end of a file: nothing else changes owner. */
  lemma ExtendedOwnership(lay: Layout, v: Volume, ino: nat, bytes: Word, g: nat, bit: nat)
    requires Consistent(lay, v) && ino in v.files && g < |v.groups| && bit < lay.perGroup && v.free > 0
    requires !Used(lay, v, Address(lay, g, bit)) && HasRoom(v.files[ino].leaf, Address(lay, g, bit))
    requires var v' := ExtendedAt(lay, v, ino, bytes, g, bit);
             && Sized(lay, v'.groups)
             && forall m :: Used(lay, v', m) <==> Used(lay, v, m) || m == Address(lay, g, bit)
    ensures var v' := ExtendedAt(lay, v, ino, bytes, g, bit);
            MappedUsed(lay, v') && NoAlias(v') && MetaUsed(lay, v')
  {
    hide Address, GroupAgrees, Lookup, InRange, GroupOf, BitOf, Used, ExtendedAt, MapsTo, HasRoom, End, FilesOk;
    var v' := ExtendedAt(lay, v, ino, bytes, g, bit);
    var n, e := Address(lay, g, bit), End(v.files[ino].leaf);
    forall i, l: Word
      ensures MapsTo(v', i, l) == if i == ino && l == e then Some(n) else MapsTo(v, i, l)
    {
      ExtendMaps(lay, v, ino, bytes, g, bit, i, l);
    }
  }

  /** Allocation conservation and no aliasing: extension keeps the whole invariant exactly
      when the extents can express the new block. */
  lemma ExtendKeepsConsistent(lay: Layout, v: Volume, ino: nat, bytes: Word)
    requires Consistent(lay, v) && ino in v.files && Extended(lay, v, ino, bytes).Some?
    ensures Consistent(lay, Extended(lay, v, ino, bytes).value) <==> Fits(lay, v, ino)
  {
    hide Address, GroupAgrees, Lookup, InRange, GroupOf, BitOf, Used, Candidate;
    var leaf := v.files[ino].leaf;
    var (g, bit) := Candidate(lay, v, leaf).value;
    var n := Address(lay, g, bit);
    CandidateIsFree(lay, v, leaf);
    TakeKeeps(lay, v, g, bit);
    var v' := ExtendedAt(lay, v, ino, bytes, g, bit);
    assert CountsAgree(lay, v');
    if HasRoom(leaf, n) {
      ExtendOrdered(leaf, n);
      SameUsed(lay, Take(lay, v, g, bit), v');
      ExtendedOwnership(lay, v, ino, bytes, g, bit);
    } else {
      NoRoomBreaksOrder(leaf, n);
      assert v'.files[ino].leaf == Extend(leaf, n);
    }
  }

  /** With counts in step an extension is refused only for the file's own shape or for
      want of a candidate: the superblock's count never stops it. */
  lemma ExtendSucceedsIff(lay: Layout, v: Volume, ino: nat, bytes: Word)
    requires CountsAgree(lay, v) && ino in v.files
    ensures Extended(lay, v, ino, bytes).Some? <==>
            !ExtendRefuses(v.files[ino]) && Candidate(lay, v, v.files[ino].leaf).Some?
  {
    hide GroupAgrees, Candidate, Used, Address;
    if Candidate(lay, v, v.files[ino].leaf).Some? {
      CandidateIsFree(lay, v, v.files[ino].leaf);
    }
  }

  /** What a successful extension of a file does to all files' blocks. */
  lemma ExtendedMaps(lay: Layout, v: Volume, ino: nat, bytes: Word, i: nat, l: Word)
    requires Consistent(lay, v) && ino in v.files && Extended(lay, v, ino, bytes).Some? && Fits(lay, v, ino)
    ensures var (g, bit) := Candidate(lay, v, v.files[ino].leaf).value;
            var n := Address(lay, g, bit);
            && !Used(lay, v, n)
            && MapsTo(Extended(lay, v, ino, bytes).value, i, l) ==
               if i == ino && l == End(v.files[ino].leaf) then Some(n) else MapsTo(v, i, l)
  {
    hide Address, GroupAgrees, Lookup, InRange, GroupOf, BitOf, Used, Candidate, MapsTo;
    var (g, bit) := Candidate(lay, v, v.files[ino].leaf).value;
    CandidateIsFree(lay, v, v.files[ino].leaf);
    ExtendMaps(lay, v, ino, bytes, g, bit, i, l);
  }

  /** A file grown by a whole block can be grown again; a partial block ends that. */
  lemma ExtendableAgainIff(f: File, n: nat, bytes: Word)
    requires !ExtendRefuses(f) && Ordered(f.leaf) && HasRoom(f.leaf, n)
    requires |Extend(f.leaf, n)| <= MAX_EXTENTS
    ensures !ExtendRefuses(Grown(f, n, bytes)) <==> bytes == BLOCK_SIZE
  {
    ExtendOrdered(f.leaf, n);
    LastInitialised(Extend(f.leaf, n));
    assert f.size == End(f.leaf) * BLOCK_SIZE;
  }
}
