/** Runs of extensions and truncations. */
module AllocatorRuns {
  import opened Words
  import opened Extents
  import opened Bitmaps
  import opened Volumes
  import opened Truncation

  // ---------------------------------------------------------------- undo

  lemma ReleaseIgnoresFiles(lay: Layout, v: Volume, files: map<nat, File>, n: nat)
    requires lay.perGroup > 0 && Sized(lay, v.groups) && InRange(lay, |v.groups|, n)
    ensures Release(lay, v.(files := files), n) == Release(lay, v, n).(files := files)
  {
  }

  lemma {:induction false} ReleaseAllIgnoresFiles(lay: Layout, v: Volume, files: map<nat, File>, s: seq<nat>)
    requires lay.perGroup > 0 && Sized(lay, v.groups) && AllInRange(lay, |v.groups|, s)
    ensures ReleaseAll(lay, v.(files := files), s) == ReleaseAll(lay, v, s).(files := files)
    decreases |s|
  {
    hide Release;
    if s != [] {
      ReleaseIgnoresFiles(lay, v, files, s[0]);
      ReleaseAllIgnoresFiles(lay, Release(lay, v, s[0]), files, s[1..]);
    }
  }

  /** An extension followed by a truncation to any boundary at or below the old end is
      that truncation alone. */
  lemma TruncateForgetsExtend(lay: Layout, v: Volume, ino: nat, bytes: Word, newSize: nat)
    requires Consistent(lay, v) && ino in v.files && Extended(lay, v, ino, bytes).Some? && Fits(lay, v, ino)
    requires BlockCount(newSize) <= End(v.files[ino].leaf)
    ensures var v' := Extended(lay, v, ino, bytes).value;
            && Sized(lay, v'.groups) && AllInRange(lay, |v'.groups|, Freed(v'.files[ino].leaf, BlockCount(newSize)))
            && AllInRange(lay, |v.groups|, Freed(v.files[ino].leaf, BlockCount(newSize)))
            && Truncated(lay, v', ino, newSize) == Truncated(lay, v, ino, newSize)
  {
    hide Address, GroupAgrees, Lookup, InRange, GroupOf, BitOf, Used, Candidate, MapsTo, Take, Release, MappedUsed, NoAlias,
         MetaUsed, Freed, Kept, Extend;
    var f, nbc := v.files[ino], BlockCount(newSize);
    var (g, bit) := Candidate(lay, v, f.leaf).value;
    var n := Address(lay, g, bit);
    CandidateIsFree(lay, v, f.leaf);
    TakeKeeps(lay, v, g, bit);
    TakeUndone(lay, v, g, bit);
    FreedIsUsed(lay, v, ino, nbc);
    var v' := Extended(lay, v, ino, bytes).value;
    var taken := Take(lay, v, g, bit);
    var s := Freed(f.leaf, nbc);
    CutUndoesExtend(f.leaf, n, nbc);
    assert taken.files == v.files by { TakeFields(lay, v, g, bit); }
    assert v' == taken.(files := v'.files) && |v'.groups| == |v.groups| by { TakeFields(lay, v, g, bit); }
    assert ([n] + s)[1..] == s;
    ReleaseIgnoresFiles(lay, taken, v'.files, n);
    ReleaseAllIgnoresFiles(lay, v, v'.files, s);
    assert ReleaseAll(lay, v', [n] + s) == ReleaseAll(lay, v, s).(files := v'.files);
    SectorsBack(f.sectors, |s|);
  }

  lemma TakeFields(lay: Layout, v: Volume, g: nat, bit: nat)
    requires g < |v.groups| && bit < |v.groups[g].bitmap| && v.free > 0
    ensures Take(lay, v, g, bit).files == v.files && |Take(lay, v, g, bit).groups| == |v.groups|
  {
  }

  lemma SectorsBack(s: Word, k: nat)
    ensures (Plus(s, SECTORS_PER_BLOCK) - SECTORS_PER_BLOCK * (1 + k)) % 0x1_0000_0000
            == (s - SECTORS_PER_BLOCK * k) % 0x1_0000_0000
  {
  }

  /** `k` successful extensions of one file, each within what its extents can express. */
  ghost predicate ExtendsTo(lay: Layout, v: Volume, ino: nat, k: nat, w: Volume)
    decreases k
  {
    if k == 0 then w == v
    else
      && Consistent(lay, v) && ino in v.files
      && Extended(lay, v, ino, BLOCK_SIZE).Some? && Fits(lay, v, ino)
      && ExtendsTo(lay, Extended(lay, v, ino, BLOCK_SIZE).value, ino, k - 1, w)
  }

  lemma {:induction false} TruncateForgetsExtends(lay: Layout, v: Volume, ino: nat, k: nat, w: Volume, newSize: nat)
    requires Consistent(lay, v) && ino in v.files && ExtendsTo(lay, v, ino, k, w)
    requires BlockCount(newSize) <= End(v.files[ino].leaf)
    ensures Consistent(lay, w) && ino in w.files
    ensures AllInRange(lay, |w.groups|, Freed(w.files[ino].leaf, BlockCount(newSize)))
    ensures AllInRange(lay, |v.groups|, Freed(v.files[ino].leaf, BlockCount(newSize)))
    ensures Truncated(lay, w, ino, newSize) == Truncated(lay, v, ino, newSize)
    decreases k
  {
    hide Address, GroupAgrees, Lookup, InRange, GroupOf, BitOf, Used, Candidate, MapsTo, Take, Release, MappedUsed, NoAlias,
         MetaUsed, Freed, Kept, Truncated, HasRoom;
    if k == 0 {
      FreedIsUsed(lay, v, ino, BlockCount(newSize));
    } else {
      var v1 := Extended(lay, v, ino, BLOCK_SIZE).value;
      ExtendKeepsConsistent(lay, v, ino, BLOCK_SIZE);
      TruncateForgetsExtend(lay, v, ino, BLOCK_SIZE, newSize);
      EndGrows(lay, v, ino, BLOCK_SIZE);
      TruncateForgetsExtends(lay, v1, ino, k - 1, w, newSize);
    }
  }

  lemma EndGrows(lay: Layout, v: Volume, ino: nat, bytes: Word)
    requires Consistent(lay, v) && ino in v.files && Extended(lay, v, ino, bytes).Some? && Fits(lay, v, ino)
    ensures ino in Extended(lay, v, ino, bytes).value.files
    ensures End(Extended(lay, v, ino, bytes).value.files[ino].leaf) == End(v.files[ino].leaf) + 1
  {
    hide Address, GroupAgrees, Lookup, InRange, GroupOf, BitOf, Used, Candidate;
    var (g, bit) := Candidate(lay, v, v.files[ino].leaf).value;
    ExtendOrdered(v.files[ino].leaf, Address(lay, g, bit));
  }

  lemma WholeBlocks(e: Word)
    ensures BlockCount(e * BLOCK_SIZE) == e
  {
  }

  /** Cutting a file to the size it has changes nothing. */
  lemma TruncateToSelf(lay: Layout, v: Volume, ino: nat)
    requires Consistent(lay, v) && ino in v.files && v.files[ino].size == End(v.files[ino].leaf) * BLOCK_SIZE
    ensures AllInRange(lay, |v.groups|, Freed(v.files[ino].leaf, BlockCount(v.files[ino].size)))
    ensures Truncated(lay, v, ino, v.files[ino].size) == v
  {
    var f := v.files[ino];
    WholeBlocks(End(f.leaf));
    CutAtEnd(f.leaf);
    assert v.files[ino := f] == v.files;
  }

  /** Extend, then truncate, is an undo: any number of whole-block extensions of a
      block-aligned file, merging or appending, followed by a truncation to its old size,
      restores the volume: extents, bitmaps, both halves of every free count, the
      superblock's count and the inode. */
  lemma TruncateUndoesExtends(lay: Layout, v: Volume, ino: nat, k: nat, w: Volume)
    requires Consistent(lay, v) && ino in v.files && v.files[ino].size == End(v.files[ino].leaf) * BLOCK_SIZE
    requires ExtendsTo(lay, v, ino, k, w)
    ensures Consistent(lay, w) && ino in w.files
    ensures AllInRange(lay, |w.groups|, Freed(w.files[ino].leaf, BlockCount(v.files[ino].size)))
    ensures Truncated(lay, w, ino, v.files[ino].size) == v
  {
    hide Consistent, ExtendsTo, Truncated, Freed;
    WholeBlocks(End(v.files[ino].leaf));
    TruncateForgetsExtends(lay, v, ino, k, w, v.files[ino].size);
    TruncateToSelf(lay, v, ino);
  }

  // ---------------------------------------------------------------- runs

  datatype Op =
    | ExtendOp(ino: nat, bytes: Word)
    | TruncateOp(ino: nat, newSize: nat)

  /** One call. Refused calls change nothing. */
  ghost function Step(lay: Layout, v: Volume, op: Op): Volume
    requires Consistent(lay, v) && op.ino in v.files
  {
    match op
    case ExtendOp(ino, bytes) =>
      (match Extended(lay, v, ino, bytes)
       case None => v
       case Some(v') => v')
    case TruncateOp(ino, newSize) =>
      if newSize >= v.files[ino].size then v
      else
        TruncateIsExact(lay, v, ino, newSize);
        Truncated(lay, v, ino, newSize)
  }

  /** The call names a file and stays within what its extents can express. */
  ghost predicate Allowed(lay: Layout, v: Volume, op: Op)
    requires Consistent(lay, v)
  {
    op.ino in v.files && (op.ExtendOp? ==> Fits(lay, v, op.ino))
  }

  ghost predicate AllAllowed(lay: Layout, v: Volume, ops: seq<Op>)
    requires Consistent(lay, v)
    decreases |ops|
  {
    ops == [] || (Allowed(lay, v, ops[0]) && (StepKeeps(lay, v, ops[0]); AllAllowed(lay, Step(lay, v, ops[0]), ops[1..])))
  }

  ghost function Steps(lay: Layout, v: Volume, ops: seq<Op>): Volume
    requires Consistent(lay, v) && AllAllowed(lay, v, ops)
    decreases |ops|
  {
    if ops == [] then v else (StepKeeps(lay, v, ops[0]); Steps(lay, Step(lay, v, ops[0]), ops[1..]))
  }

  lemma StepKeeps(lay: Layout, v: Volume, op: Op)
    requires Consistent(lay, v) && Allowed(lay, v, op)
    ensures Consistent(lay, Step(lay, v, op))
    ensures Step(lay, v, op).files.Keys == v.files.Keys
  {
    hide Consistent, Fits;
    match op
    case ExtendOp(ino, bytes) =>
      ConsistentParts(lay, v);
      if Extended(lay, v, ino, bytes).Some? {
        ExtendKeepsConsistent(lay, v, ino, bytes);
        ExtendKeepsFiles(lay, v, ino, bytes);
      }
    case TruncateOp(ino, newSize) =>
      TruncateIsExact(lay, v, ino, newSize);
      ConsistentParts(lay, v);
  }

  lemma ConsistentParts(lay: Layout, v: Volume)
    requires Consistent(lay, v)
    ensures lay.perGroup > 0 && Sized(lay, v.groups)
  {
  }

  lemma ExtendKeepsFiles(lay: Layout, v: Volume, ino: nat, bytes: Word)
    requires lay.perGroup > 0 && Sized(lay, v.groups) && ino in v.files && Extended(lay, v, ino, bytes).Some?
    ensures Extended(lay, v, ino, bytes).value.files.Keys == v.files.Keys
  {
  }

  /** After any run of extensions and truncations, free counts equal clear bits, the
      superblock's count equals their sum, every mapped block is marked used, no block is
      mapped twice and none holds metadata. */
  lemma {:induction false} RunKeepsConsistent(lay: Layout, v: Volume, ops: seq<Op>)
    requires Consistent(lay, v) && AllAllowed(lay, v, ops)
    ensures Consistent(lay, Steps(lay, v, ops))
    decreases |ops|
  {
    hide Consistent;
    if ops != [] {
      StepKeeps(lay, v, ops[0]);
      RunKeepsConsistent(lay, Step(lay, v, ops[0]), ops[1..]);
    }
  }

  // ---------------------------------------------------------------- cut truncations

  /** A block that the allocator's scan looks at: in a whole byte of its group's bitmap. */
  predicate Scannable(lay: Layout, groups: nat, n: nat)
    requires lay.perGroup > 0
  {
    InRange(lay, groups, n) && (n - lay.first) % lay.perGroup < lay.perGroup / 8 * 8
  }

  /** The next extension of a file with these extents meets one of the blocks `freed`. With
      a free slot in its table: one that the scan looks at lies below every such block that
      was free before. With a full table: the block after its last one is among them. */
  ghost predicate MeetsFreed(lay: Layout, v: Volume, leaf: Leaf, freed: seq<nat>)
    requires lay.perGroup > 0 && Sized(lay, v.groups)
  {
    if |leaf| < MAX_EXTENTS then
      exists n :: n in freed && Scannable(lay, |v.groups|, n)
                  && forall m :: Scannable(lay, |v.groups|, m) && !Used(lay, v, m) ==> n < m
    else Contiguous(leaf) in freed
  }

  lemma AddressOrder(lay: Layout, g: nat, bit: nat, h: nat, b: nat)
    requires bit < lay.perGroup && (g < h || (g == h && bit <= b))
    ensures Address(lay, g, bit) <= Address(lay, h, b)
  {
    if g < h {
      Scaled(g + 1, h, lay.perGroup);
    }
  }

  /** The scan's choice is the lowest free block that it looks at. */
  lemma CandidateIsLowest(lay: Layout, v: Volume, leaf: Leaf, m: nat)
    requires CountsAgree(lay, v) && |leaf| < MAX_EXTENTS && Scannable(lay, |v.groups|, m) && !Used(lay, v, m)
    ensures Candidate(lay, v, leaf).Some?
    ensures var (g, bit) := Candidate(lay, v, leaf).value; Address(lay, g, bit) <= m
  {
    hide GroupAgrees, Address;
    FindFreeIsLowest(lay, v.groups, 0);
    PartsAddress(lay, |v.groups|, m);
    var h, b := GroupOf(lay, m), BitOf(lay, m);
    assert !v.groups[h].bitmap[b];
    var (g, bit) := Candidate(lay, v, leaf).value;
    AddressOrder(lay, g, bit, h, b);
  }

  lemma CandidateIsScannable(lay: Layout, v: Volume, leaf: Leaf)
    requires CountsAgree(lay, v) && |leaf| < MAX_EXTENTS && Candidate(lay, v, leaf).Some?
    ensures var (g, bit) := Candidate(lay, v, leaf).value; Scannable(lay, |v.groups|, Address(lay, g, bit))
  {
    hide GroupAgrees, Address;
    FindFreeIsLowest(lay, v.groups, 0);
    var (g, bit) := Candidate(lay, v, leaf).value;
    AddressParts(lay, g, bit);
    AddressInRange(lay, |v.groups|, g, bit);
  }

  /** With room for an extent, and groups that fill their bytes, there is no candidate if and
      only if no block is free. */
  lemma NoCandidateIffFull(lay: Layout, v: Volume, leaf: Leaf)
    requires CountsAgree(lay, v) && |leaf| < MAX_EXTENTS && lay.perGroup % 8 == 0
    ensures Candidate(lay, v, leaf).None? <==> v.free == 0
  {
    hide GroupAgrees, Address;
    if Candidate(lay, v, leaf).Some? {
      CandidateIsFree(lay, v, leaf);
    } else {
      FindFreeIsLowest(lay, v.groups, 0);
      forall k | 0 <= k < |v.groups| ensures Count(v.groups[k]) == 0 {
        NoneClear(lay, v.groups[k]);
      }
      NoneFree(v.groups);
    }
  }

  lemma NoneClear(lay: Layout, g: Group)
    requires GroupAgrees(lay, g) && forall b :: 0 <= b < lay.perGroup ==> g.bitmap[b]
    ensures Count(g) == 0
  {
    ClearZero(g.bitmap);
  }

  lemma {:induction false} NoneFree(groups: seq<Group>)
    requires forall k :: 0 <= k < |groups| ==> Count(groups[k]) == 0
    ensures TotalFree(groups) == 0
  {
    if groups != [] {
      assert forall k :: 0 <= k < |groups| - 1 ==> groups[1..][k] == groups[k + 1];
      NoneFree(groups[1..]);
    }
  }

  /** With some used blocks freed, the allocator takes one of them exactly when the file
      meets them. */
  lemma TakesFreedIff(lay: Layout, v: Volume, cut: Volume, leaf: Leaf, freed: seq<nat>)
    requires lay.perGroup > 0 && Sized(lay, v.groups) && Sized(lay, cut.groups) && |v.groups| == |cut.groups|
    requires CountsAgree(lay, cut)
    requires AllUsed(lay, v, freed)
    requires forall m :: Used(lay, cut, m) <==> Used(lay, v, m) && m !in freed
    ensures MeetsFreed(lay, v, leaf, freed) <==>
            Candidate(lay, cut, leaf).Some?
            && (var (g, bit) := Candidate(lay, cut, leaf).value; Address(lay, g, bit) in freed)
  {
    hide GroupAgrees, Address, GroupOf, BitOf, InRange, Sized, CountsAgree;
    assert forall n :: n in freed ==> Used(lay, v, n);
    var size := |v.groups|;
    if Candidate(lay, cut, leaf).Some? {
      CandidateIsFree(lay, cut, leaf);
      var (g, bit) := Candidate(lay, cut, leaf).value;
      var c := Address(lay, g, bit);
      if c in freed {
        if |leaf| < MAX_EXTENTS {
          CandidateIsScannable(lay, cut, leaf);
          forall m | Scannable(lay, size, m) && !Used(lay, v, m) ensures c < m {
            CandidateIsLowest(lay, cut, leaf, m);
          }
        }
        assert MeetsFreed(lay, v, leaf, freed);
      }
    }
    if MeetsFreed(lay, v, leaf, freed) {
      if |leaf| < MAX_EXTENTS {
        var n :| n in freed && Scannable(lay, size, n)
                 && forall m :: Scannable(lay, size, m) && !Used(lay, v, m) ==> n < m;
        CandidateIsLowest(lay, cut, leaf, n);
        CandidateIsScannable(lay, cut, leaf);
      } else {
        FullTableTakes(lay, cut, leaf);
      }
    }
  }

  lemma FullTableTakes(lay: Layout, v: Volume, leaf: Leaf)
    requires lay.perGroup > 0 && Sized(lay, v.groups) && |leaf| >= MAX_EXTENTS
    requires InRange(lay, |v.groups|, Contiguous(leaf)) && !Used(lay, v, Contiguous(leaf))
    ensures Candidate(lay, v, leaf).Some?
    ensures var (g, bit) := Candidate(lay, v, leaf).value; Address(lay, g, bit) == Contiguous(leaf)
  {
    PartsAddress(lay, |v.groups|, Contiguous(leaf));
  }

  /** The extension of `j` succeeds and some block is then mapped twice. */
  ghost predicate Aliases(lay: Layout, v: Volume, j: nat)
    requires lay.perGroup > 0 && Sized(lay, v.groups) && j in v.files
  {
    Extended(lay, v, j, BLOCK_SIZE).Some? && !NoAlias(Extended(lay, v, j, BLOCK_SIZE).value)
  }

  /** After a cut truncation, an extension of another file aliases exactly when it is not
      refused for the file's shape and meets a block that the truncated inode still
      claims. */
  lemma CutTruncateAliasesIff(lay: Layout, v: Volume, ino: nat, nbc: Word, k: nat, j: nat)
    requires Consistent(lay, v) && ino in v.files && j in v.files && j != ino
    requires k <= |Freed(v.files[ino].leaf, nbc)|
    ensures AllInRange(lay, |v.groups|, Freed(v.files[ino].leaf, nbc))
    ensures var cut := AfterFrees(lay, v, ino, nbc, k);
            && CountsAgree(lay, cut) && cut.files == v.files
            && (Fits(lay, cut, j) ==>
                  (Aliases(lay, cut, j) <==>
                   !ExtendRefuses(v.files[j]) && MeetsFreed(lay, v, v.files[j].leaf, Freed(v.files[ino].leaf, nbc)[..k])))
  {
    hide Address, GroupAgrees, Lookup, InRange, GroupOf, BitOf, Used, Candidate, MapsTo, Take, Release, MetaUsed, Freed,
         HasRoom, Extend, FilesOk, Ordered, End, MeetsFreed, ExtendRefuses, ReleaseAll;
    CutTruncateIsSafe(lay, v, ino, nbc, k);
    AfterFreesUsed(lay, v, ino, nbc, k);
    FreedIsUsed(lay, v, ino, nbc);
    var cut := AfterFrees(lay, v, ino, nbc, k);
    TakesFreedIff(lay, v, cut, v.files[j].leaf, Freed(v.files[ino].leaf, nbc)[..k]);
    ExtendSucceedsIff(lay, cut, j, BLOCK_SIZE);
    if Extended(lay, cut, j, BLOCK_SIZE).Some? && Fits(lay, cut, j) {
      var (g, bit) := Candidate(lay, cut, v.files[j].leaf).value;
      CandidateIsFree(lay, cut, v.files[j].leaf);
      SameFilesOk(cut, v);
      AliasAfter(lay, v, cut, ino, nbc, k, j, g, bit);
    }
  }

  lemma SameMaps(v: Volume, w: Volume)
    requires v.files == w.files
    ensures forall i, l: Word :: MapsTo(v, i, l) == MapsTo(w, i, l)
  {
  }

  lemma AliasAfter(lay: Layout, v: Volume, cut: Volume, ino: nat, nbc: Word, k: nat, j: nat,
                   g: nat, bit: nat)
    requires FilesOk(cut) && lay.perGroup > 0 && Sized(lay, v.groups) && MappedUsed(lay, v) && NoAlias(v)
    requires cut.files == v.files && ino in v.files && j in v.files && j != ino
    requires k <= |Freed(v.files[ino].leaf, nbc)|
    requires cut.free > 0 && g < |cut.groups| && bit < |cut.groups[g].bitmap|
    requires HasRoom(v.files[j].leaf, Address(lay, g, bit))
    requires !Used(lay, v, Address(lay, g, bit)) || Address(lay, g, bit) in Freed(v.files[ino].leaf, nbc)[..k]
    ensures NoAlias(ExtendedAt(lay, cut, j, BLOCK_SIZE, g, bit))
            <==> Address(lay, g, bit) !in Freed(v.files[ino].leaf, nbc)[..k]
  {
    hide Address, Lookup, InRange, GroupOf, BitOf, Used, MapsTo, Take, Freed, HasRoom, Extend, FilesOk, Ordered, End,
         ExtendedAt;
    var n, w := Address(lay, g, bit), ExtendedAt(lay, cut, j, BLOCK_SIZE, g, bit);
    SameMaps(v, cut);
    forall i, l: Word
      ensures MapsTo(w, i, l) == if i == j && l == End(v.files[j].leaf) then Some(n) else MapsTo(v, i, l)
    {
      ExtendMaps(lay, cut, j, BLOCK_SIZE, g, bit, i, l);
    }
    var s := Freed(v.files[ino].leaf, nbc);
    if n in s[..k] {
      assert n in s;
      assert FilesOk(v) by { SameFilesOk(v, cut); }
      FreedAreMapped(v, ino, nbc, n);
      var l: Word :| MapsTo(v, ino, l) == Some(n);
      assert MapsTo(w, ino, l) == MapsTo(w, j, End(v.files[j].leaf));
    }
  }

  lemma SameFilesOk(v: Volume, w: Volume)
    requires FilesOk(w) && v.files == w.files
    ensures FilesOk(v)
  {
  }

  // ---------------------------------------------------------------- a cut that aliases

  function OneGroup(): Layout {
    Layout(1, 8, false, {1})
  }

  /** Blocks 1 to 8 in one group: block 1 holds metadata, block 2 is all of file 12, and
      file 13 is empty. */
  function TwoFiles(): Volume {
    Volume([Group([true, true, false, false, false, false, false, false], 6, 0)], 6,
           map[12 := File(1024, [Extent(0, 1, 2)], 2), 13 := File(0, [], 0)])
  }

  lemma SixClear()
    ensures Clear(TwoFiles().groups[0].bitmap) == 6
  {
    var b := TwoFiles().groups[0].bitmap;
    assert b[2..] == [false, false, false, false, false, false];
    var six: seq<bool> := [false, false, false, false, false, false];
    assert Clear(six[3..]) == 3 && Clear(six) == 6;
    assert b[1..][1..] == six;
  }

  lemma TwoFilesUsed(m: nat)
    ensures Used(OneGroup(), TwoFiles(), m) <==> 1 <= m <= 2
  {
    if 1 <= m < 9 {
      PartsAddress(OneGroup(), 1, m);
      assert GroupOf(OneGroup(), m) == 0 && BitOf(OneGroup(), m) == m - 1;
    }
  }

  lemma TwoFilesMap(i: nat, l: Word)
    ensures MapsTo(TwoFiles(), i, l) == if i == 12 && l == 0 then Some(2) else None
  {
    LookupOne(Extent(0, 1, 2), l);
  }

  lemma TwoFilesAreConsistent()
    ensures Consistent(OneGroup(), TwoFiles())
  {
    hide Used, MapsTo;
    SixClear();
    forall m ensures Used(OneGroup(), TwoFiles(), m) <==> 1 <= m <= 2 { TwoFilesUsed(m); }
    forall i, l: Word ensures MapsTo(TwoFiles(), i, l) == if i == 12 && l == 0 then Some(2) else None { TwoFilesMap(i, l); }
    var groups := TwoFiles().groups;
    assert groups[1..] == [];
    assert TotalFree(groups) == Count(groups[0]) + TotalFree(groups[1..]);
  }

  /** The comment that a crash cannot alias fails here: a truncation of file 12 to nothing
      is cut after its first transaction, file 13 is extended, and both files then map
      block 2. */
  lemma CutTruncateCanAlias()
    ensures Consistent(OneGroup(), TwoFiles()) && Freed(TwoFiles().files[12].leaf, 0) == [2]
    ensures AllInRange(OneGroup(), 1, [2])
    ensures var cut := AfterFrees(OneGroup(), TwoFiles(), 12, 0, 1);
            && Fits(OneGroup(), cut, 13) && Aliases(OneGroup(), cut, 13)
            && MapsTo(Extended(OneGroup(), cut, 13, BLOCK_SIZE).value, 12, 0) == Some(2)
            && MapsTo(Extended(OneGroup(), cut, 13, BLOCK_SIZE).value, 13, 0) == Some(2)
  {
    hide Used, Candidate, Consistent, ReleaseAll, CountsAgree, FindFree, NoAlias, MapsTo, TwoFiles;
    var lay, v := OneGroup(), TwoFiles();
    TwoFilesAreConsistent();
    TwoFilesFacts();
    var cut := AfterFrees(lay, v, 12, 0, 1);
    CutTruncateAliasesIff(lay, v, 12, 0, 1, 13);
    AfterFreesUsed(lay, v, 12, 0, 1);
    forall m | Scannable(lay, 1, m) && !Used(lay, v, m) ensures 2 < m { TwoFilesUsed(m); }
    assert Scannable(lay, 1, 2) && 2 in [2];
    assert MeetsFreed(lay, v, [], [2]);
    assert Freed(v.files[12].leaf, 0)[..1] == [2];
    AliasedBlock(lay, v, cut, [2]);
  }

  lemma TwoFilesFacts()
    ensures TwoFiles().files.Keys == {12, 13} && |TwoFiles().groups| == 1 && Sized(OneGroup(), TwoFiles().groups)
    ensures TwoFiles().files[12].leaf == [Extent(0, 1, 2)] && TwoFiles().files[13] == File(0, [], 0)
    ensures Freed(TwoFiles().files[12].leaf, 0) == [2]
  {
    var leaf := TwoFiles().files[12].leaf;
    assert leaf == [Extent(0, 1, 2)] && leaf[..0] == [] && Freed(leaf[..0], 0) == [];
    assert Down(2, 1) == [1 + 1] + Down(2, 0) == [2];
    assert leaf[0].logical >= 0;
  }

  lemma AliasedBlock(lay: Layout, v: Volume, cut: Volume, freed: seq<nat>)
    requires lay == OneGroup() && v == TwoFiles() && cut.files == v.files && freed == [2]
    requires Sized(lay, cut.groups) && CountsAgree(lay, cut) && |cut.groups| == 1 && MeetsFreed(lay, v, [], freed) && Used(lay, v, 2)
    requires forall m :: Used(lay, cut, m) <==> Used(lay, v, m) && m !in freed
    ensures Fits(lay, cut, 13) && Extended(lay, cut, 13, BLOCK_SIZE).Some?
    ensures MapsTo(Extended(lay, cut, 13, BLOCK_SIZE).value, 12, 0) == Some(2)
    ensures MapsTo(Extended(lay, cut, 13, BLOCK_SIZE).value, 13, 0) == Some(2)
  {
    hide Used, Candidate, CountsAgree, FindFree, MapsTo, TwoFiles, MeetsFreed;
    TwoFilesFacts();
    TakesFreedIff(lay, v, cut, [], freed);
    CandidateIsFree(lay, cut, []);
    var (g, bit) := Candidate(lay, cut, []).value;
    TwoFilesMap(12, 0);
    assert FilesOk(cut) by { TwoFilesAreConsistent(); }
    ExtendMaps(lay, cut, 13, BLOCK_SIZE, g, bit, 12, 0);
    ExtendMaps(lay, cut, 13, BLOCK_SIZE, g, bit, 13, 0);
    SameMaps(v, cut);
  }
}
