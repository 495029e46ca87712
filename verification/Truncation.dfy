/** Truncation: one transaction for each freed block and a last one for the inode. Where it
    may be cut, what it frees, and how it undoes extensions. */
module Truncation {
  import opened Words
  import opened Extents
  import opened Bitmaps
  import opened Volumes

  /** Whole blocks that hold `size` bytes. */
  function BlockCount(size: nat): Word {
    (size + BLOCK_SIZE - 1) / BLOCK_SIZE % 0x1_0000_0000
  }

  predicate AllInRange(lay: Layout, groups: nat, s: seq<nat>) {
    forall k :: 0 <= k < |s| ==> InRange(lay, groups, s[k])
  }

  predicate AllUsed(lay: Layout, v: Volume, s: seq<nat>)
    requires lay.perGroup > 0 && Sized(lay, v.groups)
  {
    forall k :: 0 <= k < |s| ==> Used(lay, v, s[k])
  }

  /** Blocks released one after the other. */
  function ReleaseAll(lay: Layout, v: Volume, s: seq<nat>): (r: Volume)
    requires lay.perGroup > 0 && Sized(lay, v.groups) && AllInRange(lay, |v.groups|, s)
    ensures Sized(lay, r.groups) && |r.groups| == |v.groups| && r.files == v.files
    decreases |s|
  {
    if s == [] then v else ReleaseAll(lay, Release(lay, v, s[0]), s[1..])
  }

  function Cut(f: File, newSize: nat): File {
    var nbc := BlockCount(newSize);
    File(newSize, Kept(f.leaf, nbc), (f.sectors - SECTORS_PER_BLOCK * |Freed(f.leaf, nbc)|) % 0x1_0000_0000)
  }

  /** The volume after a complete truncation. */
  function Truncated(lay: Layout, v: Volume, ino: nat, newSize: nat): Volume
    requires lay.perGroup > 0 && Sized(lay, v.groups) && ino in v.files
    requires AllInRange(lay, |v.groups|, Freed(v.files[ino].leaf, BlockCount(newSize)))
  {
    var f := v.files[ino];
    ReleaseAll(lay, v, Freed(f.leaf, BlockCount(newSize))).(files := v.files[ino := Cut(f, newSize)])
  }

  // ---------------------------------------------------------------- releasing a list

  /** Distinct used blocks: exactly these become free, and all counts stay right. */
  lemma {:induction false} ReleaseAllKeeps(lay: Layout, v: Volume, s: seq<nat>)
    requires CountsAgree(lay, v) && Distinct(s) && AllUsed(lay, v, s)
    ensures CountsAgree(lay, ReleaseAll(lay, v, s))
    ensures forall m :: Used(lay, ReleaseAll(lay, v, s), m) <==> Used(lay, v, m) && m !in s
    decreases |s|
  {
    hide Release, GroupAgrees, InRange, GroupOf, BitOf;
    if s != [] {
      ReleaseKeeps(lay, v, s[0]);
      ReleaseAllKeeps(lay, Release(lay, v, s[0]), s[1..]);
    }
  }

  /** What a truncation frees: distinct used blocks. */
  lemma FreedIsUsed(lay: Layout, v: Volume, ino: nat, nbc: Word)
    requires Consistent(lay, v) && ino in v.files
    ensures Distinct(Freed(v.files[ino].leaf, nbc))
    ensures AllUsed(lay, v, Freed(v.files[ino].leaf, nbc))
    ensures AllInRange(lay, |v.groups|, Freed(v.files[ino].leaf, nbc))
  {
    hide Lookup, InRange, GroupOf, BitOf, GroupAgrees, Freed, Ordered;
    var leaf := v.files[ino].leaf;
    assert Injective(leaf) by {
      forall l: Word, m: Word | Lookup(leaf, l).Some? && Lookup(leaf, l) == Lookup(leaf, m) ensures l == m {
        assert MapsTo(v, ino, l) == MapsTo(v, ino, m);
      }
    }
    FreedDistinct(leaf, nbc);
    var s := Freed(leaf, nbc);
    forall k | 0 <= k < |s| ensures Used(lay, v, s[k]) {
      var l := FreedIsMapped(leaf, nbc, s[k]);
      assert MapsTo(v, ino, l) == Some(s[k]);
    }
    InRangeIfUsed(lay, v, s);
  }

  lemma InRangeIfUsed(lay: Layout, v: Volume, s: seq<nat>)
    requires lay.perGroup > 0 && Sized(lay, v.groups) && AllUsed(lay, v, s)
    ensures AllInRange(lay, |v.groups|, s)
  {
  }

  /** The volume after the first `k` transactions of a truncation to `nbc` blocks. */
  function AfterFrees(lay: Layout, v: Volume, ino: nat, nbc: Word, k: nat): Volume
    requires lay.perGroup > 0 && Sized(lay, v.groups) && ino in v.files
    requires k <= |Freed(v.files[ino].leaf, nbc)| && AllInRange(lay, |v.groups|, Freed(v.files[ino].leaf, nbc))
  {
    ReleaseAll(lay, v, Freed(v.files[ino].leaf, nbc)[..k])
  }

  lemma AfterFreesUsed(lay: Layout, v: Volume, ino: nat, nbc: Word, k: nat)
    requires Consistent(lay, v) && ino in v.files
    requires k <= |Freed(v.files[ino].leaf, nbc)| && AllInRange(lay, |v.groups|, Freed(v.files[ino].leaf, nbc))
    ensures var v' := AfterFrees(lay, v, ino, nbc, k);
            && CountsAgree(lay, v')
            && (forall m :: Used(lay, v', m) <==> Used(lay, v, m) && m !in Freed(v.files[ino].leaf, nbc)[..k])
  {
    FreedIsUsed(lay, v, ino, nbc);
    ReleaseAllKeeps(lay, v, Freed(v.files[ino].leaf, nbc)[..k]);
  }

  lemma Unaliased(v: Volume, i: nat, l: Word, j: nat, m: Word)
    requires NoAlias(v) && MapsTo(v, i, l).Some? && MapsTo(v, j, m) == MapsTo(v, i, l)
    ensures i == j && l == m
  {
  }

  lemma MappedIsNotMeta(lay: Layout, v: Volume, i: nat, l: Word)
    requires lay.perGroup > 0 && Sized(lay, v.groups) && MappedUsed(lay, v) && MapsTo(v, i, l).Some?
    ensures MapsTo(v, i, l).value !in lay.meta
  {
  }

  /** A block that stays mapped is never freed. */
  lemma KeptIsNotFreed(lay: Layout, v: Volume, ino: nat, nbc: Word, i: nat, l: Word)
    requires Consistent(lay, v) && ino in v.files
    requires MapsTo(v, i, l).Some? && (i != ino || l < nbc)
    ensures MapsTo(v, i, l).value !in Freed(v.files[ino].leaf, nbc)
  {
    hide Lookup, InRange, GroupOf, BitOf, GroupAgrees, Freed, Ordered, NoAlias, MappedUsed, CountsAgree, MetaUsed;
    var n := MapsTo(v, i, l).value;
    if n in Freed(v.files[ino].leaf, nbc) {
      var m := FreedIsMapped(v.files[ino].leaf, nbc, n);
      Unaliased(v, i, l, ino, m);
    }
  }

  /** Safety at every transaction boundary: whichever transaction is the last to land, the
      counts are right, no inode has changed, every block that is to survive is still
      marked used, and exactly the blocks freed so far are not. */
  lemma CutTruncateIsSafe(lay: Layout, v: Volume, ino: nat, nbc: Word, k: nat)
    requires Consistent(lay, v) && ino in v.files
    requires k <= |Freed(v.files[ino].leaf, nbc)|
    ensures AllInRange(lay, |v.groups|, Freed(v.files[ino].leaf, nbc))
    ensures var v' := AfterFrees(lay, v, ino, nbc, k);
            && CountsAgree(lay, v') && v'.files == v.files
            && (forall i, l: Word :: MapsTo(v, i, l).Some? && (i != ino || l < nbc) ==> Used(lay, v', MapsTo(v, i, l).value))
            && (forall n :: Used(lay, v, n) && !Used(lay, v', n) <==> n in Freed(v.files[ino].leaf, nbc)[..k])
  {
    hide Lookup, InRange, GroupOf, BitOf, GroupAgrees, Freed, Ordered, Used;
    FreedIsUsed(lay, v, ino, nbc);
    AfterFreesUsed(lay, v, ino, nbc, k);
    var s := Freed(v.files[ino].leaf, nbc);
    forall i, l: Word | MapsTo(v, i, l).Some? && (i != ino || l < nbc)
      ensures Used(lay, AfterFrees(lay, v, ino, nbc, k), MapsTo(v, i, l).value)
    {
      KeptIsNotFreed(lay, v, ino, nbc, i, l);
    }
    forall n | n in s[..k] ensures Used(lay, v, n) {
      var j :| 0 <= j < k && s[j] == n;
      assert Used(lay, v, s[j]);
    }
  }

  /** A truncation cut between its transactions is consistent exactly when nothing was
      freed yet: the inode still claims the freed blocks. */
  lemma CutTruncateLeaksIff(lay: Layout, v: Volume, ino: nat, nbc: Word, k: nat)
    requires Consistent(lay, v) && ino in v.files && k <= |Freed(v.files[ino].leaf, nbc)|
    ensures AllInRange(lay, |v.groups|, Freed(v.files[ino].leaf, nbc))
    ensures Consistent(lay, AfterFrees(lay, v, ino, nbc, k)) <==> k == 0
  {
    hide Lookup, InRange, GroupOf, BitOf, GroupAgrees, Freed, Ordered, Used;
    CutTruncateIsSafe(lay, v, ino, nbc, k);
    var s := Freed(v.files[ino].leaf, nbc);
    if k > 0 {
      var v' := AfterFrees(lay, v, ino, nbc, k);
      var l := FreedIsMapped(v.files[ino].leaf, nbc, s[0]);
      assert MapsTo(v', ino, l) == Some(s[0]);
      assert s[0] in s[..k];
    }
  }

  // ---------------------------------------------------------------- complete truncation

  lemma TruncatedMaps(lay: Layout, v: Volume, ino: nat, newSize: nat, i: nat, l: Word)
    requires Consistent(lay, v) && ino in v.files
    requires AllInRange(lay, |v.groups|, Freed(v.files[ino].leaf, BlockCount(newSize)))
    ensures MapsTo(Truncated(lay, v, ino, newSize), i, l) ==
            if i == ino && l >= BlockCount(newSize) then None else MapsTo(v, i, l)
  {
    hide Lookup, InRange, GroupOf, BitOf, GroupAgrees, Freed, Ordered, Kept, CountsAgree, MappedUsed, NoAlias, MetaUsed;
    KeptLookup(v.files[ino].leaf, BlockCount(newSize), l);
  }

  /** Truncation is exact: lookups below the new boundary are unchanged, those at or above
      it are holes, exactly the blocks mapped there become free, and the invariant holds. */
  lemma TruncateIsExact(lay: Layout, v: Volume, ino: nat, newSize: nat)
    requires Consistent(lay, v) && ino in v.files
    ensures AllInRange(lay, |v.groups|, Freed(v.files[ino].leaf, BlockCount(newSize)))
    ensures var v' := Truncated(lay, v, ino, newSize);
            && Consistent(lay, v')
            && (forall i, l: Word :: MapsTo(v', i, l) ==
                  if i == ino && l >= BlockCount(newSize) then None else MapsTo(v, i, l))
            && (forall n: nat :: Used(lay, v, n) && !Used(lay, v', n) <==>
                  exists l: Word :: l >= BlockCount(newSize) && MapsTo(v, ino, l) == Some(n))
  {
    hide Lookup, InRange, GroupOf, BitOf, GroupAgrees, Freed, Ordered, Used, AfterFrees, MapsTo, Kept;
    var leaf, nbc := v.files[ino].leaf, BlockCount(newSize);
    var s := Freed(leaf, nbc);
    CutTruncateIsSafe(lay, v, ino, nbc, |s|);
    AfterFreesUsed(lay, v, ino, nbc, |s|);
    AllFrees(lay, v, ino, nbc);
    var v' := Truncated(lay, v, ino, newSize);
    SameUsed(lay, AfterFrees(lay, v, ino, nbc, |s|), v');
    forall i, l: Word
      ensures MapsTo(v', i, l) == if i == ino && l >= nbc then None else MapsTo(v, i, l)
    {
      TruncatedMaps(lay, v, ino, newSize, i, l);
    }
    KeptOrdered(leaf, nbc);
    forall n: nat
      ensures n in s <==> exists l: Word :: l >= nbc && MapsTo(v, ino, l) == Some(n)
    {
      FreedAreMapped(v, ino, nbc, n);
    }
    assert s[..|s|] == s;
    MetaNotFreed(lay, v, ino, nbc);
  }

  lemma AllFrees(lay: Layout, v: Volume, ino: nat, nbc: Word)
    requires lay.perGroup > 0 && Sized(lay, v.groups) && ino in v.files
    requires AllInRange(lay, |v.groups|, Freed(v.files[ino].leaf, nbc))
    ensures AfterFrees(lay, v, ino, nbc, |Freed(v.files[ino].leaf, nbc)|) == ReleaseAll(lay, v, Freed(v.files[ino].leaf, nbc))
  {
    var s := Freed(v.files[ino].leaf, nbc);
    assert s[..|s|] == s;
  }

  lemma FreedAreMapped(v: Volume, ino: nat, nbc: Word, n: nat)
    requires ino in v.files && FilesOk(v)
    ensures n in Freed(v.files[ino].leaf, nbc) <==> exists l: Word :: l >= nbc && MapsTo(v, ino, l) == Some(n)
  {
    hide Lookup, Freed, Ordered;
    if n in Freed(v.files[ino].leaf, nbc) {
      var l := FreedIsMapped(v.files[ino].leaf, nbc, n);
      assert MapsTo(v, ino, l) == Some(n);
    }
    forall l: Word | l >= nbc && MapsTo(v, ino, l) == Some(n) ensures n in Freed(v.files[ino].leaf, nbc) {
      MappedIsFreed(v.files[ino].leaf, nbc, l);
    }
  }

  lemma MetaNotFreed(lay: Layout, v: Volume, ino: nat, nbc: Word)
    requires Consistent(lay, v) && ino in v.files
    ensures forall n :: n in lay.meta ==> n !in Freed(v.files[ino].leaf, nbc)
  {
    hide Lookup, InRange, GroupOf, BitOf, GroupAgrees, Freed, Ordered, NoAlias, MappedUsed, MetaUsed;
    forall n | n in lay.meta ensures n !in Freed(v.files[ino].leaf, nbc) {
      if n in Freed(v.files[ino].leaf, nbc) {
        var l := FreedIsMapped(v.files[ino].leaf, nbc, n);
        MappedIsNotMeta(lay, v, ino, l);
      }
    }
  }

  // ---------------------------------------------------------------- stages

  /** The number of transactions of a truncation: one for each freed block, one for the
      inode. */
  function Transactions(f: File, newSize: nat): nat {
    |Freed(f.leaf, BlockCount(newSize))| + 1
  }

  /** The volume after the first `k` transactions of a truncation. */
  function Partly(lay: Layout, v: Volume, ino: nat, newSize: nat, k: nat): Volume
    requires lay.perGroup > 0 && Sized(lay, v.groups) && ino in v.files && k <= Transactions(v.files[ino], newSize)
    requires AllInRange(lay, |v.groups|, Freed(v.files[ino].leaf, BlockCount(newSize)))
  {
    if k == Transactions(v.files[ino], newSize) then Truncated(lay, v, ino, newSize)
    else AfterFrees(lay, v, ino, BlockCount(newSize), k)
  }

  lemma InRangePrefix(lay: Layout, groups: nat, s: seq<nat>, all: seq<nat>)
    requires s <= all && AllInRange(lay, groups, all)
    ensures AllInRange(lay, groups, s)
  {
  }

  /** The stages of a truncation before its last transaction, and after it. */
  lemma Stages(lay: Layout, v: Volume, ino: nat, newSize: nat, k: nat)
    requires lay.perGroup > 0 && Sized(lay, v.groups) && ino in v.files
    requires AllInRange(lay, |v.groups|, Freed(v.files[ino].leaf, BlockCount(newSize)))
    requires k <= |Freed(v.files[ino].leaf, BlockCount(newSize))|
    ensures var f := v.files[ino];
            var all := Freed(f.leaf, BlockCount(newSize));
            && AllInRange(lay, |v.groups|, all[..k])
            && Partly(lay, v, ino, newSize, k) == ReleaseAll(lay, v, all[..k])
            && Partly(lay, v, ino, newSize, |all| + 1) ==
               ReleaseAll(lay, v, all).(files := v.files[ino := Cut(f, newSize)])
  {
    hide ReleaseAll, Freed, Cut, InRange, Sized;
    InRangePrefix(lay, |v.groups|, Freed(v.files[ino].leaf, BlockCount(newSize))[..k], Freed(v.files[ino].leaf, BlockCount(newSize)));
  }
}
