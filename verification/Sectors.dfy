/** The inode's count of 512-byte sectors against the blocks that its extents map. */
module Sectors {
  import opened Words
  import opened Extents
  import opened Volumes
  import T = Truncation

  /** The sectors counted are those of the blocks mapped. */
  ghost predicate SectorsAgree(f: File) {
    512 * f.sectors == 1024 * |Mapped(f.leaf)|
  }

  lemma OneMoreMapped(leaf: Leaf, n: nat)
    requires Ordered(leaf) && HasRoom(leaf, n)
    ensures |Mapped(Extend(leaf, n))| == |Mapped(leaf)| + 1
  {
    hide Lookup, Extend, Ordered, Overflows, End;
    var was, now := Mapped(leaf), Mapped(Extend(leaf, n));
    forall l: Word ensures Lookup(Extend(leaf, n), l) == if l == Extents.End(leaf) then Some(n) else Lookup(leaf, l) {
      ExtendAddsOne(leaf, n, l);
    }
    NothingAfterEnd(leaf, Extents.End(leaf));
    assert now == was + {Extents.End(leaf)};
  }

  lemma CutLast(leaf: Leaf, nbc: Word)
    requires Ordered(leaf) && leaf != []
    ensures var e, front := leaf[|leaf| - 1], leaf[..|leaf| - 1];
            && Initialised(e) && Ordered(front)
            && if e.logical >= nbc then |Freed(leaf, nbc)| == e.len + |Freed(front, nbc)| && Kept(leaf, nbc) == Kept(front, nbc)
               else if e.logical + e.len > nbc then
                 |Freed(leaf, nbc)| == e.logical + e.len - nbc && Kept(leaf, nbc) == front + [e.(len := nbc - e.logical)]
               else Freed(leaf, nbc) == [] && Kept(leaf, nbc) == leaf
  {
    hide Down, Ordered;
    var e := leaf[|leaf| - 1];
    LastInitialised(leaf);
    OrderedPrefix(leaf, |leaf| - 1);
    DownHolds(e.start, e.len, 0);
    if e.logical < nbc < e.logical + e.len { DownHolds(e.start + (nbc - e.logical), e.len - (nbc - e.logical), 0); }
  }

  lemma {:induction false} FreedCounts(leaf: Leaf, nbc: Word)
    requires Ordered(leaf)
    ensures |Freed(leaf, nbc)| + |Mapped(Kept(leaf, nbc))| == |Mapped(leaf)|
    decreases |leaf|
  {
    hide Mapped, Ordered, Sorted, Span, Freed, Kept;
    if leaf == [] {
      CutNothing(nbc);
    } else {
      var e, front := leaf[|leaf| - 1], leaf[..|leaf| - 1];
      InitLast(leaf);
      CutLast(leaf, nbc);
      OrderedIsSorted(leaf);
      MappedLast(front, e);
      if e.logical >= nbc {
        FreedCounts(front, nbc);
      } else if e.logical + e.len > nbc {
        ShortSorted(front, e, nbc - e.logical);
        MappedLast(front, e.(len := nbc - e.logical));
      }
    }
  }

  lemma CutNothing(nbc: Word)
    ensures Freed([], nbc) == [] && Kept([], nbc) == []
  {
  }

  lemma ShortSorted(front: Leaf, e: Extent, len: Half)
    requires Ordered(front + [e]) && 0 < len <= e.len
    ensures Sorted(front + [e.(len := len)])
  {
    var was, now := front + [e], front + [e.(len := len)];
    OrderedIsSorted(was);
    assert Initialised(was[|front|]);
    forall i | 0 <= i < |now| ensures now[i].logical + RealLen(now[i]) <= was[i].logical + RealLen(was[i]) && now[i].logical == was[i].logical {
      if i < |front| { assert now[i] == was[i]; }
    }
  }

  /** Extension keeps the count right, as long as it fits its 32 bits. */
  lemma ExtendKeepsSectors(f: File, n: nat, bytes: Word)
    requires SectorsAgree(f) && Ordered(f.leaf) && HasRoom(f.leaf, n)
    ensures SectorsAgree(Grown(f, n, bytes)) <==> f.sectors + 2 < 0x1_0000_0000
  {
    hide Mapped, Extend;
    OneMoreMapped(f.leaf, n);
  }

  /** Truncation keeps it right. */
  lemma CutKeepsSectors(f: File, newSize: nat)
    requires SectorsAgree(f) && Ordered(f.leaf)
    ensures SectorsAgree(T.Cut(f, newSize))
  {
    hide Mapped, Kept, Freed;
    FreedCounts(f.leaf, T.BlockCount(newSize));
  }
}
