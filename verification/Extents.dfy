/** Extent lists of depth-0 files: lookup, one-block extension and truncation. */
module Extents {
  import opened Words

  type Half = x: int | 0 <= x < 0x1_0000

  /** A leaf entry. Bit 15 of `len` flags an uninitialised extent. */
  datatype Extent = Extent(logical: Word, len: Half, start: nat)

  type Leaf = seq<Extent>

  const MAX_LEN := 0x7FFF

  function RealLen(e: Extent): nat { e.len % 0x8000 }

  /** The 32-bit comparison of the lookup loop. */
  predicate Covers(e: Extent, l: Word) {
    e.logical <= l < Plus(e.logical, RealLen(e))
  }

  /** The block behind logical block `l`: the first entry that covers it decides. */
  function Lookup(leaf: Leaf, l: Word): Option<nat> {
    if leaf == [] then None
    else if Covers(leaf[0], l) then Some(leaf[0].start + (l - leaf[0].logical))
    else Lookup(leaf[1..], l)
  }

  /** An initialised extent inside the 32-bit logical space. */
  predicate Initialised(e: Extent) {
    1 <= e.len <= MAX_LEN && e.logical + e.len < 0x1_0000_0000
  }

  /** Initialised extents in ascending, disjoint order. */
  ghost predicate Ordered(leaf: Leaf) {
    && (forall i :: 0 <= i < |leaf| ==> Initialised(leaf[i]))
    && (forall i, j :: 0 <= i < j < |leaf| ==> leaf[i].logical + leaf[i].len <= leaf[j].logical)
  }

  /** The logical block after the last mapped one. */
  function End(leaf: Leaf): Word {
    if leaf == [] then 0 else Plus(leaf[|leaf| - 1].logical, leaf[|leaf| - 1].len)
  }

  /** The block right after the last mapped one; 0 for an empty file. */
  function Contiguous(leaf: Leaf): nat {
    if leaf == [] then 0 else leaf[|leaf| - 1].start + leaf[|leaf| - 1].len
  }

  // ---------------------------------------------------------------- lookup

  /** Extents in ascending, disjoint order, initialised or not. */
  ghost predicate Sorted(leaf: Leaf) {
    && (forall i :: 0 <= i < |leaf| ==> leaf[i].logical + RealLen(leaf[i]) < 0x1_0000_0000)
    && (forall i, j :: 0 <= i < j < |leaf| ==> leaf[i].logical + RealLen(leaf[i]) <= leaf[j].logical)
  }

  lemma OrderedIsSorted(leaf: Leaf)
    requires Ordered(leaf)
    ensures Sorted(leaf) && forall i :: 0 <= i < |leaf| ==> RealLen(leaf[i]) == leaf[i].len
  {
  }

  /** Among sorted extents the one that covers a block decides, whatever its position and
      whether or not it is initialised. */
  lemma {:induction false} LookupExact(leaf: Leaf, l: Word, i: nat)
    requires Sorted(leaf) && i < |leaf|
    requires leaf[i].logical <= l < leaf[i].logical + RealLen(leaf[i])
    ensures Lookup(leaf, l) == Some(leaf[i].start + (l - leaf[i].logical))
    decreases |leaf|
  {
    if i > 0 {
      assert leaf[0].logical + RealLen(leaf[0]) <= leaf[i].logical;
      LookupExact(leaf[1..], l, i - 1);
    }
  }

  lemma {:induction false} LookupMisses(leaf: Leaf, l: Word)
    requires Sorted(leaf)
    requires forall i :: 0 <= i < |leaf| ==> !(leaf[i].logical <= l < leaf[i].logical + RealLen(leaf[i]))
    ensures Lookup(leaf, l) == None
    decreases |leaf|
  {
    if leaf != [] {
      LookupMisses(leaf[1..], l);
    }
  }

  /** Lookup of a concatenation, for any entries. */
  lemma {:induction false} LookupConcat(a: Leaf, b: Leaf, l: Word)
    ensures Lookup(a + b, l) == if Lookup(a, l).Some? then Lookup(a, l) else Lookup(b, l)
    decreases |a|
  {
    if a == [] {
      assert a + b == b;
    } else {
      assert (a + b)[1..] == a[1..] + b;
      LookupConcat(a[1..], b, l);
    }
  }

  /** Nothing is mapped at or after the end of an ordered list. */
  lemma NothingAfterEnd(leaf: Leaf, l: Word)
    requires Ordered(leaf) && l >= End(leaf)
    ensures Lookup(leaf, l) == None
  {
    forall i | 0 <= i < |leaf| ensures !(leaf[i].logical <= l < leaf[i].logical + leaf[i].len) {
      if i < |leaf| - 1 {
        assert leaf[i].logical + leaf[i].len <= leaf[|leaf| - 1].logical;
      }
    }
    OrderedIsSorted(leaf);
    LookupMisses(leaf, l);
  }

  // ---------------------------------------------------------------- extension

  /** The list after block `n` is added at the end: the last extent grows when `n` follows
      it on disk, otherwise a new entry is appended. */
  function Extend(leaf: Leaf, n: nat): Leaf {
    if leaf != [] && n == Contiguous(leaf) then
      var k := |leaf| - 1;
      leaf[k := leaf[k].(len := (leaf[k].len + 1) % 0x1_0000)]
    else leaf + [Extent(End(leaf), 1, n)]
  }

  /** The last extent already has the largest initialised length and would grow. */
  predicate Overflows(leaf: Leaf, n: nat) {
    leaf != [] && n == Contiguous(leaf) && leaf[|leaf| - 1].len == MAX_LEN
  }

  lemma InitLast(leaf: Leaf)
    requires leaf != []
    ensures leaf == leaf[..|leaf| - 1] + [leaf[|leaf| - 1]]
  {
  }

  lemma OrderedPrefix(leaf: Leaf, k: nat)
    requires Ordered(leaf) && k <= |leaf|
    ensures Ordered(leaf[..k])
  {
  }

  lemma LookupOne(e: Extent, l: Word)
    ensures Lookup([e], l) == if Covers(e, l) then Some(e.start + (l - e.logical)) else None
  {
  }

  lemma ExtendOrdered(leaf: Leaf, n: nat)
    requires Ordered(leaf) && End(leaf) < 0xFFFF_FFFF && !Overflows(leaf, n)
    ensures Ordered(Extend(leaf, n)) && End(Extend(leaf, n)) == End(leaf) + 1
  {
    var grown := Extend(leaf, n);
    forall i | 0 <= i < |leaf| ensures Initialised(leaf[i]) && leaf[i].logical + leaf[i].len <= End(leaf) {
      if i < |leaf| - 1 {
        assert leaf[i].logical + leaf[i].len <= leaf[|leaf| - 1].logical;
      }
    }
    forall i, j | 0 <= i < j < |grown| ensures grown[i].logical + grown[i].len <= grown[j].logical {
      assert grown[i] == leaf[i];
    }
  }

  lemma MergeAddsOne(front: Leaf, last: Extent, l: Word)
    requires Ordered(front + [last]) && last.len < MAX_LEN && last.logical + last.len < 0xFFFF_FFFF
    ensures var longer := front + [last.(len := last.len + 1)];
            Lookup(longer, l) ==
              if l == last.logical + last.len then Some(last.start + last.len) else Lookup(front + [last], l)
  {
    var longer := last.(len := last.len + 1);
    LookupConcat(front, [last], l);
    LookupConcat(front, [longer], l);
    LookupOne(last, l);
    LookupOne(longer, l);
    if l == last.logical + last.len {
      assert (front + [last])[|front|] == last;
      NothingAfterEnd(front + [last], l);
    }
  }

  /** One new mapping, after the last block, and every earlier one unchanged. */
  lemma ExtendAddsOne(leaf: Leaf, n: nat, l: Word)
    requires Ordered(leaf) && End(leaf) < 0xFFFF_FFFF && !Overflows(leaf, n)
    ensures Lookup(Extend(leaf, n), l) == if l == End(leaf) then Some(n) else Lookup(leaf, l)
  {
    hide Ordered;
    if leaf != [] && n == Contiguous(leaf) {
      var front, last := leaf[..|leaf| - 1], leaf[|leaf| - 1];
      InitLast(leaf);
      assert Initialised(last) by { LastInitialised(leaf); }
      MergeAddsOne(front, last, l);
      assert Extend(leaf, n) == front + [last.(len := last.len + 1)];
    } else {
      LookupConcat(leaf, [Extent(End(leaf), 1, n)], l);
      LookupOne(Extent(End(leaf), 1, n), l);
      if l == End(leaf) {
        NothingAfterEnd(leaf, l);
      }
    }
  }

  lemma LastInitialised(leaf: Leaf)
    requires Ordered(leaf) && leaf != []
    ensures Initialised(leaf[|leaf| - 1])
  {
  }

  /** Growing an extent of 0x7FFF blocks sets the uninitialised flag instead: the last
      block before the end is no longer found. */
  lemma OverflowLosesTheExtent(leaf: Leaf, n: nat)
    requires Ordered(leaf) && Overflows(leaf, n)
    ensures Lookup(leaf, End(leaf) - 1) == Some(n - 1)
    ensures Lookup(Extend(leaf, n), End(leaf) - 1) == None
    ensures Lookup(Extend(leaf, n), End(leaf)) == None
  {
    var k := |leaf| - 1;
    var front, last := leaf[..k], leaf[k];
    OrderedIsSorted(leaf);
    LookupExact(leaf, End(leaf) - 1, k);
    var bad := last.(len := 0x8000);
    assert Extend(leaf, n) == front + [bad];
    LookupConcat(front, [bad], End(leaf) - 1);
    LookupConcat(front, [bad], End(leaf));
    forall l: Word | l >= last.logical ensures Lookup(front, l) == None {
      OrderedPrefix(leaf, k);
      if k > 0 { assert leaf[k - 1].logical + leaf[k - 1].len <= last.logical; }
      NothingAfterEnd(front, l);
    }
  }

  /** An extension keeps every earlier mapping exactly when the last extent does not
      overflow. */
  lemma ExtendKeepsMappingsIff(leaf: Leaf, n: nat)
    requires Ordered(leaf) && End(leaf) < 0xFFFF_FFFF
    ensures (forall l: Word :: Lookup(Extend(leaf, n), l) == if l == End(leaf) then Some(n) else Lookup(leaf, l))
            <==> !Overflows(leaf, n)
  {
    if Overflows(leaf, n) {
      OverflowLosesTheExtent(leaf, n);
      assert Lookup(Extend(leaf, n), End(leaf)) != Some(n);
    } else {
      forall l: Word
        ensures Lookup(Extend(leaf, n), l) == if l == End(leaf) then Some(n) else Lookup(leaf, l)
      {
        ExtendAddsOne(leaf, n, l);
      }
    }
  }

  // ---------------------------------------------------------------- truncation

  /** What remains below logical block `nbc`: the reverse walk drops or shortens. */
  function Kept(leaf: Leaf, nbc: Word): Leaf {
    if leaf == [] then []
    else
      var e := leaf[|leaf| - 1];
      if e.logical >= nbc then Kept(leaf[..|leaf| - 1], nbc)
      else if Plus(e.logical, e.len) > nbc then leaf[|leaf| - 1 := e.(len := (nbc - e.logical) % 0x1_0000)]
      else leaf
  }

  /** Blocks `start + k - 1` down to `start`. */
  function Down(start: nat, k: nat): seq<nat> {
    if k == 0 then [] else [start + k - 1] + Down(start, k - 1)
  }

  /** The blocks the walk frees, in its order: last logical block first. */
  function Freed(leaf: Leaf, nbc: Word): seq<nat> {
    if leaf == [] then []
    else
      var e := leaf[|leaf| - 1];
      if e.logical >= nbc then Down(e.start, e.len) + Freed(leaf[..|leaf| - 1], nbc)
      else if Plus(e.logical, e.len) > nbc then
        var shrunk := (nbc - e.logical) % 0x1_0000;
        Down(e.start + shrunk, if e.len >= shrunk then e.len - shrunk else 0)
      else []
  }

  lemma {:induction false} KeptOrdered(leaf: Leaf, nbc: Word)
    requires Ordered(leaf)
    ensures Ordered(Kept(leaf, nbc)) && |Kept(leaf, nbc)| <= |leaf|
    decreases |leaf|
  {
    if leaf != [] {
      var k := |leaf| - 1;
      var e := leaf[k];
      if e.logical >= nbc {
        OrderedPrefix(leaf, k);
        KeptOrdered(leaf[..k], nbc);
      } else if e.logical + e.len > nbc {
        ShorterLast(leaf, nbc - e.logical);
      }
    }
  }

  lemma ShorterLast(leaf: Leaf, len: Half)
    requires Ordered(leaf) && leaf != [] && 0 < len <= leaf[|leaf| - 1].len
    ensures Ordered(leaf[|leaf| - 1 := leaf[|leaf| - 1].(len := len)])
  {
    var kept := leaf[|leaf| - 1 := leaf[|leaf| - 1].(len := len)];
    forall i, j | 0 <= i < j < |kept| ensures kept[i].logical + kept[i].len <= kept[j].logical {
      assert kept[i] == leaf[i] && kept[j].logical == leaf[j].logical;
    }
  }

  lemma KeptLast(front: Leaf, e: Extent, nbc: Word, l: Word)
    requires Ordered(front + [e]) && e.logical < nbc < e.logical + e.len
    ensures var kept := front + [e.(len := nbc - e.logical)];
            Lookup(kept, l) == if l < nbc then Lookup(front + [e], l) else None
  {
    hide Lookup, Ordered;
    var short := e.(len := nbc - e.logical);
    LastInitialised(front + [e]);
    LookupConcat(front, [e], l);
    LookupConcat(front, [short], l);
    LookupOne(e, l);
    LookupOne(short, l);
    assert (front + [e])[|front|] == e;
    if l >= e.logical {
      FrontEndsBefore(front, e, l);
    }
  }

  lemma FrontEndsBefore(front: Leaf, e: Extent, l: Word)
    requires Ordered(front + [e]) && l >= e.logical
    ensures Ordered(front) && Lookup(front, l) == None
  {
    OrderedPrefix(front + [e], |front|);
    assert (front + [e])[..|front|] == front;
    if front != [] {
      assert (front + [e])[|front| - 1].logical + (front + [e])[|front| - 1].len <= (front + [e])[|front|].logical;
    }
    NothingAfterEnd(front, l);
  }

  /** Below the boundary every lookup is as before; at and above it there are holes. */
  lemma {:induction false} KeptLookup(leaf: Leaf, nbc: Word, l: Word)
    requires Ordered(leaf)
    ensures Lookup(Kept(leaf, nbc), l) == if l < nbc then Lookup(leaf, l) else None
    decreases |leaf|
  {
    if leaf != [] {
      var k := |leaf| - 1;
      var front, e := leaf[..k], leaf[k];
      InitLast(leaf);
      LastInitialised(leaf);
      if e.logical >= nbc {
        OrderedPrefix(leaf, k);
        KeptLookup(front, nbc, l);
        LookupConcat(front, [e], l);
        LookupOne(e, l);
      } else if e.logical + e.len > nbc {
        assert Kept(leaf, nbc) == front + [e.(len := nbc - e.logical)];
        KeptLast(front, e, nbc, l);
      } else if l >= nbc {
        NothingAfterEnd(leaf, l);
      }
    }
  }

  lemma {:induction false} DownHolds(start: nat, k: nat, n: nat)
    ensures n in Down(start, k) <==> start <= n < start + k
    ensures |Down(start, k)| == k
  {
    if k > 0 {
      DownHolds(start, k - 1, n);
    }
  }

  predicate Distinct(s: seq<nat>) {
    forall i, j :: 0 <= i < j < |s| ==> s[i] != s[j]
  }

  lemma {:induction false} DownDistinct(start: nat, k: nat)
    ensures Distinct(Down(start, k))
  {
    if k > 0 {
      DownDistinct(start, k - 1);
      DownHolds(start, k - 1, start + k - 1);
    }
  }

  lemma DistinctConcat(a: seq<nat>, b: seq<nat>)
    requires Distinct(a) && Distinct(b) && forall n :: n in a ==> n !in b
    ensures Distinct(a + b)
  {
    var s := a + b;
    forall i, j | 0 <= i < j < |s| ensures s[i] != s[j] {
      if i < |a| <= j {
        assert s[i] in a && s[j] == b[j - |a|] && s[j] in b;
      }
    }
  }

  /** Splitting off the last extent. */
  lemma LookupLast(leaf: Leaf, l: Word)
    requires Ordered(leaf) && leaf != []
    ensures var k := |leaf| - 1;
            && Initialised(leaf[k]) && Ordered(leaf[..k])
            && Lookup(leaf, l) ==
               if l < leaf[k].logical then Lookup(leaf[..k], l)
               else if l < leaf[k].logical + leaf[k].len then Some(leaf[k].start + (l - leaf[k].logical))
               else None
    ensures l >= leaf[|leaf| - 1].logical ==> Lookup(leaf[..|leaf| - 1], l) == None
  {
    hide Lookup, Ordered;
    var k := |leaf| - 1;
    InitLast(leaf);
    LastInitialised(leaf);
    OrderedPrefix(leaf, k);
    LookupConcat(leaf[..k], [leaf[k]], l);
    LookupOne(leaf[k], l);
    if l >= leaf[k].logical {
      FrontEndsBefore(leaf[..k], leaf[k], l);
    }
  }

  /** The blocks that the walk frees of the last extent, and those of the others. */
  lemma FreedLast(leaf: Leaf, nbc: Word)
    requires Ordered(leaf) && leaf != []
    ensures var e := leaf[|leaf| - 1];
            var low := if e.logical >= nbc then e.logical else nbc;
            var others := if e.logical >= nbc then Freed(leaf[..|leaf| - 1], nbc) else [];
            && e.logical <= low
            && Freed(leaf, nbc) ==
               if low < e.logical + e.len then Down(e.start + (low - e.logical), e.len - (low - e.logical)) + others
               else others
  {
    hide Ordered, Down;
    LastInitialised(leaf);
  }

  lemma {:induction false} FreedIsMapped(leaf: Leaf, nbc: Word, n: nat) returns (l: Word)
    requires Ordered(leaf) && n in Freed(leaf, nbc)
    ensures l >= nbc && Lookup(leaf, l) == Some(n)
    decreases |leaf|
  {
    assert leaf != [];
    hide Ordered, Lookup, Freed, Down;
    var k := |leaf| - 1;
    var e := leaf[k];
    FreedLast(leaf, nbc);
    LookupLast(leaf, 0);
    var low := if e.logical >= nbc then e.logical else nbc;
    if low < e.logical + e.len && n in Down(e.start + (low - e.logical), e.len - (low - e.logical)) {
      DownHolds(e.start + (low - e.logical), e.len - (low - e.logical), n);
      l := e.logical + (n - e.start);
    } else {
      l := FreedIsMapped(leaf[..k], nbc, n);
    }
    LookupLast(leaf, l);
  }

  lemma {:induction false} MappedIsFreed(leaf: Leaf, nbc: Word, l: Word)
    requires Ordered(leaf) && l >= nbc && Lookup(leaf, l).Some?
    ensures Lookup(leaf, l).value in Freed(leaf, nbc)
    decreases |leaf|
  {
    assert leaf != [];
    hide Ordered, Lookup, Freed, Down;
    var k := |leaf| - 1;
    var e := leaf[k];
    LookupLast(leaf, l);
    FreedLast(leaf, nbc);
    if l < e.logical {
      MappedIsFreed(leaf[..k], nbc, l);
    } else {
      var low := if e.logical >= nbc then e.logical else nbc;
      DownHolds(e.start + (low - e.logical), e.len - (low - e.logical), e.start + (l - e.logical));
    }
  }

  /** The walk frees exactly what is mapped at or above the boundary. */
  lemma FreedExact(leaf: Leaf, nbc: Word, n: nat)
    requires Ordered(leaf)
    ensures n in Freed(leaf, nbc) <==> exists l: Word :: l >= nbc && Lookup(leaf, l) == Some(n)
  {
    if n in Freed(leaf, nbc) {
      var l := FreedIsMapped(leaf, nbc, n);
    }
    forall l: Word | l >= nbc && Lookup(leaf, l) == Some(n) ensures n in Freed(leaf, nbc) {
      MappedIsFreed(leaf, nbc, l);
    }
  }

  /** No block of the file is mapped twice. */
  ghost predicate Injective(leaf: Leaf) {
    forall l: Word, m: Word :: Lookup(leaf, l).Some? && Lookup(leaf, l) == Lookup(leaf, m) ==> l == m
  }

  lemma InjectivePrefix(leaf: Leaf, k: nat)
    requires Injective(leaf) && k <= |leaf|
    ensures Injective(leaf[..k])
  {
    assert leaf == leaf[..k] + leaf[k..];
    forall l: Word | Lookup(leaf[..k], l).Some? ensures Lookup(leaf, l) == Lookup(leaf[..k], l) {
      LookupConcat(leaf[..k], leaf[k..], l);
    }
  }

  /** The last extent's blocks are not mapped by the others. */
  lemma LastIsDisjoint(leaf: Leaf, nbc: Word, n: nat)
    requires Ordered(leaf) && Injective(leaf) && leaf != []
    requires n in Down(leaf[|leaf| - 1].start, leaf[|leaf| - 1].len)
    ensures n !in Freed(leaf[..|leaf| - 1], nbc)
  {
    hide Ordered, Lookup;
    var k := |leaf| - 1;
    var e := leaf[k];
    LookupLast(leaf, 0);
    DownHolds(e.start, e.len, n);
    var l := e.logical + (n - e.start);
    LookupLast(leaf, l);
    if n in Freed(leaf[..k], nbc) {
      var m := FreedIsMapped(leaf[..k], nbc, n);
      LookupLast(leaf, m);
    }
  }

  /** Each freed block is freed once. */
  lemma {:induction false} FreedDistinct(leaf: Leaf, nbc: Word)
    requires Ordered(leaf) && Injective(leaf)
    ensures Distinct(Freed(leaf, nbc))
    decreases |leaf|
  {
    if leaf != [] {
      var k := |leaf| - 1;
      var e := leaf[k];
      LastInitialised(leaf);
      if e.logical >= nbc {
        OrderedPrefix(leaf, k);
        InjectivePrefix(leaf, k);
        FreedDistinct(leaf[..k], nbc);
        DownDistinct(e.start, e.len);
        forall n | n in Down(e.start, e.len) ensures n !in Freed(leaf[..k], nbc) {
          LastIsDisjoint(leaf, nbc, n);
        }
        DistinctConcat(Down(e.start, e.len), Freed(leaf[..k], nbc));
      } else if e.logical + e.len > nbc {
        DownDistinct(e.start + (nbc - e.logical), e.len - (nbc - e.logical));
      }
    }
  }

  // ---------------------------------------------------------------- extension, undone

  lemma CutUndoesMerge(front: Leaf, e: Extent, nbc: Word)
    requires Initialised(e) && e.len < MAX_LEN && e.logical + e.len < 0xFFFF_FFFF && nbc <= e.logical + e.len
    ensures var longer := e.(len := e.len + 1);
            && Kept(front + [longer], nbc) == Kept(front + [e], nbc)
            && Freed(front + [longer], nbc) == [e.start + e.len] + Freed(front + [e], nbc)
  {
    var longer := e.(len := e.len + 1);
    var grown, leaf := front + [longer], front + [e];
    assert grown[|front|] == longer && grown[..|front|] == front;
    assert leaf[|front|] == e && leaf[..|front|] == front;
    if e.logical >= nbc {
      assert Down(e.start, e.len + 1) == [e.start + e.len] + Down(e.start, e.len);
      assert Freed(grown, nbc) == [e.start + e.len] + Down(e.start, e.len) + Freed(front, nbc);
    } else {
      var shrunk := nbc - e.logical;
      assert Kept(grown, nbc) == front + [e.(len := shrunk)];
      assert Kept(leaf, nbc) == front + [e.(len := shrunk)];
      assert Down(e.start + shrunk, e.len + 1 - shrunk) == [e.start + e.len] + Down(e.start + shrunk, e.len - shrunk);
    }
  }

  lemma CutUndoesAppend(leaf: Leaf, e: Extent, nbc: Word)
    requires e.len == 1 && nbc <= e.logical
    ensures Kept(leaf + [e], nbc) == Kept(leaf, nbc)
    ensures Freed(leaf + [e], nbc) == [e.start] + Freed(leaf, nbc)
  {
    var grown := leaf + [e];
    assert grown[|leaf|] == e && grown[..|leaf|] == leaf;
    assert Down(e.start, 1) == [e.start];
  }

  /** Cutting at a boundary the extension did not move gives the same list, and frees the
      added block first. */
  lemma CutUndoesExtend(leaf: Leaf, n: nat, nbc: Word)
    requires Ordered(leaf) && End(leaf) < 0xFFFF_FFFF && !Overflows(leaf, n) && nbc <= End(leaf)
    ensures Kept(Extend(leaf, n), nbc) == Kept(leaf, nbc)
    ensures Freed(Extend(leaf, n), nbc) == [n] + Freed(leaf, nbc)
  {
    hide Kept, Freed, Ordered;
    if leaf != [] && n == Contiguous(leaf) {
      var k := |leaf| - 1;
      LastInitialised(leaf);
      InitLast(leaf);
      CutUndoesMerge(leaf[..k], leaf[k], nbc);
      assert Extend(leaf, n) == leaf[..k] + [leaf[k].(len := leaf[k].len + 1)];
    } else {
      CutUndoesAppend(leaf, Extent(End(leaf), 1, n), nbc);
    }
  }

  /** Cutting at the end changes nothing. */
  lemma CutAtEnd(leaf: Leaf)
    requires Ordered(leaf)
    ensures Kept(leaf, End(leaf)) == leaf && Freed(leaf, End(leaf)) == []
  {
    if leaf != [] {
      LastInitialised(leaf);
    }
  }

  // ---------------------------------------------------------------- emptying any file

  /** The logical blocks that a file maps. */
  ghost function Mapped(leaf: Leaf): set<int> {
    set l | 0 <= l < 0x1_0000_0000 && Lookup(leaf, l).Some?
  }

  /** The numbers `from .. from + k - 1`. */
  ghost function Span(from: int, k: nat): (r: set<int>)
    ensures |r| == k && forall l :: l in r <==> from <= l < from + k
  {
    if k == 0 then {} else Span(from, k - 1) + {from + k - 1}
  }

  lemma MappedLast(front: Leaf, e: Extent)
    requires Sorted(front + [e])
    ensures Sorted(front) && Mapped(front + [e]) == Mapped(front) + Span(e.logical, RealLen(e))
    ensures Mapped(front) !! Span(e.logical, RealLen(e))
  {
    hide Lookup;
    var leaf := front + [e];
    assert forall i :: 0 <= i < |front| ==> leaf[i] == front[i];
    assert leaf[|front|] == e && Sorted([e]);
    forall l: Word
      ensures Lookup(leaf, l).Some? <==> Lookup(front, l).Some? || l in Span(e.logical, RealLen(e))
      ensures !(Lookup(front, l).Some? && l in Span(e.logical, RealLen(e)))
    {
      LookupConcat(front, [e], l);
      LookupOne(e, l);
      if l in Span(e.logical, RealLen(e)) {
        forall i | 0 <= i < |front| ensures !(front[i].logical <= l < front[i].logical + RealLen(front[i])) {
          assert leaf[i].logical + RealLen(leaf[i]) <= leaf[|front|].logical;
        }
        LookupMisses(front, l);
      }
    }
  }

  /** How many extents carry the flag of an uninitialised one. */
  function Uninitialised(leaf: Leaf): nat {
    if leaf == [] then 0 else leaf[|leaf| - 1].len / 0x8000 + Uninitialised(leaf[..|leaf| - 1])
  }

  /** Truncation to nothing reads the flag bit as part of the length: it frees 0x8000 blocks
      more than are mapped for each uninitialised extent. */
  lemma {:induction false} EmptyingFrees(leaf: Leaf)
    requires Sorted(leaf)
    ensures |Freed(leaf, 0)| == |Mapped(leaf)| + 0x8000 * Uninitialised(leaf)
    decreases |leaf|
  {
    hide Lookup, Down, Sorted;
    if leaf == [] {
      assert Mapped(leaf) == {} by { NoneMapped(); }
    } else {
      var e, front := leaf[|leaf| - 1], leaf[..|leaf| - 1];
      InitLast(leaf);
      MappedLast(front, e);
      EmptyingFrees(front);
      DownHolds(e.start, e.len, 0);
    }
  }

  lemma NoneMapped()
    ensures forall l: Word :: Lookup([], l) == None
  {
  }

  lemma {:induction false} UninitialisedZero(leaf: Leaf)
    ensures Uninitialised(leaf) == 0 <==> forall i :: 0 <= i < |leaf| ==> leaf[i].len < 0x8000
    decreases |leaf|
  {
    if leaf != [] {
      var front := leaf[..|leaf| - 1];
      UninitialisedZero(front);
      assert forall i :: 0 <= i < |front| ==> front[i] == leaf[i];
    }
  }

  /** So emptying a file frees as many blocks as it maps if and only if none of its extents is
      uninitialised. */
  lemma EmptyingIsExactIff(leaf: Leaf)
    requires Sorted(leaf)
    ensures |Freed(leaf, 0)| == |Mapped(leaf)| <==> forall i :: 0 <= i < |leaf| ==> leaf[i].len < 0x8000
  {
    EmptyingFrees(leaf);
    UninitialisedZero(leaf);
  }

  /** A file with one preallocated block: 0x8001 blocks are freed. */
  lemma PreallocatedFreesOthers(start: nat)
    ensures var leaf := [Extent(0, 0x8001, start)];
            Sorted(leaf) && Lookup(leaf, 0) == Some(start) && |Mapped(leaf)| == 1 && start + 0x8000 in Freed(leaf, 0)
  {
    var e := Extent(0, 0x8001, start);
    assert RealLen(e) == 1;
    LookupOne(e, 0);
    MappedLast([], e);
    NoneMapped();
    assert Mapped([]) == {};
    assert [] + [e] == [e];
    DownHolds(start, 0x8001, start + 0x8000);
    assert [e][..0] == [];
  }
}
