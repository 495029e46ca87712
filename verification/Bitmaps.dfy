/** Block groups: bitmaps, their split free counts, and block addresses. */
module Bitmaps {
  import opened Words
  import opened Extents

  /** A group's block bitmap and the low and high halves of its free count. */
  datatype Group = Group(bitmap: seq<bool>, lo: Half, hi: Half)

  /** `wide`: descriptors of 64 bytes, with high halves. `meta` holds the blocks of the
      superblock, descriptors, bitmaps, inode tables and journal. */
  datatype Layout = Layout(first: nat, perGroup: nat, wide: bool, meta: set<nat>)

  const BITMAP_BYTES := 1024
  const BLOCK_SIZE := 1024

  /** The geometry the write path is limited to: a bitmap fits one 1024-byte block, and so
      does the descriptor table. Block 0 holds the boot sector. */
  predicate Supported(lay: Layout, groups: nat) {
    && lay.first >= 1
    && 0 < lay.perGroup <= 8 * BITMAP_BYTES
    && groups * (if lay.wide then 64 else 32) <= BLOCK_SIZE
  }

  function Count(g: Group): nat { g.hi * 0x1_0000 + g.lo }

  function Clear(bits: seq<bool>): nat {
    if bits == [] then 0 else (if bits[0] then 0 else 1) + Clear(bits[1..])
  }

  function TotalFree(groups: seq<Group>): nat {
    if groups == [] then 0 else Count(groups[0]) + TotalFree(groups[1..])
  }

  /** The count less one, borrowing from the high half; narrow descriptors have none. */
  function Less(g: Group, wide: bool): Group {
    if g.lo != 0 then g.(lo := g.lo - 1)
    else g.(lo := 0xFFFF, hi := if wide then (g.hi + 0xFFFF) % 0x1_0000 else g.hi)
  }

  function More(g: Group, wide: bool): Group {
    if g.lo != 0xFFFF then g.(lo := g.lo + 1)
    else g.(lo := 0, hi := if wide then (g.hi + 1) % 0x1_0000 else g.hi)
  }

  // ---------------------------------------------------------------- addresses

  function Address(lay: Layout, g: nat, bit: nat): nat {
    lay.first + g * lay.perGroup + bit
  }

  predicate InRange(lay: Layout, groups: nat, n: nat) {
    lay.first <= n < lay.first + groups * lay.perGroup
  }

  function GroupOf(lay: Layout, n: nat): nat
    requires lay.perGroup > 0 && n >= lay.first
  {
    (n - lay.first) / lay.perGroup
  }

  function BitOf(lay: Layout, n: nat): nat
    requires lay.perGroup > 0 && n >= lay.first
  {
    (n - lay.first) % lay.perGroup
  }

  lemma Scaled(a: nat, b: nat, k: nat)
    requires a <= b
    ensures a * k <= b * k
  {
  }

  lemma QuotientUnique(g: nat, b: nat, k: nat)
    requires b < k
    ensures (g * k + b) / k == g && (g * k + b) % k == b
  {
    var q, r := (g * k + b) / k, (g * k + b) % k;
    assert q * k + r == g * k + b;
    if q < g {
      Scaled(q + 1, g, k);
    } else if q > g {
      Scaled(g + 1, q, k);
    }
  }

  /** Group and bit number determine the block, and the block determines them. */
  lemma AddressParts(lay: Layout, g: nat, bit: nat)
    requires bit < lay.perGroup
    ensures GroupOf(lay, Address(lay, g, bit)) == g && BitOf(lay, Address(lay, g, bit)) == bit
  {
    QuotientUnique(g, bit, lay.perGroup);
  }

  lemma PartsAddress(lay: Layout, groups: nat, n: nat)
    requires lay.perGroup > 0 && InRange(lay, groups, n)
    ensures GroupOf(lay, n) < groups && BitOf(lay, n) < lay.perGroup
    ensures Address(lay, GroupOf(lay, n), BitOf(lay, n)) == n
  {
    var q, r := GroupOf(lay, n), BitOf(lay, n);
    assert q * lay.perGroup + r == n - lay.first;
    if q >= groups {
      Scaled(groups, q, lay.perGroup);
    }
  }

  lemma AddressInRange(lay: Layout, groups: nat, g: nat, bit: nat)
    requires g < groups && bit < lay.perGroup
    ensures InRange(lay, groups, Address(lay, g, bit))
  {
    assert (g + 1) * lay.perGroup <= groups * lay.perGroup;
  }

  // ---------------------------------------------------------------- counting

  lemma {:induction false} ClearUpdate(bits: seq<bool>, i: nat, on: bool)
    requires i < |bits|
    ensures Clear(bits[i := on]) + (if bits[i] then 0 else 1) == Clear(bits) + (if on then 0 else 1)
    decreases |bits|
  {
    if i == 0 {
      assert bits[0 := on][1..] == bits[1..];
    } else {
      assert bits[i := on][1..] == bits[1..][i - 1 := on];
      ClearUpdate(bits[1..], i - 1, on);
    }
  }

  lemma {:induction false} ClearBounded(bits: seq<bool>)
    ensures Clear(bits) <= |bits|
  {
    if bits != [] {
      ClearBounded(bits[1..]);
    }
  }

  /** No clear bit, no free block, and the other way round. */
  lemma {:induction false} ClearZero(bits: seq<bool>)
    ensures Clear(bits) == 0 <==> forall i :: 0 <= i < |bits| ==> bits[i]
  {
    if bits != [] {
      ClearZero(bits[1..]);
      if forall i :: 0 <= i < |bits| ==> bits[i] {
        assert forall i :: 0 <= i < |bits| - 1 ==> bits[1..][i] == bits[i + 1];
      } else if bits[0] {
        var i :| 0 <= i < |bits| && !bits[i];
        assert !bits[1..][i - 1];
      }
    }
  }

  lemma {:induction false} TotalUpdate(groups: seq<Group>, i: nat, g: Group)
    requires i < |groups|
    ensures TotalFree(groups[i := g]) + Count(groups[i]) == TotalFree(groups) + Count(g)
    decreases |groups|
  {
    if i == 0 {
      assert groups[0 := g][1..] == groups[1..];
    } else {
      assert groups[i := g][1..] == groups[1..][i - 1 := g];
      TotalUpdate(groups[1..], i - 1, g);
    }
  }

  /** Every group's count is the number of clear bits of its bitmap. */
  ghost predicate GroupAgrees(lay: Layout, g: Group) {
    && |g.bitmap| == lay.perGroup
    && Count(g) == Clear(g.bitmap)
    && (!lay.wide ==> g.hi == 0)
  }

  lemma LessCounts(g: Group, wide: bool)
    requires Count(g) > 0 && (!wide ==> g.hi == 0)
    ensures Count(Less(g, wide)) == Count(g) - 1 && (!wide ==> Less(g, wide).hi == 0)
    ensures More(Less(g, wide), wide) == g
  {
  }

  lemma MoreCounts(g: Group, wide: bool)
    requires Count(g) < (if wide then 0x1_0000_0000 - 1 else 0xFFFF) && (!wide ==> g.hi == 0)
    ensures Count(More(g, wide)) == Count(g) + 1 && (!wide ==> More(g, wide).hi == 0)
  {
  }

  /** Setting a clear bit and taking one off the count keeps them in step. */
  lemma TakeAgrees(lay: Layout, g: Group, bit: nat)
    requires GroupAgrees(lay, g) && bit < |g.bitmap| && !g.bitmap[bit]
    ensures Count(g) > 0
    ensures GroupAgrees(lay, Less(g, lay.wide).(bitmap := g.bitmap[bit := true]))
    ensures Count(Less(g, lay.wide)) == Count(g) - 1
  {
    ClearUpdate(g.bitmap, bit, true);
    LessCounts(g, lay.wide);
  }

  lemma ReleaseAgrees(lay: Layout, g: Group, bit: nat)
    requires GroupAgrees(lay, g) && lay.perGroup <= 8 * BITMAP_BYTES && bit < |g.bitmap| && g.bitmap[bit]
    ensures GroupAgrees(lay, More(g, lay.wide).(bitmap := g.bitmap[bit := false]))
    ensures Count(More(g, lay.wide)) == Count(g) + 1
  {
    ClearUpdate(g.bitmap, bit, false);
    ClearBounded(g.bitmap);
    MoreCounts(g, lay.wide);
  }

  // ---------------------------------------------------------------- the scan

  /** The bits the scanner looks at: whole bytes, at most one block of them. */
  function ScanBits(lay: Layout): nat {
    8 * if lay.perGroup / 8 > BITMAP_BYTES then BITMAP_BYTES else lay.perGroup / 8
  }

  /** The first clear bit of `bits[i..limit]`. */
  function FirstClear(bits: seq<bool>, i: nat, limit: nat): (r: Option<nat>)
    requires i <= limit <= |bits|
    ensures r.Some? ==> r.value < limit
    decreases limit - i
  {
    if i == limit then None else if !bits[i] then Some(i) else FirstClear(bits, i + 1, limit)
  }

  predicate Sized(lay: Layout, groups: seq<Group>) {
    forall g <- groups :: |g.bitmap| == lay.perGroup
  }

  /** The first group from `g` on with a nonzero count and a clear bit to scan. */
  function FindFree(lay: Layout, groups: seq<Group>, g: nat): (r: Option<(nat, nat)>)
    requires g <= |groups| && Sized(lay, groups)
    ensures r.Some? ==> r.value.0 < |groups| && r.value.1 < lay.perGroup
    decreases |groups| - g
  {
    if g == |groups| then None
    else
      var bit := FirstClear(groups[g].bitmap, 0, ScanBits(lay));
      if Count(groups[g]) != 0 && bit.Some? then Some((g, bit.value)) else FindFree(lay, groups, g + 1)
  }

  lemma {:induction false} FirstClearExact(bits: seq<bool>, i: nat, limit: nat)
    requires i <= limit <= |bits|
    ensures var r := FirstClear(bits, i, limit);
            match r
            case None => forall k :: i <= k < limit ==> bits[k]
            case Some(b) => i <= b < limit && !bits[b] && forall k :: i <= k < b ==> bits[k]
    decreases limit - i
  {
    if i < limit && bits[i] {
      FirstClearExact(bits, i + 1, limit);
    }
  }

  /** The scan takes the lowest free block of the volume, and fails only when no bit it
      scans is clear: with counts in step, skipping groups whose count is zero loses
      nothing. */
  lemma {:induction false} FindFreeIsLowest(lay: Layout, groups: seq<Group>, g: nat)
    requires g <= |groups| && Sized(lay, groups) && forall k :: 0 <= k < |groups| ==> GroupAgrees(lay, groups[k])
    ensures match FindFree(lay, groups, g)
            case None => forall k, b :: g <= k < |groups| && 0 <= b < ScanBits(lay) ==> groups[k].bitmap[b]
            case Some((h, bit)) =>
              && g <= h < |groups| && bit < ScanBits(lay) && !groups[h].bitmap[bit]
              && (forall b :: 0 <= b < bit ==> groups[h].bitmap[b])
              && forall k, b :: g <= k < h && 0 <= b < ScanBits(lay) ==> groups[k].bitmap[b]
    decreases |groups| - g
  {
    if g < |groups| {
      FirstClearExact(groups[g].bitmap, 0, ScanBits(lay));
      ClearZero(groups[g].bitmap);
      FindFreeIsLowest(lay, groups, g + 1);
    }
  }
}
