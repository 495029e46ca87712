/** The root block of a hashed directory as bytes: where the index lies, how it is scanned,
    and what a checksum tail stamped over it does. */
module IndexBlock {
  import opened Words
  import opened Bytes
  import opened DirBlock
  import opened HTree

  const ENTRIES_AT := 0x20

  /** The checks of a lookup: one level, at least one entry, and all of them in the block. */
  function HeaderCode(b: Block): int
    requires |b| >= 0x24
  {
    if b[0x1E] > 0 then -3
    else if Le16(b, 0x22) == 0 || Le16(b, 0x22) * 8 + ENTRIES_AT > |b| then -4
    else 0
  }

  predicate HasIndex(b: Block) {
    |b| == ROOT_BYTES && HeaderCode(b) == 0
  }

  function EntryAt(b: Block, i: nat): (Word, nat)
    requires ENTRIES_AT + 8 * i + 8 <= |b|
  {
    (Le32(b, ENTRIES_AT + 8 * i), Le32(b, ENTRIES_AT + 8 * i + 4))
  }

  /** The index in a root block. The hash field of entry 0 holds limit and count. */
  function IndexOf(b: Block): (ix: Index)
    requires HasIndex(b)
    ensures |ix.keys| + 1 == Le16(b, 0x22)
  {
    Index(Le32(b, ENTRIES_AT + 4), seq(Le16(b, 0x22) - 1, i requires 0 <= i < Le16(b, 0x22) - 1 => EntryAt(b, i + 1)))
  }

  // ---------------------------------------------------------------- the block as drawn

  /** Entry `i` of the index: the hash from which on it serves, 8 bytes for each entry from
      offset 32. Entry 0 serves all hashes; its place holds limit and count. */
  function KeyDrawn(b: Block, i: nat): nat
    requires 32 + 8 * i + 8 <= |b|
  {
    if i == 0 then 0 else Little(b, 32 + 8 * i, 4)
  }

  function LeafDrawn(b: Block, i: nat): nat
    requires 32 + 8 * i + 8 <= |b|
  {
    Little(b, 36 + 8 * i, 4)
  }

  /** `leaf` is that of the entry before the first one whose hash lies above `h`. */
  ghost predicate ServedBy(b: Block, h: Word, leaf: nat)
    requires |b| >= 36
  {
    var count := Little(b, 34, 2);
    && 32 + 8 * count <= |b|
    && exists i: nat :: i < count && Serves(b, count, h, i) && leaf == LeafDrawn(b, i)
  }

  predicate Serves(b: Block, count: nat, h: Word, i: nat)
    requires i < count && 32 + 8 * count <= |b|
  {
    && (forall k: nat :: k <= i ==> KeyDrawn(b, k) <= h)
    && (i + 1 < count ==> KeyDrawn(b, i + 1) > h)
  }

  /** With ascending hashes it is the last entry whose hash is not above `h`. */
  lemma ServesIsLast(b: Block, count: nat, h: Word, i: nat)
    requires i < count && 32 + 8 * count <= |b|
    requires forall j: nat, k: nat :: j <= k < count ==> KeyDrawn(b, j) <= KeyDrawn(b, k)
    ensures Serves(b, count, h, i) <==> KeyDrawn(b, i) <= h && forall k: nat :: i < k < count ==> KeyDrawn(b, k) > h
  {
  }

  lemma CodeDrawn(b: Block)
    requires |b| >= 36
    ensures HeaderCode(b) == if b[30] > 0 then -3
                             else if Little(b, 34, 2) == 0 || 32 + 8 * Little(b, 34, 2) > |b| then -4
                             else 0
  {
    LittleHalf(b, 34);
  }

  lemma EntryDrawn(b: Block, i: nat)
    requires HasIndex(b) && i < |IndexOf(b).keys|
    ensures IndexOf(b).keys[i] == (KeyDrawn(b, i + 1), LeafDrawn(b, i + 1))
  {
    hide Little, Le32, Le16;
    assert IndexOf(b).keys[i] == EntryAt(b, i + 1);
    LittleFields(b, 32 + 8 * (i + 1));
    LittleFields(b, 36 + 8 * (i + 1));
  }

  /** The index that is read gives each hash the leaf that the drawn block gives it. */
  lemma {:induction false} ScanServes(b: Block, h: Word, i: nat, leaf: nat)
    requires HasIndex(b) && i <= |IndexOf(b).keys| && leaf == LeafDrawn(b, i)
    requires forall k: nat :: k <= i ==> KeyDrawn(b, k) <= h
    ensures ServedBy(b, h, Scan(IndexOf(b).keys[i..], h, leaf))
    decreases |IndexOf(b).keys| - i
  {
    hide LeafDrawn, KeyDrawn, IndexOf, Little, Le16;
    LittleHalf(b, 34);
    var keys := IndexOf(b).keys;
    if i < |keys| {
      EntryDrawn(b, i);
      assert keys[i..][0] == keys[i] && keys[i..][1..] == keys[i + 1..];
    }
    if i < |keys| && keys[i].0 <= h {
      ScanServes(b, h, i + 1, keys[i].1);
    } else {
      assert Serves(b, |keys| + 1, h, i);
    }
  }

  lemma IndexServes(b: Block, h: Word)
    requires HasIndex(b)
    ensures ServedBy(b, h, FindLeaf(IndexOf(b), h))
  {
    hide Le32, Little, Le16;
    LittleFields(b, 36);
    var ix := IndexOf(b);
    assert ix.keys[0..] == ix.keys;
    ScanServes(b, h, 0, ix.first);
  }

  // ---------------------------------------------------------------- the lookup

  /** The scan of `ext4_htree_find_leaf` over the bytes of the root block. */
  method FindLeafInBlock(a: array<Byte>, h: Word) returns (rc: int, leaf: nat)
    requires a.Length == ROOT_BYTES
    ensures rc == HeaderCode(a[..])
    ensures rc == 0 ==> leaf == FindLeaf(IndexOf(a[..]), h)
    ensures rc == 0 ==> ServedBy(a[..], h, leaf)
  {
    hide Le16, Le32, ServedBy;
    if HeaderCode(a[..]) == 0 { IndexServes(a[..], h); }
    rc, leaf := 0, 0;
    if a[0x1E] > 0 { return -3, 0; }
    var count := Le16(a[..], 0x22);
    if count == 0 { return -4, 0; }
    if count * 8 + ENTRIES_AT > a.Length { return -4, 0; }
    ghost var ix := IndexOf(a[..]);
    leaf := Le32(a[..], ENTRIES_AT + 4);
    var i := 1;
    while i < count
      invariant 1 <= i <= count
      invariant FindLeaf(ix, h) == Scan(ix.keys[i - 1..], h, leaf)
    {
      assert ix.keys[i - 1..][0] == EntryAt(a[..], i) && ix.keys[i - 1..][1..] == ix.keys[i..];
      if Le32(a[..], ENTRIES_AT + i * 8) > h { return; }
      leaf := Le32(a[..], ENTRIES_AT + 4 + i * 8);
      i := i + 1;
    }
  }

  // ---------------------------------------------------------------- stamped bytes

  lemma TailWords(b: Block, sum: Word)
    requires |b| == ROOT_BYTES
    ensures Le32(WithTail(b, sum), 1012) == 0
    ensures Le32(WithTail(b, sum), 1016) == 0xDE00_000C
    ensures Le32(WithTail(b, sum), 1020) == sum
  {
    hide PackLittle, Le32;
    var b', f := WithTail(b, sum), TailBytes(sum);
    Patched(b, 1012, f);
    forall i: nat | i < 12 ensures b'[1012 + i] == f[i] {
      assert b'[1012..1024][i] == b'[1012 + i];
    }
    assert b'[1012..1016] == PackLittle(0);
    LittleRoundTrip(b', 1012, 0);
    assert b'[1020..1024] == PackLittle(sum);
    LittleRoundTrip(b', 1020, sum);
    assert f[4] == 12 && f[5] == 0 && f[6] == 0 && f[7] == 0xDE;
    MiddleWord(b');
  }

  lemma MiddleWord(b: Block)
    requires |b| == ROOT_BYTES && b[1016] == 12 && b[1017] == 0 && b[1018] == 0 && b[1019] == 0xDE
    ensures Le32(b, 1016) == 0xDE00_000C
  {
  }

  /** Stamping a checksum tail into a root block is `Stamp` on its index. */
  lemma TailStampsIndex(b: Block, sum: Word)
    requires HasIndex(b)
    ensures HasIndex(WithTail(b, sum)) && IndexOf(WithTail(b, sum)) == Stamp(IndexOf(b), sum)
  {
    hide WithTail, Le32;
    var b' := WithTail(b, sum);
    WithTailFront(b, sum, 0, 1012);
    TailWords(b, sum);
    assert Le16(b', 0x22) == Le16(b, 0x22);
    var ix, ix' := IndexOf(b), IndexOf(b');
    SameWord(b, b', ENTRIES_AT + 4);
    forall i | 0 <= i < |ix.keys| ensures ix'.keys[i] == Stamp(ix, sum).keys[i] {
      assert ix'.keys[i] == EntryAt(b', i + 1) && ix.keys[i] == EntryAt(b, i + 1);
      if i <= LAST_CLEAR {
        SameWord(b, b', ENTRIES_AT + 8 * (i + 1));
      }
      if i < LAST_CLEAR {
        SameWord(b, b', ENTRIES_AT + 8 * (i + 1) + 4);
      }
    }
    assert ix'.keys == Stamp(ix, sum).keys;
  }

  /** Rewriting ".." leaves the index alone. */
  lemma UpKeepsIndex(b: Block, parent: Word)
    requires HasIndex(b)
    ensures var b' := Patch(b, 12, PackLittle(parent)); HasIndex(b') && IndexOf(b') == IndexOf(b)
  {
    hide Le32, PackLittle;
    var b' := Patch(b, 12, PackLittle(parent));
    assert Le16(b', 0x22) == Le16(b, 0x22);
    var ix, ix' := IndexOf(b), IndexOf(b');
    SameWord(b, b', ENTRIES_AT + 4);
    forall i | 0 <= i < |ix.keys| ensures ix'.keys[i] == ix.keys[i] {
      SameWord(b, b', ENTRIES_AT + 8 * (i + 1));
      SameWord(b, b', ENTRIES_AT + 8 * (i + 1) + 4);
    }
    assert ix'.keys == ix.keys;
  }
}
