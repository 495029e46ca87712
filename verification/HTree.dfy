/** Hashed directories: the index picks one leaf for each name, and must agree with the
    linear scan of all blocks. */
module HTree {
  import opened Words
  import opened DirSlots

  type Hash = Name -> Word

  /** The single-level index: the leaf for hashes below all keys, then keys and leaves. */
  datatype Index = Index(first: nat, keys: seq<(Word, nat)>)

  /** Block 0 holds "." and ".." and hides the index; the others are leaves. */
  type Blocks = seq<Slots>

  // ---------------------------------------------------------------- the index scan

  function Scan(keys: seq<(Word, nat)>, h: Word, leaf: nat): nat {
    if keys == [] || keys[0].0 > h then leaf else Scan(keys[1..], h, keys[0].1)
  }

  function FindLeaf(ix: Index, h: Word): nat {
    Scan(ix.keys, h, ix.first)
  }

  predicate Ascending(keys: seq<(Word, nat)>) {
    forall i, j :: 0 <= i < j < |keys| ==> keys[i].0 <= keys[j].0
  }

  /** With ascending keys the scan picks the leaf of the last key not above the hash, and
      the first leaf when there is none. */
  lemma {:induction false} ScanPicksLastKey(keys: seq<(Word, nat)>, h: Word, leaf: nat)
    requires Ascending(keys)
    ensures if keys == [] || keys[0].0 > h then Scan(keys, h, leaf) == leaf
            else exists i :: 0 <= i < |keys| && IsLastKey(keys, h, i) && Scan(keys, h, leaf) == keys[i].1
  {
    if keys != [] && keys[0].0 <= h {
      ScanPicksLastKey(keys[1..], h, keys[0].1);
      if |keys| == 1 || keys[1].0 > h {
        assert IsLastKey(keys, h, 0);
      } else {
        var i :| 0 <= i < |keys| - 1 && IsLastKey(keys[1..], h, i) && Scan(keys[1..], h, keys[0].1) == keys[1..][i].1;
        assert forall j :: i + 1 < j < |keys| ==> keys[j] == keys[1..][j - 1];
        assert IsLastKey(keys, h, i + 1);
      }
    }
  }

  predicate IsLastKey(keys: seq<(Word, nat)>, h: Word, i: nat)
    requires i < |keys|
  {
    keys[i].0 <= h && forall j :: i < j < |keys| ==> keys[j].0 > h
  }

  /** The loop over the index entries. */
  method ScanIndex(ix: Index, h: Word) returns (leaf: nat)
    ensures leaf == FindLeaf(ix, h)
  {
    leaf := ix.first;
    var i := 0;
    while i < |ix.keys|
      invariant 0 <= i <= |ix.keys|
      invariant FindLeaf(ix, h) == Scan(ix.keys[i..], h, leaf)
    {
      if ix.keys[i].0 > h { break; }
      leaf := ix.keys[i].1;
      i := i + 1;
    }
  }

  // ---------------------------------------------------------------- two lookups

  /** The linear lookup over all blocks. */
  function Linear(blocks: Blocks, n: Name): Word {
    if blocks == [] then 0
    else if Lookup(blocks[0], n) != 0 then Lookup(blocks[0], n)
    else Linear(blocks[1..], n)
  }

  /** Hash, then scan one leaf. */
  function Indexed(hash: Hash, ix: Index, blocks: Blocks, n: Name): Word {
    var leaf := FindLeaf(ix, hash(n));
    if leaf < |blocks| then Lookup(blocks[leaf], n) else 0
  }

  /** Each live entry of a leaf sits in the leaf that the index picks for its name. */
  ghost predicate Placed(hash: Hash, ix: Index, blocks: Blocks) {
    forall b, n :: 1 <= b < |blocks| && Lookup(blocks[b], n) != 0 ==> FindLeaf(ix, hash(n)) == b
  }

  /** No name lives in two blocks. */
  ghost predicate OneHome(blocks: Blocks) {
    forall a, b, n :: 0 <= a < b < |blocks| && Lookup(blocks[a], n) != 0 ==> Lookup(blocks[b], n) == 0
  }

  /** The index never points at the root block. */
  ghost predicate PointsAtLeaves(ix: Index) {
    ix.first >= 1 && forall k <- ix.keys :: k.1 >= 1
  }

  lemma {:induction false} ScanPointsAtLeaf(keys: seq<(Word, nat)>, h: Word, leaf: nat)
    requires leaf >= 1 && forall k <- keys :: k.1 >= 1
    ensures Scan(keys, h, leaf) >= 1
  {
    if keys != [] && keys[0].0 <= h {
      ScanPointsAtLeaf(keys[1..], h, keys[0].1);
    }
  }

  lemma {:induction false} LinearFinds(blocks: Blocks, n: Name, b: nat)
    requires b < |blocks| && Lookup(blocks[b], n) != 0
    requires forall a :: 0 <= a < b ==> Lookup(blocks[a], n) == 0
    ensures Linear(blocks, n) == Lookup(blocks[b], n)
  {
    if b > 0 {
      assert forall a :: 0 <= a < b - 1 ==> blocks[1..][a] == blocks[a + 1];
      LinearFinds(blocks[1..], n, b - 1);
    }
  }

  lemma {:induction false} LinearMisses(blocks: Blocks, n: Name)
    requires forall a :: 0 <= a < |blocks| ==> Lookup(blocks[a], n) == 0
    ensures Linear(blocks, n) == 0
  {
    if blocks != [] {
      LinearMisses(blocks[1..], n);
    }
  }

  lemma OneHomeMeans(blocks: Blocks, a: nat, b: nat, n: Name)
    requires OneHome(blocks) && a < |blocks| && b < |blocks| && a != b && Lookup(blocks[b], n) != 0
    ensures Lookup(blocks[a], n) == 0
  {
  }

  /** Agreement on one name, given where its entry is. */
  lemma AgreesIfPlaced(hash: Hash, ix: Index, blocks: Blocks, n: Name)
    requires Placed(hash, ix, blocks) && OneHome(blocks) && PointsAtLeaves(ix)
    requires blocks != [] && Lookup(blocks[0], n) == 0
    ensures Indexed(hash, ix, blocks, n) == Linear(blocks, n)
  {
    if b :| 0 <= b < |blocks| && Lookup(blocks[b], n) != 0 {
      forall a | 0 <= a < b ensures Lookup(blocks[a], n) == 0 {
        OneHomeMeans(blocks, a, b, n);
      }
      LinearFinds(blocks, n, b);
    } else {
      LinearMisses(blocks, n);
    }
  }

  /** Index agrees with scan: hash-then-scan-one-leaf answers as the linear lookup does, for
      every name outside the root block, exactly when every entry is in its leaf. */
  lemma IndexAgreesIff(hash: Hash, ix: Index, blocks: Blocks)
    requires OneHome(blocks) && PointsAtLeaves(ix) && blocks != []
    ensures Placed(hash, ix, blocks) <==>
            forall n :: Lookup(blocks[0], n) == 0 ==> Indexed(hash, ix, blocks, n) == Linear(blocks, n)
  {
    if Placed(hash, ix, blocks) {
      forall n | Lookup(blocks[0], n) == 0 ensures Indexed(hash, ix, blocks, n) == Linear(blocks, n) {
        AgreesIfPlaced(hash, ix, blocks, n);
      }
    } else {
      var b, n :| 1 <= b < |blocks| && Lookup(blocks[b], n) != 0 && FindLeaf(ix, hash(n)) != b;
      forall a | 0 <= a < |blocks| && a != b ensures Lookup(blocks[a], n) == 0 {
        OneHomeMeans(blocks, a, b, n);
      }
      LinearFinds(blocks, n, b);
      assert Indexed(hash, ix, blocks, n) == 0;
    }
  }

  // ---------------------------------------------------------------- a tail in the root block

  const ROOT_BYTES := 1024

  /** Entry `i` of the index, counted from 0, lies at byte 0x20 + 8 * i of the root block. */
  predicate IndexFits(ix: Index) {
    0x20 + 8 * (|ix.keys| + 1) <= ROOT_BYTES
  }

  /** No entry of the index reaches into the last 12 bytes of the block. */
  predicate ClearOfTail(ix: Index) {
    0x20 + 8 * (|ix.keys| + 1) <= ROOT_BYTES - TAIL_BYTES
  }

  /** The key whose leaf number lies in the first word of the tail. */
  const LAST_CLEAR := 121

  /** The index after a checksum tail is written over the end of its block: one entry keeps
      its key and loses its leaf, the next one becomes the mark and the checksum. */
  function Stamp(ix: Index, sum: Word): (r: Index)
    ensures |r.keys| == |ix.keys|
    ensures ClearOfTail(ix) ==> r == ix
  {
    Index(ix.first, seq(|ix.keys|, i requires 0 <= i < |ix.keys| =>
      if i == LAST_CLEAR then (ix.keys[i].0, 0)
      else if i == LAST_CLEAR + 1 then (0xDE00_000C, sum)
      else ix.keys[i]))
  }

  /** The index stands the stamp exactly when it does not reach into the tail. Otherwise it
      sends names to the root block, whatever it did before. */
  lemma StampKeepsLeavesIff(ix: Index, sum: Word)
    requires PointsAtLeaves(ix)
    ensures PointsAtLeaves(Stamp(ix, sum)) <==> ClearOfTail(ix)
  {
    if !ClearOfTail(ix) {
      assert Stamp(ix, sum).keys[LAST_CLEAR].1 == 0;
    }
  }

  lemma {:induction false} ScanPast(keys: seq<(Word, nat)>, h: Word, leaf: nat, i: nat)
    requires i < |keys| && forall j :: 0 <= j <= i ==> keys[j].0 <= h
    ensures Scan(keys, h, leaf) == Scan(keys[i + 1..], h, keys[i].1)
  {
    if i == 0 {
    } else {
      ScanPast(keys[1..], h, keys[0].1, i - 1);
      assert keys[1..][i..] == keys[i + 1..];
    }
  }

  /** With 123 entries every name whose hash is not below the last key is looked for in the
      root block, and not found, wherever its entry is. */
  lemma StampLosesNames(hash: Hash, ix: Index, sum: Word, blocks: Blocks, n: Name)
    requires |ix.keys| == LAST_CLEAR + 1 && Ascending(ix.keys) && hash(n) >= ix.keys[LAST_CLEAR].0
    requires blocks != [] && Lookup(blocks[0], n) == 0
    ensures FindLeaf(Stamp(ix, sum), hash(n)) == 0
    ensures Indexed(hash, Stamp(ix, sum), blocks, n) == 0
  {
    ScanPast(Stamp(ix, sum).keys, hash(n), ix.first, LAST_CLEAR);
  }

  // ---------------------------------------------------------------- insertion

  /** Insertion into one block, as creation and cross-directory rename do it. */
  function InsertInto(blocks: Blocks, b: nat, ino: Word, kind: Byte, name: Name): Option<Blocks>
    requires |name| <= 255
  {
    if b >= |blocks| then None
    else match Insert(blocks[b], ino, kind, name)
      case None => None
      case Some(s) => Some(blocks[b := s])
  }

  /** Insertion into a hashed directory: the leaf that the index picks, or a refusal. */
  function InsertHashed(hash: Hash, ix: Index, blocks: Blocks, ino: Word, kind: Byte, name: Name): Option<Blocks>
    requires |name| <= 255
  {
    InsertInto(blocks, FindLeaf(ix, hash(name)), ino, kind, name)
  }

  /** Insertion into a linear directory: the first block with room, from `b` on. */
  function InsertLinear(blocks: Blocks, b: nat, ino: Word, kind: Byte, name: Name): Option<Blocks>
    requires |name| <= 255
    decreases |blocks| - b
  {
    if b >= |blocks| then None
    else if InsertInto(blocks, b, ino, kind, name).Some? then InsertInto(blocks, b, ino, kind, name)
    else InsertLinear(blocks, b + 1, ino, kind, name)
  }

  ghost predicate AllWellFormed(blocks: Blocks) {
    forall s <- blocks :: WellFormed(s)
  }

  ghost predicate Absent(blocks: Blocks, name: Name) {
    forall b :: 0 <= b < |blocks| ==> Lookup(blocks[b], name) == 0
  }

  lemma InsertIntoLookup(blocks: Blocks, b: nat, ino: Word, kind: Byte, name: Name, a: nat, n: Name)
    requires AllWellFormed(blocks) && Writable(ino, kind, name) && Absent(blocks, name) && a < |blocks|
    requires InsertInto(blocks, b, ino, kind, name).Some?
    ensures Lookup(InsertInto(blocks, b, ino, kind, name).value[a], n) ==
            if a == b && n == name then ino else Lookup(blocks[a], n)
  {
    InsertChangesOneName(blocks[b], ino, kind, name, n);
  }

  /** A new name keeps the index in step exactly when it goes to the leaf of its hash;
      other blocks with room would hide it from indexed lookups. */
  lemma InsertKeepsPlacedIff(hash: Hash, ix: Index, blocks: Blocks, b: nat,
                             ino: Word, kind: Byte, name: Name)
    requires AllWellFormed(blocks) && Writable(ino, kind, name) && Absent(blocks, name) && 1 <= b
    requires Placed(hash, ix, blocks) && InsertInto(blocks, b, ino, kind, name).Some?
    ensures Placed(hash, ix, InsertInto(blocks, b, ino, kind, name).value) <==> FindLeaf(ix, hash(name)) == b
  {
    var after := InsertInto(blocks, b, ino, kind, name).value;
    forall a, n | 0 <= a < |blocks|
      ensures Lookup(after[a], n) == if a == b && n == name then ino else Lookup(blocks[a], n)
    {
      InsertIntoLookup(blocks, b, ino, kind, name, a, n);
    }
    assert Lookup(after[b], name) != 0;
  }

  /** Insertion through the index keeps index and scan in agreement, and changes what
      either finds at the new name only. */
  lemma InsertHashedKeepsAgreement(hash: Hash, ix: Index, blocks: Blocks,
                                   ino: Word, kind: Byte, name: Name, n: Name)
    requires AllWellFormed(blocks) && Writable(ino, kind, name) && Absent(blocks, name) && blocks != []
    requires Placed(hash, ix, blocks) && OneHome(blocks) && PointsAtLeaves(ix)
    requires InsertHashed(hash, ix, blocks, ino, kind, name).Some?
    ensures var after := InsertHashed(hash, ix, blocks, ino, kind, name).value;
            && Placed(hash, ix, after) && OneHome(after) && AllWellFormed(after)
            && Linear(after, n) == (if n == name then ino else Linear(blocks, n))
            && (Lookup(blocks[0], n) == 0 ==> Indexed(hash, ix, after, n) == Linear(after, n))
  {
    var b := FindLeaf(ix, hash(name));
    ScanPointsAtLeaf(ix.keys, hash(name), ix.first);
    var after := InsertInto(blocks, b, ino, kind, name).value;
    InsertKeepsPlacedIff(hash, ix, blocks, b, ino, kind, name);
    InsertKeepsTiling(blocks[b], ino, kind, name);
    forall a, m | 0 <= a < |blocks|
      ensures Lookup(after[a], m) == if a == b && m == name then ino else Lookup(blocks[a], m)
    {
      InsertIntoLookup(blocks, b, ino, kind, name, a, m);
    }
    LinearAfterInsert(blocks, after, b, ino, name, n);
    if Lookup(blocks[0], n) == 0 {
      AgreesIfPlaced(hash, ix, after, n);
    }
  }

  lemma LinearAfterInsert(blocks: Blocks, after: Blocks, b: nat, ino: Word, name: Name, n: Name)
    requires |after| == |blocks| && b < |blocks| && ino != 0 && Absent(blocks, name)
    requires forall a, m :: 0 <= a < |blocks| ==>
               Lookup(after[a], m) == if a == b && m == name then ino else Lookup(blocks[a], m)
    ensures Linear(after, n) == if n == name then ino else Linear(blocks, n)
  {
    if n == name {
      LinearFinds(after, n, b);
    } else {
      LinearSame(blocks, after, n);
    }
  }

  lemma {:induction false} LinearSame(blocks: Blocks, after: Blocks, n: Name)
    requires |after| == |blocks| && forall a :: 0 <= a < |blocks| ==> Lookup(after[a], n) == Lookup(blocks[a], n)
    ensures Linear(after, n) == Linear(blocks, n)
  {
    if blocks != [] {
      LinearSame(blocks[1..], after[1..], n);
    }
  }

  /** Insertion into a linear directory fails only when no block has room, and otherwise
      changes the lookup at the new name only. */
  lemma {:induction false} InsertLinearChangesOneName(blocks: Blocks, b: nat, ino: Word, kind: Byte, name: Name, n: Name)
    requires AllWellFormed(blocks) && Writable(ino, kind, name) && Absent(blocks, name)
    ensures match InsertLinear(blocks, b, ino, kind, name)
            case None => forall a :: b <= a < |blocks| ==> !SomeHasSpace(blocks[a], RoundUp4(8 + |name|))
            case Some(after) => |after| == |blocks| && Linear(after, n) == if n == name then ino else Linear(blocks, n)
    decreases |blocks| - b
  {
    if b < |blocks| {
      InsertFailsIff(blocks[b], ino, kind, name);
      if InsertInto(blocks, b, ino, kind, name).Some? {
        var after := InsertInto(blocks, b, ino, kind, name).value;
        forall a, m | 0 <= a < |blocks|
          ensures Lookup(after[a], m) == if a == b && m == name then ino else Lookup(blocks[a], m)
        {
          InsertIntoLookup(blocks, b, ino, kind, name, a, m);
        }
        LinearAfterInsert(blocks, after, b, ino, name, n);
      } else {
        InsertLinearChangesOneName(blocks, b + 1, ino, kind, name, n);
      }
    }
  }

  // ---------------------------------------------------------------- removal

  lemma OneHomeAfterRemove(blocks: Blocks, b: nat, ino: Word)
    requires AllWellFormed(blocks) && b < |blocks| && ino != 0 && Remove(blocks[b], ino).Some?
    requires (forall s <- blocks :: UniqueNames(s)) && OneHome(blocks)
    ensures OneHome(blocks[b := Remove(blocks[b], ino).value])
  {
    var after := blocks[b := Remove(blocks[b], ino).value];
    forall a, c, n | 0 <= a < c < |blocks| && Lookup(after[a], n) != 0 ensures Lookup(after[c], n) == 0 {
      RemoveChangesOneName(blocks[b], ino, n);
      assert Lookup(blocks[a], n) != 0;
    }
  }

  /** Removal from any block keeps the index in step. */
  lemma RemoveKeepsPlaced(hash: Hash, ix: Index, blocks: Blocks, b: nat, ino: Word)
    requires AllWellFormed(blocks) && b < |blocks| && ino != 0 && Remove(blocks[b], ino).Some?
    requires (forall s <- blocks :: UniqueNames(s)) && Placed(hash, ix, blocks)
    ensures Placed(hash, ix, blocks[b := Remove(blocks[b], ino).value])
  {
    var after := blocks[b := Remove(blocks[b], ino).value];
    forall a, n | 1 <= a < |blocks| && Lookup(after[a], n) != 0 ensures FindLeaf(ix, hash(n)) == a {
      RemoveChangesOneName(blocks[b], ino, n);
      assert Lookup(blocks[a], n) != 0;
    }
  }

  /** Removal from a block changes the linear lookup at the removed name only. */
  lemma LinearAfterRemove(blocks: Blocks, b: nat, ino: Word, n: Name)
    requires AllWellFormed(blocks) && b < |blocks| && ino != 0 && Remove(blocks[b], ino).Some?
    requires (forall s <- blocks :: UniqueNames(s)) && OneHome(blocks)
    ensures Linear(blocks[b := Remove(blocks[b], ino).value], n) ==
            if Removes(blocks[b], ino, n) then 0 else Linear(blocks, n)
  {
    var after := blocks[b := Remove(blocks[b], ino).value];
    RemoveChangesOneName(blocks[b], ino, n);
    if Removes(blocks[b], ino, n) {
      RemovedWasListed(blocks[b], ino, n);
      forall a | 0 <= a < |blocks| ensures Lookup(after[a], n) == 0 {
        if a != b { OneHomeMeans(blocks, a, b, n); }
      }
      LinearMisses(after, n);
    } else {
      LinearSame(blocks, after, n);
    }
  }
}
