/** Directory blocks as lists of slots: lookup, insertion and removal. */
module DirSlots {
  import opened Words

  type Name = seq<Byte>

  /** One directory record: inode (0 if deleted), record length, name length, type byte,
      and the name if it fits. A deleted record has no name. */
  datatype Slots =
    | End
    | Slot(ino: Word, rec: nat, nl: Byte, kind: Byte, name: Name, rest: Slots)

  const SENTINEL_KIND: Byte := 0xDE
  const TAIL_BYTES := 12

  /** The checksum tail that ends a block of a volume with metadata checksums. */
  predicate Sentinel(s: Slots)
    requires s.Slot?
  {
    s.kind == SENTINEL_KIND && s.rec == TAIL_BYTES && s.ino == 0
  }

  function RoundUp4(n: nat): nat { (n + 3) / 4 * 4 }

  lemma RoundUpFacts(n: nat)
    ensures n <= RoundUp4(n) <= n + 3
  {
  }

  /** Bytes a record needs: the whole of a deleted one is free. */
  function Real(s: Slots): nat
    requires s.Slot?
  {
    if s.ino != 0 then RoundUp4(8 + s.nl) else 0
  }

  predicate Live(s: Slots)
    requires s.Slot?
  {
    s.ino != 0 && s.nl > 0 && s.nl + 8 <= s.rec
  }

  function Total(s: Slots): nat {
    match s
    case End => 0
    case Slot(_, rec, _, _, _, rest) => rec + Total(rest)
  }

  /** Records long enough for what they hold, and a sentinel only at the end. */
  predicate WellFormed(s: Slots) {
    s.Slot? ==>
      && s.rec >= 8
      && Real(s) <= s.rec
      && (s.ino != 0 ==> 0 < |s.name| == s.nl && s.kind != SENTINEL_KIND)
      && (Sentinel(s) ==> s.rest.End?)
      && WellFormed(s.rest)
  }

  /** What the linear lookup returns: the inode of the first live entry of that name, or 0. */
  function Lookup(s: Slots, n: Name): Word {
    match s
    case End => 0
    case Slot(ino, _, _, _, name, rest) => if Live(s) && name == n then ino else Lookup(rest, n)
  }

  /** The live entries in block order. */
  function Entries(s: Slots): seq<(Name, Word)> {
    match s
    case End => []
    case Slot(ino, _, _, _, name, rest) => (if Live(s) then [(name, ino)] else []) + Entries(rest)
  }

  // ---------------------------------------------------------------- insertion

  /** Whether a record can give away `need` bytes. */
  predicate HasSpace(s: Slots, need: nat)
    requires s.Slot?
  {
    !Sentinel(s) && s.rec >= Real(s) + need
  }

  /** The first record with room is cut to its real size, or reused if deleted, and the new
      entry takes the remainder. */
  function Insert(s: Slots, ino: Word, kind: Byte, name: Name): Option<Slots>
    requires |name| <= 255
  {
    match s
    case End => None
    case Slot(_, _, _, _, _, rest) =>
      if HasSpace(s, RoundUp4(8 + |name|)) then
        var entry := Slot(ino, s.rec - Real(s), |name|, kind, name, rest);
        Some(if s.ino != 0 then s.(rec := Real(s), rest := entry) else entry)
      else match Insert(rest, ino, kind, name)
        case None => None
        case Some(r) => Some(s.(rest := r))
  }

  /** An entry the code may write: a set inode, a non-empty name, a plain type byte. */
  predicate Writable(ino: Word, kind: Byte, name: Name) {
    ino != 0 && 0 < |name| <= 255 && kind != SENTINEL_KIND
  }

  /** Insertion keeps the tiling, and its sentinel last. */
  lemma {:induction false} InsertKeepsTiling(s: Slots, ino: Word, kind: Byte, name: Name)
    requires WellFormed(s) && Writable(ino, kind, name) && Insert(s, ino, kind, name).Some?
    ensures var s' := Insert(s, ino, kind, name).value;
            WellFormed(s') && Total(s') == Total(s) && s'.Slot?
  {
    if !HasSpace(s, RoundUp4(8 + |name|)) {
      InsertKeepsTiling(s.rest, ino, kind, name);
    }
  }

  /** Insertion changes what is found under one name only. */
  lemma {:induction false} InsertChangesOneName(s: Slots, ino: Word, kind: Byte, name: Name, n: Name)
    requires WellFormed(s) && Writable(ino, kind, name) && Insert(s, ino, kind, name).Some?
    requires Lookup(s, name) == 0
    ensures Lookup(Insert(s, ino, kind, name).value, n) == if n == name then ino else Lookup(s, n)
  {
    if !HasSpace(s, RoundUp4(8 + |name|)) {
      InsertChangesOneName(s.rest, ino, kind, name, n);
    }
  }

  predicate SomeHasSpace(s: Slots, need: nat) {
    s.Slot? && (HasSpace(s, need) || SomeHasSpace(s.rest, need))
  }

  /** Insertion fails only when no record has room. */
  lemma {:induction false} InsertFailsIff(s: Slots, ino: Word, kind: Byte, name: Name)
    requires |name| <= 255
    ensures Insert(s, ino, kind, name) == None <==> !SomeHasSpace(s, RoundUp4(8 + |name|))
  {
    if s.Slot? {
      InsertFailsIff(s.rest, ino, kind, name);
    }
  }

  // ---------------------------------------------------------------- removal

  /** Removes the first record of inode `ino` after `s`: the record before it absorbs it. */
  function RemoveAfter(s: Slots, ino: Word): Option<Slots>
    requires s.Slot?
    decreases s
  {
    if s.rest.End? || Sentinel(s.rest) then None
    else if s.rest.ino == ino then Some(s.(rec := s.rec + s.rest.rec, rest := s.rest.rest))
    else match RemoveAfter(s.rest, ino)
      case None => None
      case Some(r) => Some(s.(rest := r))
  }

  /** Removes the first record of inode `ino`. One without a predecessor only has its inode
      zeroed. */
  function Remove(s: Slots, ino: Word): Option<Slots> {
    if s.End? || Sentinel(s) then None
    else if s.ino == ino then Some(s.(ino := 0, nl := 0, name := []))
    else RemoveAfter(s, ino)
  }

  /** The record that removal picks: the first of that inode. */
  function First(s: Slots, ino: Word): (r: Option<Slots>)
    ensures r.Some? ==> r.value.Slot? && r.value.ino == ino
  {
    if s.End? || Sentinel(s) then None else if s.ino == ino then Some(s) else First(s.rest, ino)
  }

  lemma {:induction false} RemoveAfterKeeps(s: Slots, ino: Word)
    requires s.Slot? && WellFormed(s) && ino != 0 && RemoveAfter(s, ino).Some? && s.ino != ino && !Sentinel(s)
    ensures var s' := RemoveAfter(s, ino).value;
            && s'.Slot? && WellFormed(s') && Total(s') == Total(s)
            && (s'.ino, s'.nl, s'.kind, s'.name) == (s.ino, s.nl, s.kind, s.name) && s'.rec >= s.rec
  {
    if s.rest.ino != ino {
      RemoveAfterKeeps(s.rest, ino);
    }
  }

  /** Removal keeps the tiling, and its sentinel last. */
  lemma RemoveKeepsTiling(s: Slots, ino: Word)
    requires WellFormed(s) && ino != 0 && Remove(s, ino).Some?
    ensures var s' := Remove(s, ino).value;
            WellFormed(s') && Total(s') == Total(s) && s'.Slot?
  {
    if s.ino != ino {
      RemoveAfterKeeps(s, ino);
    }
  }

  /** Names of live entries are pairwise different. */
  predicate UniqueNames(s: Slots) {
    s.Slot? ==> (Live(s) ==> Lookup(s.rest, s.name) == 0) && UniqueNames(s.rest)
  }

  /** The name that removal takes away, if the record is live. */
  predicate Removes(s: Slots, ino: Word, n: Name) {
    First(s, ino).Some? && Live(First(s, ino).value) && First(s, ino).value.name == n
  }

  /** What removal takes away was there. */
  lemma {:induction false} RemovedWasListed(s: Slots, ino: Word, n: Name)
    requires ino != 0 && UniqueNames(s) && Removes(s, ino, n)
    ensures Lookup(s, n) == ino
  {
    if s.ino != ino {
      RemovedWasListed(s.rest, ino, n);
    }
  }

  lemma {:induction false} RemoveAfterLookup(s: Slots, ino: Word, n: Name)
    requires s.Slot? && WellFormed(s) && UniqueNames(s) && ino != 0 && s.ino != ino && RemoveAfter(s, ino).Some?
    requires !Sentinel(s)
    ensures var s' := RemoveAfter(s, ino).value;
            && (Lookup(s', n) == if Removes(s, ino, n) then 0 else Lookup(s, n))
            && s'.Slot? && Live(s') == Live(s) && s'.name == s.name && s'.ino == s.ino
  {
    var s' := RemoveAfter(s, ino).value;
    assert Removes(s, ino, n) == Removes(s.rest, ino, n);
    if Removes(s.rest, ino, n) {
      RemovedWasListed(s.rest, ino, n);
    }
    if s.rest.ino != ino {
      RemoveAfterLookup(s.rest, ino, n);
    }
  }

  /** Removal changes what is found under one name only: that of the first record of the
      inode. */
  lemma RemoveChangesOneName(s: Slots, ino: Word, n: Name)
    requires WellFormed(s) && UniqueNames(s) && ino != 0 && Remove(s, ino).Some?
    ensures Lookup(Remove(s, ino).value, n) == if Removes(s, ino, n) then 0 else Lookup(s, n)
  {
    if s.ino != ino {
      RemoveAfterLookup(s, ino, n);
    }
  }

  /** Removal by inode takes the entry `n` away exactly when no record of the same inode
      stands before it: with two links of one file in a block, the first goes. */
  lemma RemovesTheNamedEntryIff(s: Slots, ino: Word, n: Name)
    requires WellFormed(s) && UniqueNames(s) && ino != 0 && Lookup(s, n) == ino
    ensures Remove(s, ino).Some?
    ensures Lookup(Remove(s, ino).value, n) == 0 <==> Removes(s, ino, n)
  {
    RemoveFindsListed(s, ino, n);
    RemoveChangesOneName(s, ino, n);
  }

  /** Two names of inode 12 in one block. */
  function TwoLinks(): Slots {
    Slot(12, 12, 1, 1, [0x61], Slot(12, 1012, 1, 1, [0x62], End))
  }

  /** The failing input: a removal meant for "b" takes "a" away and leaves "b". */
  lemma OtherLinkGoes()
    ensures var s, a, b := TwoLinks(), [0x61], [0x62];
            && WellFormed(s) && UniqueNames(s) && Lookup(s, a) == 12 && Lookup(s, b) == 12
            && Remove(s, 12).Some? && Lookup(Remove(s, 12).value, a) == 0 && Lookup(Remove(s, 12).value, b) == 12
  {
    var s: Slots, a: Name, b: Name := TwoLinks(), [0x61], [0x62];
    assert a[0] != b[0];
    assert RoundUp4(9) == 12;
    assert WellFormed(s.rest) && UniqueNames(s.rest) && Live(s) && Live(s.rest);
    assert Lookup(s.rest, b) == 12 && Lookup(s.rest, a) == 0;
  }

  lemma {:induction false} RemoveFindsListed(s: Slots, ino: Word, n: Name)
    requires WellFormed(s) && ino != 0 && Lookup(s, n) == ino
    ensures s.Slot? && !Sentinel(s) && Remove(s, ino).Some? && First(s, ino).Some?
  {
    if s.ino != ino {
      RemoveFindsListed(s.rest, ino, n);
    }
  }

  lemma {:induction false} InsertKeepsUnique(s: Slots, ino: Word, kind: Byte, name: Name)
    requires WellFormed(s) && UniqueNames(s) && Writable(ino, kind, name) && Lookup(s, name) == 0
    requires Insert(s, ino, kind, name).Some?
    ensures UniqueNames(Insert(s, ino, kind, name).value)
  {
    if !HasSpace(s, RoundUp4(8 + |name|)) {
      InsertKeepsUnique(s.rest, ino, kind, name);
      if Live(s) {
        InsertChangesOneName(s.rest, ino, kind, name, s.name);
      }
    }
  }

  lemma {:induction false} RemoveAfterKeepsUnique(s: Slots, ino: Word)
    requires s.Slot? && WellFormed(s) && UniqueNames(s) && ino != 0 && s.ino != ino && RemoveAfter(s, ino).Some?
    requires !Sentinel(s)
    ensures UniqueNames(RemoveAfter(s, ino).value)
  {
    if s.rest.ino != ino {
      RemoveAfterKeepsUnique(s.rest, ino);
      if Live(s) {
        RemoveAfterLookup(s.rest, ino, s.name);
      }
    }
  }

  lemma RemoveKeepsUnique(s: Slots, ino: Word)
    requires WellFormed(s) && UniqueNames(s) && ino != 0 && Remove(s, ino).Some?
    ensures UniqueNames(Remove(s, ino).value)
  {
    if s.ino != ino {
      RemoveAfterKeepsUnique(s, ino);
    }
  }

  /** The list ends in a checksum tail. */
  predicate EndsInTail(s: Slots) {
    s.Slot? && if Sentinel(s) then s.rest.End? else EndsInTail(s.rest)
  }

  lemma {:induction false} InsertKeepsTail(s: Slots, ino: Word, kind: Byte, name: Name)
    requires EndsInTail(s) && Writable(ino, kind, name) && Insert(s, ino, kind, name).Some?
    ensures EndsInTail(Insert(s, ino, kind, name).value)
  {
    if !HasSpace(s, RoundUp4(8 + |name|)) {
      InsertKeepsTail(s.rest, ino, kind, name);
    }
  }

  lemma {:induction false} RemoveAfterKeepsTail(s: Slots, ino: Word)
    requires s.Slot? && EndsInTail(s) && WellFormed(s) && !Sentinel(s) && ino != 0 && RemoveAfter(s, ino).Some?
    ensures EndsInTail(RemoveAfter(s, ino).value) && RemoveAfter(s, ino).value.ino == s.ino
  {
    if s.rest.ino != ino {
      RemoveAfterKeepsTail(s.rest, ino);
    }
  }

  lemma RemoveKeepsTail(s: Slots, ino: Word)
    requires EndsInTail(s) && WellFormed(s) && ino != 0 && Remove(s, ino).Some?
    ensures EndsInTail(Remove(s, ino).value)
  {
    if s.ino != ino {
      RemoveAfterKeepsTail(s, ino);
    }
  }

  // ---------------------------------------------------------------- undo

  predicate HasInode(s: Slots, ino: Word) {
    s.Slot? && (s.ino == ino || HasInode(s.rest, ino))
  }

  lemma {:induction false} RemoveAfterUndoes(s: Slots, ino: Word, kind: Byte, name: Name)
    requires WellFormed(s) && Writable(ino, kind, name) && !HasInode(s, ino) && Insert(s, ino, kind, name).Some?
    ensures var s' := Insert(s, ino, kind, name).value;
            && s'.Slot? && !Sentinel(s')
            && (s'.ino != ino ==> RemoveAfter(s', ino).Some? && Entries(RemoveAfter(s', ino).value) == Entries(s))
            && (s'.ino == ino ==> s.ino == 0 && Entries(s'.rest) == Entries(s))
  {
    if !HasSpace(s, RoundUp4(8 + |name|)) {
      RemoveAfterUndoes(s.rest, ino, kind, name);
    }
  }

  /** Insertion and then removal restores the live entries, in order. */
  lemma RemoveUndoesInsert(s: Slots, ino: Word, kind: Byte, name: Name)
    requires WellFormed(s) && Writable(ino, kind, name) && !HasInode(s, ino) && Insert(s, ino, kind, name).Some?
    ensures var s' := Insert(s, ino, kind, name).value;
            Remove(s', ino).Some? && Entries(Remove(s', ino).value) == Entries(s)
  {
    RemoveAfterUndoes(s, ino, kind, name);
  }

  // ---------------------------------------------------------------- "." and ".."

  const DOT: Name := [0x2E]
  const DOTDOT: Name := [0x2E, 0x2E]

  /** The first block of a directory starts with "." in 12 bytes, and then "..". */
  predicate Dotted(s: Slots, self: Word) {
    && s.Slot? && s.rest.Slot?
    && s.ino == self && self != 0 && s.rec == 12 && s.nl == 1 && s.name == DOT
    && s.rest.ino != 0 && s.rest.nl == 2 && s.rest.name == DOTDOT
  }

  /** The inode that ".." names. */
  function Up(s: Slots): Word {
    if s.Slot? && s.rest.Slot? then s.rest.ino else 0
  }

  function SetUp(s: Slots, parent: Word): Slots {
    if s.Slot? && s.rest.Slot? then s.(rest := s.rest.(ino := parent)) else s
  }

  lemma InsertKeepsDots(s: Slots, self: Word, ino: Word, kind: Byte, name: Name)
    requires Dotted(s, self) && WellFormed(s) && Writable(ino, kind, name) && Insert(s, ino, kind, name).Some?
    ensures Dotted(Insert(s, ino, kind, name).value, self) && Up(Insert(s, ino, kind, name).value) == Up(s)
  {
  }

  lemma RemoveKeepsDots(s: Slots, self: Word, ino: Word)
    requires Dotted(s, self) && WellFormed(s) && ino != 0 && ino != self && ino != Up(s) && Remove(s, ino).Some?
    ensures Dotted(Remove(s, ino).value, self) && Up(Remove(s, ino).value) == Up(s)
  {
    RemoveAfterKeeps(s, ino);
    RemoveAfterKeeps(s.rest, ino);
  }

  /** Rewriting ".." changes what is found under that name only. */
  lemma SetUpChangesDotDot(s: Slots, self: Word, parent: Word, n: Name)
    requires Dotted(s, self) && WellFormed(s) && UniqueNames(s) && parent != 0
    ensures Lookup(SetUp(s, parent), n) == if n == DOTDOT then parent else Lookup(s, n)
    ensures WellFormed(SetUp(s, parent)) && UniqueNames(SetUp(s, parent)) && Total(SetUp(s, parent)) == Total(s)
    ensures Dotted(SetUp(s, parent), self) && Up(SetUp(s, parent)) == parent
    ensures EndsInTail(s) ==> EndsInTail(SetUp(s, parent))
  {
    if EndsInTail(s) {
      assert EndsInTail(s.rest) && EndsInTail(s.rest.rest);
      assert EndsInTail(SetUp(s, parent).rest);
    }
  }
}
