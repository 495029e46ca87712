/** Lookup in an extent tree of any depth. */
module ExtentTree {
  import opened Words
  import opened Extents

  /** An extent node with the nodes its index entries point to. `Bad` has no extent magic
      and `Unreadable` cannot be read. */
  datatype Tree =
    | Bad
    | Unreadable
    | Page(entries: Leaf)
    | Branch(kids: Kids)

  datatype Kids = Nil | Kid(logical: Word, node: Tree, rest: Kids)

  datatype Found = Block(n: nat) | Fails(rc: int)

  /** The scan of an index node: the highest entry at or below `l`, the first of equals. */
  function Pick(kids: Kids, l: Word, best: Option<(Word, Tree)>): Option<(Word, Tree)> {
    match kids
    case Nil => best
    case Kid(logical, node, rest) =>
      if logical <= l && (best.None? || logical > best.value.0) then Pick(rest, l, Some((logical, node)))
      else Pick(rest, l, best)
  }

  lemma {:induction false} PickIsInside(kids: Kids, l: Word, best: Option<(Word, Tree)>)
    ensures Pick(kids, l, best) == best || (Pick(kids, l, best).Some? && Pick(kids, l, best).value.1 < kids)
    decreases kids
  {
    if kids.Kid? {
      if kids.logical <= l && (best.None? || kids.logical > best.value.0) {
        PickIsInside(kids.rest, l, Some((kids.logical, kids.node)));
      } else {
        PickIsInside(kids.rest, l, best);
      }
    }
  }

  function Descend(t: Tree, l: Word): Found
    decreases t
  {
    match t
    case Bad => Fails(-1)
    case Unreadable => Fails(-5)
    case Page(entries) => (match Lookup(entries, l) case None => Fails(-2) case Some(n) => Block(n))
    case Branch(kids) =>
      PickIsInside(kids, l, None);
      match Pick(kids, l, None)
      case None => Fails(-3)
      case Some((_, node)) => Descend(node, l)
  }

  /** All leaf entries, left to right. */
  function Flatten(t: Tree): Leaf {
    match t
    case Page(entries) => entries
    case Branch(kids) => FlattenKids(kids)
    case _ => []
  }

  function FlattenKids(kids: Kids): Leaf {
    match kids
    case Nil => []
    case Kid(_, node, rest) => Flatten(node) + FlattenKids(rest)
  }

  predicate InSpan(leaf: Leaf, lo: nat, hi: nat) {
    forall i :: 0 <= i < |leaf| ==> lo <= leaf[i].logical && leaf[i].logical + RealLen(leaf[i]) <= hi
  }

  /** Where the entries after a kid start: the next kid, or the end of the node's span. */
  function Next(kids: Kids, hi: nat): nat {
    if kids.Kid? then kids.logical else hi
  }

  /** A readable tree whose index entries ascend and bound what lies under them. */
  ghost predicate WellFormed(t: Tree, lo: nat, hi: nat)
    decreases t
  {
    match t
    case Page(entries) => Sorted(entries) && InSpan(entries, lo, hi)
    case Branch(kids) => lo <= Next(kids, hi) && WellFormedKids(kids, hi)
    case _ => false
  }

  ghost predicate WellFormedKids(kids: Kids, hi: nat)
    decreases kids
  {
    match kids
    case Nil => true
    case Kid(logical, node, rest) =>
      logical < Next(rest, hi) <= hi && WellFormed(node, logical, Next(rest, hi)) && WellFormedKids(rest, hi)
  }

  // ---------------------------------------------------------------- the flattened list

  lemma SortedConcat(a: Leaf, b: Leaf, lo: nat, mid: nat, hi: nat)
    requires Sorted(a) && Sorted(b) && InSpan(a, lo, mid) && InSpan(b, mid, hi) && lo <= mid <= hi
    ensures Sorted(a + b) && InSpan(a + b, lo, hi)
  {
  }

  lemma WiderSpan(a: Leaf, lo: nat, lo': nat, hi: nat)
    requires InSpan(a, lo, hi) && lo' <= lo
    ensures InSpan(a, lo', hi)
  {
  }

  lemma FlattenSorted(t: Tree, lo: nat, hi: nat)
    requires WellFormed(t, lo, hi) && lo <= hi
    ensures Sorted(Flatten(t)) && InSpan(Flatten(t), lo, hi)
    decreases t
  {
    if t.Branch? {
      FlattenKidsSorted(t.kids, hi);
      WiderSpan(Flatten(t), Next(t.kids, hi), lo, hi);
    }
  }

  lemma {:induction false} FlattenKidsSorted(kids: Kids, hi: nat)
    requires WellFormedKids(kids, hi)
    ensures Sorted(FlattenKids(kids)) && InSpan(FlattenKids(kids), Next(kids, hi), hi)
    decreases kids
  {
    if kids.Kid? {
      FlattenSorted(kids.node, kids.logical, Next(kids.rest, hi));
      FlattenKidsSorted(kids.rest, hi);
      SortedConcat(Flatten(kids.node), FlattenKids(kids.rest), kids.logical, Next(kids.rest, hi), hi);
    }
  }

  /** Nothing is found outside the span of the entries. */
  lemma LookupOutside(leaf: Leaf, lo: nat, hi: nat, l: Word)
    requires Sorted(leaf) && InSpan(leaf, lo, hi) && !(lo <= l < hi)
    ensures Lookup(leaf, l) == None
  {
    LookupMisses(leaf, l);
  }

  // ---------------------------------------------------------------- descent

  function AsOption(f: Found): Option<nat> {
    match f
    case Block(n) => Some(n)
    case Fails(_) => None
  }

  /** Descent through the index finds what a scan of the flattened list finds. */
  lemma DescendIsLookup(t: Tree, lo: nat, hi: nat, l: Word)
    requires WellFormed(t, lo, hi) && lo <= hi
    ensures AsOption(Descend(t, l)) == Lookup(Flatten(t), l)
    decreases t
  {
    if t.Branch? {
      PickIsInside(t.kids, l, None);
      PickFinds(t.kids, hi, l, None);
    }
  }

  lemma {:induction false} PickFinds(kids: Kids, hi: nat, l: Word, best: Option<(Word, Tree)>)
    requires WellFormedKids(kids, hi) && (best.Some? && kids.Kid? ==> best.value.0 < kids.logical)
    ensures kids.Kid? && kids.logical <= l ==>
              && Pick(kids, l, best).Some?
              && AsOption(Descend(Pick(kids, l, best).value.1, l)) == Lookup(FlattenKids(kids), l)
    ensures !(kids.Kid? && kids.logical <= l) ==>
              Pick(kids, l, best) == best && Lookup(FlattenKids(kids), l) == None
    decreases kids
  {
    if kids.Kid? {
      var logical, node, rest := kids.logical, kids.node, kids.rest;
      FlattenSorted(node, logical, Next(rest, hi));
      LookupConcat(Flatten(node), FlattenKids(rest), l);
      if logical <= l {
        PickFinds(rest, hi, l, Some((logical, node)));
        if rest.Kid? && rest.logical <= l {
          LookupOutside(Flatten(node), logical, Next(rest, hi), l);
        } else {
          DescendIsLookup(node, logical, Next(rest, hi), l);
        }
      } else {
        LookupOutside(Flatten(node), logical, Next(rest, hi), l);
        PickFinds(rest, hi, l, best);
      }
    }
  }

  /** On a well-formed tree of any depth, lookup returns a block exactly when some leaf
      entry covers the logical block, and then the block that entry maps. */
  lemma TreeLookupExact(t: Tree, l: Word, n: nat)
    requires WellFormed(t, 0, 0xFFFF_FFFF)
    ensures Descend(t, l) == Block(n) <==>
            exists i :: 0 <= i < |Flatten(t)| && Maps(Flatten(t)[i], l, n)
  {
    hide Sorted, Flatten, Descend, WellFormed;
    FlattenSorted(t, 0, 0xFFFF_FFFF);
    DescendIsLookup(t, 0, 0xFFFF_FFFF, l);
    var leaf := Flatten(t);
    if i :| 0 <= i < |leaf| && Maps(leaf[i], l, n) {
      LookupExact(leaf, l, i);
    }
    if forall i :: 0 <= i < |leaf| ==> !(leaf[i].logical <= l < leaf[i].logical + RealLen(leaf[i])) {
      LookupMisses(leaf, l);
    } else {
      var i :| 0 <= i < |leaf| && leaf[i].logical <= l < leaf[i].logical + RealLen(leaf[i]);
      LookupExact(leaf, l, i);
      assert Maps(leaf[i], l, Lookup(leaf, l).value);
    }
  }

  predicate Maps(e: Extent, l: Word, n: nat) {
    e.logical <= l < e.logical + RealLen(e) && n == e.start + (l - e.logical)
  }

  // ---------------------------------------------------------------- the code

  /** The scan of one leaf. */
  method ScanLeaf(entries: Leaf, l: Word) returns (r: Option<nat>)
    ensures r == Lookup(entries, l)
  {
    var i := 0;
    while i < |entries|
      invariant 0 <= i <= |entries|
      invariant Lookup(entries, l) == Lookup(entries[i..], l)
    {
      if Covers(entries[i], l) {
        return Some(entries[i].start + (l - entries[i].logical));
      }
      i := i + 1;
    }
    return None;
  }

  /** The lookup loop: from the inode's node down to a leaf. */
  method ExtentLookup(root: Tree, l: Word) returns (r: Found)
    ensures r == Descend(root, l)
  {
    var node := root;
    while node.Branch?
      invariant Descend(root, l) == Descend(node, l)
      decreases node
    {
      var kids, best: Option<(Word, Tree)> := node.kids, None;
      while kids.Kid?
        invariant Pick(node.kids, l, None) == Pick(kids, l, best)
        decreases kids
      {
        if kids.logical <= l && (best.None? || kids.logical > best.value.0) {
          best := Some((kids.logical, kids.node));
        }
        kids := kids.rest;
      }
      if best.None? { return Fails(-3); }
      PickIsInside(node.kids, l, None);
      node := best.value.1;
    }
    match node
    case Bad => return Fails(-1);
    case Unreadable => return Fails(-5);
    case Page(entries) =>
      var found := ScanLeaf(entries, l);
      return match found case None => Fails(-2) case Some(n) => Block(n);
  }
}
