/** The tree that ".." entries form, and the ancestor walk that guards a move. */
module Ancestry {
  import opened Words

  const ROOT: Word := 2
  const MAX_DEPTH := 64

  /** Each directory's "..". */
  type Parents = map<Word, Word>

  /** Following ".." from `d` arrives at the root within `k` steps. */
  predicate Climbs(par: Parents, d: Word, k: nat)
    decreases k
  {
    d == ROOT || (k > 0 && d in par && Climbs(par, par[d], k - 1))
  }

  ghost predicate Rooted(par: Parents, d: Word) {
    exists k: nat :: Climbs(par, d, k)
  }

  /** `a` is `d` or one of the directories above it, looking `k` steps up. */
  predicate IsAbove(par: Parents, a: Word, d: Word, k: nat)
    decreases k
  {
    d == a || (k > 0 && d != ROOT && d in par && IsAbove(par, a, par[d], k - 1))
  }

  /** `d` is `a` or lies below it. */
  ghost predicate Descends(par: Parents, d: Word, a: Word) {
    exists k: nat :: IsAbove(par, a, d, k)
  }

  /** A tree: the root is its own parent and every other directory hangs below it. */
  ghost predicate IsTree(par: Parents) {
    && ROOT in par && par[ROOT] == ROOT && 0 !in par
    && forall d :: d in par ==> par[d] in par && Rooted(par, d)
  }

  /** The verdict of the walk: 1 for an ancestor, 0 for none, -1 when a directory cannot be
      read or the walk is too deep. */
  function Walk(par: Parents, moved: Word, cur: Word, depth: nat): int
    requires depth <= MAX_DEPTH
    decreases MAX_DEPTH - depth
  {
    if depth == MAX_DEPTH then -1
    else if cur == moved then 1
    else if cur == ROOT || cur == 0 then 0
    else if cur !in par then -1
    else Walk(par, moved, par[cur], depth + 1)
  }

  method AncestorWalk(par: Parents, moved: Word, start: Word) returns (rc: int)
    ensures rc == Walk(par, moved, start, 0)
  {
    var cur, depth := start, 0;
    while depth < MAX_DEPTH
      invariant 0 <= depth <= MAX_DEPTH
      invariant Walk(par, moved, start, 0) == Walk(par, moved, cur, depth)
    {
      if cur == moved { return 1; }
      if cur == ROOT || cur == 0 { return 0; }
      if cur !in par { return -1; }
      cur := par[cur];
      depth := depth + 1;
    }
    return -1;
  }

  lemma {:induction false} ClimbsMore(par: Parents, d: Word, k: nat, j: nat)
    requires Climbs(par, d, k) && k <= j
    ensures Climbs(par, d, j)
    decreases k
  {
    if d != ROOT {
      ClimbsMore(par, par[d], k - 1, j - 1);
    }
  }

  /** In a tree the walk is exact: it refuses an ancestor, lets a non-ancestor through, and
      gives up (refusing) only when neither is settled within 64 steps. */
  lemma {:induction false} WalkExact(par: Parents, moved: Word, cur: Word, depth: nat)
    requires IsTree(par) && cur in par && depth <= 64 && moved != 2
    ensures Walk(par, moved, cur, depth) == 1 <==> depth < 64 && IsAbove(par, moved, cur, 63 - depth)
    ensures Walk(par, moved, cur, depth) == 0 ==> !Descends(par, cur, moved)
    ensures Walk(par, moved, cur, depth) == 0 <==>
            depth < 64 && Climbs(par, cur, 63 - depth) && !IsAbove(par, moved, cur, 63 - depth)
    decreases 64 - depth
  {
    if depth < MAX_DEPTH && cur != moved && cur != ROOT {
      WalkExact(par, moved, par[cur], depth + 1);
      if Walk(par, moved, cur, depth) == 0 {
        forall k: nat ensures !IsAbove(par, moved, cur, k) {
          assert k > 0 ==> !IsAbove(par, moved, par[cur], k - 1);
        }
      }
    }
  }

  /** A new parent with a path to the root that avoids `file` keeps every directory rooted:
      what hung below `file` now climbs through the new parent. */
  lemma {:induction false} MovedClimbs(par: Parents, file: Word, parent: Word, d: Word, k: nat, j: nat)
    requires Climbs(par, d, k) && Climbs(par, parent, j) && file in par && file != ROOT
    requires !Descends(par, parent, file)
    ensures Climbs(par[file := parent], d, k + j + 1)
    decreases k
  {
    var moved := par[file := parent];
    if d == file {
      AvoidsFile(par, file, parent, parent, j);
      ClimbsMore(moved, parent, j, k + j);
    } else if d != ROOT {
      MovedClimbs(par, file, parent, par[d], k - 1, j);
    }
  }

  lemma {:induction false} AvoidsFile(par: Parents, file: Word, parent: Word, d: Word, k: nat)
    requires Climbs(par, d, k) && !Descends(par, d, file)
    ensures Climbs(par[file := parent], d, k)
    decreases k
  {
    if d != ROOT {
      assert !IsAbove(par, file, d, 0);
      forall i: nat ensures !IsAbove(par, file, par[d], i) {
        assert !IsAbove(par, file, d, i + 1);
      }
      AvoidsFile(par, file, parent, par[d], k - 1);
    }
  }

  /** Re-parenting a directory below a non-descendant keeps a tree. */
  lemma MoveKeepsTree(par: Parents, file: Word, parent: Word)
    requires IsTree(par) && file in par && file != ROOT && parent in par
    requires !Descends(par, parent, file)
    ensures IsTree(par[file := parent])
  {
    var moved := par[file := parent];
    var j :| Climbs(par, parent, j);
    forall d | d in moved ensures moved[d] in moved && Rooted(moved, d) {
      var k :| Climbs(par, d, k);
      MovedClimbs(par, file, parent, d, k, j);
    }
  }

  /** Without the guard the move would cut a cycle off the tree: below a descendant of its
      own, the moved directory can no longer reach the root. */
  lemma CycleIsNotRooted(par: Parents, file: Word, parent: Word, i: nat)
    requires IsTree(par) && file in par && file != ROOT && parent in par && IsAbove(par, file, parent, i)
    ensures !Rooted(par[file := parent], file)
  {
    var moved := par[file := parent];
    forall k: nat ensures !Climbs(moved, file, k) {
      Trapped(par, file, parent, i, file, 0, k);
    }
  }

  /** From `file` and from anywhere between `parent` and `file`, climbing stays in the cycle. */
  lemma {:induction false} Trapped(par: Parents, file: Word, parent: Word, i: nat, d: Word, e: nat, k: nat)
    requires file in par && file != ROOT && IsAbove(par, file, parent, i) && IsAbove(par, file, d, e)
    ensures !Climbs(par[file := parent], d, k)
    decreases k
  {
    if k > 0 {
      if d == file {
        Trapped(par, file, parent, i, parent, i, k - 1);
      } else {
        Trapped(par, file, parent, i, par[d], e - 1, k - 1);
      }
    }
  }

  /** Re-parenting keeps a tree exactly when the new parent is not below what is moved. */
  lemma MoveKeepsTreeIff(par: Parents, file: Word, parent: Word)
    requires IsTree(par) && file in par && file != ROOT && parent in par
    ensures IsTree(par[file := parent]) <==> !Descends(par, parent, file)
  {
    if Descends(par, parent, file) {
      var i: nat :| IsAbove(par, file, parent, i);
      var moved := par[file := parent];
      CycleIsNotRooted(par, file, parent, i);
      assert file in moved && !Rooted(moved, file);
      assert !IsTree(moved);
    } else {
      MoveKeepsTree(par, file, parent);
    }
  }

  /** In a tree no directory is its own parent or grandparent, the root aside. */
  lemma NoShortCycle(par: Parents, d: Word)
    requires IsTree(par) && d in par && d != ROOT
    ensures par[d] != d && par[par[d]] != d
  {
    var k :| Climbs(par, d, k);
    if par[d] == d || par[par[d]] == d {
      NeverClimbs(par, d, k);
    }
  }

  lemma {:induction false} NeverClimbs(par: Parents, d: Word, k: nat)
    requires d in par && par[d] in par && d != ROOT && (par[d] == d || par[par[d]] == d)
    requires ROOT in par && par[ROOT] == ROOT
    ensures !Climbs(par, d, k)
    decreases k
  {
    if k > 0 && par[d] != ROOT {
      NeverClimbs(par, par[d], k - 1);
    }
  }
}
