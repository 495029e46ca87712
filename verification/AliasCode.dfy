/** The 8.3 name code as it runs: loops that fill an 11-byte buffer and walk a path. */
module AliasCode {
  import opened Words
  import opened Aliases

  method LfnHash(s: Name) returns (h: nat)
    ensures h == Hash(s, |s|)
  {
    h := 0;
    var i := 0;
    while i < |s|
      invariant 0 <= i <= |s| && h == Hash(s, i)
    {
      h := (h * 17 + Upper(s[i])) % 0x1_0000;
      i := i + 1;
    }
  }

  method NameIs83Safe(s: Name) returns (ok: bool)
    ensures ok == FitsDos(s)
  {
    var i, dot: Option<nat> := 0, None;
    while i < |s|
      invariant 0 <= i <= |s|
      invariant match dot
                case None => FirstDot(s, 0) == FirstDot(s, i) && forall k :: 0 <= k < i ==> Safe(Upper(s[k])) && s[k] != DOT
                case Some(d) => d < i && FirstDot(s, 0) == d && forall k :: 0 <= k < i && k != d ==> Safe(Upper(s[k]))
    {
      if s[i] == DOT {
        if dot.Some? { return false; }
        dot := Some(i);
      } else if !Safe(Upper(s[i])) {
        FirstDotIsDot(s, 0);
        return false;
      }
      i := i + 1;
    }
    return match dot case None => |s| <= 8 case Some(d) => d <= 8 && |s| - d - 1 <= 3;
  }

  /** One turn of a filtering loop. */
  lemma TakeStep(s: Name, n: nat)
    requires s != [] && n > 0
    ensures Take(Filtered(s), n) ==
            if Safe(Upper(s[0])) then [Upper(s[0])] + Take(Filtered(s[1..]), n - 1) else Take(Filtered(s[1..]), n)
  {
  }

  /** Writes up to `n` safe characters of `s`, in upper case, at `at`. */
  method PutSafe(s: Name, out: array<Byte>, at: nat, n: nat) returns (j: nat)
    requires at + n <= out.Length
    modifies out
    ensures j == |Take(Filtered(s), n)| && out[at..at + j] == Take(Filtered(s), n)
    ensures forall k :: 0 <= k < out.Length && !(at <= k < at + j) ==> out[k] == old(out[k])
  {
    hide Filtered, Take, Safe, Upper, Pad;
    ghost var all := Take(Filtered(s), n);
    j := 0;
    var i := 0;
    ghost var done: Name := [];
    while i < |s| && j < n
      invariant 0 <= i <= |s| && 0 <= j <= n && |done| == j
      invariant all == done + Take(Filtered(s[i..]), n - j)
      invariant forall k :: 0 <= k < j ==> out[at + k] == done[k]
      invariant forall k :: 0 <= k < out.Length && !(at <= k < at + j) ==> out[k] == old(out[k])
    {
      TakeStep(s[i..], n - j);
      assert s[i..][1..] == s[i + 1..];
      if Safe(Upper(s[i])) {
        out[at + j] := Upper(s[i]);
        done := done + [Upper(s[i])];
        j := j + 1;
      }
      i := i + 1;
    }
    TakeNone(s[i..], n - j);
    assert out[at..at + j] == done;
  }

  lemma TakeNone(s: Name, n: nat)
    requires s == [] || n == 0
    ensures Take(Filtered(s), n) == []
  {
  }

  /** Writes `s` in upper case at `at`. */
  method PutUpper(s: Name, out: array<Byte>, at: nat)
    requires at + |s| <= out.Length
    modifies out
    ensures out[at..at + |s|] == Uppers(s)
    ensures forall k :: 0 <= k < out.Length && !(at <= k < at + |s|) ==> out[k] == old(out[k])
  {
    var i := 0;
    while i < |s|
      invariant 0 <= i <= |s|
      invariant forall k :: 0 <= k < i ==> out[at + k] == Upper(s[k])
      invariant forall k :: 0 <= k < out.Length && !(at <= k < at + i) ==> out[k] == old(out[k])
    {
      out[at + i] := Upper(s[i]);
      i := i + 1;
    }
  }

  method FindLastDot(s: Name) returns (d: Option<nat>)
    ensures d == LastDot(s, |s|)
  {
    d := None;
    var i := 0;
    while i < |s|
      invariant 0 <= i <= |s| && d == LastDot(s, i)
    {
      if s[i] == DOT { d := Some(i); }
      i := i + 1;
    }
  }

  method FindFirstDot(s: Name) returns (d: nat)
    ensures d == FirstDot(s, 0)
  {
    d := 0;
    while d < |s| && s[d] != DOT
      invariant 0 <= d <= |s| && FirstDot(s, 0) == FirstDot(s, d)
    {
      d := d + 1;
    }
  }

  method Blank(out: array<Byte>)
    modifies out
    ensures forall k :: 0 <= k < out.Length ==> out[k] == SPACE
  {
    var k := 0;
    while k < out.Length
      invariant 0 <= k <= out.Length && forall i :: 0 <= i < k ==> out[i] == SPACE
    {
      out[k] := SPACE;
      k := k + 1;
    }
  }

  /** Fills `out` with the 11 bytes of a name. */
  method To83(s: Name, out: array<Byte>)
    requires out.Length == 11
    modifies out
    ensures out[..] == Encode(s)
  {
    hide Filtered, Hash, LastDot, FirstDot;
    Blank(out);
    var safe := NameIs83Safe(s);
    if safe {
      var d := FindFirstDot(s);
      PutUpper(s[..d], out, 0);
      assert out[..8] == Pad(Uppers(s[..d]), 8) by { PaddedAt(out[..], 0, Uppers(s[..d]), 8); }
      if d < |s| {
        ghost var base := out[..8];
        PutUpper(s[d + 1..], out, 8);
        assert out[..8] == base;
        PaddedAt(out[..], 8, Uppers(s[d + 1..]), 3);
      } else {
        PaddedAt(out[..], 8, [], 3);
      }
      assert out[..] == out[..8] + out[8..11];
    } else {
      AliasTo83(s, out);
    }
  }

  /** `s` stands at `at`, and spaces follow it. */
  lemma PaddedAt(b: seq<Byte>, at: nat, s: Name, n: nat)
    requires at + n <= |b| && |s| <= n && b[at..at + |s|] == s
    requires forall k :: at + |s| <= k < at + n ==> b[k] == SPACE
    ensures b[at..at + n] == Pad(s, n)
  {
    forall i | 0 <= i < n ensures b[at..at + n][i] == Pad(s, n)[i] {
      if i < |s| {
        assert b[at..at + |s|][i] == s[i];
      }
    }
  }

  /** The hash-based alias, into a blank buffer. */
  method AliasTo83(s: Name, out: array<Byte>)
    requires out.Length == 11 && !FitsDos(s) && forall k :: 0 <= k < 11 ==> out[k] == SPACE
    modifies out
    ensures out[..] == Encode(s)
  {
    hide Filtered, Hash, LastDot, FitsDos, Suffix, Take, Base, Safe, Upper;
    var base, ext := SplitName(s);
    var j := PutSafe(base, out, 0, 4);
    if j == 0 {
      out[0] := UNDERSCORE;
    }
    assert out[..|Head(s)|] == Head(s);
    PaddedAt(out[..], 0, Head(s), 4);
    ghost var head := out[..4];
    var h := LfnHash(s);
    var suffix := Suffix(h);
    PutFour(out, 4, suffix);
    assert out[..4] == head;
    ghost var front := out[..8];
    assert front == head + suffix;
    var n := PutSafe(ext, out, 8, 3);
    assert out[..8] == front;
    PaddedAt(out[..], 8, Tail(s), 3);
    assert out[..] == out[..8] + out[8..11];
    AliasParts(s);
    assert Encode(s) == Encode(s)[..8] + Encode(s)[8..];
  }

  method PutFour(out: array<Byte>, at: nat, f: Name)
    requires |f| == 4 && at + 4 <= out.Length
    modifies out
    ensures out[at..at + 4] == f
    ensures forall k :: 0 <= k < out.Length && !(at <= k < at + 4) ==> out[k] == old(out[k])
  {
    out[at], out[at + 1], out[at + 2], out[at + 3] := f[0], f[1], f[2], f[3];
  }

  /** The split of a name at its last dot. */
  method SplitName(s: Name) returns (base: Name, ext: Name)
    ensures base == Base(s) && ext == Extension(s)
  {
    var last := FindLastDot(s);
    match last {
      case None => base, ext := s, [];
      case Some(d) => base, ext := s[..d], s[d + 1..];
    }
  }

  // ---------------------------------------------------------------- paths

  function SkipSlashes(p: Name, i: nat): (r: nat)
    requires i <= |p|
    ensures i <= r <= |p| && (r < |p| ==> p[r] != SLASH)
    decreases |p| - i
  {
    if i < |p| && p[i] == SLASH then SkipSlashes(p, i + 1) else i
  }

  function SegmentEnd(p: Name, i: nat): (r: nat)
    requires i <= |p|
    ensures i <= r <= |p| && (i < |p| && p[i] != SLASH ==> r > i)
    decreases |p| - i
  {
    if i < |p| && p[i] != SLASH then SegmentEnd(p, i + 1) else i
  }

  /** The segments of a path from position `i` on. */
  function Split(p: Name, i: nat): seq<Name>
    requires i <= |p|
    decreases |p| - i
  {
    var start := SkipSlashes(p, i);
    if start == |p| then []
    else [p[start..SegmentEnd(p, start)]] + Split(p, SegmentEnd(p, start))
  }

  function Slashes(n: nat): Name {
    seq(n, _ => SLASH)
  }

  /** Segments as a path: `gaps[k]` slashes before segment k, and `last` at the end. */
  function PathOf(segs: seq<Name>, gaps: seq<nat>, last: nat): (r: Name)
    requires |gaps| == |segs|
  {
    if segs == [] then Slashes(last) else Slashes(gaps[0]) + segs[0] + PathOf(segs[1..], gaps[1..], last)
  }

  predicate AreSegments(segs: seq<Name>, gaps: seq<nat>) {
    && |gaps| == |segs|
    && (forall k :: 0 <= k < |segs| ==> segs[k] != [] && SLASH !in segs[k])
    && forall k :: 0 < k < |gaps| ==> gaps[k] > 0
  }

  lemma {:induction false} SkipsTo(p: Name, i: nat, e: nat)
    requires i <= e <= |p| && (forall k :: i <= k < e ==> p[k] == SLASH) && (e < |p| ==> p[e] != SLASH)
    ensures SkipSlashes(p, i) == e
    decreases e - i
  {
    if i < e { SkipsTo(p, i + 1, e); }
  }

  lemma {:induction false} EndsAt(p: Name, i: nat, e: nat)
    requires i <= e <= |p| && (forall k :: i <= k < e ==> p[k] != SLASH) && (e < |p| ==> p[e] == SLASH)
    ensures SegmentEnd(p, i) == e
    decreases e - i
  {
    if i < e { EndsAt(p, i + 1, e); }
  }

  /** However many slashes stand between segments and at the ends, splitting gives the
      segments back. */
  lemma {:induction false} SplitPath(front: Name, segs: seq<Name>, gaps: seq<nat>, last: nat)
    requires AreSegments(segs, gaps)
    ensures Split(front + PathOf(segs, gaps, last), |front|) == segs
    decreases |segs|
  {
    hide SegmentEnd, SkipSlashes;
    var p := front + PathOf(segs, gaps, last);
    if segs == [] {
      SkipsTo(p, |front|, |p|);
    } else {
      var start := |front| + gaps[0];
      var end := start + |segs[0]|;
      var rest := PathOf(segs[1..], gaps[1..], last);
      StartsWithSlash(segs[1..], gaps[1..], last);
      assert p == front + Slashes(gaps[0]) + segs[0] + rest;
      assert p[start..end] == segs[0];
      assert forall k :: start <= k < end ==> p[k] == segs[0][k - start];
      SkipsTo(p, |front|, start);
      EndsAt(p, start, end);
      SplitPath(front + Slashes(gaps[0]) + segs[0], segs[1..], gaps[1..], last);
      assert |front + Slashes(gaps[0]) + segs[0]| == end;
    }
  }

  lemma StartsWithSlash(segs: seq<Name>, gaps: seq<nat>, last: nat)
    requires |gaps| == |segs| && (gaps != [] ==> gaps[0] > 0)
    ensures var r := PathOf(segs, gaps, last); r != [] ==> r[0] == SLASH
  {
  }

  /** Every string is a path of its segments. */
  lemma {:induction false} EveryPath(p: Name, i: nat) returns (gaps: seq<nat>, last: nat)
    requires i <= |p|
    ensures AreSegments(Split(p, i), gaps) && p[i..] == PathOf(Split(p, i), gaps, last)
    ensures gaps != [] ==> i < |p| && (p[i] == SLASH ==> gaps[0] > 0)
    decreases |p| - i
  {
    hide SegmentEnd, SkipSlashes, Split, PathOf, AreSegments, Slashes;
    var start := SkipSlashes(p, i);
    if start == |p| {
      gaps, last := [], |p| - i;
      NoSegment(p, i);
    } else {
      var end := SegmentEnd(p, start);
      var more, tail := EveryPath(p, end);
      FirstSegment(p, i);
      gaps, last := [start - i] + more, tail;
      JoinFirst(p[start..end], Split(p, end), start - i, more, tail);
      assert p[i..] == p[i..start] + p[start..end] + p[end..];
    }
  }

  lemma NoSegment(p: Name, i: nat)
    requires i <= |p| && SkipSlashes(p, i) == |p|
    ensures Split(p, i) == [] && AreSegments([], []) && p[i..] == PathOf([], [], |p| - i)
  {
    SkipsAll(p, i);
    assert p[i..] == Slashes(|p| - i);
  }

  /** What the first step of a split takes. */
  lemma FirstSegment(p: Name, i: nat)
    requires i <= |p| && SkipSlashes(p, i) < |p|
    ensures var start := SkipSlashes(p, i);
            var end := SegmentEnd(p, start);
            && p[i..start] == Slashes(start - i) && p[start..end] != [] && SLASH !in p[start..end]
            && (i < |p| && p[i] == SLASH ==> start > i) && (end < |p| ==> p[end] == SLASH)
            && Split(p, i) == [p[start..end]] + Split(p, end)
  {
    SkipsAll(p, i);
    EndsAll(p, SkipSlashes(p, i));
  }

  lemma JoinFirst(seg: Name, segs: seq<Name>, gap: nat, gaps: seq<nat>, last: nat)
    requires AreSegments(segs, gaps) && seg != [] && SLASH !in seg && (gaps != [] ==> gaps[0] > 0)
    ensures AreSegments([seg] + segs, [gap] + gaps)
    ensures PathOf([seg] + segs, [gap] + gaps, last) == Slashes(gap) + seg + PathOf(segs, gaps, last)
  {
    assert ([seg] + segs)[1..] == segs && ([gap] + gaps)[1..] == gaps;
  }

  lemma {:induction false} SkipsAll(p: Name, i: nat)
    requires i <= |p|
    ensures forall k :: i <= k < SkipSlashes(p, i) ==> p[k] == SLASH
    ensures i < |p| && p[i] == SLASH ==> SkipSlashes(p, i) > i
    decreases |p| - i
  {
    if i < |p| && p[i] == SLASH { SkipsAll(p, i + 1); }
  }

  lemma {:induction false} EndsAll(p: Name, i: nat)
    requires i <= |p|
    ensures forall k :: i <= k < SegmentEnd(p, i) ==> p[k] != SLASH
    ensures SegmentEnd(p, i) < |p| ==> p[SegmentEnd(p, i)] == SLASH
    decreases |p| - i
  {
    if i < |p| && p[i] != SLASH { EndsAll(p, i + 1); }
  }

  /** The alias fallback over one directory. */
  method AliasLookup(es: Listing, alias: Name) returns (ino: Word)
    requires |alias| == 11
    ensures ino == ByAlias(es, alias)
  {
    hide Encode;
    var candidate := new Byte[11](_ => SPACE);
    var i := 0;
    while i < |es|
      invariant 0 <= i <= |es| && ByAlias(es, alias) == ByAlias(es[i..], alias)
    {
      assert es[i..][1..] == es[i + 1..];
      if !IsDots(es[i].name) {
        To83(es[i].name, candidate);
        if candidate[..] == alias { return es[i].ino; }
      }
      i := i + 1;
    }
    return 0;
  }

  method ExactLookup(es: Listing, n: Name) returns (ino: Word)
    ensures ino == Exact(es, n)
  {
    var i := 0;
    while i < |es|
      invariant 0 <= i <= |es| && Exact(es, n) == Exact(es[i..], n)
    {
      if es[i].name == n { return es[i].ino; }
      i := i + 1;
    }
    return 0;
  }

  lemma WalkStep(tree: Tree, cur: Word, path: seq<Name>, es: Listing)
    requires path != [] && tree(cur) == Some(es)
    ensures WalkPath(tree, cur, path) ==
            if |path[0]| >= 256 || Resolve(es, path[0]) == 0 then 0 else WalkPath(tree, Resolve(es, path[0]), path[1..])
  {
  }

  /** Walks a path segment by segment: exact names first, aliases when those fail. */
  method PathLookupWithAlias(tree: Tree, p: Name) returns (ino: Word)
    ensures ino == WalkPath(tree, ROOT, Split(p, 0))
  {
    hide Resolve, WalkPath, Encode, SegmentEnd;
    var i, cur := SkipSlashes(p, 0), ROOT;
    SplitAfterSlashes(p, 0);
    while i < |p|
      invariant 0 <= i <= |p| && SkipSlashes(p, i) == i
      invariant WalkPath(tree, ROOT, Split(p, 0)) == WalkPath(tree, cur, Split(p, i))
      decreases |p| - i
    {
      var end := SegmentEnd(p, i);
      var segment := p[i..end];
      ghost var path := Split(p, i);
      assert path[0] == segment && path[1..] == Split(p, end);
      if tree(cur).None? {
        StuckWalk(tree, cur, path);
        return 0;
      }
      var es := tree(cur).value;
      WalkStep(tree, cur, path, es);
      if |segment| >= 256 { return 0; }
      var next := ExactLookup(es, segment);
      if next == 0 {
        var target := new Byte[11](_ => SPACE);
        To83(segment, target);
        next := AliasLookup(es, target[..]);
      }
      assert next == Resolve(es, segment) by { ResolveIs(es, segment); }
      if next == 0 { return 0; }
      cur := next;
      SplitAfterSlashes(p, end);
      i := SkipSlashes(p, end);
    }
    assert Split(p, i) == [];
    EmptyWalk(tree, cur);
    return cur;
  }

  lemma ResolveIs(es: Listing, segment: Name)
    ensures Resolve(es, segment) ==
            if Exact(es, segment) != 0 then Exact(es, segment) else ByAlias(es, Encode(segment))
  {
  }

  lemma EmptyWalk(tree: Tree, cur: Word)
    ensures WalkPath(tree, cur, []) == cur
  {
  }

  lemma StuckWalk(tree: Tree, cur: Word, path: seq<Name>)
    requires path != [] && tree(cur).None?
    ensures WalkPath(tree, cur, path) == 0
  {
  }

  lemma {:induction false} SkipTwice(p: Name, i: nat)
    requires i <= |p|
    ensures SkipSlashes(p, SkipSlashes(p, i)) == SkipSlashes(p, i)
    decreases |p| - i
  {
    if i < |p| && p[i] == SLASH {
      SkipTwice(p, i + 1);
    }
  }

  lemma SplitAfterSlashes(p: Name, i: nat)
    requires i <= |p|
    ensures Split(p, SkipSlashes(p, i)) == Split(p, i)
    ensures SkipSlashes(p, SkipSlashes(p, i)) == SkipSlashes(p, i)
  {
    SkipTwice(p, i);
  }
}
