/** 8.3 names: the encoding of a directory entry, the alias of a long name, and the lookup
    that finds a long name by its alias. */
module Aliases {
  import opened Words

  type Name = seq<Byte>

  const DOT: Byte := 0x2E
  const SPACE: Byte := 0x20
  const TILDE: Byte := 0x7E
  const UNDERSCORE: Byte := 0x5F

  function Upper(c: Byte): Byte { if 0x61 <= c <= 0x7A then c - 0x20 else c }

  function Lower(c: Byte): Byte { if 0x41 <= c <= 0x5A then c + 0x20 else c }

  predicate UpperOrDigit(c: Byte) { 0x41 <= c <= 0x5A || 0x30 <= c <= 0x39 }

  /** The characters an alias may hold. */
  predicate Safe(c: Byte) {
    UpperOrDigit(c) || c == UNDERSCORE || c == 0x2D || c == TILDE
  }

  const LETTERS := "ABCDEFGHIJKLMNOPQRSTUVWXYZ"
  const SMALL_LETTERS := "abcdefghijklmnopqrstuvwxyz"
  const OTHERS := "0123456789_-~"

  lemma InRunOf(s: string, from: Byte, c: Byte)
    requires forall k :: 0 <= k < |s| ==> s[k] as int == from + k
    ensures c as char in s <==> from <= c < from + |s|
    ensures from <= c < from + |s| ==> s[c - from] == c as char
  {
  }

  lemma LetterAt(k: nat)
    requires k < 26
    ensures LETTERS[k] as int == 0x41 + k && SMALL_LETTERS[k] as int == 0x61 + k
  {
  }

  lemma LetterCodes(c: Byte)
    ensures c as char in LETTERS <==> 0x41 <= c <= 0x5A
    ensures 0x41 <= c <= 0x5A ==> LETTERS[c - 0x41] == c as char
  {
    forall k | 0 <= k < 26 ensures LETTERS[k] as int == 0x41 + k { LetterAt(k); }
    InRunOf(LETTERS, 0x41, c);
  }

  lemma SmallLetterCodes(c: Byte)
    ensures c as char in SMALL_LETTERS <==> 0x61 <= c <= 0x7A
    ensures 0x61 <= c <= 0x7A ==> SMALL_LETTERS[c - 0x61] == c as char
  {
    forall k | 0 <= k < 26 ensures SMALL_LETTERS[k] as int == 0x61 + k { LetterAt(k); }
    InRunOf(SMALL_LETTERS, 0x61, c);
  }

  lemma OtherCodes(c: Byte)
    ensures c as char in OTHERS <==> 0x30 <= c <= 0x39 || c == 0x5F || c == 0x2D || c == 0x7E
  {
  }

  /** In ASCII these are the capitals, the digits and three signs. */
  lemma SafeCharacters(c: Byte)
    ensures Safe(c) <==> c as char in LETTERS || c as char in OTHERS
  {
    LetterCodes(c);
    OtherCodes(c);
  }

  /** Upper case takes each small letter to the capital in its place, and leaves all others. */
  lemma UppersOf(c: Byte)
    ensures if c as char in SMALL_LETTERS
            then 0x61 <= c <= 0x7A && SMALL_LETTERS[c - 0x61] == c as char && Upper(c) as char == LETTERS[c - 0x61]
            else Upper(c) == c
  {
    hide LETTERS, SMALL_LETTERS;
    SmallLetterCodes(c);
    LetterCodes(Upper(c));
  }

  /** Lower case does the reverse. */
  lemma LowersOf(c: Byte)
    ensures if c as char in LETTERS
            then 0x41 <= c <= 0x5A && LETTERS[c - 0x41] == c as char && Lower(c) as char == SMALL_LETTERS[c - 0x41]
            else Lower(c) == c
  {
    hide LETTERS, SMALL_LETTERS;
    LetterCodes(c);
    SmallLetterCodes(Lower(c));
  }

  function Uppers(s: Name): (r: Name)
    ensures |r| == |s| && forall i :: 0 <= i < |s| ==> r[i] == Upper(s[i])
  {
    seq(|s|, i requires 0 <= i < |s| => Upper(s[i]))
  }

  function Lowers(s: Name): (r: Name)
    ensures |r| == |s| && forall i :: 0 <= i < |s| ==> r[i] == Lower(s[i])
  {
    seq(|s|, i requires 0 <= i < |s| => Lower(s[i]))
  }

  function Take(s: Name, n: nat): (r: Name)
    ensures |r| <= n && |r| <= |s|
  {
    if |s| <= n then s else s[..n]
  }

  function Pad(s: Name, n: nat): (r: Name)
    requires |s| <= n
    ensures |r| == n && forall i :: 0 <= i < n ==> r[i] == if i < |s| then s[i] else SPACE
  {
    s + seq(n - |s|, _ => SPACE)
  }

  /** The safe characters of a string, in upper case. */
  function Filtered(s: Name): (r: Name)
    ensures |r| <= |s| && forall c <- r :: Safe(c)
  {
    if s == [] then []
    else (if Safe(Upper(s[0])) then [Upper(s[0])] else []) + Filtered(s[1..])
  }

  // ---------------------------------------------------------------- dots

  /** Index of the first dot at or after `i`, or the length. */
  function FirstDot(s: Name, i: nat): (r: nat)
    requires i <= |s|
    ensures i <= r <= |s|
    decreases |s| - i
  {
    if i == |s| || s[i] == DOT then i else FirstDot(s, i + 1)
  }

  /** Index of the last dot before `i`, or None. */
  function LastDot(s: Name, i: nat): (r: Option<nat>)
    requires i <= |s|
    ensures r.Some? ==> r.value < i && s[r.value] == DOT
    decreases i
  {
    if i == 0 then None else if s[i - 1] == DOT then Some(i - 1) else LastDot(s, i - 1)
  }

  /** A name that fits 8.3 as it is: at most one dot, safe characters in either case, at
      most 8 and 3 of them. */
  predicate FitsDos(s: Name) {
    var d := FirstDot(s, 0);
    && (forall i :: 0 <= i < |s| && i != d ==> Safe(Upper(s[i])))
    && d <= 8
    && (d < |s| ==> |s| - d - 1 <= 3)
  }

  // ---------------------------------------------------------------- encoding

  /** The 16-bit case-insensitive hash. */
  function Hash(s: Name, n: nat): (h: nat)
    requires n <= |s|
    ensures h < 0x1_0000
  {
    if n == 0 then 0 else (Hash(s, n - 1) * 17 + Upper(s[n - 1])) % 0x1_0000
  }

  /** The case of letters does not matter to the hash. */
  lemma {:induction false} HashIgnoresCase(s: Name, n: nat)
    requires n <= |s|
    ensures Hash(Uppers(s), n) == Hash(s, n)
  {
    if n > 0 {
      HashIgnoresCase(s, n - 1);
      assert Upper(Uppers(s)[n - 1]) == Upper(s[n - 1]);
    }
  }

  /** The suffix shows the low 12 bits. */
  function Low(h: nat): nat { h % 0x1000 }

  /** Multiplication by 17 loses nothing in 12 bits: 17 * 241 is 1 more than 4096. */
  lemma SeventeenIsInvertible(a: nat, b: nat, c: nat)
    requires Low(a * 17 + c) == Low(b * 17 + c)
    ensures Low(a) == Low(b)
  {
    var k := (a * 17 + c) / 0x1000 - (b * 17 + c) / 0x1000;
    assert (a - b) * 17 == k * 0x1000;
    assert a - b == (k * 241 - (a - b)) * 0x1000;
    SameRemainder(a, b, k * 241 - (a - b));
  }

  lemma SameRemainder(a: nat, b: nat, k: int)
    requires a == b + k * 0x1000
    ensures Low(a) == Low(b)
  {
  }

  lemma LowStep(h: nat, c: nat)
    ensures Low((h * 17 + c) % 0x1_0000) == Low(h * 17 + c)
  {
  }

  lemma DifferentLetters(h: nat, c: Byte, x: Byte)
    requires c != x
    ensures Low(h * 17 + c) != Low(h * 17 + x)
  {
  }

  /** Names that differ in exactly one letter, case aside, never share a suffix. */
  lemma {:induction false} OneLetterChangesHash(s: Name, i: nat, x: Byte, n: nat)
    requires i < n <= |s| && Upper(x) != Upper(s[i])
    ensures Low(Hash(s[i := x], n)) != Low(Hash(s, n))
    decreases n
  {
    hide Low, Upper;
    var h, g := Hash(s[i := x], n - 1), Hash(s, n - 1);
    LowStep(h, Upper(s[i := x][n - 1]));
    LowStep(g, Upper(s[n - 1]));
    if i == n - 1 {
      SamePrefixHash(s, s[i := x], n - 1);
      DifferentLetters(g, Upper(s[i]), Upper(x));
    } else {
      OneLetterChangesHash(s, i, x, n - 1);
      if Low(h * 17 + Upper(s[n - 1])) == Low(g * 17 + Upper(s[n - 1])) {
        SeventeenIsInvertible(h, g, Upper(s[n - 1]));
      }
    }
  }

  lemma {:induction false} SamePrefixHash(s: Name, t: Name, n: nat)
    requires n <= |s| && n <= |t| && s[..n] == t[..n]
    ensures Hash(s, n) == Hash(t, n)
  {
    if n > 0 {
      assert s[..n][n - 1] == s[n - 1] && t[..n][n - 1] == t[n - 1];
      assert s[..n - 1] == s[..n][..n - 1] && t[..n - 1] == t[..n][..n - 1];
      SamePrefixHash(s, t, n - 1);
    }
  }

  function Hex(d: nat): (c: Byte)
    requires d < 16
    ensures UpperOrDigit(c)
  {
    if d < 10 then 0x30 + d else 0x41 + (d - 10)
  }

  /** `~` and three hexadecimal digits. */
  function Suffix(h: nat): (r: Name)
    requires h < 0x1_0000
    ensures |r| == 4 && forall c <- r :: Safe(c)
  {
    [TILDE, Hex(h / 0x100 % 16), Hex(h / 16 % 16), Hex(h % 16)]
  }

  lemma HexInjective(d: nat, e: nat)
    requires d < 16 && e < 16 && Hex(d) == Hex(e)
    ensures d == e
  {
  }

  lemma LowDigits(h: nat)
    ensures Low(h) == h / 0x100 % 16 * 0x100 + h / 16 % 16 * 16 + h % 16
  {
    var a, b, c := h % 16, h / 16 % 16, h / 0x100 % 16;
    var top := h / 0x1000;
    assert h / 16 == h / 0x100 * 16 + b by { assert h / 16 / 16 == h / 0x100; }
    assert h / 0x100 == top * 16 + c by { assert h / 0x100 / 16 == top; }
    LowRemainder(top, c * 0x100 + b * 16 + a);
  }

  lemma LowRemainder(top: nat, r: nat)
    requires r < 0x1000
    ensures Low(top * 0x1000 + r) == r
  {
  }

  /** The suffix determines the low 12 bits. */
  lemma SuffixInjective(h: nat, g: nat)
    requires h < 0x1_0000 && g < 0x1_0000 && Suffix(h) == Suffix(g)
    ensures Low(h) == Low(g)
  {
    hide Hex, Low;
    LowDigits(h);
    LowDigits(g);
    var a, b := Suffix(h), Suffix(g);
    assert a[1] == b[1] && a[2] == b[2] && a[3] == b[3];
    HexInjective(h / 0x100 % 16, g / 0x100 % 16);
    HexInjective(h / 16 % 16, g / 16 % 16);
    HexInjective(h % 16, g % 16);
  }

  lemma OneLetterChangesSuffix(s: Name, i: nat, x: Byte)
    requires i < |s| && Upper(x) != Upper(s[i])
    ensures Suffix(Hash(s[i := x], |s|)) != Suffix(Hash(s, |s|))
  {
    hide Hash, Low, Suffix;
    OneLetterChangesHash(s, i, x, |s|);
    if Suffix(Hash(s[i := x], |s|)) == Suffix(Hash(s, |s|)) {
      SuffixInjective(Hash(s[i := x], |s|), Hash(s, |s|));
    }
  }

  function Base(s: Name): Name {
    var d := LastDot(s, |s|);
    if d.Some? then s[..d.value] else s
  }

  function Extension(s: Name): Name {
    var d := LastDot(s, |s|);
    if d.Some? then s[d.value + 1..] else []
  }

  /** The first four safe characters of the base, or an underscore if there is none. */
  function Head(s: Name): (r: Name)
    ensures 1 <= |r| <= 4 && forall c <- r :: Safe(c)
  {
    var f := Take(Filtered(Base(s)), 4);
    if f == [] then [UNDERSCORE] else f
  }

  function Tail(s: Name): (r: Name)
    ensures |r| <= 3 && forall c <- r :: Safe(c)
  {
    Take(Filtered(Extension(s)), 3)
  }

  /** The 11 bytes of a name. */
  function Encode(s: Name): (r: Name)
    ensures |r| == 11
  {
    if FitsDos(s) then
      var d := FirstDot(s, 0);
      Pad(Uppers(s[..d]), 8) + Pad(if d < |s| then Uppers(s[d + 1..]) else [], 3)
    else Pad(Head(s), 4) + Suffix(Hash(s, |s|)) + Pad(Tail(s), 3)
  }

  /** `s` without trailing spaces. */
  function Trimmed(s: Name): (r: Name)
    ensures |r| <= |s|
  {
    if s == [] || s[|s| - 1] != SPACE then s else Trimmed(s[..|s| - 1])
  }

  /** The alias as a user types it back, in the lower case that path conversion gives. */
  function Typed(alias: Name): Name
    requires |alias| == 11
  {
    var base, ext := Trimmed(alias[..8]), Trimmed(alias[8..]);
    Lowers(base + (if ext == [] then [] else [DOT] + ext))
  }

  // ---------------------------------------------------------------- the fixed point

  lemma {:induction false} TrimPadded(s: Name, n: nat)
    requires |s| <= n && (s == [] || s[|s| - 1] != SPACE)
    ensures Trimmed(Pad(s, n)) == s
    decreases n
  {
    if |s| < n {
      assert Pad(s, n)[..n - 1] == Pad(s, n - 1);
      TrimPadded(s, n - 1);
    } else {
      assert Pad(s, n) == s;
    }
  }

  lemma {:induction false} NoDot(s: Name, i: nat)
    requires i <= |s| && forall k :: i <= k < |s| ==> s[k] != DOT
    ensures FirstDot(s, i) == |s|
    decreases |s| - i
  {
    if i < |s| {
      NoDot(s, i + 1);
    }
  }

  lemma {:induction false} DotAt(s: Name, i: nat, d: nat)
    requires i <= d < |s| && s[d] == DOT && forall k :: i <= k < d ==> s[k] != DOT
    ensures FirstDot(s, i) == d
    decreases d - i
  {
    if i < d {
      DotAt(s, i + 1, d);
    }
  }

  lemma SafeFacts(c: Byte)
    requires Safe(c)
    ensures Upper(Lower(c)) == c && Lower(c) != DOT && c != DOT && c != SPACE
  {
  }

  predicate AllSafe(s: Name) {
    forall c <- s :: Safe(c)
  }

  /** Upper-case safe parts, joined by a dot and put in lower case, encode to themselves. */
  lemma TypedEncodes(base: Name, ext: Name)
    requires AllSafe(base) && AllSafe(ext) && |base| <= 8 && |ext| <= 3
    ensures var f := Lowers(base + (if ext == [] then [] else [DOT] + ext));
            FitsDos(f) && Encode(f) == Pad(base, 8) + Pad(ext, 3)
  {
    var f := Lowers(base + (if ext == [] then [] else [DOT] + ext));
    forall i | 0 <= i < |f| && i != |base| ensures Safe(Upper(f[i])) && f[i] != DOT {
      SafeFacts(if i < |base| then base[i] else ext[i - |base| - 1]);
    }
    if ext == [] {
      NoDot(f, 0);
      assert Uppers(f[..|f|]) == base by { UpperLower(base); assert f[..|f|] == Lowers(base); }
    } else {
      assert f[|base|] == DOT;
      DotAt(f, 0, |base|);
      assert Uppers(f[..|base|]) == base by { UpperLower(base); assert f[..|base|] == Lowers(base); }
      assert Uppers(f[|base| + 1..]) == ext by { UpperLower(ext); assert f[|base| + 1..] == Lowers(ext); }
    }
  }

  lemma UpperLower(s: Name)
    requires AllSafe(s)
    ensures Uppers(Lowers(s)) == s
  {
    forall i | 0 <= i < |s| ensures Upper(Lower(s[i])) == s[i] {
      assert s[i] in s;
      SafeFacts(s[i]);
    }
  }

  /** The base of an alias, as its eight bytes. */
  lemma AliasParts(s: Name)
    requires !FitsDos(s)
    ensures Encode(s)[..8] == Pad(Head(s), 4) + Suffix(Hash(s, |s|)) && Encode(s)[8..] == Pad(Tail(s), 3)
    ensures Trimmed(Encode(s)[..8]) == Encode(s)[..8] && Trimmed(Encode(s)[8..]) == Tail(s)
  {
    hide Head, Tail, FitsDos, Hash, Pad, Trimmed;
    var base := Pad(Head(s), 4) + Suffix(Hash(s, |s|));
    assert Encode(s)[..8] == base && Encode(s)[8..] == Pad(Tail(s), 3);
    assert base[7] == Suffix(Hash(s, |s|))[3];
    NoSpaceToTrim(base);
    TailHasNoSpace(s);
    TrimPadded(Tail(s), 3);
  }

  lemma NoSpaceToTrim(s: Name)
    requires s != [] && s[|s| - 1] != SPACE
    ensures Trimmed(s) == s
  {
  }

  lemma TailHasNoSpace(s: Name)
    ensures Tail(s) != [] ==> Tail(s)[|Tail(s)| - 1] != SPACE
  {
    hide Tail;
    if Tail(s) != [] { assert Tail(s)[|Tail(s)| - 1] in Tail(s); }
  }

  /** An alias with four safe base characters encodes to itself when typed back. */
  lemma AliasIsFixedPoint(s: Name)
    requires !FitsDos(s) && |Filtered(Base(s))| >= 4
    ensures FitsDos(Typed(Encode(s))) && Encode(Typed(Encode(s))) == Encode(s)
  {
    hide Hash, Filtered, Base, FirstDot, LastDot, Trimmed, Lowers, FitsDos;
    AliasParts(s);
    var base := Encode(s)[..8];
    assert base == Head(s) + Suffix(Hash(s, |s|));
    TypedEncodes(base, Tail(s));
    assert Pad(base, 8) == base;
    assert Encode(s) == base + Pad(Tail(s), 3);
  }

  lemma {:induction false} FilteredConcat(a: Name, b: Name)
    ensures Filtered(a + b) == Filtered(a) + Filtered(b)
    decreases |a|
  {
    if a == [] {
      assert a + b == b;
    } else {
      assert (a + b)[1..] == a[1..] + b;
      FilteredConcat(a[1..], b);
    }
  }

  lemma {:induction false} FilteredLowers(s: Name)
    requires AllSafe(s)
    ensures Filtered(Lowers(s)) == s
    decreases |s|
  {
    if s != [] {
      SafeFacts(s[0]);
      assert Lowers(s)[1..] == Lowers(s[1..]);
      FilteredLowers(s[1..]);
    }
  }

  lemma {:induction false} NoLastDot(s: Name, i: nat)
    requires i <= |s| && forall k :: 0 <= k < i ==> s[k] != DOT
    ensures LastDot(s, i) == None
    decreases i
  {
    if i > 0 {
      NoLastDot(s, i - 1);
    }
  }

  lemma {:induction false} LastDotAt(s: Name, i: nat, d: nat)
    requires d < i <= |s| && s[d] == DOT && forall k :: d < k < i ==> s[k] != DOT
    ensures LastDot(s, i) == Some(d)
    decreases i
  {
    if i - 1 > d {
      LastDotAt(s, i - 1, d);
    }
  }

  /** The base of a typed name whose parts hold no dot. */
  lemma BaseOfTyped(base: Name, ext: Name)
    requires (forall c <- base :: c != DOT) && AllSafe(ext)
    ensures Base(Lowers(base + (if ext == [] then [] else [DOT] + ext))) == Lowers(base)
  {
    var f := Lowers(base + (if ext == [] then [] else [DOT] + ext));
    forall i | 0 <= i < |f| && i != |base| ensures f[i] != DOT {
      if i < |base| {
        assert base[i] in base;
      } else {
        SafeFacts(ext[i - |base| - 1]);
      }
    }
    if ext == [] {
      NoLastDot(f, |f|);
      assert f == Lowers(base);
    } else {
      assert f[|base|] == DOT;
      LastDotAt(f, |f|, |base|);
      assert f[..|base|] == Lowers(base);
    }
  }

  /** The eight base bytes of an alias with a short head. */
  function ShortBase(head: Name, suffix: Name): (r: Name)
    requires |head| < 4
  {
    head + seq(4 - |head|, _ => SPACE) + suffix
  }

  lemma ShortBaseFiltered(head: Name, suffix: Name)
    requires |head| < 4 && AllSafe(head) && AllSafe(suffix)
    ensures Filtered(Lowers(ShortBase(head, suffix))) == head + suffix
  {
    hide Filtered;
    var gap := seq(4 - |head|, _ => SPACE);
    assert Lowers(ShortBase(head, suffix)) == Lowers(head) + Lowers(gap) + Lowers(suffix);
    FilteredConcat(Lowers(head) + Lowers(gap), Lowers(suffix));
    FilteredConcat(Lowers(head), Lowers(gap));
    FilteredLowers(head);
    FilteredLowers(suffix);
    FilteredGap(4 - |head|);
    assert Lowers(gap) == gap;
  }

  /** A space before the end keeps a name from fitting 8.3. */
  lemma SpaceDoesNotFit(s: Name, i: nat)
    requires i < |s| && s[i] == SPACE
    ensures !FitsDos(s)
  {
    FirstDotIsDot(s, 0);
    assert !Safe(Upper(s[i]));
  }

  lemma ShortTyped(s: Name)
    requires !FitsDos(s) && |Head(s)| < 4
    ensures var base, ext := ShortBase(Head(s), Suffix(Hash(s, |s|))), Tail(s);
            Typed(Encode(s)) == Lowers(base + (if ext == [] then [] else [DOT] + ext))
    ensures Encode(s)[|Head(s)|] == SPACE
  {
    hide FitsDos, Hash, Suffix, Head, Tail, Trimmed;
    AliasParts(s);
    assert Encode(s)[..8] == ShortBase(Head(s), Suffix(Hash(s, |s|)));
    assert Encode(s)[|Head(s)|] == Encode(s)[..8][|Head(s)|];
  }

  /** With fewer safe characters the alias holds a space; typed back it does not fit 8.3,
      and its own alias has the tilde where the space was. */
  lemma ShortHeadMoves(s: Name)
    requires !FitsDos(s) && |Filtered(Base(s))| < 4
    ensures Encode(Typed(Encode(s))) != Encode(s)
  {
    var head, suffix, ext := Head(s), Suffix(Hash(s, |s|)), Tail(s);
    assert suffix[0] == TILDE;
    ShortTyped(s);
    hide Hash, Suffix, Tail, Filtered, Base, Encode, Typed;
    MovesTilde(head, suffix, ext, Typed(Encode(s)));
  }

  /** The typed form `f` of an alias with a short head has its tilde where the space was. */
  lemma MovesTilde(head: Name, suffix: Name, ext: Name, f: Name)
    requires 1 <= |head| < 4 && AllSafe(head) && |suffix| == 4 && AllSafe(suffix) && suffix[0] == TILDE && AllSafe(ext)
    requires f == Lowers(ShortBase(head, suffix) + (if ext == [] then [] else [DOT] + ext))
    ensures Encode(f)[|head|] == TILDE
  {
    hide Hash, Suffix, Tail, Filtered, FitsDos, Trimmed, Base;
    var base := ShortBase(head, suffix);
    assert f[|head|] == SPACE;
    SpaceDoesNotFit(f, |head|);
    ShortBaseFiltered(head, suffix);
    forall c | c in base ensures c != DOT {
      ShortBaseHasNoDot(head, suffix, c);
    }
    BaseOfTyped(base, ext);
    assert Head(f) == Take(head + suffix, 4);
  }

  lemma ShortBaseHasNoDot(head: Name, suffix: Name, c: Byte)
    requires |head| < 4 && AllSafe(head) && AllSafe(suffix) && c in ShortBase(head, suffix)
    ensures c != DOT
  {
    if c != SPACE {
      assert c in head || c in suffix;
      SafeFacts(c);
    }
  }

  lemma {:induction false} FirstDotIsDot(s: Name, i: nat)
    requires i <= |s|
    ensures FirstDot(s, i) < |s| ==> s[FirstDot(s, i)] == DOT
    decreases |s| - i
  {
    if i < |s| && s[i] != DOT {
      FirstDotIsDot(s, i + 1);
    }
  }

  lemma {:induction false} FilteredGap(n: nat)
    ensures Filtered(seq(n, _ => SPACE)) == []
  {
    if n > 0 {
      assert seq(n, _ => SPACE)[1..] == seq(n - 1, _ => SPACE);
      FilteredGap(n - 1);
    }
  }

  /** The alias of a long name is a fixed point exactly when the base has four safe
      characters. */
  lemma FixedPointIff(s: Name)
    requires !FitsDos(s)
    ensures Encode(Typed(Encode(s))) == Encode(s) <==> |Filtered(Base(s))| >= 4
  {
    if |Filtered(Base(s))| >= 4 {
      AliasIsFixedPoint(s);
    } else {
      ShortHeadMoves(s);
    }
  }

  // ---------------------------------------------------------------- lookup by alias

  datatype Entry = Entry(name: Name, ino: Word)

  /** A directory as the linear iterator lists it. */
  type Listing = seq<Entry>

  predicate IsDots(n: Name) {
    n == [DOT] || n == [DOT, DOT]
  }

  function Exact(es: Listing, n: Name): Word {
    if es == [] then 0 else if es[0].name == n then es[0].ino else Exact(es[1..], n)
  }

  function ByAlias(es: Listing, alias: Name): Word {
    if es == [] then 0
    else if !IsDots(es[0].name) && Encode(es[0].name) == alias then es[0].ino
    else ByAlias(es[1..], alias)
  }

  /** One path segment: the exact name first, then the alias. */
  function Resolve(es: Listing, segment: Name): Word {
    if Exact(es, segment) != 0 then Exact(es, segment) else ByAlias(es, Encode(segment))
  }

  /** `segment` is the typed alias of entry `k`, and nothing else answers to it. */
  ghost predicate OwnAlias(es: Listing, k: nat, segment: Name)
    requires k < |es|
  {
    && es[k].ino != 0 && !IsDots(es[k].name) && !FitsDos(es[k].name) && |Filtered(Base(es[k].name))| >= 4
    && segment == Typed(Encode(es[k].name))
    && (forall j :: 0 <= j < |es| && j != k && !IsDots(es[j].name) ==> Encode(es[j].name) != Encode(es[k].name))
    && (forall j :: 0 <= j < |es| ==> es[j].name != segment)
  }

  lemma {:induction false} ExactMisses(es: Listing, n: Name)
    requires forall j :: 0 <= j < |es| ==> es[j].name != n
    ensures Exact(es, n) == 0
  {
    if es != [] {
      ExactMisses(es[1..], n);
    }
  }

  lemma {:induction false} ByAliasFinds(es: Listing, k: nat, alias: Name)
    requires k < |es| && !IsDots(es[k].name) && Encode(es[k].name) == alias
    requires forall j :: 0 <= j < k && !IsDots(es[j].name) ==> Encode(es[j].name) != alias
    ensures ByAlias(es, alias) == es[k].ino
    decreases k
  {
    hide Encode;
    if k > 0 {
      assert forall j :: 0 <= j < k - 1 ==> es[1..][j] == es[j + 1];
      ByAliasFinds(es[1..], k - 1, alias);
    }
  }

  /** A unique alias resolves to its entry. */
  lemma AliasResolves(es: Listing, k: nat, segment: Name)
    requires k < |es| && OwnAlias(es, k, segment)
    ensures Resolve(es, segment) == es[k].ino
  {
    hide Encode, Typed, FitsDos, Base;
    AliasIsFixedPoint(es[k].name);
    ExactMisses(es, segment);
    ByAliasFinds(es, k, Encode(es[k].name));
  }

  // ---------------------------------------------------------------- paths

  const ROOT: Word := 2
  const SLASH: Byte := 0x2F

  /** The entries of a directory, or None for what is no readable directory. */
  type Tree = Word -> Option<Listing>

  function WalkPath(tree: Tree, cur: Word, path: seq<Name>): Word
    decreases |path|
  {
    if path == [] then cur
    else match tree(cur)
      case None => 0
      case Some(es) =>
        var next := if |path[0]| >= 256 then 0 else Resolve(es, path[0]);
        if next == 0 then 0 else WalkPath(tree, next, path[1..])
  }

  /** Along the way, each segment of `typed` is that of `path` or its own alias. */
  ghost predicate SameWay(tree: Tree, cur: Word, path: seq<Name>, typed: seq<Name>)
    decreases |path|
  {
    && |path| == |typed|
    && (path != [] ==>
          && tree(cur).Some? && |path[0]| < 256
          && Exact(tree(cur).value, path[0]) != 0
          && (typed[0] == path[0] || exists k: nat :: FirstNamed(tree(cur).value, k, path[0]) && OwnAlias(tree(cur).value, k, typed[0]))
          && SameWay(tree, Exact(tree(cur).value, path[0]), path[1..], typed[1..]))
  }

  /** Entry `k` is the first of that name. */
  ghost predicate FirstNamed(es: Listing, k: nat, n: Name) {
    k < |es| && es[k].name == n && forall j :: 0 <= j < k ==> es[j].name != n
  }

  lemma {:induction false} ExactFinds(es: Listing, k: nat, n: Name)
    requires FirstNamed(es, k, n)
    ensures Exact(es, n) == es[k].ino
    decreases k
  {
    if k > 0 {
      assert forall j :: 0 <= j < k - 1 ==> es[1..][j] == es[j + 1];
      ExactFinds(es[1..], k - 1, n);
    }
  }

  lemma TypedIsShort(alias: Name)
    requires |alias| == 11
    ensures |Typed(alias)| <= 12
  {
  }

  /** A path typed with aliases leads where the path of real names leads. */
  lemma {:induction false} AliasPathResolves(tree: Tree, cur: Word, path: seq<Name>, typed: seq<Name>)
    requires SameWay(tree, cur, path, typed)
    ensures WalkPath(tree, cur, typed) == WalkPath(tree, cur, path)
    decreases |path|
  {
    hide Encode, Typed, FitsDos, Base;
    if path != [] {
      var es := tree(cur).value;
      if typed[0] != path[0] {
        var k: nat :| FirstNamed(es, k, path[0]) && OwnAlias(es, k, typed[0]);
        AliasResolves(es, k, typed[0]);
        ExactFinds(es, k, path[0]);
        TypedIsShort(Encode(es[k].name));
      }
      AliasPathResolves(tree, Exact(es, path[0]), path[1..], typed[1..]);
    }
  }

  // ---------------------------------------------------------------- known names

  lemma HashStep(s: Name, k: nat, h: nat, c: Byte)
    requires k < |s| && Hash(s, k) == h && Upper(s[k]) == c
    ensures Hash(s, k + 1) == (h * 17 + c) % 0x1_0000
  {
  }

  function LongName(): Name {
    [0x4C, 0x6F, 0x6E, 0x67, 0x20, 0x4E, 0x61, 0x6D, 0x65, 0x2E, 0x68, 0x74, 0x6D, 0x6C]
  }

  lemma LongNameHash()
    ensures Hash(LongName(), 14) == 0x5404
  {
    hide Hash;
    var s := LongName();
    HashNone(s);
    HashStep(s, 0, 0x0000, 0x4C);
    HashStep(s, 1, 0x004C, 0x4F);
    HashStep(s, 2, 0x055B, 0x4E);
    HashStep(s, 3, 0x5B59, 0x47);
    HashStep(s, 4, 0x1130, 0x20);
    HashStep(s, 5, 0x2450, 0x4E);
    HashStep(s, 6, 0x699E, 0x41);
    HashStep(s, 7, 0x03BF, 0x4D);
    HashStep(s, 8, 0x3FFC, 0x45);
    HashStep(s, 9, 0x4001, 0x2E);
    HashStep(s, 10, 0x403F, 0x48);
    HashStep(s, 11, 0x4477, 0x54);
    HashStep(s, 12, 0x8C3B, 0x4D);
    HashStep(s, 13, 0x5038, 0x4C);
  }

  lemma HashNone(s: Name)
    ensures Hash(s, 0) == 0
  {
  }

  lemma {:induction false} FirstDotIs(s: Name, i: nat, k: nat)
    requires i <= k < |s| && s[k] == DOT && forall m :: i <= m < k ==> s[m] != DOT
    ensures FirstDot(s, i) == k
    decreases k - i
  {
    if i < k { FirstDotIs(s, i + 1, k); }
  }

  lemma {:induction false} LastDotIs(s: Name, i: nat, k: nat)
    requires k < i <= |s| && s[k] == DOT && forall m :: k < m < i ==> s[m] != DOT
    ensures LastDot(s, i) == Some(k)
    decreases i
  {
    if k + 1 < i { LastDotIs(s, i - 1, k); }
  }

  lemma LongNameSplits()
    ensures !FitsDos(LongName()) && Base(LongName()) == LongName()[..9] && Extension(LongName()) == LongName()[10..]
  {
    FirstDotIs(LongName(), 0, 9);
    LastDotIs(LongName(), 14, 9);
  }

  lemma LongNameParts()
    ensures Head(LongName()) == [0x4C, 0x4F, 0x4E, 0x47] && Tail(LongName()) == [0x48, 0x54, 0x4D]
  {
    hide Filtered, FirstDot, LastDot, Base, Extension;
    LongNameSplits();
    var s := LongName();
    FilteredFront(s[..4], s[4..9]);
    FilteredFront(s[10..13], s[13..]);
    assert s[..4] + s[4..9] == s[..9] && s[10..13] + s[13..] == s[10..];
    assert Uppers(s[..4]) == [0x4C, 0x4F, 0x4E, 0x47] && Uppers(s[10..13]) == [0x48, 0x54, 0x4D];
  }

  /** Letters and digits all stay. */
  lemma {:induction false} FilteredFront(a: Name, b: Name)
    requires forall c <- a :: Safe(Upper(c))
    ensures |Filtered(a + b)| >= |a| && Filtered(a + b)[..|a|] == Uppers(a)
    decreases |a|
  {
    if a != [] {
      assert (a + b)[1..] == a[1..] + b;
      FilteredFront(a[1..], b);
      assert Uppers(a) == [Upper(a[0])] + Uppers(a[1..]);
      assert Filtered(a + b)[..|a|] == [Upper(a[0])] + Filtered(a[1..] + b)[..|a| - 1];
    }
  }

  /** A base of at most eight safe characters, with or without a dot and at most three more. */
  predicate IsBaseAndExtension(s: Name, base: Name, ext: Name) {
    && |base| <= 8 && |ext| <= 3 && (forall c <- base :: Safe(Upper(c))) && (forall c <- ext :: Safe(Upper(c)))
    && ((s == base && ext == []) || s == base + [DOT] + ext)
  }

  /** Names of that form, and no others, count as DOS names; their 11 bytes are the base in
      capitals, filled up with spaces to eight, and the extension likewise to three. */
  lemma FitsDosIff(s: Name)
    ensures FitsDos(s) <==> exists base, ext :: IsBaseAndExtension(s, base, ext)
    ensures forall base, ext :: IsBaseAndExtension(s, base, ext) ==> forall k :: 0 <= k < 11 ==>
              Encode(s)[k] == if k < |base| then Upper(base[k]) else if 8 <= k < 8 + |ext| then Upper(ext[k - 8]) else 0x20
  {
    hide Encode;
    if FitsDos(s) { FitsHasParts(s); }
    forall base, ext | IsBaseAndExtension(s, base, ext)
      ensures FitsDos(s)
      ensures forall k :: 0 <= k < 11 ==>
                Encode(s)[k] == if k < |base| then Upper(base[k]) else if 8 <= k < 8 + |ext| then Upper(ext[k - 8]) else 0x20
    {
      PartsFit(s, base, ext);
    }
  }

  lemma FitsHasParts(s: Name)
    requires FitsDos(s)
    ensures exists base, ext :: IsBaseAndExtension(s, base, ext)
  {
    var d := FirstDot(s, 0);
    if d < |s| {
      FirstDotIsDot(s, 0);
      assert s == s[..d] + [DOT] + s[d + 1..];
      assert IsBaseAndExtension(s, s[..d], s[d + 1..]);
    } else {
      assert IsBaseAndExtension(s, s, []);
    }
  }

  lemma PartsSplit(s: Name, base: Name, ext: Name)
    requires IsBaseAndExtension(s, base, ext)
    ensures FirstDot(s, 0) == |base| <= |s| && s[..|base|] == base
    ensures if |base| < |s| then s[|base| + 1..] == ext else ext == []
  {
    forall k | 0 <= k < |base| ensures base[k] != DOT {
      assert Safe(Upper(base[k]));
    }
    if s == base + [DOT] + ext {
      FirstDotIs(s, 0, |base|);
    } else {
      NoDot(s, 0);
    }
  }

  lemma PartsSafe(s: Name, base: Name, ext: Name, i: nat)
    requires IsBaseAndExtension(s, base, ext) && i < |s| && i != |base|
    ensures Safe(Upper(s[i]))
  {
    hide Safe;
    assert s[i] == if i < |base| then base[i] else ext[i - |base| - 1];
  }

  lemma PartsFit(s: Name, base: Name, ext: Name)
    requires IsBaseAndExtension(s, base, ext)
    ensures FitsDos(s)
    ensures forall k :: 0 <= k < 11 ==>
              Encode(s)[k] == if k < |base| then Upper(base[k]) else if 8 <= k < 8 + |ext| then Upper(ext[k - 8]) else 0x20
  {
    hide FirstDot, Safe, Upper, Suffix, Head, Tail, Hash;
    PartsSplit(s, base, ext);
    forall i | 0 <= i < |s| && i != |base| ensures Safe(Upper(s[i])) { PartsSafe(s, base, ext, i); }
    assert Encode(s) == Pad(Uppers(base), 8) + Pad(Uppers(ext), 3);
  }

  /** "Long Name.html" becomes LONG~404.HTM, and "readme.txt" README.TXT. */
  lemma KnownAliases()
    ensures Encode(LongName()) == [0x4C, 0x4F, 0x4E, 0x47, 0x7E, 0x34, 0x30, 0x34, 0x48, 0x54, 0x4D]
    ensures Encode([0x72, 0x65, 0x61, 0x64, 0x6D, 0x65, 0x2E, 0x74, 0x78, 0x74]) == [0x52, 0x45, 0x41, 0x44, 0x4D, 0x45, 0x20, 0x20, 0x54, 0x58, 0x54]
  {
    hide Hash, Head, Tail, FirstDot, LastDot, LongName;
    LongNameHash();
    LongNameParts();
    LongNameSplits();
    LongNameLength();
    assert Suffix(0x5404) == [0x7E, 0x34, 0x30, 0x34];
    var s: Name := [0x72, 0x65, 0x61, 0x64, 0x6D, 0x65, 0x2E, 0x74, 0x78, 0x74];
    FirstDotIs(s, 0, 6);
    assert Uppers(s[..6]) == [0x52, 0x45, 0x41, 0x44, 0x4D, 0x45] && Uppers(s[7..]) == [0x54, 0x58, 0x54];
  }

  lemma LongNameLength()
    ensures |LongName()| == 14
  {
  }

  lemma BareParts(s: Name)
    requires s == [0xE9, 0x2E, 0x74]
    ensures !FitsDos(s) && Head(s) == [0x5F] && Tail(s) == [0x54]
  {
    hide FirstDot, LastDot;
    FirstDotIs(s, 0, 1);
    LastDotIs(s, 3, 1);
    assert !FitsDos(s) by { assert !Safe(Upper(s[0])); }
    assert s[..1] == [0xE9] && s[2..] == [0x74];
    assert Filtered([0xE9]) == [] && Filtered([0x74]) == [0x54];
  }

  lemma BareHash(s: Name)
    requires s == [0xE9, 0x2E, 0x74]
    ensures Hash(s, 3) == 0x0A6B
  {
    hide Hash;
    HashNone(s);
    HashStep(s, 0, 0x0000, 0xE9);
    HashStep(s, 1, 0x00E9, 0x2E);
    HashStep(s, 2, 0x0FA7, 0x54);
  }

  /** A name whose base has no safe character: the bytes E9, ".t" become _   ~A6BT. */
  lemma KnownBareAlias()
    ensures Encode([0xE9, 0x2E, 0x74]) == [0x5F, 0x20, 0x20, 0x20, 0x7E, 0x41, 0x36, 0x42, 0x54, 0x20, 0x20]
  {
    hide Hash, Head, Tail, FitsDos;
    var s: Name := [0xE9, 0x2E, 0x74];
    BareParts(s);
    BareHash(s);
    assert Suffix(0x0A6B) == [0x7E, 0x41, 0x36, 0x42];
  }
}
