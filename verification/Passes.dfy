/** The recovery passes as one fold over the walk, the form the walker's loop follows. */
module Passes {
  import opened Words
  import opened LogFormat
  import opened LogWalk
  import opened Programs
  import opened Recovery

  datatype Pass = Scanning | Revoking | Building | Flushing

  /** Everything a pass may change. */
  datatype PassState<B> = PassState(
    disk: Disk<B>, budget: int, revokes: RevokeMap, redirects: ReplayMap, endSeq: Word)

  /** A pass goes on, or gives up with a code. */
  datatype Progress<B> = GoOn(state: PassState<B>) | GiveUp(state: PassState<B>, rc: int)

  /** The effect of one tag. `log` is the disk the log is read from. */
  function ActOnTag<B>(fmt: Format<B>, geo: Geometry, log: Disk<B>, pass: Pass, s: PassState<B>,
                       q: Word, tag: Tag, at: nat): Progress<B>
  {
    if pass.Scanning? || pass.Revoking? || IsRevoked(s.revokes, tag.home, q) then GoOn(s)
    else match ReadLog(geo, log, at)
      case None => GiveUp(s, -7)
      case Some(b) =>
        if !fmt.tagOk(tag, q, b) then GiveUp(s, -8)
        else if pass.Building? then
          match AddRedirect(s.redirects, tag.home, Redirect(at, tag.escaped))
          case None => GiveUp(s, -1)
          case Some(m) => GoOn(s.(redirects := m))
        else
          var n := Truncated(geo, tag.home);
          if n >= |s.disk| || s.budget == 0 then GiveUp(s, -2)
          else GoOn(s.(disk := s.disk[n := fmt.Unlogged(b, tag.escaped)], budget := Spend(s.budget)))
  }

  function ActOn<B>(fmt: Format<B>, geo: Geometry, log: Disk<B>, pass: Pass, s: PassState<B>, e: Event): Progress<B> {
    match e
    case Tagged(q, tag, at) => ActOnTag(fmt, geo, log, pass, s, q, tag, at)
    case Revoked(q, homes) =>
      if !pass.Revoking? then GoOn(s)
      else (match AddRevokes(s.revokes, homes, q)
            case None => GiveUp(s, -5)
            case Some(m) => GoOn(s.(revokes := m)))
    case Committed(q) => GoOn(if pass.Scanning? then s.(endSeq := Plus(q, 1)) else s)
  }

  datatype PassResult<B> = PassResult(state: PassState<B>, rc: int)

  function Act<B>(fmt: Format<B>, geo: Geometry, log: Disk<B>, pass: Pass, s: PassState<B>, t: Trace): PassResult<B>
    decreases t
  {
    match t
    case End(rc) => PassResult(s, rc)
    case Then(e, rest) =>
      match ActOn(fmt, geo, log, pass, s, e)
      case GiveUp(s', rc) => PassResult(s', rc)
      case GoOn(s') => Act(fmt, geo, log, pass, s', rest)
  }

  /** The tags of one descriptor at `j`. */
  function ActOnTags<B>(fmt: Format<B>, geo: Geometry, log: Disk<B>, pass: Pass, s: PassState<B>,
                        q: Word, tags: seq<Tag>, j: nat): Progress<B>
    decreases |tags|
  {
    if tags == [] then GoOn(s)
    else match ActOnTag(fmt, geo, log, pass, s, q, tags[0], Wrap(geo, j + 1))
      case GiveUp(s', rc) => GiveUp(s', rc)
      case GoOn(s') => ActOnTags(fmt, geo, log, pass, s', q, tags[1..], Wrap(geo, j + 1))
  }

  lemma {:induction false} ActTagsThen<B>(fmt: Format<B>, geo: Geometry, log: Disk<B>, pass: Pass, s: PassState<B>,
                                          q: Word, tags: seq<Tag>, j: nat, rest: Trace)
    ensures Act(fmt, geo, log, pass, s, TagsThen(geo, q, tags, j, rest))
            == match ActOnTags(fmt, geo, log, pass, s, q, tags, j)
               case GiveUp(s', rc) => PassResult(s', rc)
               case GoOn(s') => Act(fmt, geo, log, pass, s', rest)
    decreases |tags|
  {
    if tags != [] {
      match ActOnTag(fmt, geo, log, pass, s, q, tags[0], Wrap(geo, j + 1))
      case GiveUp(_, _) =>
      case GoOn(s') => ActTagsThen(fmt, geo, log, pass, s', q, tags[1..], Wrap(geo, j + 1), rest);
    }
  }

  // ---------------------------------------------------------------- what the passes compute

  lemma {:induction false} ScanningMeaning<B>(fmt: Format<B>, geo: Geometry, log: Disk<B>, s: PassState<B>, t: Trace, q: Word, n: nat)
    requires n < 0x7FFF_FFFF && Commits(t) <= n && CommitsFollow(t, q)
    ensures var r := Act(fmt, geo, log, Scanning, s, t);
            r.rc == Verdict(t) && r.state == s.(endSeq := if Commits(t) == 0 then s.endSeq else Plus(q, Commits(t)))
    decreases t
  {
    match t
    case End(_) =>
    case Then(Committed(c), rest) =>
      ScanningMeaning(fmt, geo, log, s.(endSeq := Plus(c, 1)), rest, Plus(q, 1), n);
      PlusPlus(q, 1, Commits(rest));
    case Then(_, rest) => ScanningMeaning(fmt, geo, log, s, rest, q, n);
  }

  /** The commits of a walk are numbered from `q` on. */
  predicate CommitsFollow(t: Trace, q: Word) {
    match t
    case End(_) => true
    case Then(Committed(c), rest) => c == q && CommitsFollow(rest, Plus(q, 1))
    case Then(_, rest) => CommitsFollow(rest, q)
  }

  lemma {:induction false} TagsThenFollow(geo: Geometry, q: Word, tags: seq<Tag>, j: nat, rest: Trace)
    requires CommitsFollow(rest, q)
    ensures CommitsFollow(TagsThen(geo, q, tags, j, rest), q)
    decreases |tags|
  {
    if tags != [] {
      TagsThenFollow(geo, q, tags[1..], Wrap(geo, j + 1), rest);
    }
  }

  lemma {:induction false} WalkFollows<B>(fmt: Format<B>, geo: Geometry, d: Disk<B>, stop: Option<Word>,
                                          start: nat, j: nat, q: Word, guard: nat)
    requires guard <= geo.maxlen + 4
    ensures CommitsFollow(Walk(fmt, geo, d, stop, start, j, q, guard), q)
    decreases geo.maxlen + 4 - guard
  {
    match Look(fmt, geo, d, stop, j, q)
    case Stop(_) =>
    case Go(kind) =>
      if guard + 1 <= geo.maxlen + 4 {
        WalkFollows(fmt, geo, d, stop, start, NextBlock(geo, j, kind), NextSequence(q, kind), guard + 1);
      }
      match kind {
        case Descriptor(true, tags) =>
          TagsThenFollow(geo, q, tags, j, Onward(fmt, geo, d, stop, start, j, q, guard, kind));
        case _ =>
      }
  }

  lemma {:induction false} RevokingMeaning<B>(fmt: Format<B>, geo: Geometry, log: Disk<B>, s: PassState<B>, t: Trace)
    ensures var r := Act(fmt, geo, log, Revoking, s, t);
            match CollectRevokes(s.revokes, t)
            case None => r.rc == -5
            case Some(m) => r.rc == Verdict(t) && r.state == s.(revokes := m)
    ensures Act(fmt, geo, log, Revoking, s, t).state.disk == s.disk
    ensures Act(fmt, geo, log, Revoking, s, t).state.budget == s.budget
    decreases t
  {
    match t
    case End(_) =>
    case Then(Revoked(q, homes), rest) =>
      if AddRevokes(s.revokes, homes, q).Some? {
        RevokingMeaning(fmt, geo, log, s.(revokes := AddRevokes(s.revokes, homes, q).value), rest);
      }
    case Then(_, rest) => RevokingMeaning(fmt, geo, log, s, rest);
  }

  lemma {:induction false} BuildingMeaning<B>(fmt: Format<B>, geo: Geometry, log: Disk<B>, s: PassState<B>, t: Trace)
    ensures var r := Act(fmt, geo, log, Building, s, t);
            var built := Build(fmt, geo, log, s.revokes, s.redirects, t);
            r.rc == built.rc && r.state == s.(redirects := built.redirects)
    decreases t
  {
    match t
    case End(_) =>
    case Then(Tagged(q, tag, at), rest) =>
      match ActOnTag(fmt, geo, log, Building, s, q, tag, at) {
        case GiveUp(_, _) =>
        case GoOn(s') => BuildingMeaning(fmt, geo, log, s', rest);
      }
    case Then(e, rest) => BuildingMeaning(fmt, geo, log, s, rest);
  }

  /** The FLUSH pass performs the FLUSH program. */
  lemma {:induction false} FlushingMeaning<B>(fmt: Format<B>, geo: Geometry, log: Disk<B>, s: PassState<B>, t: Trace)
    requires WellPlaced(geo, |log|) && SameLog(geo, log, s.disk)
    requires CopiesOnly(geo, log, Flush(fmt, geo, log, s.revokes, t))
    ensures var r := Act(fmt, geo, log, Flushing, s, t);
            var run := Run(fmt, geo, s.disk, s.budget, Flush(fmt, geo, log, s.revokes, t));
            && r.state == s.(disk := run.disk, budget := run.budget)
            && r.rc == match run.ending { case Finished(rc) => rc case IoError => -2 }
    decreases t
  {
    match t
    case End(_) =>
    case Then(Tagged(q, tag, at), rest) =>
      match ActOnTag(fmt, geo, log, Flushing, s, q, tag, at) {
        case GiveUp(_, _) =>
          if ReadLog(geo, log, at).Some? && fmt.tagOk(tag, q, ReadLog(geo, log, at).value) {
            HomeIsNotTruncated(geo, |log|, tag.home);
          }
        case GoOn(s') =>
          if s' != s || !IsRevoked(s.revokes, tag.home, q) {
            FlushedTag(fmt, geo, log, s, q, tag, at, rest);
          }
          FlushingMeaning(fmt, geo, log, s', rest);
      }
    case Then(e, rest) => FlushingMeaning(fmt, geo, log, s, rest);
  }

  lemma FlushedTag<B>(fmt: Format<B>, geo: Geometry, log: Disk<B>, s: PassState<B>, q: Word, tag: Tag, at: nat, rest: Trace)
    requires WellPlaced(geo, |log|) && SameLog(geo, log, s.disk)
    requires CopiesOnly(geo, log, Flush(fmt, geo, log, s.revokes, Then(Tagged(q, tag, at), rest)))
    requires !IsRevoked(s.revokes, tag.home, q) && ActOnTag(fmt, geo, log, Flushing, s, q, tag, at).GoOn?
    ensures var s' := ActOnTag(fmt, geo, log, Flushing, s, q, tag, at).state;
            && s.budget != 0 && SameLog(geo, log, s'.disk)
            && Effect(fmt, geo, s.disk, Copy(at, tag.home, tag.escaped)).Some?
            && var (n, b) := Effect(fmt, geo, s.disk, Copy(at, tag.home, tag.escaped)).value;
               s' == s.(disk := s.disk[n := b], budget := Spend(s.budget))
  {
    HomeIsNotTruncated(geo, |log|, tag.home);
    assert ReadLog(geo, s.disk, at) == ReadLog(geo, log, at);
    WriteOutsideLog(geo, s.disk, tag.home, fmt.Unlogged(ReadLog(geo, log, at).value, tag.escaped));
  }
}
