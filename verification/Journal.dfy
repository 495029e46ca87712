/** The mounted journal: device, replay and revoke tables, log walker, checkpoint and
    commit, each proved to perform the programs and passes of the specification. */
module Journal {
  import opened Words
  import opened LogFormat
  import opened LogWalk
  import opened Programs
  import opened Recovery
  import opened Commit
  import opened Passes

  /** A block device that accepts `writesLeft` more writes; negative: any number. */
  class Device<B> {
    const writable: bool
    var blocks: seq<B>
    var writesLeft: int

    constructor (contents: seq<B>, writable: bool, writesLeft: int)
      ensures blocks == contents && this.writable == writable && this.writesLeft == writesLeft
    {
      blocks := contents;
      this.writable := writable;
      this.writesLeft := writesLeft;
    }

    method Read(n: nat) returns (r: Option<B>)
      ensures r == if n < |blocks| then Some(blocks[n]) else None
    {
      r := if n < |blocks| then Some(blocks[n]) else None;
    }

    method Write(n: nat, b: B) returns (ok: bool)
      modifies this
      ensures ok == (writable && n < |old(blocks)| && old(writesLeft) != 0)
      ensures blocks == if n < |old(blocks)| && ok then old(blocks)[n := b] else old(blocks)
      ensures writesLeft == if ok then Spend(old(writesLeft)) else old(writesLeft)
    {
      ok := writable && n < |blocks| && writesLeft != 0;
      if ok {
        blocks := blocks[n := b];
        writesLeft := Spend(writesLeft);
      }
    }
  }

  /** One slot of the replay or revoke table. */
  datatype Entry<V> = Entry(home: nat, value: V)

  ghost predicate Listed<V>(entries: seq<Entry<V>>, home: nat) {
    exists i :: 0 <= i < |entries| && entries[i].home == home
  }

  /** The entries are exactly the map, each home once. */
  ghost predicate TableIs<V>(entries: seq<Entry<V>>, m: map<nat, V>) {
    && |entries| == |m|
    && (forall i :: 0 <= i < |entries| ==> entries[i].home in m && m[entries[i].home] == entries[i].value)
    && (forall i, j :: 0 <= i < j < |entries| ==> entries[i].home != entries[j].home)
    && (forall h :: h in m ==> Listed(entries, h))
  }

  /** Looking a home up in the entries, first to last, gives what the map gives. Homes may be
      listed more than once. */
  ghost predicate Answers<V>(entries: seq<Entry<V>>, m: map<nat, V>) {
    && (forall h :: h in m <==> Listed(entries, h))
    && (forall i :: 0 <= i < |entries| && IsFirst(entries, i) ==> entries[i].home in m && m[entries[i].home] == entries[i].value)
  }

  ghost predicate IsFirst<V>(entries: seq<Entry<V>>, i: nat)
    requires i < |entries|
  {
    forall k :: 0 <= k < i ==> entries[k].home != entries[i].home
  }

  lemma TableAnswers<V>(entries: seq<Entry<V>>, m: map<nat, V>)
    requires TableIs(entries, m)
    ensures Answers(entries, m)
  {
  }

  lemma AnswersEmpty<V>()
    ensures Answers<V>([], map[])
  {
  }

  lemma NoAnswers<V>(m: map<nat, V>)
    requires Answers([], m)
    ensures TableIs([], m)
  {
    forall h ensures h !in m {
      assert !Listed<V>([], h);
    }
    assert m == map[];
  }

  /** One more entry counts only when its home was not listed before. */
  lemma AnswersAppend<V>(entries: seq<Entry<V>>, m: map<nat, V>, home: nat, v: V)
    requires Answers(entries, m)
    ensures Answers(entries + [Entry(home, v)], if home in m then m else m[home := v])
  {
    var entries', m' := entries + [Entry(home, v)], if home in m then m else m[home := v];
    forall h ensures h in m' <==> Listed(entries', h) {
      if Listed(entries, h) { ListedStill(entries, h, Entry(home, v)); }
      if h == home { assert entries'[|entries|].home == h; }
    }
    forall i | 0 <= i < |entries'| && IsFirst(entries', i)
      ensures entries'[i].home in m' && m'[entries'[i].home] == entries'[i].value
    {
      if i < |entries| {
        assert forall k :: 0 <= k <= i ==> entries'[k] == entries[k];
        assert IsFirst(entries, i);
        assert Listed(entries, entries[i].home);
      } else {
        assert forall k :: 0 <= k < i ==> entries[k].home == entries'[k].home != home;
      }
    }
  }

  lemma TableEmpty<V>()
    ensures TableIs<V>([], map[])
  {
  }

  lemma TableReplace<V>(entries: seq<Entry<V>>, m: map<nat, V>, i: nat, v: V)
    requires TableIs(entries, m) && i < |entries|
    ensures TableIs(entries[i := Entry(entries[i].home, v)], m[entries[i].home := v])
  {
    var entries', m' := entries[i := Entry(entries[i].home, v)], m[entries[i].home := v];
    assert m'.Keys == m.Keys;
    forall h | h in m'
      ensures Listed(entries', h)
    {
      assert Listed(entries, h);
      var k :| 0 <= k < |entries| && entries[k].home == h;
      assert entries'[k].home == h;
    }
  }

  lemma TableAppend<V>(entries: seq<Entry<V>>, m: map<nat, V>, home: nat, v: V)
    requires TableIs(entries, m) && !Listed(entries, home)
    ensures home !in m
    ensures TableIs(entries + [Entry(home, v)], m[home := v])
  {
    var entries', m' := entries + [Entry(home, v)], m[home := v];
    assert m'.Keys == m.Keys + {home};
    forall h | h in m'
      ensures Listed(entries', h)
    {
      if h != home {
        ListedStill(entries, h, Entry(home, v));
      } else {
        assert entries'[|entries|].home == home;
      }
    }
  }

  lemma ListedStill<V>(entries: seq<Entry<V>>, h: nat, e: Entry<V>)
    requires Listed(entries, h)
    ensures Listed(entries + [e], h)
  {
    var k :| 0 <= k < |entries| && entries[k].home == h;
    assert (entries + [e])[k].home == h;
  }

  lemma WalkUnfold<B>(fmt: Format<B>, geo: Geometry, d: Disk<B>, stop: Option<Word>, start: nat, j: nat, q: Word, guard: nat)
    requires guard <= geo.maxlen + 4
    ensures match Look(fmt, geo, d, stop, j, q)
            case Stop(rc) => Walk(fmt, geo, d, stop, start, j, q, guard) == End(rc)
            case Go(kind) =>
              && Walk(fmt, geo, d, stop, start, j, q, guard)
                 == BlockThen(geo, q, j, kind, Onward(fmt, geo, d, stop, start, j, q, guard, kind))
              && Onward(fmt, geo, d, stop, start, j, q, guard, kind)
                 == (if guard + 1 > geo.maxlen + 4 then End(-6)
                     else if EndsLog(kind) || NextBlock(geo, j, kind) == start then End(0)
                     else Walk(fmt, geo, d, stop, start, NextBlock(geo, j, kind), NextSequence(q, kind), guard + 1))
  {
  }

  lemma ActUnfold<B>(fmt: Format<B>, geo: Geometry, log: Disk<B>, pass: Pass, s: PassState<B>, t: Trace)
    ensures t.End? ==> Act(fmt, geo, log, pass, s, t) == PassResult(s, t.rc)
  {
  }

  /** The linear search of both tables: the slot of `home`, or the table length. */
  method FindEntry<V>(entries: seq<Entry<V>>, home: nat) returns (i: nat)
    ensures i <= |entries|
    ensures i < |entries| ==> entries[i].home == home && IsFirst(entries, i)
    ensures i == |entries| ==> !Listed(entries, home)
  {
    i := 0;
    while i < |entries|
      invariant 0 <= i <= |entries|
      invariant forall k :: 0 <= k < i ==> entries[k].home != home
    {
      if entries[i].home == home {
        return;
      }
      i := i + 1;
    }
  }

  /** The copies a checkpoint makes from table entries `i..`. */
  function EntryCopies<B>(entries: seq<Entry<Redirect>>, i: nat): Program<B>
    requires i <= |entries|
    decreases |entries| - i
  {
    if i == |entries| then Done(0)
    else Do(Copy(entries[i].value.at, entries[i].home, entries[i].value.escaped), EntryCopies(entries, i + 1))
  }

  class Mounted<B(!new)> {
    const dev: Device<B>
    const fmt: Format<B>
    const geo: Geometry

    var sequence: Word
    var start: Word
    var recover: bool                  // the RECOVER bit as read at mount
    var replayActive: bool
    var replay: seq<Entry<Redirect>>
    var revoke: seq<Entry<Word>>
    ghost var redirects: ReplayMap
    ghost var revokes: RevokeMap

    ghost predicate Framed()
      reads this
    {
      && geo.extents != [] && geo.maxlen < 0x7FFF_FFF0 && geo.first > 0
      && |replay| <= REPLAY_MAX
      && TableIs(revoke, revokes) && |revoke| <= REVOKE_MAX
      && (replayActive ==> start != 0)
    }

    /** Between calls the replay table answers as the redirects do. */
    ghost predicate Valid()
      reads this
    {
      Framed() && Answers(replay, redirects)
    }

    /** While a log is replayed no block is in the table twice. */
    ghost predicate Tidy()
      reads this
    {
      Framed() && TableIs(replay, redirects)
    }

    /** What the passes see of this object and its device. */
    ghost function State(endSeq: Word): PassState<B>
      reads this, dev
    {
      PassState(dev.blocks, dev.writesLeft, revokes, redirects, endSeq)
    }

    /** Reads the two superblocks. */
    constructor (dev: Device<B>, fmt: Format<B>, geo: Geometry)
      requires geo.extents != [] && JsbBlock(geo) < |dev.blocks| && geo.sbBlock < |dev.blocks|
      requires geo.maxlen < 0x7FFF_FFF0 && geo.first > 0
      ensures Valid() && this.dev == dev && this.fmt == fmt && this.geo == geo
      ensures start == fmt.jsbStart(Jsb(geo, dev.blocks)) && sequence == fmt.jsbSequence(Jsb(geo, dev.blocks))
      ensures recover == fmt.recover(dev.blocks[geo.sbBlock])
      ensures !replayActive && replay == [] && revoke == []
    {
      this.dev := dev;
      this.fmt := fmt;
      this.geo := geo;
      sequence := fmt.jsbSequence(dev.blocks[geo.extents[0].physical]);
      start := fmt.jsbStart(dev.blocks[geo.extents[0].physical]);
      recover := fmt.recover(dev.blocks[geo.sbBlock]);
      replayActive := false;
      replay := [];
      revoke := [];
      redirects := map[];
      revokes := map[];
    }

    // -------------------------------------------------------------- log blocks

    method FindLogBlock(j: nat) returns (r: Option<nat>)
      ensures r == LogAddress(geo, j)
    {
      var i := 0;
      while i < |geo.extents|
        invariant 0 <= i <= |geo.extents|
        invariant Find(geo.extents, j) == Find(geo.extents[i..], j)
      {
        var e := geo.extents[i];
        if e.logical <= j < e.logical + e.length {
          return Some(Truncated(geo, e.physical + (j - e.logical)));
        }
        assert geo.extents[i..][1..] == geo.extents[i + 1..];
        i := i + 1;
      }
      r := None;
    }

    method ReadLogBlock(j: nat) returns (r: Option<B>)
      ensures r == ReadLog(geo, dev.blocks, j)
    {
      var n := FindLogBlock(j);
      if n == None {
        return None;
      }
      r := dev.Read(n.value);
    }

    /** One step of a program, as the device performs it. */
    twostate predicate Performed(s: Step<B>, ok: bool)
      reads dev
    {
      var e := Effect(fmt, geo, old(dev.blocks), s);
      && ok == (dev.writable && e.Some? && old(dev.writesLeft) != 0)
      && dev.blocks == (if ok then old(dev.blocks)[e.value.0 := e.value.1] else old(dev.blocks))
      && dev.writesLeft == (if ok then Spend(old(dev.writesLeft)) else old(dev.writesLeft))
    }

    method WriteLogBlock(j: nat, b: B) returns (ok: bool)
      modifies dev
      ensures Performed(PutLog(j, b), ok)
    {
      var n := FindLogBlock(j);
      if n == None {
        return false;
      }
      ok := dev.Write(n.value, b);
    }

    /** Writes an already read log block to its home, restoring the magic. */
    method ApplyToHome(home: nat, b: B, escaped: bool) returns (ok: bool)
      modifies dev
      ensures ok == (dev.writable && Truncated(geo, home) < |old(dev.blocks)| && old(dev.writesLeft) != 0)
      ensures dev.blocks == if Truncated(geo, home) < |old(dev.blocks)| && ok
                            then old(dev.blocks)[Truncated(geo, home) := fmt.Unlogged(b, escaped)] else old(dev.blocks)
      ensures dev.writesLeft == if ok then Spend(old(dev.writesLeft)) else old(dev.writesLeft)
    {
      var content := b;
      if escaped {
        content := fmt.restoreMagic(content);
      }
      ok := dev.Write(Truncated(geo, home), content);
    }

    method UpdateJsb(newStart: Word, newSequence: Word) returns (ok: bool)
      requires geo.extents != []
      modifies dev
      ensures Performed(SetJsb(newStart, newSequence), ok)
    {
      var n := geo.extents[0].physical;
      var b := dev.Read(n);
      if b == None {
        return false;
      }
      ok := dev.Write(n, fmt.setJsb(b.value, newStart, newSequence));
    }

    method UpdateRecover(on: bool) returns (ok: bool)
      modifies dev
      ensures Performed(SetRecover(on), ok)
    {
      var b := dev.Read(geo.sbBlock);
      if b == None {
        return false;
      }
      ok := dev.Write(geo.sbBlock, fmt.setRecover(b.value, on));
    }

    // -------------------------------------------------------------- the two tables

    method UpsertReplay(home: nat, at: nat, escaped: bool) returns (ok: bool)
      requires Tidy()
      modifies this`replay, this`redirects
      ensures Tidy()
      ensures var m := AddRedirect(old(redirects), home, Redirect(at, escaped));
              ok == m.Some? && redirects == if ok then m.value else old(redirects)
    {
      var r := Redirect(at, escaped);
      var i := FindEntry(replay, home);
      if i < |replay| {
        TableReplace(replay, redirects, i, r);
        replay := replay[i := Entry(home, r)];
        redirects := redirects[home := r];
        return true;
      }
      TableAppend(replay, redirects, home, r);
      if |replay| >= REPLAY_MAX {
        return false;
      }
      replay := replay + [Entry(home, r)];
      redirects := redirects[home := r];
      return true;
    }

    /** Keeps the highest sequence of each revoked block. */
    method UpsertRevoke(home: nat, q: Word) returns (ok: bool)
      requires Tidy()
      modifies this`revoke, this`revokes
      ensures Tidy()
      ensures var m := AddRevoke(old(revokes), home, q);
              ok == m.Some? && revokes == if ok then m.value else old(revokes)
    {
      var i := FindEntry(revoke, home);
      if i < |revoke| {
        if SeqDiff(q, revoke[i].value) > 0 {
          TableReplace(revoke, revokes, i, q);
          revoke := revoke[i := Entry(home, q)];
          revokes := revokes[home := q];
        }
        return true;
      }
      TableAppend(revoke, revokes, home, q);
      if |revoke| >= REVOKE_MAX {
        return false;
      }
      revoke := revoke + [Entry(home, q)];
      revokes := revokes[home := q];
      return true;
    }

    method TestRevoked(home: nat, q: Word) returns (r: bool)
      requires Framed()
      ensures r == IsRevoked(revokes, home, q)
    {
      var i := FindEntry(revoke, home);
      r := i < |revoke| && SeqDiff(revoke[i].value, q) >= 0;
    }

    method Lookup(home: nat) returns (r: Option<Redirect>)
      requires Valid()
      ensures r == if replayActive && home in redirects then Some(redirects[home]) else None
    {
      if !replayActive {
        return None;
      }
      var i := FindEntry(replay, home);
      r := if i < |replay| then Some(replay[i].value) else None;
    }

    /** Every read of the file system after mount. */
    method ReadBlock(n: nat) returns (r: Option<B>)
      requires Valid()
      ensures r == ReadThrough(fmt, geo, dev.blocks, if replayActive then redirects else map[], n)
    {
      var hit := Lookup(n);
      if hit.Some? {
        var b := ReadLogBlock(hit.value.at);
        return if b.Some? then Some(fmt.Unlogged(b.value, hit.value.escaped)) else None;
      }
      r := dev.Read(Truncated(geo, n));
    }

    // -------------------------------------------------------------- the log walker

    /** The pass will only write where the file system may be journaled. */
    ghost predicate SafeToFlush(log: Disk<B>, pass: Pass, t: Trace)
      reads this, dev
    {
      && SameLog(geo, log, dev.blocks)
      && (pass.Flushing? ==>
            dev.writable && WellPlaced(geo, |log|) && CopiesOnly(geo, log, Flush(fmt, geo, log, revokes, t)))
    }

    method HandleTag(pass: Pass, q: Word, tag: Tag, at: nat, ghost log: Disk<B>, ghost rest: Trace, ghost endSeq: Word)
        returns (rc: int)
      requires Tidy() && at > 0 && SafeToFlush(log, pass, Then(Tagged(q, tag, at), rest))
      modifies this`replay, this`redirects, dev
      ensures Tidy()
      ensures match ActOnTag(fmt, geo, log, pass, old(State(endSeq)), q, tag, at)
              case GoOn(s) => rc == 0 && State(endSeq) == s && SafeToFlush(log, pass, rest)
              case GiveUp(s, code) => rc == code && rc != 0 && State(endSeq) == s
    {
      hide TableIs;
      if pass.Scanning? || pass.Revoking? {
        return 0;
      }
      var skip := TestRevoked(tag.home, q);
      if skip {
        return 0;
      }
      var b := ReadLogBlock(at);
      if b == None {
        return -7;
      }
      if !fmt.tagOk(tag, q, b.value) {
        return -8;
      }
      if pass.Building? {
        var ok := UpsertReplay(tag.home, at, tag.escaped);
        return if ok then 0 else -1;
      }
      HomeIsNotTruncated(geo, |log|, tag.home);
      WriteOutsideLog(geo, dev.blocks, tag.home, fmt.Unlogged(b.value, tag.escaped));
      var ok := ApplyToHome(tag.home, b.value, tag.escaped);
      return if ok then 0 else -2;
    }

    /** The tags of a descriptor at `j`; `at` becomes the log block of the last one. */
    method IterateTags(pass: Pass, q: Word, tags: seq<Tag>, j: nat, ghost log: Disk<B>, ghost rest: Trace, ghost endSeq: Word)
        returns (rc: int, at: nat)
      requires Tidy() && SafeToFlush(log, pass, TagsThen(geo, q, tags, j, rest))
      modifies this`replay, this`redirects, dev
      ensures Tidy()
      ensures match ActOnTags(fmt, geo, log, pass, old(State(endSeq)), q, tags, j)
              case GoOn(s) => rc == 0 && State(endSeq) == s && at == AfterTags(geo, j, |tags|) && SafeToFlush(log, pass, rest)
              case GiveUp(s, code) => rc == code && rc != 0 && State(endSeq) == s
    {
      hide TableIs, Flush, CopiesOnly, WellPlaced, ActOnTag;
      at := j;
      var i := 0;
      assert tags[0..] == tags;
      while i < |tags|
        invariant 0 <= i <= |tags|
        invariant Tidy() && SafeToFlush(log, pass, TagsThen(geo, q, tags[i..], at, rest))
        invariant ActOnTags(fmt, geo, log, pass, old(State(endSeq)), q, tags, j)
                  == ActOnTags(fmt, geo, log, pass, State(endSeq), q, tags[i..], at)
        invariant AfterTags(geo, j, |tags|) == AfterTags(geo, at, |tags| - i)
      {
        assert tags[i..][1..] == tags[i + 1..];
        at := Wrap(geo, at + 1);
        rc := HandleTag(pass, q, tags[i], at, log, TagsThen(geo, q, tags[i + 1..], at, rest), endSeq);
        if rc != 0 {
          return;
        }
        i := i + 1;
      }
      rc := 0;
    }

    method HandleRevoke(q: Word, homes: seq<nat>) returns (ok: bool)
      requires Tidy()
      modifies this`revoke, this`revokes
      ensures Tidy()
      ensures var m := AddRevokes(old(revokes), homes, q);
              ok == m.Some? && (ok ==> revokes == m.value)
    {
      var i := 0;
      assert homes[0..] == homes;
      while i < |homes|
        invariant 0 <= i <= |homes|
        invariant Tidy() && AddRevokes(old(revokes), homes, q) == AddRevokes(revokes, homes[i..], q)
      {
        assert homes[i..][1..] == homes[i + 1..];
        ok := UpsertRevoke(homes[i], q);
        if !ok {
          return;
        }
        i := i + 1;
      }
      ok := true;
    }

    ghost function Stop(pass: Pass, last: Word): Option<Word> {
      if pass.Scanning? then None else Some(last)
    }

    /** The walk still ahead of the walker. */
    ghost function Ahead(log: Disk<B>, pass: Pass, last: Word, j: nat, q: Word, guard: nat): Trace
      reads this
      requires guard <= geo.maxlen + 4
    {
      Walk(fmt, geo, log, Stop(pass, last), start, j, q, guard)
    }

    /** The switch on the block type. `at` is the last block consumed. */
    method VisitBlock(pass: Pass, kind: Kind, j: nat, q: Word, endSeq: Word, ghost log: Disk<B>, ghost rest: Trace)
        returns (rc: int, at: nat, nextSeq: Word, nextEnd: Word)
      requires Tidy() && SafeToFlush(log, pass, BlockThen(geo, q, j, kind, rest))
      modifies this`replay, this`redirects, this`revoke, this`revokes, dev
      ensures Tidy()
      ensures var before := Act(fmt, geo, log, pass, old(State(endSeq)), BlockThen(geo, q, j, kind, rest));
              if rc == 0 then
                && before == Act(fmt, geo, log, pass, State(nextEnd), rest)
                && SafeToFlush(log, pass, rest)
                && 0 < Wrap(geo, at + 1) == NextBlock(geo, j, kind) && nextSeq == NextSequence(q, kind)
                && (!pass.Scanning? ==> nextEnd == endSeq)
              else
                rc == before.rc && dev.blocks == before.state.disk && dev.writesLeft == before.state.budget
    {
      hide TableIs, CopiesOnly, WellPlaced, ActOnTag, ActOnTags;
      rc, at, nextSeq, nextEnd := 0, j, q, endSeq;
      match kind
      case Descriptor(ok, tags) =>
        if ok {
          ActTagsThen(fmt, geo, log, pass, State(endSeq), q, tags, j, rest);
          rc, at := IterateTags(pass, q, tags, j, log, rest, endSeq);
        }
      case Commit(ok) =>
        if ok {
          nextSeq := Plus(q, 1);
          nextEnd := if pass.Scanning? then nextSeq else endSeq;
        }
      case Revoke(ok, homes) =>
        if ok && pass.Revoking? {
          var added := HandleRevoke(q, homes);
          rc := if added then 0 else -5;
        }
      case Unknown =>
    }

    /** One pass over the log. `last` is the sequence to stop after; SCAN returns it. */
    method WalkLog(pass: Pass, last: Word) returns (rc: int, lastSeq: Word)
      requires Tidy() && start != 0
      requires SafeToFlush(dev.blocks, pass, Ahead(dev.blocks, pass, last, start, sequence, 0))
      modifies this`replay, this`redirects, this`revoke, this`revokes, dev
      ensures Tidy()
      ensures var endSeq := if pass.Scanning? then 0 else last;
              var r := Act(fmt, geo, old(dev.blocks), pass, old(State(endSeq)),
                           old(Ahead(dev.blocks, pass, last, start, sequence, 0)));
              && rc == r.rc
              && dev.blocks == r.state.disk && dev.writesLeft == r.state.budget
              && (rc == 0 ==> revokes == r.state.revokes && redirects == r.state.redirects
                              && lastSeq == if pass.Scanning? then ScanEnd(sequence, r.state.endSeq) else last)
    {
      hide TableIs, Act, Walk, Onward, Flush, CopiesOnly, WellPlaced, BlockThen, NextBlock, NextSequence, ReadLog, Wrap;
      ghost var log := dev.blocks;
      var thisBlock: nat := start;
      var thisSeq := sequence;
      var endSeq: Word := if pass.Scanning? then 0 else last;
      var guard: nat := 0;
      var logEnd := false;
      ghost var r := Act(fmt, geo, log, pass, State(endSeq), Ahead(log, pass, last, start, sequence, 0));
      while !logEnd
        invariant Tidy() && start == old(start) && sequence == old(sequence)
        invariant guard <= geo.maxlen + 4 && thisBlock > 0
        invariant !logEnd ==>
                    && SafeToFlush(log, pass, Ahead(log, pass, last, thisBlock, thisSeq, guard))
                    && r == Act(fmt, geo, log, pass, State(endSeq), Ahead(log, pass, last, thisBlock, thisSeq, guard))
        invariant logEnd ==> r == PassResult(State(endSeq), 0)
        invariant !pass.Scanning? ==> endSeq == last
        decreases !logEnd, geo.maxlen + 4 - guard
      {
        WalkUnfold(fmt, geo, log, Stop(pass, last), start, thisBlock, thisSeq, guard);
        ActUnfold(fmt, geo, log, pass, State(endSeq), Ahead(log, pass, last, thisBlock, thisSeq, guard));
        if !pass.Scanning? && SeqDiff(thisSeq, endSeq) > 0 {
          logEnd := true;
          continue;
        }
        var b := ReadLogBlock(thisBlock);
        if b == None {
          return -2, last;
        }
        var block := fmt.parse(b.value);
        if block == NotLog {
          logEnd := true;
          continue;
        }
        if block.seqno != thisSeq {
          if !pass.Scanning? {
            return -3, last;
          }
          logEnd := true;
          continue;
        }
        ghost var rest := Onward(fmt, geo, log, Stop(pass, last), start, thisBlock, thisSeq, guard, block.kind);
        rc, thisBlock, thisSeq, endSeq := VisitBlock(pass, block.kind, thisBlock, thisSeq, endSeq, log, rest);
        if rc != 0 {
          return rc, last;
        }
        ActUnfold(fmt, geo, log, pass, State(endSeq), rest);
        logEnd := EndsLog(block.kind);
        thisBlock := Wrap(geo, thisBlock + 1);
        if thisBlock == start {
          logEnd := true;
        }
        guard := guard + 1;
        if guard > geo.maxlen + 4 {
          return -6, last;
        }
      }
      rc := 0;
      lastSeq := if pass.Scanning? then ScanEnd(sequence, endSeq) else last;
    }

    // -------------------------------------------------------------- replay

    /** The object was just opened on this disk. */
    ghost predicate JustOpened()
      reads this, dev
      requires geo.extents != []
    {
      && JsbBlock(geo) < |dev.blocks| && geo.sbBlock < |dev.blocks|
      && start == fmt.jsbStart(Jsb(geo, dev.blocks)) && sequence == fmt.jsbSequence(Jsb(geo, dev.blocks))
      && recover == fmt.recover(dev.blocks[geo.sbBlock])
      && !replayActive && replay == [] && revoke == []
    }

    /** SCAN: the last sequence to replay. */
    method Scan() returns (rc: int, last: Word)
      requires Tidy() && JustOpened() && WellPlaced(geo, |dev.blocks|) && start != 0
      modifies this`replay, this`redirects, this`revoke, this`revokes, dev
      ensures Tidy() && dev.blocks == old(dev.blocks) && dev.writesLeft == old(dev.writesLeft)
      ensures rc == Verdict(Recovery.Scan(fmt, geo, dev.blocks))
      ensures rc == 0 ==> last == ScanResult(sequence, Commits(Recovery.Scan(fmt, geo, dev.blocks)))
      ensures rc == 0 ==> revokes == map[] && redirects == map[]
    {
      hide Walk, Act, Commits, ScanResult;
      ScanPass(fmt, geo, dev.blocks, State(0));
      rc, last := WalkLog(Scanning, 0);
    }

    /** REVOKE: the revoke table of the committed prefix. */
    method CollectRevoked(last: Word) returns (rc: int)
      requires Tidy() && WellPlaced(geo, |dev.blocks|) && start != 0 && revokes == map[] && redirects == map[]
      modifies this`replay, this`redirects, this`revoke, this`revokes, dev
      ensures Tidy() && dev.blocks == old(dev.blocks) && dev.writesLeft == old(dev.writesLeft)
      ensures var t := Ahead(dev.blocks, Revoking, last, start, sequence, 0);
              match CollectRevokes(map[], t)
              case None => rc == -5
              case Some(m) => rc == Verdict(t) && (rc == 0 ==> revokes == m && redirects == map[])
    {
      hide Walk, Act, CollectRevokes;
      RevokingMeaning(fmt, geo, dev.blocks, State(last), Ahead(dev.blocks, Revoking, last, start, sequence, 0));
      var stop: Word;
      rc, stop := WalkLog(Revoking, last);
    }

    /** FLUSH: the live tags go home. */
    method FlushLog(last: Word) returns (rc: int)
      requires Tidy() && start != 0 && dev.writable
      requires SafeToFlush(dev.blocks, Flushing, Ahead(dev.blocks, Flushing, last, start, sequence, 0))
      modifies this`replay, this`redirects, this`revoke, this`revokes, dev
      ensures Tidy()
      ensures var p := Flush(fmt, geo, old(dev.blocks), old(revokes), old(Ahead(dev.blocks, Flushing, last, start, sequence, 0)));
              var run := Run(fmt, geo, old(dev.blocks), old(dev.writesLeft), p);
              && dev.blocks == run.disk && dev.writesLeft == run.budget
              && rc == match run.ending { case Finished(c) => c case IoError => -2 }
    {
      hide Walk, Act, Flush, CopiesOnly, Run;
      FlushingMeaning(fmt, geo, dev.blocks, State(last), Ahead(dev.blocks, Flushing, last, start, sequence, 0));
      var stop: Word;
      rc, stop := WalkLog(Flushing, last);
    }

    /** BUILD: the redirect map. */
    method BuildMap(last: Word) returns (rc: int)
      requires Tidy() && start != 0 && redirects == map[]
      modifies this`replay, this`redirects, this`revoke, this`revokes, dev
      ensures Tidy() && dev.blocks == old(dev.blocks) && dev.writesLeft == old(dev.writesLeft)
      ensures var built := Build(fmt, geo, dev.blocks, old(revokes), map[], Ahead(dev.blocks, Building, last, start, sequence, 0));
              rc == built.rc && (rc == 0 ==> redirects == built.redirects && |replay| == |redirects|)
    {
      hide Walk, Act, Build;
      BuildingMeaning(fmt, geo, dev.blocks, State(last), Ahead(dev.blocks, Building, last, start, sequence, 0));
      var stop: Word;
      rc, stop := WalkLog(Building, last);
    }

    method DropTables()
      requires Framed()
      modifies this`replay, this`redirects, this`revoke, this`revokes
      ensures Tidy() && Valid() && replay == [] && revoke == [] && redirects == map[] && revokes == map[]
    {
      replay := [];
      redirects := map[];
      revoke := [];
      revokes := map[];
      TableEmpty<Redirect>();
      TableEmpty<Word>();
      AnswersEmpty<Redirect>();
    }

    /** The passes of one mount: FLUSH on a writable device, else BUILD. */
    method Replay() returns (rc: int)
      requires Valid() && JustOpened() && WellPlaced(geo, |dev.blocks|)
      requires dev.writable ==> CopiesOnly(geo, dev.blocks, ReplayProgram(fmt, geo, dev.blocks))
      modifies this`replay, this`redirects, this`revoke, this`revokes, this`replayActive, dev
      ensures Valid()
      ensures dev.writable ==>
                var run := Run(fmt, geo, old(dev.blocks), old(dev.writesLeft), ReplayProgram(fmt, geo, old(dev.blocks)));
                && dev.blocks == run.disk && dev.writesLeft == run.budget
                && rc == (match run.ending { case Finished(c) => c case IoError => -2 })
                && !replayActive
      ensures !dev.writable ==>
                && dev.blocks == old(dev.blocks) && dev.writesLeft == old(dev.writesLeft)
                && rc == SoftReplay(fmt, geo, dev.blocks).rc
                && (rc == 0 ==> (if replayActive then redirects else map[]) == SoftReplay(fmt, geo, dev.blocks).redirects)
    {
      hide Walk, Act, CollectRevokes, Build, Flush, CopiesOnly, Effect, Commits, Verdict, ScanResult, TableIs, Answers;
      if start == 0 {
        return 0;
      }
      var last: Word;
      NoAnswers(redirects);
      rc, last := Scan();
      TableAnswers(replay, redirects);
      if rc != 0 {
        return;
      }
      if SeqDiff(last, sequence) < 0 {
        return 0;
      }
      rc := CollectRevoked(last);
      if rc != 0 {
        DropTables();
        return;
      }
      if dev.writable {
        rc := FlushLog(last);
      } else {
        rc := BuildMap(last);
      }
      if rc != 0 {
        DropTables();
        return;
      }
      if !dev.writable {
        replayActive := |replay| > 0;
      }
      TableAnswers(replay, redirects);
    }

    // -------------------------------------------------------------- checkpoint and commit

    /** The writes of a checkpoint from the present tables. */
    ghost function CheckpointWrites(): Program<B>
      reads this
    {
      AndThen(if replayActive then EntryCopies(replay, 0) else Done(0), Cleanup(sequence))
    }

    ghost predicate NothingToClean()
      reads this
    {
      !replayActive && !recover && start == 0
    }

    /** Flushes the replay table, cleans the journal superblock, clears RECOVER. */
    method Checkpoint() returns (rc: int)
      requires Valid()
      modifies this, dev
      ensures Valid() && sequence == old(sequence)
      ensures old(NothingToClean()) ==> rc == 0
      ensures old(NothingToClean()) || !dev.writable ==>
                dev.blocks == old(dev.blocks) && dev.writesLeft == old(dev.writesLeft)
      ensures !old(NothingToClean()) && !dev.writable ==> rc == -3
      ensures !old(NothingToClean()) && dev.writable ==>
                var run := Run(fmt, geo, old(dev.blocks), old(dev.writesLeft), old(CheckpointWrites()));
                && dev.blocks == run.disk && dev.writesLeft == run.budget
                && (rc == 0 <==> run.ending == Finished(0))
      ensures rc == 0 ==> start == 0 && !recover && !replayActive
      ensures rc != 0 ==> start == old(start) && recover == old(recover) && replayActive == old(replayActive)
                          && replay == old(replay) && redirects == old(redirects)
    {
      hide Effect, TableIs, Answers;
      if !replayActive && !recover && start == 0 {
        return 0;
      }
      if !dev.writable {
        return -3;
      }
      ghost var cleanup: Program<B> := Cleanup(sequence);
      ghost var all := Run(fmt, geo, dev.blocks, dev.writesLeft, CheckpointWrites());
      if replayActive {
        var i := 0;
        while i < |replay|
          invariant 0 <= i <= |replay|
          invariant all == Run(fmt, geo, dev.blocks, dev.writesLeft, AndThen(EntryCopies(replay, i), cleanup))
          modifies dev
        {
          var e := replay[i];
          var ok := CopyHome(e.value.at, e.home, e.value.escaped);
          if !ok {
            return -1;
          }
          i := i + 1;
        }
      }
      var ok := UpdateJsb(0, sequence);
      if !ok {
        return -1;
      }
      ok := UpdateRecover(false);
      if !ok {
        return -1;
      }
      replayActive := false;
      start := 0;
      DropTables();
      recover := false;
      rc := 0;
    }

    /** Reads a log block and writes it home. */
    method CopyHome(at: nat, home: nat, escaped: bool) returns (ok: bool)
      modifies dev
      ensures Performed(Copy(at, home, escaped), ok)
    {
      var b := ReadLogBlock(at);
      if b == None {
        return false;
      }
      ok := ApplyToHome(home, b.value, escaped);
    }

    /** The data blocks of a transaction, escaped. */
    method WriteData(tx: Tx<B>) returns (ok: bool)
      requires dev.writable
      modifies dev
      ensures Run(fmt, geo, old(dev.blocks), old(dev.writesLeft), LandFrom(fmt, geo, sequence, tx, 0))
              == if ok then Run(fmt, geo, dev.blocks, dev.writesLeft, LandFrom(fmt, geo, sequence, tx, |tx|))
                 else Outcome(dev.blocks, dev.writesLeft, IoError)
    {
      hide Effect, LandFrom, Run;
      var i := 0;
      while i < |tx|
        invariant 0 <= i <= |tx|
        invariant Run(fmt, geo, old(dev.blocks), old(dev.writesLeft), LandFrom(fmt, geo, sequence, tx, 0))
                  == Run(fmt, geo, dev.blocks, dev.writesLeft, LandFrom(fmt, geo, sequence, tx, i))
      {
        var logged := fmt.Logged(tx[i].data);
        LandStep(fmt, geo, sequence, tx, i);
        RunStep(fmt, geo, dev.blocks, dev.writesLeft, PutLog(geo.first + 1 + i, logged), LandFrom(fmt, geo, sequence, tx, i + 1));
        ok := WriteLogBlock(geo.first + 1 + i, logged);
        if !ok {
          return;
        }
        i := i + 1;
      }
      ok := true;
    }

    /** Writes RECOVER, descriptor, data, commit block and journal superblock. */
    method WriteTransaction(tx: Tx<B>) returns (ok: bool)
      requires Valid() && dev.writable
      modifies dev
      ensures var run := Run(fmt, geo, old(dev.blocks), old(dev.writesLeft), LogAndLand(fmt, geo, sequence, tx));
              && dev.blocks == run.disk && dev.writesLeft == run.budget
              && (ok <==> run.ending == Finished(0))
    {
      hide Effect, TableIs, AndThen, DataPuts, LandFrom, LogAndLand, Run;
      var descriptor := fmt.descriptor(sequence, tx);
      ghost var q, from0 := sequence, LandFrom(fmt, geo, sequence, tx, 0);
      LandUnfold(fmt, geo, q, tx);
      RunStep(fmt, geo, dev.blocks, dev.writesLeft, SetRecover(true), Do(PutLog(geo.first, descriptor), from0));
      ok := UpdateRecover(true);
      if !ok {
        return;
      }
      RunStep(fmt, geo, dev.blocks, dev.writesLeft, PutLog(geo.first, descriptor), from0);
      ok := WriteLogBlock(geo.first, descriptor);
      if !ok {
        return;
      }
      ok := WriteData(tx);
      if !ok {
        return;
      }
      ghost var landing: Program<B> := Do(SetJsb(geo.first, q), Done(0));
      LandStep(fmt, geo, q, tx, |tx|);
      RunStep(fmt, geo, dev.blocks, dev.writesLeft, PutLog(geo.first + 1 + |tx|, fmt.commit(q)), landing);
      ok := WriteLogBlock(geo.first + 1 + |tx|, fmt.commit(sequence));
      if !ok {
        return;
      }
      RunStep(fmt, geo, dev.blocks, dev.writesLeft, SetJsb(geo.first, q), Done(0));
      RunDone(fmt, geo, 0);
      ok := UpdateJsb(geo.first, sequence);
    }

    /** Redirects every block of the transaction to its logged copy. */
    method ReplaceTable(tx: Tx<B>)
      requires Framed() && |tx| <= TRANS_MAX
      modifies this`replay, this`redirects
      ensures Valid() && replay == TxEntries(fmt, geo, tx, |tx|) && redirects == TxRedirects(fmt, geo, tx, |tx|)
    {
      hide TableIs, Answers;
      replay := [];
      var i := 0;
      while i < |tx|
        invariant 0 <= i <= |tx| && replay == TxEntries(fmt, geo, tx, i)
      {
        replay := replay + [Entry(tx[i].home, Redirect(geo.first + 1 + i, fmt.startsWithMagic(tx[i].data)))];
        i := i + 1;
      }
      redirects := TxRedirects(fmt, geo, tx, |tx|);
      TxTable(fmt, geo, tx, |tx|);
    }

    /** Emits a transaction and checkpoints it at once. -1: a write failed. */
    method Commit(tx: Tx<B>) returns (rc: int)
      requires Valid() && geo.first < geo.maxlen
      modifies this, dev
      ensures Valid()
      ensures rc == -2 <==> !dev.writable
      ensures rc == -3 <==> dev.writable && old(start) != 0
      ensures rc == -4 <==> dev.writable && old(start) == 0 && !(1 <= |tx| <= 8)
      ensures rc == -7 <==> dev.writable && old(start) == 0 && 1 <= |tx| <= 8 && geo.first + 1 + |tx| + 1 > geo.maxlen
      ensures rc in {-2, -3, -4, -7} ==>
                && dev.blocks == old(dev.blocks) && dev.writesLeft == old(dev.writesLeft)
                && start == old(start) && replayActive == old(replayActive)
      ensures rc !in {-2, -3, -4, -7} ==>
                var run := Run(fmt, geo, old(dev.blocks), old(dev.writesLeft), CommitProgram(fmt, geo, old(sequence), tx));
                && dev.blocks == run.disk && dev.writesLeft == run.budget
                && rc == (if run.ending == Finished(0) then 0 else -1)
      ensures rc == 0 ==> start == 0 && !replayActive && sequence == Plus(old(sequence), 1)
      ensures rc == -1 ==>
                var landed := Run(fmt, geo, old(dev.blocks), old(dev.writesLeft), LogAndLand(fmt, geo, old(sequence), tx)).ending == Finished(0);
                && replayActive == landed && sequence == old(sequence)
                && start == (if landed then geo.first else 0)
                && (landed ==> redirects == TxRedirects(fmt, geo, tx, |tx|))
    {
      hide TableIs, Answers, Run, CommitProgram, LogAndLand, EntryCopies, HomeCopies, AndThen, TxEntries, TxRedirects;
      if !dev.writable {
        return -2;
      }
      if start != 0 {
        return -3;
      }
      if |tx| == 0 || |tx| > TRANS_MAX {
        return -4;
      }
      if geo.first + 1 + |tx| + 1 > geo.maxlen {
        return -7;
      }
      RunAndThen(fmt, geo, dev.blocks, dev.writesLeft, LogAndLand(fmt, geo, sequence, tx), CheckpointProgram(fmt, geo, sequence, tx));
      LandThenCheckpoint(fmt, geo, sequence, tx);
      var ok := WriteTransaction(tx);
      if !ok {
        return -1;
      }
      start := geo.first;
      ReplaceTable(tx);
      replayActive := true;
      forall k | 0 <= k < |tx|
        ensures replay[k] == Entry(tx[k].home, Redirect(geo.first + 1 + k, fmt.startsWithMagic(tx[k].data)))
      {
        TxEntryAt(fmt, geo, tx, |tx|, k);
      }
      EntriesOfTx<B>(fmt, geo, tx, replay, 0);
      rc := Checkpoint();
      if rc != 0 {
        return -1;
      }
      sequence := Plus(sequence, 1);
    }
  }

  /** The redirects of the first `n` blocks of a transaction: of a block listed more than once,
      to its first copy. */
  function TxRedirects<B>(fmt: Format<B>, geo: Geometry, tx: Tx<B>, n: nat): ReplayMap
    requires n <= |tx|
  {
    if n == 0 then map[]
    else
      var m, home := TxRedirects(fmt, geo, tx, n - 1), tx[n - 1].home;
      if home in m then m else m[home := Redirect(geo.first + n, fmt.startsWithMagic(tx[n - 1].data))]
  }

  function TxEntries<B>(fmt: Format<B>, geo: Geometry, tx: Tx<B>, n: nat): (r: seq<Entry<Redirect>>)
    requires n <= |tx|
    ensures |r| == n
  {
    if n == 0 then []
    else TxEntries(fmt, geo, tx, n - 1) + [Entry(tx[n - 1].home, Redirect(geo.first + n, fmt.startsWithMagic(tx[n - 1].data)))]
  }

  lemma {:induction false} TxEntryAt<B>(fmt: Format<B>, geo: Geometry, tx: Tx<B>, n: nat, i: nat)
    requires i < n <= |tx|
    ensures TxEntries(fmt, geo, tx, n)[i] == Entry(tx[i].home, Redirect(geo.first + 1 + i, fmt.startsWithMagic(tx[i].data)))
  {
    if i < n - 1 {
      TxEntryAt(fmt, geo, tx, n - 1, i);
    }
  }

  lemma {:induction false} TxTable<B>(fmt: Format<B>, geo: Geometry, tx: Tx<B>, n: nat)
    requires n <= |tx|
    ensures Answers(TxEntries(fmt, geo, tx, n), TxRedirects(fmt, geo, tx, n))
  {
    hide Answers;
    if n == 0 {
      AnswersEmpty<Redirect>();
    } else {
      TxTable(fmt, geo, tx, n - 1);
      AnswersAppend(TxEntries(fmt, geo, tx, n - 1), TxRedirects(fmt, geo, tx, n - 1), tx[n - 1].home,
                    Redirect(geo.first + n, fmt.startsWithMagic(tx[n - 1].data)));
    }
  }

  /** The writes of a commit up to and including the journal superblock. */
  function LogAndLand<B>(fmt: Format<B>, geo: Geometry, q: Word, tx: Tx<B>): Program<B> {
    AndThen(LogProgram(fmt, geo, q, tx), Do(SetJsb(geo.first, q), Done(0)))
  }

  /** The log writes from data block `i` on, and the journal superblock. */
  function LandFrom<B>(fmt: Format<B>, geo: Geometry, q: Word, tx: Tx<B>, i: nat): Program<B>
    requires i <= |tx|
    decreases |tx| - i
  {
    if i < |tx| then Do(PutLog(geo.first + 1 + i, fmt.Logged(tx[i].data)), LandFrom(fmt, geo, q, tx, i + 1))
    else Do(PutLog(geo.first + 1 + |tx|, fmt.commit(q)), Do(SetJsb(geo.first, q), Done(0)))
  }

  lemma LandStep<B>(fmt: Format<B>, geo: Geometry, q: Word, tx: Tx<B>, i: nat)
    requires i <= |tx|
    ensures LandFrom(fmt, geo, q, tx, i)
            == if i < |tx| then Do(PutLog(geo.first + 1 + i, fmt.Logged(tx[i].data)), LandFrom(fmt, geo, q, tx, i + 1))
               else Do(PutLog(geo.first + 1 + |tx|, fmt.commit(q)), Do(SetJsb(geo.first, q), Done(0)))
  {
  }

  lemma RunStep<B>(fmt: Format<B>, geo: Geometry, d: Disk<B>, budget: int, s: Step<B>, rest: Program<B>)
    ensures Run(fmt, geo, d, budget, Do(s, rest))
            == var e := Effect(fmt, geo, d, s);
               if e.None? || budget == 0 then Outcome(d, budget, IoError)
               else Run(fmt, geo, d[e.value.0 := e.value.1], Spend(budget), rest)
  {
  }

  lemma RunDone<B(!new)>(fmt: Format<B>, geo: Geometry, rc: int)
    ensures forall d: Disk<B>, budget: int :: Run(fmt, geo, d, budget, Done(rc)) == Outcome(d, budget, Finished(rc))
  {
  }

  lemma LandUnfold<B>(fmt: Format<B>, geo: Geometry, q: Word, tx: Tx<B>)
    ensures LogAndLand(fmt, geo, q, tx)
            == Do(SetRecover(true), Do(PutLog(geo.first, fmt.descriptor(q, tx)), LandFrom(fmt, geo, q, tx, 0)))
  {
    var last: Program<B> := Do(PutLog(geo.first + 1 + |tx|, fmt.commit(q)), Done(0));
    var landing: Program<B> := Do(SetJsb(geo.first, q), Done(0));
    var puts := DataPuts(fmt, tx, 0, geo.first + 1, last);
    LandFromPuts(fmt, geo, q, tx, 0);
    var second: Program<B> := Do(PutLog(geo.first, fmt.descriptor(q, tx)), puts);
    assert AndThen(second, landing) == Do(PutLog(geo.first, fmt.descriptor(q, tx)), AndThen(puts, landing));
    assert LogProgram(fmt, geo, q, tx) == Do(SetRecover(true), second);
  }

  lemma {:induction false} LandFromPuts<B>(fmt: Format<B>, geo: Geometry, q: Word, tx: Tx<B>, i: nat)
    requires i <= |tx|
    ensures var last: Program<B> := Do(PutLog(geo.first + 1 + |tx|, fmt.commit(q)), Done(0));
            AndThen(DataPuts(fmt, tx, i, geo.first + 1 + i, last), Do(SetJsb(geo.first, q), Done(0)))
            == LandFrom(fmt, geo, q, tx, i)
    decreases |tx| - i
  {
    if i < |tx| {
      LandFromPuts(fmt, geo, q, tx, i + 1);
    }
  }

  lemma {:induction false} AndThenAssociative<B>(p: Program<B>, q: Program<B>, r: Program<B>)
    ensures AndThen(AndThen(p, q), r) == AndThen(p, AndThen(q, r))
    decreases p
  {
    if p.Do? {
      AndThenAssociative(p.rest, q, r);
    }
  }

  lemma LandThenCheckpoint<B>(fmt: Format<B>, geo: Geometry, q: Word, tx: Tx<B>)
    ensures AndThen(LogAndLand(fmt, geo, q, tx), CheckpointProgram(fmt, geo, q, tx)) == CommitProgram(fmt, geo, q, tx)
  {
    var landing: Program<B> := Do(SetJsb(geo.first, q), Done(0));
    AndThenAssociative(LogProgram(fmt, geo, q, tx), landing, CheckpointProgram(fmt, geo, q, tx));
  }

  /** A checkpoint from the table of a transaction makes the transaction's copies. */
  lemma {:induction false} EntriesOfTx<B>(fmt: Format<B>, geo: Geometry, tx: Tx<B>, entries: seq<Entry<Redirect>>, i: nat)
    requires |entries| == |tx| && i <= |tx|
    requires forall k :: 0 <= k < |tx| ==>
               entries[k] == Entry(tx[k].home, Redirect(geo.first + 1 + k, fmt.startsWithMagic(tx[k].data)))
    ensures EntryCopies<B>(entries, i) == HomeCopies(fmt, tx, i, geo.first + 1 + i)
    decreases |tx| - i
  {
    if i < |tx| {
      EntriesOfTx(fmt, geo, tx, entries, i + 1);
    }
  }

  lemma ScanPass<B>(fmt: Format<B>, geo: Geometry, d: Disk<B>, s: PassState<B>)
    requires WellPlaced(geo, |d|) && s.endSeq == 0
    ensures var q := fmt.jsbSequence(Jsb(geo, d));
            var r := Act(fmt, geo, d, Scanning, s, Scan(fmt, geo, d));
            && r.rc == Verdict(Scan(fmt, geo, d))
            && ScanEnd(q, r.state.endSeq) == ScanResult(q, Commits(Scan(fmt, geo, d)))
            && r.state == s.(endSeq := r.state.endSeq)
  {
    var start, q := fmt.jsbStart(Jsb(geo, d)), fmt.jsbSequence(Jsb(geo, d));
    CommitsBounded(fmt, geo, d, None, start, start, q, 0);
    WalkFollows(fmt, geo, d, None, start, start, q, 0);
    ScanningMeaning(fmt, geo, d, s, Scan(fmt, geo, d), q, geo.maxlen + 5);
  }

  /** SCAN's last step: the predecessor of `end_seq` if that lies after `q`. */
  function ScanEnd(q: Word, endSeq: Word): Word {
    if SeqDiff(endSeq, q) > 0 then Minus1(endSeq) else endSeq
  }
}
