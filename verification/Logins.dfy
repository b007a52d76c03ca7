/** From the log to the table: what the matched lines of a run make of the authorised hosts. */
module Logins {
  import opened Common
  import opened AuthHistory
  import opened Delivery
  import opened Lines
  import opened LogFollowing

  /** match_line: the host of a login line. The user name is only logged. */
  type Matcher = string -> Option<string>

  /** The adds that a chunk of lines gives rise to. */
  function AddsOf(lines: seq<string>, now: int, matcher: Matcher): seq<Event> {
    if lines == [] then []
    else
      AddsOf(lines[..|lines| - 1], now, matcher) +
      match matcher(lines[|lines| - 1])
      case None => []
      case Some(h) => [Added(h, now)]
  }

  /** In text without NUL, the newlines that pace the reads are the lines handed to the matcher. */
  lemma {:induction false} LinesCounted(text: string)
    requires '\0' !in text
    ensures NewlineCount(text) == |LinesOf(text)|
  {
    NewlinesCounted(text);
    LinesRebuild(text);
  }

  /** The program's steps: a pass over the log, or an expiry when the alarm goes off between passes. */
  datatype Step = LogPass(pass: Pass) | Expiry(now: int, timeout: int)

  function PassesOf(steps: seq<Step>): seq<Pass> {
    if steps == [] then []
    else
      PassesOf(steps[..|steps| - 1]) + if steps[|steps| - 1].LogPass? then [steps[|steps| - 1].pass] else []
  }

  /** What the table has been through, given the chunk each pass hands on. */
  ghost function HistoryOf(s: State, d: Disk, steps: seq<Step>, matcher: Matcher): seq<Event>
    requires Run(s, d, PassesOf(steps))
  {
    if steps == [] then []
    else
      var before, last := steps[..|steps| - 1], steps[|steps| - 1];
      StepBefore(s, d, steps);
      HistoryOf(s, d, before, matcher) +
      match last
      case Expiry(now, timeout) => [Cleaned(now, timeout)]
      case LogPass(p) => AddsOf(LinesOf(Chunk(StateAfter(s, d, PassesOf(before)), p)), p.now, matcher)
  }

  lemma {:induction false} StepBefore(s: State, d: Disk, steps: seq<Step>)
    requires Run(s, d, PassesOf(steps)) && steps != []
    ensures var before := steps[..|steps| - 1];
      && Run(s, d, PassesOf(before))
      && (steps[|steps| - 1].LogPass? ==>
            var p := steps[|steps| - 1].pass;
            && p.disk.WellFormed()
            && PassesOf(steps)[..|PassesOf(steps)| - 1] == PassesOf(before)
            && Fits(StateAfter(s, d, PassesOf(before)), p.disk)
            && StateAtLast(s, d, PassesOf(steps)) == StateAfter(s, d, PassesOf(before)))
      && (steps[|steps| - 1].Expiry? ==> PassesOf(steps) == PassesOf(before))
  {
    var before := steps[..|steps| - 1];
    if steps[|steps| - 1].LogPass? {
      var passes := PassesOf(steps);
      assert passes[..|passes| - 1] == PassesOf(before);
      RunBefore(s, d, passes);
      GrowthFits(StateAfter(s, d, PassesOf(before)), LastDisk(d, PassesOf(before)), passes[|passes| - 1].disk);
    } else {
      assert PassesOf(before) + [] == PassesOf(before);
    }
  }

  // ----- who is authorised when nothing expires

  /** Some line of the text is a login from this host. */
  ghost predicate LoggedIn(lines: seq<string>, matcher: Matcher, host: string) {
    exists i :: 0 <= i < |lines| && matcher(lines[i]) == Some(host)
  }

  ghost predicate WasAdded(events: seq<Event>, host: string) {
    exists k :: 0 <= k < |events| && events[k].Added? && events[k].host == host
  }

  lemma {:induction false} WasAddedAppend(a: seq<Event>, b: seq<Event>, host: string)
    ensures WasAdded(a + b, host) <==> WasAdded(a, host) || WasAdded(b, host)
  {
    if WasAdded(a, host) {
      var k :| 0 <= k < |a| && a[k].Added? && a[k].host == host;
      assert (a + b)[k] == a[k];
    }
    if WasAdded(b, host) {
      var k :| 0 <= k < |b| && b[k].Added? && b[k].host == host;
      assert (a + b)[|a| + k] == b[k];
    }
  }

  lemma {:induction false} LoggedInAppend(a: seq<string>, b: seq<string>, matcher: Matcher, host: string)
    ensures LoggedIn(a + b, matcher, host) <==> LoggedIn(a, matcher, host) || LoggedIn(b, matcher, host)
  {
    if LoggedIn(a, matcher, host) {
      var k :| 0 <= k < |a| && matcher(a[k]) == Some(host);
      assert (a + b)[k] == a[k];
    }
    if LoggedIn(b, matcher, host) {
      var k :| 0 <= k < |b| && matcher(b[k]) == Some(host);
      assert (a + b)[|a| + k] == b[k];
    }
  }

  lemma {:induction false} AddsAreLogins(lines: seq<string>, now: int, matcher: Matcher, host: string)
    ensures WasAdded(AddsOf(lines, now, matcher), host) <==> LoggedIn(lines, matcher, host)
    ensures forall k :: 0 <= k < |AddsOf(lines, now, matcher)| ==> AddsOf(lines, now, matcher)[k].Added?
  {
    if lines != [] {
      var before, last := lines[..|lines| - 1], lines[|lines| - 1];
      AddsAreLogins(before, now, matcher, host);
      var one := match matcher(last) case None => [] case Some(h) => [Added(h, now)];
      WasAddedAppend(AddsOf(before, now, matcher), one, host);
      LoggedInAppend(before, [last], matcher, host);
      assert lines == before + [last];
      assert LoggedIn([last], matcher, host) <==> matcher(last) == Some(host) by {
        assert [last][0] == last;
      }
      assert WasAdded(one, host) <==> matcher(last) == Some(host) by {
        if matcher(last) == Some(host) { assert one[0] == Added(host, now); }
      }
    }
  }

  /** The lines found pass by pass. */
  ghost function LinesSeen(s: State, d: Disk, passes: seq<Pass>): seq<string>
    requires Run(s, d, passes)
  {
    LinesOfPieces(Chunks(s, d, passes))
  }

  lemma {:induction false} PiecesAppend(a: seq<string>, b: seq<string>)
    ensures LinesOfPieces(a + b) == LinesOfPieces(a) + LinesOfPieces(b)
  {
    if a == [] {
      assert a + b == b;
    } else {
      hide LinesOf;
      PiecesAppend(a[1..], b);
      assert (a + b)[1..] == a[1..] + b && (a + b)[0] == a[0];
      calc {
        LinesOfPieces(a + b);
        LinesOf(a[0]) + LinesOfPieces(a[1..] + b);
        LinesOf(a[0]) + (LinesOfPieces(a[1..]) + LinesOfPieces(b));
        LinesOfPieces(a) + LinesOfPieces(b);
      }
    }
  }

  /** Whoever was ever added is whoever some pass saw log in. */
  lemma {:induction false} AddedAreSeen(s: State, d: Disk, steps: seq<Step>, matcher: Matcher, host: string)
    requires Run(s, d, PassesOf(steps))
    ensures WasAdded(HistoryOf(s, d, steps, matcher), host)
      <==> LoggedIn(LinesSeen(s, d, PassesOf(steps)), matcher, host)
  {
    if steps != [] {
      var before, last := steps[..|steps| - 1], steps[|steps| - 1];
      StepBefore(s, d, steps);
      AddedAreSeen(s, d, before, matcher, host);
      hide WasAdded, LoggedIn;
      match last
      case Expiry(now, timeout) =>
        CleansAddNobody(HistoryOf(s, d, before, matcher), now, timeout, host);
      case LogPass(p) =>
        var chunk := Chunk(StateAfter(s, d, PassesOf(before)), p);
        WasAddedAppend(HistoryOf(s, d, before, matcher), AddsOf(LinesOf(chunk), p.now, matcher), host);
        AddsAreLogins(LinesOf(chunk), p.now, matcher, host);
        SeenOneMore(s, d, PassesOf(steps));
        LoggedInAppend(LinesSeen(s, d, PassesOf(before)), LinesOf(chunk), matcher, host);
    }
  }

  lemma {:induction false} CleansAddNobody(events: seq<Event>, now: int, timeout: int, host: string)
    ensures WasAdded(events + [Cleaned(now, timeout)], host) <==> WasAdded(events, host)
  {
    WasAddedAppend(events, [Cleaned(now, timeout)], host);
  }

  lemma {:induction false} SeenOneMore(s: State, d: Disk, passes: seq<Pass>)
    requires Run(s, d, passes) && passes != []
    ensures Run(s, d, passes[..|passes| - 1])
    ensures LinesSeen(s, d, passes)
         == LinesSeen(s, d, passes[..|passes| - 1]) + LinesOf(Chunk(StateAtLast(s, d, passes), passes[|passes| - 1]))
  {
    RunBefore(s, d, passes);
    var before, chunk := Chunks(s, d, passes[..|passes| - 1]), Chunk(StateAtLast(s, d, passes), passes[|passes| - 1]);
    hide LinesOf;
    PiecesAppend(before, [chunk]);
    assert [chunk][1..] == [];
    assert LinesOfPieces([chunk]) == LinesOf(chunk) + [];
  }

  /**
   * Nothing having expired, the authorised hosts are exactly those of the login lines of the text delivered,
   * provided no line was cut in two by the reads; and that text is what was appended to the files followed.
   */
  lemma {:induction false} AuthorisedIff(s: State, d: Disk, steps: seq<Step>, matcher: Matcher, host: string)
    requires Run(s, d, PassesOf(steps))
    requires forall i :: 0 <= i < |steps| ==> steps[i].LogPass?
    requires Uncut(Chunks(s, d, PassesOf(steps)))
    ensures var passes := PassesOf(steps);
      var spans, end := Spans(s, d, passes), LastDisk(d, passes);
      && InText(spans, end.text)
      && (host in TableAfter(HistoryOf(s, d, steps, matcher))
          <==> LoggedIn(LinesOf(TextOf(spans, end.text)), matcher, host))
  {
    var passes, events := PassesOf(steps), HistoryOf(s, d, steps, matcher);
    Delivers(s, d, passes);
    PiecesIff(Chunks(s, d, passes));
    AddedAreSeen(s, d, steps, matcher, host);
    NothingCleaned(s, d, steps, matcher);
    ListedIff(events, host);
    var k := LastAdd(events, host);
    assert WasAdded(events, host) <==> k.Some?;
  }

  lemma {:induction false} NothingCleaned(s: State, d: Disk, steps: seq<Step>, matcher: Matcher)
    requires Run(s, d, PassesOf(steps))
    requires forall i :: 0 <= i < |steps| ==> steps[i].LogPass?
    ensures forall k :: 0 <= k < |HistoryOf(s, d, steps, matcher)| ==> HistoryOf(s, d, steps, matcher)[k].Added?
  {
    if steps != [] {
      var before := steps[..|steps| - 1];
      StepBefore(s, d, steps);
      NothingCleaned(s, d, before, matcher);
      var p := steps[|steps| - 1].pass;
      AddsAreLogins(LinesOf(Chunk(StateAfter(s, d, PassesOf(before)), p)), p.now, matcher, "");
    }
  }

  /** Every write to the logs ends a line. */
  ghost predicate InLines(d: Disk) {
    forall f :: f in d.text ==> Ended(d.text[f])
  }

  /** If the logs are written in whole lines, no read cuts one in two. */
  lemma {:induction false} WrittenInLines(s: State, d: Disk, passes: seq<Pass>)
    requires Run(s, d, passes) && forall i :: 0 <= i < |passes| ==> InLines(passes[i].disk)
    ensures Uncut(Chunks(s, d, passes))
  {
    ChunksInLines(s, d, passes);
    WholeIsUncut(Chunks(s, d, passes));
  }

  lemma {:induction false} ChunkInLines(s: State, p: Pass)
    requires Fits(s, p.disk) && InLines(p.disk)
    ensures Ended(Chunk(s, p))
  {
    if !Reopens(s, p) && Chunk(s, p) != "" {
      var text := p.disk.text[s.handle.value.file];
      assert Chunk(s, p)[|Chunk(s, p)| - 1] == text[|text| - 1];
    }
  }

  lemma {:induction false} ChunksInLines(s: State, d: Disk, passes: seq<Pass>)
    requires Run(s, d, passes) && forall i :: 0 <= i < |passes| ==> InLines(passes[i].disk)
    ensures forall i :: 0 <= i < |passes| ==> Ended(Chunks(s, d, passes)[i])
  {
    if passes != [] {
      RunBefore(s, d, passes);
      ChunksInLines(s, d, passes[..|passes| - 1]);
      ChunkInLines(StateAtLast(s, d, passes), passes[|passes| - 1]);
      hide Run, Ended, InLines, Chunk, StateAtLast;
    }
  }

  /** The steps are passes without an expiry between them, and their reads cut no line in two. */
  ghost predicate PassesAlone(s: State, d: Disk, steps: seq<Step>, passes: seq<Pass>) {
    && passes == PassesOf(steps) && (forall i :: 0 <= i < |steps| ==> steps[i].LogPass?)
    && Run(s, d, passes) && Uncut(Chunks(s, d, passes))
  }

  /**
   * A log kept under one name, nothing having expired: the authorised hosts are exactly those of the login
   * lines appended to it since it was opened, up to its end at the latest pass that was not impatient.
   */
  lemma {:induction false} AuthorisedOneLog(s: State, d: Disk, steps: seq<Step>, passes: seq<Pass>, matcher: Matcher,
          host: string)
    requires PassesAlone(s, d, steps, passes) && s.handle.Some?
    requires forall i :: 0 <= i < |passes| ==> passes[i].disk.path == Some(s.handle.value.file)
    ensures var h := s.handle.value;
      var text, upTo := LastDisk(d, passes).text[h.file], ReadUpTo(h.file, h.offset, passes);
      && h.offset <= upTo <= |text|
      && (passes != [] && passes[|passes| - 1].suspicious >= 0 ==> upTo == |text|)
      && (host in TableAfter(HistoryOf(s, d, steps, matcher))
          <==> LoggedIn(LinesOf(text[h.offset..upTo]), matcher, host))
  {
    AuthorisedIff(s, d, steps, matcher, host);
    OneFile(s, d, passes);
    Delivers(s, d, passes);
  }

  /**
   * The same for a log that is rotated safely: the login lines are those of `read`, which with what still
   * waits in the open file is the whole text of the files followed, one after another, from the opening
   * position on.
   */
  lemma {:induction false} AuthorisedRotated(s: State, d: Disk, steps: seq<Step>, passes: seq<Pass>, matcher: Matcher,
          host: string)
    returns (read: string)
    requires PassesAlone(s, d, steps, passes) && s.handle.Some? && SafeRun(s, d, passes)
    ensures var spans, end := Spans(s, d, passes), LastDisk(d, passes);
      && InText(spans, end.text) && s.handle.value.offset <= |WholeText(spans, end.text)|
      && read + Unread(StateAfter(s, d, passes), end) == WholeText(spans, end.text)[s.handle.value.offset..]
    ensures host in TableAfter(HistoryOf(s, d, steps, matcher)) <==> LoggedIn(LinesOf(read), matcher, host)
  {
    AuthorisedIff(s, d, steps, matcher, host);
    DeliversTheLog(s, d, passes);
    Delivers(s, d, passes);
    hide Run, SafeRun, Chunks, Spans, StateAfter, LoggedIn, LinesOf, Uncut, TableAfter, HistoryOf, WholeText;
    read := Flatten(Chunks(s, d, passes));
  }

  // ----- expiry over runs

  function TimeOf(step: Step): int {
    match step
    case LogPass(p) => p.now
    case Expiry(now, _) => now
  }

  /** The clock did not run backwards over the steps, and shows `now`. */
  predicate ClockRuns(steps: seq<Step>, now: int) {
    && (forall i, j :: 0 <= i <= j < |steps| ==> TimeOf(steps[i]) <= TimeOf(steps[j]))
    && (forall i :: 0 <= i < |steps| ==> TimeOf(steps[i]) <= now)
  }

  predicate SameTimeout(steps: seq<Step>, timeout: int) {
    forall i :: 0 <= i < |steps| && steps[i].Expiry? ==> steps[i].timeout == timeout
  }

  /** The time of the latest expiry; a program that has just started counts as cleaned then. */
  function LastExpiry(steps: seq<Step>, started: int): int {
    if steps == [] then started
    else if steps[|steps| - 1].Expiry? then steps[|steps| - 1].now
    else LastExpiry(steps[..|steps| - 1], started)
  }

  /** Some pass less than `age` ago handed on a login line of this host. */
  ghost predicate LoginWithin(s: State, d: Disk, steps: seq<Step>, matcher: Matcher, host: string, now: int, age: int)
    requires Run(s, d, PassesOf(steps))
  {
    steps != [] &&
    var before, last := steps[..|steps| - 1], steps[|steps| - 1];
    StepBefore(s, d, steps);
    || LoginWithin(s, d, before, matcher, host, now, age)
    || (last.LogPass? && now - last.pass.now < age
        && LoggedIn(LinesOf(Chunk(StateAfter(s, d, PassesOf(before)), last.pass)), matcher, host))
  }

  ghost predicate AddedWithin(events: seq<Event>, host: string, now: int, age: int) {
    exists k :: 0 <= k < |events| && events[k].Added? && events[k].host == host && now - events[k].at < age
  }

  lemma {:induction false} AddedWithinAppend(a: seq<Event>, b: seq<Event>, host: string, now: int, age: int)
    ensures AddedWithin(a + b, host, now, age) <==> AddedWithin(a, host, now, age) || AddedWithin(b, host, now, age)
  {
    if AddedWithin(a, host, now, age) {
      var k :| 0 <= k < |a| && a[k].Added? && a[k].host == host && now - a[k].at < age;
      assert (a + b)[k] == a[k];
    }
    if AddedWithin(b, host, now, age) {
      var k :| 0 <= k < |b| && b[k].Added? && b[k].host == host && now - b[k].at < age;
      assert (a + b)[|a| + k] == b[k];
    }
  }

  /** Under a clock that runs forward the latest add is the one that counts. */
  lemma {:induction false} LatestCounts(events: seq<Event>, host: string, now: int, age: int)
    requires Nondecreasing(events)
    ensures AddedWithin(events, host, now, age) <==>
      LastAdd(events, host).Some? && now - events[LastAdd(events, host).value].at < age
  {
    if AddedWithin(events, host, now, age) {
      var k :| 0 <= k < |events| && events[k].Added? && events[k].host == host && now - events[k].at < age;
      assert k <= LastAdd(events, host).value;
    }
  }

  lemma {:induction false} AddsAreNow(lines: seq<string>, now: int, matcher: Matcher)
    ensures forall k :: 0 <= k < |AddsOf(lines, now, matcher)| ==> AddsOf(lines, now, matcher)[k].at == now
  {
    if lines != [] {
      AddsAreNow(lines[..|lines| - 1], now, matcher);
    }
  }

  lemma {:induction false} AddsWithin(lines: seq<string>, at: int, matcher: Matcher, host: string, now: int, age: int)
    ensures AddedWithin(AddsOf(lines, at, matcher), host, now, age) <==>
      now - at < age && LoggedIn(lines, matcher, host)
  {
    AddsAreNow(lines, at, matcher);
    AddsAreLogins(lines, at, matcher, host);
    hide AddsOf, LoggedIn;
    if now - at < age && WasAdded(AddsOf(lines, at, matcher), host) {
      var events := AddsOf(lines, at, matcher);
      var k :| 0 <= k < |events| && events[k].Added? && events[k].host == host;
      assert now - events[k].at < age;
    }
  }

  /** The adds of a run are the login lines its passes handed on. */
  lemma {:induction false} LoginsAreAdds(s: State, d: Disk, steps: seq<Step>, matcher: Matcher, host: string, now: int,
          age: int)
    requires Run(s, d, PassesOf(steps))
    ensures AddedWithin(HistoryOf(s, d, steps, matcher), host, now, age)
      <==> LoginWithin(s, d, steps, matcher, host, now, age)
  {
    if steps != [] {
      var before, last := steps[..|steps| - 1], steps[|steps| - 1];
      StepBefore(s, d, steps);
      LoginsAreAdds(s, d, before, matcher, host, now, age);
      hide AddedWithin, LoggedIn, Run, Fits;
      match last
      case Expiry(t, timeout) =>
        AddedWithinAppend(HistoryOf(s, d, before, matcher), [Cleaned(t, timeout)], host, now, age);
        NoAddIn(t, timeout, host, now, age);
      case LogPass(p) =>
        var lines := LinesOf(Chunk(StateAfter(s, d, PassesOf(before)), p));
        AddedWithinAppend(HistoryOf(s, d, before, matcher), AddsOf(lines, p.now, matcher), host, now, age);
        AddsWithin(lines, p.now, matcher, host, now, age);
    }
  }

  lemma NoAddIn(t: int, timeout: int, host: string, now: int, age: int)
    ensures !AddedWithin([Cleaned(t, timeout)], host, now, age)
  {
  }

  /** What one step adds to the history is of its time. */
  lemma {:induction false} HistoryStep(s: State, d: Disk, steps: seq<Step>, matcher: Matcher) returns (more: seq<Event>)
    requires Run(s, d, PassesOf(steps)) && steps != []
    ensures Run(s, d, PassesOf(steps[..|steps| - 1]))
    ensures HistoryOf(s, d, steps, matcher) == HistoryOf(s, d, steps[..|steps| - 1], matcher) + more
    ensures forall k :: 0 <= k < |more| ==> more[k].at == TimeOf(steps[|steps| - 1])
    ensures match steps[|steps| - 1]
      case LogPass(p) => forall k :: 0 <= k < |more| ==> more[k].Added?
      case Expiry(now, timeout) => more == [Cleaned(now, timeout)]
  {
    StepBefore(s, d, steps);
    var before := steps[..|steps| - 1];
    match steps[|steps| - 1]
    case Expiry(now, timeout) => more := [Cleaned(now, timeout)];
    case LogPass(p) =>
      var lines := LinesOf(Chunk(StateAfter(s, d, PassesOf(before)), p));
      more := AddsOf(lines, p.now, matcher);
      AddsAreNow(lines, p.now, matcher);
      AddsAreLogins(lines, p.now, matcher, "");
  }

  /** The history of a run has the run's clock, timeout and latest clean. */
  lemma {:induction false} HistoryClock(s: State, d: Disk, steps: seq<Step>, matcher: Matcher, started: int, now: int,
          timeout: int)
    requires Run(s, d, PassesOf(steps)) && ClockRuns(steps, now) && SameTimeout(steps, timeout)
    requires forall i :: 0 <= i < |steps| ==> started <= TimeOf(steps[i])
    ensures var events := HistoryOf(s, d, steps, matcher);
      && Nondecreasing(events) && Within(events, started, now) && ConstantTimeout(events, timeout)
      && LastClean(events, started) == LastExpiry(steps, started)
  {
    if steps != [] {
      var before, last := steps[..|steps| - 1], steps[|steps| - 1];
      var more := HistoryStep(s, d, steps, matcher);
      HistoryClock(s, d, before, matcher, started, TimeOf(last), timeout);
      hide HistoryOf, Run;
      ClockAppend(HistoryOf(s, d, before, matcher), more, started, TimeOf(last), timeout);
    }
  }

  lemma {:induction false} ClockAppend(events: seq<Event>, more: seq<Event>, started: int, at: int, timeout: int)
    requires Nondecreasing(events) && Within(events, started, at) && ConstantTimeout(events, timeout) && started <= at
    requires forall k :: 0 <= k < |more| ==> more[k].at == at
    requires (forall k :: 0 <= k < |more| ==> more[k].Added?) || more == [Cleaned(at, timeout)]
    ensures Nondecreasing(events + more) && Within(events + more, started, at)
    ensures ConstantTimeout(events + more, timeout)
    ensures LastClean(events + more, started)
         == if more == [Cleaned(at, timeout)] then at else LastClean(events, started)
  {
    if more == [Cleaned(at, timeout)] {
      assert (events + more)[..|events|] == events;
    } else {
      AddsCleanNothing(events, more, started);
    }
  }

  lemma {:induction false} AddsCleanNothing(events: seq<Event>, more: seq<Event>, started: int)
    requires forall k :: 0 <= k < |more| ==> more[k].Added?
    ensures LastClean(events + more, started) == LastClean(events, started)
  {
    if more == [] {
      assert events + more == events;
    } else {
      var all, front := events + more, more[..|more| - 1];
      assert all[..|all| - 1] == events + front && all[|all| - 1] == more[|more| - 1];
      AddsCleanNothing(events, front, started);
    }
  }

  lemma {:induction false} KeptWithin(events: seq<Event>, started: int, now: int, timeout: int, host: string)
    requires Nondecreasing(events) && ConstantTimeout(events, timeout) && Within(events, started, now)
    ensures host in TableAfter(events + [Cleaned(now, timeout)]) <==> AddedWithin(events, host, now, timeout)
  {
    HistoryTheorem(events, now, timeout, host);
    LatestCounts(events, host, now, timeout);
  }

  /**
   * Right after an expiry, under a clock that never ran backwards and a fixed timeout, the authorised hosts
   * are those with a login line that a pass handed on less than the timeout ago, however many expiries ran
   * before and whenever they did.
   */
  lemma {:induction false} AfterExpiry(s: State, d: Disk, steps: seq<Step>, now: int, timeout: int, matcher: Matcher,
          host: string)
    requires Run(s, d, PassesOf(steps)) && ClockRuns(steps, now) && SameTimeout(steps, timeout)
    ensures var all := steps + [Expiry(now, timeout)];
      && Run(s, d, PassesOf(all))
      && (host in TableAfter(HistoryOf(s, d, all, matcher)) <==> LoginWithin(s, d, steps, matcher, host, now, timeout))
  {
    var all := steps + [Expiry(now, timeout)];
    assert all[..|all| - 1] == steps && PassesOf(all) == PassesOf(steps) + [] == PassesOf(steps);
    var more := HistoryStep(s, d, all, matcher);
    var started := if steps == [] then now else TimeOf(steps[0]);
    HistoryClock(s, d, steps, matcher, started, now, timeout);
    LoginsAreAdds(s, d, steps, matcher, host, now, timeout);
    hide *;
    KeptWithin(HistoryOf(s, d, steps, matcher), started, now, timeout, host);
  }

  lemma {:induction false} ListedWithin(events: seq<Event>, started: int, now: int, timeout: int, flush: int,
          host: string)
    requires Nondecreasing(events) && ConstantTimeout(events, timeout) && timeout > 0 && Within(events, started, now)
    ensures AddedWithin(events, host, now, timeout) ==> host in TableAfter(events)
    ensures now - LastClean(events, started) <= flush && host in TableAfter(events) ==>
      AddedWithin(events, host, now, timeout + flush)
  {
    LatestCounts(events, host, now, timeout);
    LatestCounts(events, host, now, timeout + flush);
    ListedIff(events, host);
    hide AddedWithin, TableAfter;
    if AddedWithin(events, host, now, timeout) {
      FreshIsListed(events, timeout, now, host);
    }
    if now - LastClean(events, started) <= flush && host in TableAfter(events) {
      ListedIsRecent(events, started, timeout, flush, now, host);
    }
  }

  /**
   * At any moment: a host with a login line handed on less than the timeout ago is authorised; and if the
   * latest expiry is at most `flush` ago, an authorised host has one handed on less than timeout + flush ago.
   */
  lemma {:induction false} Retention(s: State, d: Disk, steps: seq<Step>, started: int, now: int, timeout: int,
          flush: int, matcher: Matcher, host: string)
    requires Run(s, d, PassesOf(steps)) && ClockRuns(steps, now) && SameTimeout(steps, timeout) && timeout > 0
    requires forall i :: 0 <= i < |steps| ==> started <= TimeOf(steps[i])
    ensures LoginWithin(s, d, steps, matcher, host, now, timeout) ==>
      host in TableAfter(HistoryOf(s, d, steps, matcher))
    ensures now - LastExpiry(steps, started) <= flush && host in TableAfter(HistoryOf(s, d, steps, matcher)) ==>
      LoginWithin(s, d, steps, matcher, host, now, timeout + flush)
  {
    hide *;
    HistoryClock(s, d, steps, matcher, started, now, timeout);
    ListedWithin(HistoryOf(s, d, steps, matcher), started, now, timeout, flush, host);
    LoginsAreAdds(s, d, steps, matcher, host, now, timeout);
    LoginsAreAdds(s, d, steps, matcher, host, now, timeout + flush);
  }
}
