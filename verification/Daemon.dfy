/** The main loop (exact.c:57-72 and 219-221), with the alarm's expiries falling between passes. */
module Daemon {
  import opened AuthHistory
  import opened AuthTable
  import opened Follower
  import opened Lines
  import opened LogFollowing
  import opened Logins

  /** No matched host is as long as the buffers of the table. */
  ghost predicate ShortHosts(matcher: Matcher) {
    forall line: string :: matcher(line).Some? ==> |matcher(line).value| < MATCH_LOGIN_HOSTNAME_MAX
  }

  /** What the scan of the buffer has done when it has looked at the first i characters of the chunk. */
  ghost predicate Scanned(buff: seq<char>, chunk: string, start: nat, i: nat) {
    && start <= i <= |chunk| < |buff|
    && buff[i..|chunk|] == chunk[i..]
    && buff[start..i] == chunk[start..i] == Unended(chunk[..i])
    && '\0' !in buff[start..i]
  }

  lemma {:induction false} ScannedMore(buff: seq<char>, chunk: string, start: nat, i: nat)
    requires Scanned(buff, chunk, start, i) && i < |chunk|
    ensures buff[i] == chunk[i]
    ensures LinesOf(chunk[..i + 1])
         == if EndsLine(chunk[i]) then LinesOf(chunk[..i]) + [chunk[start..i]] else LinesOf(chunk[..i])
    ensures EndsLine(chunk[i]) ==>
      CString(buff[i := '\0'], start) == chunk[start..i] && Scanned(buff[i := '\0'], chunk, i + 1, i + 1)
    ensures !EndsLine(chunk[i]) ==> Scanned(buff, chunk, start, i + 1)
  {
    assert buff[i] == buff[i..|chunk|][0] == chunk[i..][0];
    OneMore(chunk[..i], chunk[i]);
    assert chunk[..i + 1] == chunk[..i] + [chunk[i]];
    hide LinesOf, Unended;
    assert buff[i + 1..|chunk|] == buff[i..|chunk|][1..] && chunk[i..][1..] == chunk[i + 1..];
    if EndsLine(chunk[i]) {
      LineCut(buff, chunk, start, i);
    } else {
      assert buff[start..i + 1] == buff[start..i] + [buff[i]] && chunk[start..i + 1] == chunk[start..i] + [chunk[i]];
    }
  }

  lemma {:induction false} LineCut(buff: seq<char>, chunk: string, start: nat, i: nat)
    requires start <= i < |chunk| < |buff| && '\0' !in buff[start..i]
    requires buff[start..i] == chunk[start..i] && buff[i + 1..|chunk|] == chunk[i + 1..]
    requires Unended(chunk[..i + 1]) == ""
    ensures CString(buff[i := '\0'], start) == chunk[start..i] && Scanned(buff[i := '\0'], chunk, i + 1, i + 1)
  {
    hide Unended;
    var cut := buff[i := '\0'];
    assert cut[start..i] == buff[start..i] && cut[i + 1..|chunk|] == buff[i + 1..|chunk|];
    assert cut[i + 1..i + 1] == "" == chunk[i + 1..i + 1];
    CStringIs(cut, start, i);
  }

  lemma {:induction false} AddsOneMore(lines: seq<string>, line: string, now: int, matcher: Matcher)
    ensures AddsOf(lines + [line], now, matcher)
         == AddsOf(lines, now, matcher) + match matcher(line) case None => [] case Some(h) => [Added(h, now)]
  {
    assert (lines + [line])[..|lines|] == lines;
  }

  /** Hand one line to the matcher, and a matched host to the table. */
  method HandLine(table: Table, line: string, now: int, matcher: Matcher)
    requires table.Valid() && ShortHosts(matcher)
    modifies table, table.auth, table.shadow
    ensures table.Valid()
    ensures table.history == old(table.history) + match matcher(line) case None => [] case Some(h) => [Added(h, now)]
    ensures (table.auth == old(table.auth) && table.shadow == old(table.shadow))
      || (fresh(table.auth) && fresh(table.shadow))
  {
    var login := matcher(line);
    if login.Some? {
      table.AuthTextAdd(login.value, now);
    }
  }

  /** The loop of onepass: end every line of the buffer in place and hand it on. */
  method CutBuffer(buff: array<char>, len: nat, table: Table, time: int, matcher: Matcher)
    requires len < buff.Length && table.Valid() && ShortHosts(matcher)
    modifies buff, table, table.auth, table.shadow
    ensures table.Valid()
    ensures table.history == old(table.history) + AddsOf(LinesOf(old(buff[..len])), time, matcher)
    ensures forall k :: 0 <= k < len ==> buff[k] == if old(buff[k]) == '\n' then '\0' else old(buff[k])
    ensures forall k :: len <= k < buff.Length ==> buff[k] == old(buff[k])
    ensures (table.auth == old(table.auth) && table.shadow == old(table.shadow))
      || (fresh(table.auth) && fresh(table.shadow))
  {
    hide Table.Valid, Scanned, LinesOf, AddsOf, ShortHosts;
    var start := 0;
    ghost var chunk, now := buff[..len], buff[..];
    StartScan(now, chunk, time, matcher);
    for i := 0 to len
      invariant now == buff[..] && start <= i && Scanned(now, chunk, start, i)
      invariant forall k :: 0 <= k < i ==> buff[k] == if chunk[k] == '\n' then '\0' else chunk[k]
      invariant forall k :: i <= k < buff.Length ==> buff[k] == old(buff[k])
      invariant table.Valid()
      invariant table.history == old(table.history) + AddsOf(LinesOf(chunk[..i]), time, matcher)
      invariant (table.auth == old(table.auth) && table.shadow == old(table.shadow))
        || (fresh(table.auth) && fresh(table.shadow))
    {
      ScannedMore(now, chunk, start, i);
      if buff[i] == '\n' || buff[i] == '\0' {
        buff[i] := '\0';
        now := now[i := '\0'];
        var line := CString(buff[..], start);
        AddsOneMore(LinesOf(chunk[..i]), line, time, matcher);
        HandLine(table, line, time, matcher);
        start := i + 1;
      }
    }
    assert chunk[..len] == chunk;
  }

  /** onepass: read, cut the buffer into lines, and feed the matched hosts to the table. */
  method OnePass(tail: Tail, table: Table, p: Pass, matcher: Matcher)
    requires tail.Valid() && Fits(tail.Now(), p.disk) && table.Valid() && ShortHosts(matcher)
    modifies tail, tail.buff, table, table.auth, table.shadow
    ensures tail.Valid() && tail.Now() == After(old(tail.Now()), p)
    ensures tail.buff == old(tail.buff) || fresh(tail.buff)
    ensures table.Valid()
    ensures table.history == old(table.history) + AddsOf(LinesOf(Chunk(old(tail.Now()), p)), p.now, matcher)
    ensures (table.auth == old(table.auth) && table.shadow == old(table.shadow))
      || (fresh(table.auth) && fresh(table.shadow))
  {
    hide After, Chunk, LinesOf, AddsOf, ShortHosts;
    tail.TailRead(p);
    CutBuffer(tail.buff, tail.bufflen, table, p.now, matcher);
  }

  lemma StartScan(buff: seq<char>, chunk: string, time: int, matcher: Matcher)
    requires |chunk| < |buff| && buff[..|chunk|] == chunk
    ensures Scanned(buff, chunk, 0, 0) && AddsOf(LinesOf(chunk[..0]), time, matcher) == []
  {
  }

  // ----- the loop

  lemma {:induction false} PassesPrefix(steps: seq<Step>, i: nat)
    requires i <= |steps|
    ensures PassesOf(steps[..i]) <= PassesOf(steps)
    decreases |steps| - i
  {
    if i == |steps| {
      assert steps[..i] == steps;
    } else {
      PassesPrefix(steps, i + 1);
      assert steps[..i + 1][..i] == steps[..i];
      assert PassesOf(steps[..i]) <= PassesOf(steps[..i + 1]);
    }
  }

  lemma {:induction false} RunPrefix(s: State, d: Disk, steps: seq<Step>, i: nat)
    requires Run(s, d, PassesOf(steps)) && i <= |steps|
    ensures Run(s, d, PassesOf(steps[..i]))
  {
    PassesPrefix(steps, i);
    FewerPasses(s, d, PassesOf(steps), PassesOf(steps[..i]));
  }

  lemma {:induction false} FewerPasses(s: State, d: Disk, all: seq<Pass>, some: seq<Pass>)
    requires Run(s, d, all) && some <= all
    ensures Run(s, d, some)
  {
    hide Disk.WellFormed, Grows, Fits;
    assert forall k :: 0 <= k < |some| ==> some[k] == all[k];
  }

  /** What one step does to the run. */
  lemma {:induction false} LoopStep(s: State, d: Disk, steps: seq<Step>, i: nat, matcher: Matcher)
    requires Run(s, d, PassesOf(steps)) && i < |steps|
    ensures Run(s, d, PassesOf(steps[..i])) && Run(s, d, PassesOf(steps[..i + 1]))
    ensures var t, t' := StateAfter(s, d, PassesOf(steps[..i])), StateAfter(s, d, PassesOf(steps[..i + 1]));
      var h, h' := HistoryOf(s, d, steps[..i], matcher), HistoryOf(s, d, steps[..i + 1], matcher);
      match steps[i]
      case LogPass(p) => Fits(t, p.disk) && t' == After(t, p) && h' == h + AddsOf(LinesOf(Chunk(t, p)), p.now, matcher)
      case Expiry(now, timeout) => t' == t && h' == h + [Cleaned(now, timeout)]
  {
    RunPrefix(s, d, steps, i);
    RunPrefix(s, d, steps, i + 1);
    assert steps[..i + 1][..i] == steps[..i];
    StepBefore(s, d, steps[..i + 1]);
    hide Run, Fits, AddsOf, LinesOf, Chunk, After;
  }

  /** The follower and the table are where the first i steps take them. */
  ghost predicate Reached(tail: Tail, table: Table, s: State, d: Disk, steps: seq<Step>, i: nat, matcher: Matcher)
    requires i <= |steps|
    reads tail, table, table.auth, table.shadow
  {
    && Run(s, d, PassesOf(steps[..i]))
    && tail.Valid() && tail.Now() == StateAfter(s, d, PassesOf(steps[..i]))
    && table.Valid() && table.history == HistoryOf(s, d, steps[..i], matcher)
  }

  lemma {:induction false} LoopStarts(s: State, d: Disk, steps: seq<Step>, matcher: Matcher)
    requires Run(s, d, PassesOf(steps))
    ensures Run(s, d, PassesOf(steps[..0]))
    ensures StateAfter(s, d, PassesOf(steps[..0])) == s && HistoryOf(s, d, steps[..0], matcher) == []
  {
    RunPrefix(s, d, steps, 0);
    assert steps[..0] == [];
  }

  /** One turn of the loop, or the alarm. */
  method Turn(tail: Tail, table: Table, steps: seq<Step>, i: nat, matcher: Matcher, ghost s: State, ghost d: Disk)
    requires i < |steps| && Run(s, d, PassesOf(steps)) && ShortHosts(matcher)
    requires Reached(tail, table, s, d, steps, i, matcher)
    modifies tail, tail.buff, table, table.auth, table.shadow
    ensures Reached(tail, table, s, d, steps, i + 1, matcher)
    ensures tail.buff == old(tail.buff) || fresh(tail.buff)
    ensures fresh(table.auth) || table.auth == old(table.auth) || table.auth == old(table.shadow)
    ensures fresh(table.shadow) || table.shadow == old(table.auth) || table.shadow == old(table.shadow)
  {
    LoopStep(s, d, steps, i, matcher);
    hide ShortHosts, Table.Valid, After, Chunk, AddsOf, LinesOf, Run, HistoryOf, Fits, StateAfter, PassesOf;
    match steps[i]
    case LogPass(p) => OnePass(tail, table, p, matcher);
    case Expiry(now, timeout) => table.AuthTextClean(now, timeout);
  }

  /**
   * The main loop, for any finite stretch of its run: the follower and the table end up where the run of
   * the steps takes them, and the relay file lists exactly the hosts of the table.
   */
  method MainLoop(tail: Tail, table: Table, steps: seq<Step>, matcher: Matcher, ghost d: Disk)
    requires tail.Valid() && Run(tail.Now(), d, PassesOf(steps))
    requires table.Valid() && table.history == [] && ShortHosts(matcher)
    modifies tail, tail.buff, table, table.auth, table.shadow
    ensures tail.Valid() && tail.Now() == StateAfter(old(tail.Now()), d, PassesOf(steps))
    ensures table.Valid() && table.history == HistoryOf(old(tail.Now()), d, steps, matcher)
    ensures forall h :: h in table.relay <==> h in TableAfter(HistoryOf(old(tail.Now()), d, steps, matcher))
  {
    ghost var s := tail.Now();
    LoopStarts(s, d, steps, matcher);
    assert Reached(tail, table, s, d, steps, 0, matcher);
    hide *;
    for i := 0 to |steps|
      invariant Reached(tail, table, s, d, steps, i, matcher)
      invariant tail.buff == old(tail.buff) || fresh(tail.buff)
      invariant fresh(table.auth) || table.auth == old(table.auth) || table.auth == old(table.shadow)
      invariant fresh(table.shadow) || table.shadow == old(table.auth) || table.shadow == old(table.shadow)
    {
      Turn(tail, table, steps, i, matcher, s, d);
    }
    AllReached(tail, table, s, d, steps, matcher);
  }

  lemma {:induction false} AllReached(tail: Tail, table: Table, s: State, d: Disk, steps: seq<Step>, matcher: Matcher)
    requires Reached(tail, table, s, d, steps, |steps|, matcher)
    ensures Run(s, d, PassesOf(steps))
    ensures tail.Valid() && tail.Now() == StateAfter(s, d, PassesOf(steps))
    ensures table.Valid() && table.history == HistoryOf(s, d, steps, matcher)
    ensures forall h :: h in table.relay <==> h in TableAfter(HistoryOf(s, d, steps, matcher))
  {
    assert steps[..|steps|] == steps;
    table.RelayLists();
  }

  /**
   * Who is in the relay file after any finite stretch of the main loop, from the steps alone. A host with a
   * login line handed on less than the timeout ago is there, and right after an expiry nobody else is; and as
   * long as the latest expiry is at most `flush` ago, whoever is there has a login line handed on less than
   * timeout + flush ago.
   */
  lemma {:induction false} Relayed(table: Table, s: State, d: Disk, steps: seq<Step>, matcher: Matcher, started: int,
          now: int, timeout: int, flush: int, host: string)
    requires Run(s, d, PassesOf(steps)) && table.Valid() && table.history == HistoryOf(s, d, steps, matcher)
    requires ClockRuns(steps, now) && SameTimeout(steps, timeout) && timeout > 0
    requires forall i :: 0 <= i < |steps| ==> started <= TimeOf(steps[i])
    ensures LoginWithin(s, d, steps, matcher, host, now, timeout) ==> host in table.relay
    ensures steps != [] && steps[|steps| - 1] == Expiry(now, timeout) ==>
      (host in table.relay <==> LoginWithin(s, d, steps, matcher, host, now, timeout))
    ensures now - LastExpiry(steps, started) <= flush && host in table.relay ==>
      LoginWithin(s, d, steps, matcher, host, now, timeout + flush)
  {
    table.RelayLists();
    hide Table.Valid, Run, HistoryOf, LoginWithin;
    Retention(s, d, steps, started, now, timeout, flush, matcher, host);
    Retention(s, d, steps, started, now, timeout, 0, matcher, host);
  }
}
