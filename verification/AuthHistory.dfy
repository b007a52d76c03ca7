/** The law of the authorisation table, stated on the history of adds and cleans alone. */
module AuthHistory {
  import opened Common

  /** A login seen at a time, or an expiry pass at a time under the timeout then configured. */
  datatype Event =
    | Added(host: string, at: int)
    | Cleaned(at: int, timeout: int)

  /** What one event does to the hosts and their last login times. */
  function Apply(m: map<string, int>, e: Event): map<string, int> {
    match e
    case Added(h, t) => m[h := t]
    case Cleaned(t, timeout) => map h | h in m && t - m[h] < timeout :: m[h]
  }

  function TableAfter(events: seq<Event>): map<string, int> {
    if events == [] then map[] else Apply(TableAfter(events[..|events| - 1]), events[|events| - 1])
  }

  /** The position of the host's most recent add. */
  function LastAdd(events: seq<Event>, host: string): (r: Option<nat>)
    ensures r.Some? ==> r.value < |events| && events[r.value].Added? && events[r.value].host == host
    ensures r.Some? ==> forall j :: r.value < j < |events| && events[j].Added? ==> events[j].host != host
    ensures r.None? ==> forall j :: 0 <= j < |events| && events[j].Added? ==> events[j].host != host
  {
    if events == [] then None
    else
      var last := events[|events| - 1];
      if last.Added? && last.host == host then Some(|events| - 1)
      else LastAdd(events[..|events| - 1], host)
  }

  /** Every clean since position k found the login at k fresh enough. */
  ghost predicate Survives(events: seq<Event>, k: nat)
    requires k < |events|
  {
    forall j :: k < j < |events| && events[j].Cleaned? ==> events[j].at - events[k].at < events[j].timeout
  }

  /**
   * The general law, with no assumption about the clock or the timeouts: a host is listed, with its last
   * login time, exactly if it ever logged in and every clean since its last login let it pass.
   */
  lemma {:induction false} ListedIff(events: seq<Event>, host: string)
    ensures host in TableAfter(events) <==> LastAdd(events, host).Some? && Survives(events, LastAdd(events, host).value)
    ensures host in TableAfter(events) ==> TableAfter(events)[host] == events[LastAdd(events, host).value].at
  {
    if events != [] {
      var before, last := events[..|events| - 1], events[|events| - 1];
      ListedIff(before, host);
      var k := LastAdd(events, host);
      if !(last.Added? && last.host == host) && k.Some? {
        assert LastAdd(before, host) == k;
        assert events[k.value] == before[k.value];
        assert Survives(events, k.value) <==>
          Survives(before, k.value) && (last.Cleaned? ==> last.at - events[k.value].at < last.timeout) by {
          assert forall j :: 0 <= j < |before| ==> before[j] == events[j];
        }
      }
    }
  }

  predicate Nondecreasing(events: seq<Event>) {
    forall i, j :: 0 <= i <= j < |events| ==> events[i].at <= events[j].at
  }

  predicate ConstantTimeout(events: seq<Event>, timeout: int) {
    forall i :: 0 <= i < |events| && events[i].Cleaned? ==> events[i].timeout == timeout
  }

  /**
   * With a clock that never runs backwards and a fixed timeout, only the latest clean matters: right after
   * it, a host is listed iff its last login is less than the timeout old, however many cleans went before.
   */
  lemma {:induction false} HistoryTheorem(events: seq<Event>, t: int, timeout: int, host: string)
    requires Nondecreasing(events + [Cleaned(t, timeout)]) && ConstantTimeout(events, timeout)
    ensures var k := LastAdd(events, host);
      host in TableAfter(events + [Cleaned(t, timeout)]) <==> k.Some? && t - events[k.value].at < timeout
  {
    var all := events + [Cleaned(t, timeout)];
    assert all[..|events|] == events;
    ListedIff(all, host);
    var k := LastAdd(events, host);
    if k.Some? && t - events[k.value].at < timeout {
      forall j | k.value < j < |all| && all[j].Cleaned?
        ensures all[j].at - all[k.value].at < all[j].timeout
      {
        assert all[j].at <= all[|events|].at;
      }
    }
  }

  /** A clock set back breaks the short form: the earlier clean has already dropped the host. */
  lemma {:induction false} ClockSetBack()
    ensures var events := [Added("h", 10), Cleaned(100, 50)];
      && LastAdd(events, "h") == Some(0) && 20 - events[0].at < 50
      && "h" !in TableAfter(events + [Cleaned(20, 50)])
  {
    var events := [Added("h", 10), Cleaned(100, 50)];
    var all := events + [Cleaned(20, 50)];
    assert events[..1] == [Added("h", 10)];
    assert LastAdd([Added("h", 10)], "h") == Some(0);
    assert all[..2] == events;
    ListedIff(all, "h");
    assert all[1] == Cleaned(100, 50) && all[1].at - all[0].at >= all[1].timeout;
  }

  /** The time of the latest clean; a program that has just started counts as cleaned then. */
  function LastClean(events: seq<Event>, started: int): int {
    if events == [] then started
    else if events[|events| - 1].Cleaned? then events[|events| - 1].at
    else LastClean(events[..|events| - 1], started)
  }

  /** The position of the latest clean. */
  lemma {:induction false} LastCleanAt(events: seq<Event>, started: int) returns (k: Option<nat>)
    ensures k.Some? ==> k.value < |events| && events[k.value].Cleaned?
    ensures k.Some? ==> LastClean(events, started) == events[k.value].at
    ensures k.None? ==> LastClean(events, started) == started
    ensures forall j :: (if k.Some? then k.value + 1 else 0) <= j < |events| ==> events[j].Added?
  {
    if events == [] {
      k := None;
    } else if events[|events| - 1].Cleaned? {
      k := Some(|events| - 1);
    } else {
      var before := events[..|events| - 1];
      k := LastCleanAt(before, started);
      assert forall j :: 0 <= j < |before| ==> before[j] == events[j];
    }
  }

  predicate Within(events: seq<Event>, from: int, to: int) {
    forall i :: 0 <= i < |events| ==> from <= events[i].at <= to
  }

  /** Nobody is dropped early: a login less than the timeout ago keeps its host listed. */
  lemma {:induction false} FreshIsListed(events: seq<Event>, timeout: int, now: int, host: string)
    requires Nondecreasing(events) && ConstantTimeout(events, timeout)
    requires forall i :: 0 <= i < |events| ==> events[i].at <= now
    requires var k := LastAdd(events, host); k.Some? && now - events[k.value].at < timeout
    ensures host in TableAfter(events)
  {
    ListedIff(events, host);
  }

  /** Nobody stays for long: if the latest clean is at most `flush` ago, nobody is older than timeout + flush. */
  lemma {:induction false} ListedIsRecent(events: seq<Event>, started: int, timeout: int, flush: int, now: int,
          host: string)
    requires Nondecreasing(events) && ConstantTimeout(events, timeout) && timeout > 0
    requires Within(events, started, now)
    requires now - LastClean(events, started) <= flush
    requires host in TableAfter(events)
    ensures now - TableAfter(events)[host] < timeout + flush
  {
    ListedIff(events, host);
    var k := LastAdd(events, host).value;
    var c := LastCleanAt(events, started);
    if c.Some? && k < c.value {
      assert events[c.value].at - events[k].at < timeout;
    } else if c.Some? {
      assert events[c.value].at <= events[k].at;
    }
  }
}
