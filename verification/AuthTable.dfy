/** The text-backed authorisation table (auth.c): a sorted array, its shadow, and the relay file. */
module AuthTable {
  import opened Common
  import opened StringOrder
  import opened AuthHistory
  import opened SortedEntries

  const MATCH_LOGIN_HOSTNAME_MAX := 255
  const INITIAL_MAX := 16384
  const GROWTH := 1024

  /** realloc: a longer array that starts with the old contents. */
  method Realloc(a: array<Entry>, n: nat) returns (b: array<Entry>)
    requires a.Length <= n
    ensures fresh(b) && b.Length == n && b[..a.Length] == a[..]
  {
    b := new Entry[n];
    forall i | 0 <= i < a.Length {
      b[i] := a[i];
    }
  }

  /** qsort with auth_cmp, as section 7.22.5.2 of ISO/IEC 9899:2011 has it, on the first n entries. */
  method QSort(a: array<Entry>, n: nat)
    requires n <= a.Length
    modifies a
    ensures Nondescending(a[..n]) && multiset(a[..n]) == old(multiset(a[..n]))
    ensures a[n..] == old(a[n..])
  {
    var s := Sort(a[..n]);
    SortSorts(a[..n]);
    forall i | 0 <= i < n {
      a[i] := s[i];
    }
    assert a[..n] == s;
  }

  class Table {
    var auth: array<Entry>
    var shadow: array<Entry>
    var max: nat
    var cur: nat
    /** The lines of the relay file on disk. */
    var relay: seq<string>
    /** Every add and every clean so far. */
    ghost var history: seq<Event>

    ghost function Entries(): seq<Entry>
      reads this, auth
      requires cur <= auth.Length
    {
      auth[..cur]
    }

    ghost predicate Valid()
      reads this, auth, shadow
    {
      && auth != shadow && auth.Length == shadow.Length == max && cur <= max
      && Represents(Entries(), TableAfter(history))
      && relay == Hosts(Entries())
    }

    /** auth_init: room for the first entries, and an empty relay file. */
    constructor ()
      ensures Valid() && fresh(auth) && fresh(shadow)
      ensures history == [] && relay == [] && max == 16384
    {
      max := INITIAL_MAX;
      cur := 0;
      auth := new Entry[INITIAL_MAX];
      shadow := new Entry[INITIAL_MAX];
      relay := [];
      history := [];
    }

    /** auth_present: the C library's bsearch over the sorted entries. */
    method AuthPresent(hostname: string) returns (r: Option<nat>)
      requires Valid()
      ensures r.Some? <==> hostname in TableAfter(history)
      ensures r.Some? ==> r.value < cur && auth[r.value].hostname == hostname
    {
      hide TableAfter, Compare, Hosts;
      var lo, hi := 0, cur;
      while lo < hi
        invariant 0 <= lo <= hi <= cur
        invariant forall i :: 0 <= i < lo ==> Before(auth[i].hostname, hostname)
        invariant forall i :: hi <= i < cur ==> Before(hostname, auth[i].hostname)
      {
        var mid := (lo + hi) / 2;
        var c := Compare(hostname, auth[mid].hostname);
        CompareZero(hostname, auth[mid].hostname);
        CompareFlips(hostname, auth[mid].hostname);
        if c == 0 {
          assert Entries()[mid] == auth[mid];
          return Some(mid);
        } else if c < 0 {
          BelowAll(Entries(), mid, hostname);
          hi := mid;
        } else {
          AboveAll(Entries(), mid, hostname);
          lo := mid + 1;
        }
      }
      if hostname in TableAfter(history) {
        assert Listed(Entries(), hostname);
        var i :| 0 <= i < cur && Entries()[i].hostname == hostname;
        BeforeTotal(hostname, hostname);
      }
      return None;
    }

    /** auth_write_text: one host a line. */
    method AuthWriteText()
      requires cur <= auth.Length
      modifies this`relay
      ensures relay == Hosts(Entries())
    {
      var lines := [];
      for i := 0 to cur
        invariant |lines| == i && forall j :: 0 <= j < i ==> lines[j] == auth[j].hostname
      {
        lines := lines + [auth[i].hostname];
      }
      relay := lines;
    }

    /** auth_init_mem, after auth_max has been raised. */
    method AuthInitMem()
      requires auth != shadow && auth.Length <= max && shadow.Length <= max && cur <= auth.Length
      modifies this`auth, this`shadow
      ensures fresh(auth) && fresh(shadow) && auth != shadow
      ensures auth.Length == shadow.Length == max
      ensures auth[..cur] == old(auth[..cur])
    {
      auth := Realloc(auth, max);
      shadow := Realloc(shadow, max);
    }

    /** Make room for one more entry. */
    method Grow()
      requires auth != shadow && auth.Length == shadow.Length == max && cur <= max
      modifies this`max, this`auth, this`shadow
      ensures auth != shadow && auth.Length == shadow.Length == max && cur < max
      ensures auth[..cur] == old(auth[..cur])
      ensures max == if cur == old(max) then old(max) + 1024 else old(max)
      ensures (auth == old(auth) && shadow == old(shadow)) || (fresh(auth) && fresh(shadow))
    {
      if cur == max {
        max := max + GROWTH;
        AuthInitMem();
      }
    }

    /** Write one more entry after the last. */
    method Append(e: Entry)
      requires auth != shadow && auth.Length == shadow.Length == max && cur <= max
      modifies this`max, this`cur, this`auth, this`shadow, auth
      ensures auth != shadow && auth.Length == shadow.Length == max && cur == old(cur) + 1 <= max
      ensures max == if old(cur) == old(max) then old(max) + 1024 else old(max)
      ensures (auth == old(auth) && shadow == old(shadow)) || (fresh(auth) && fresh(shadow))
      ensures Entries() == old(Entries()) + [e]
    {
      Grow();
      auth[cur] := e;
      cur := cur + 1;
    }

    /** The half of auth_text_add for a host that is not listed: append, sort, and write the relay file. */
    method Authorise(hostname: string, now: int, ghost m: map<string, int>)
      requires auth != shadow && auth.Length == shadow.Length == max && cur <= max
      requires Represents(Entries(), m) && hostname !in m
      modifies this`max, this`cur, this`auth, this`shadow, this`relay, auth
      ensures auth != shadow && auth.Length == shadow.Length == max && cur == old(cur) + 1 <= max
      ensures max == if old(cur) == old(max) then old(max) + 1024 else old(max)
      ensures (auth == old(auth) && shadow == old(shadow)) || (fresh(auth) && fresh(shadow))
      ensures Represents(Entries(), m[hostname := now]) && relay == Hosts(Entries())
    {
      hide Represents, Hosts, Nondescending;
      ghost var s := Entries();
      Append(Entry(hostname, now));
      QSort(auth, cur);
      InsertRepresents(s, m, Entry(hostname, now), Entries());
      AuthWriteText();
    }

    /** auth_text_add. */
    method AuthTextAdd(hostname: string, now: int)
      requires Valid() && |hostname| < MATCH_LOGIN_HOSTNAME_MAX
      modifies this, auth, shadow
      ensures Valid() && history == old(history) + [Added(hostname, now)]
      ensures if hostname in old(TableAfter(history)) then max == old(max) && cur == old(cur) && relay == old(relay)
              else cur == old(cur) + 1 && max == if old(cur) == old(max) then old(max) + 1024 else old(max)
      ensures (auth == old(auth) && shadow == old(shadow)) || (fresh(auth) && fresh(shadow))
    {
      hide Represents, Hosts, TableAfter;
      ghost var s, m := Entries(), TableAfter(history);
      AfterOneMore(history, Added(hostname, now));
      var e := AuthPresent(hostname);
      if e.Some? {
        RefreshRepresents(s, m, e.value, now);
        auth[e.value] := Entry(auth[e.value].hostname, now);
        assert Entries() == s[e.value := Entry(s[e.value].hostname, now)];
      } else {
        Authorise(hostname, now, m);
      }
      history := history + [Added(hostname, now)];
    }

    /** auth_text_clean: copy what is still live to the shadow, and swap. */
    method AuthTextClean(now: int, timeout: int)
      requires Valid()
      modifies this, shadow
      ensures Valid() && history == old(history) + [Cleaned(now, timeout)]
      ensures auth == old(shadow) && shadow == old(auth) && max == old(max)
      ensures Entries() == Kept(old(Entries()), now, timeout)
    {
      hide Represents, Hosts, TableAfter, Kept;
      ghost var s := Entries();
      AfterOneMore(history, Cleaned(now, timeout));
      KeptRepresents(s, TableAfter(history), now, timeout);
      var n := CopyLive(now, timeout);
      auth, shadow := shadow, auth;
      cur := n;
      AuthWriteText();
      history := history + [Cleaned(now, timeout)];
    }

    /** The compaction loop: every write to the shadow array is in bounds. */
    method CopyLive(now: int, timeout: int) returns (n: nat)
      requires auth != shadow && cur <= auth.Length == shadow.Length
      modifies shadow
      ensures n <= cur && shadow[..n] == Kept(Entries(), now, timeout)
    {
      n := 0;
      for i := 0 to cur
        invariant n <= i && shadow[..n] == Kept(auth[..i], now, timeout)
      {
        assert auth[..i + 1][..i] == auth[..i];
        if now - auth[i].t < timeout {
          shadow[n] := auth[i];
          n := n + 1;
        }
      }
    }

    /** What the mail server sees right after a clean. */
    lemma {:induction false} RelayAfterClean(events: seq<Event>, t: int, timeout: int, host: string)
      requires Valid() && history == events + [Cleaned(t, timeout)]
      requires Nondecreasing(history) && ConstantTimeout(events, timeout)
      ensures var k := LastAdd(events, host); host in relay <==> k.Some? && t - events[k.value].at < timeout
    {
      RelayLists();
      HistoryTheorem(events, t, timeout, host);
    }

    /** The retention bounds, at any moment of a run that began at `started`. */
    lemma {:induction false} RelayBounds(started: int, timeout: int, flush: int, now: int, host: string)
      requires Valid() && Nondecreasing(history) && ConstantTimeout(history, timeout) && timeout > 0
      requires Within(history, started, now)
      ensures var k := LastAdd(history, host); k.Some? && now - history[k.value].at < timeout ==> host in relay
      ensures now - LastClean(history, started) <= flush && host in relay ==>
        var k := LastAdd(history, host); k.Some? && now - history[k.value].at < timeout + flush
    {
      RelayLists();
      var k := LastAdd(history, host);
      if k.Some? && now - history[k.value].at < timeout {
        FreshIsListed(history, timeout, now, host);
      }
      if now - LastClean(history, started) <= flush && host in relay {
        ListedIsRecent(history, started, timeout, flush, now, host);
        ListedIff(history, host);
      }
    }

    /** The relay file lists exactly the hosts of the history, once each and in order. */
    lemma {:induction false} RelayLists()
      requires Valid()
      ensures forall h :: h in relay <==> h in TableAfter(history)
      ensures StrictlyAscending(relay)
    {
      forall h ensures h in relay <==> h in TableAfter(history) {
        if h in TableAfter(history) {
          assert Listed(Entries(), h);
        }
      }
    }
  }

  lemma {:induction false} BelowAll(s: seq<Entry>, mid: nat, hostname: string)
    requires StrictlySorted(s) && mid < |s| && Before(hostname, s[mid].hostname)
    ensures forall i :: mid <= i < |s| ==> Before(hostname, s[i].hostname)
  {
    forall i | mid < i < |s| ensures Before(hostname, s[i].hostname) {
      BeforeTransitive(hostname, s[mid].hostname, s[i].hostname);
    }
  }

  lemma {:induction false} AboveAll(s: seq<Entry>, mid: nat, hostname: string)
    requires StrictlySorted(s) && mid < |s| && Before(s[mid].hostname, hostname)
    ensures forall i :: 0 <= i <= mid ==> Before(s[i].hostname, hostname)
  {
    forall i | 0 <= i < mid ensures Before(s[i].hostname, hostname) {
      BeforeTransitive(s[i].hostname, s[mid].hostname, hostname);
    }
  }

  lemma {:induction false} AfterOneMore(events: seq<Event>, e: Event)
    ensures TableAfter(events + [e]) == Apply(TableAfter(events), e)
  {
    assert (events + [e])[..|events|] == events;
  }
}
