/** Entries of the table as sequences: sorting, filtering, and the map they represent. */
module SortedEntries {
  import opened Common
  import opened StringOrder
  import opened AuthHistory

  datatype Entry = Entry(hostname: string, t: int)

  ghost predicate Nondescending(s: seq<Entry>) {
    forall i, j :: 0 <= i < j < |s| ==> !Before(s[j].hostname, s[i].hostname)
  }

  ghost predicate StrictlySorted(s: seq<Entry>) {
    forall i, j :: 0 <= i < j < |s| ==> Before(s[i].hostname, s[j].hostname)
  }

  ghost predicate Listed(s: seq<Entry>, h: string) {
    exists i :: 0 <= i < |s| && s[i].hostname == h
  }

  /** The sequence lists exactly the hosts of the map, in order, each with its time. */
  ghost predicate Represents(s: seq<Entry>, m: map<string, int>) {
    && StrictlySorted(s)
    && (forall i :: 0 <= i < |s| ==> s[i].hostname in m && m[s[i].hostname] == s[i].t)
    && (forall h :: h in m ==> Listed(s, h))
  }

  /** The host names, in order: the lines of the relay file. */
  function Hosts(s: seq<Entry>): (r: seq<string>)
    ensures |r| == |s| && forall i :: 0 <= i < |s| ==> r[i] == s[i].hostname
  {
    seq(|s|, i requires 0 <= i < |s| => s[i].hostname)
  }

  ghost predicate StrictlyAscending(r: seq<string>) {
    forall i, j :: 0 <= i < j < |r| ==> Before(r[i], r[j])
  }

  /** The map determines the relay file: there is only one way to list its keys in order. */
  lemma {:induction false} OneListing(r: seq<string>, r': seq<string>)
    requires StrictlyAscending(r) && StrictlyAscending(r')
    requires forall h :: h in r <==> h in r'
    ensures r == r'
  {
    assert r' != [] ==> r'[0] in r;
    if r != [] {
      assert r[0] in r';
      BeforeTotal(r[0], r'[0]);
      forall h ensures h in r[1..] <==> h in r'[1..] {
        BeforeTotal(r[0], r[0]);
        if h in r[1..] { assert h in r && h != r[0]; }
        if h in r'[1..] { assert h in r' && h != r'[0]; }
      }
      OneListing(r[1..], r'[1..]);
      assert r == [r[0]] + r[1..] && r' == [r'[0]] + r'[1..];
    }
  }

  // ----- the refresh path

  lemma {:induction false} RefreshRepresents(s: seq<Entry>, m: map<string, int>, k: nat, t: int)
    requires Represents(s, m) && k < |s|
    ensures Represents(s[k := Entry(s[k].hostname, t)], m[s[k].hostname := t])
    ensures Hosts(s[k := Entry(s[k].hostname, t)]) == Hosts(s)
  {
    var s' := s[k := Entry(s[k].hostname, t)];
    BeforeTotal(s[k].hostname, s[k].hostname);
    forall h | h in m[s[k].hostname := t] ensures Listed(s', h) {
      assert Listed(s, h);
      var i :| 0 <= i < |s| && s[i].hostname == h;
      assert s'[i].hostname == h;
    }
  }

  // ----- the append-and-sort path

  ghost predicate DistinctHosts(s: seq<Entry>) {
    forall i, j :: 0 <= i < j < |s| ==> s[i].hostname != s[j].hostname
  }

  lemma {:induction false} CountTwice(s: seq<Entry>, i: nat, j: nat)
    requires i < j < |s| && s[i] == s[j]
    ensures multiset(s)[s[i]] >= 2
  {
    assert s == s[..j] + s[j..];
    assert s[i] in s[..j] && s[j] in s[j..];
    assert s[..j][i] == s[i] && s[j..][0] == s[j];
    assert multiset(s) == multiset(s[..j]) + multiset(s[j..]);
  }

  lemma {:induction false} CountOnce(s: seq<Entry>, e: Entry)
    requires DistinctHosts(s)
    ensures multiset(s)[e] <= 1
  {
    if s != [] {
      CountOnce(s[1..], e);
      MultisetOfFirst(s);
      assert forall i :: 0 <= i < |s| - 1 ==> s[1..][i] == s[i + 1];
      assert s[0] !in s[1..];
    }
  }

  /** Rearranging entries with distinct hosts keeps them distinct; so sorting them sorts them strictly. */
  lemma {:induction false} SortIsStrict(s: seq<Entry>, s': seq<Entry>)
    requires DistinctHosts(s) && multiset(s') == multiset(s) && Nondescending(s')
    ensures StrictlySorted(s')
  {
    forall i, j | 0 <= i < j < |s'| ensures Before(s'[i].hostname, s'[j].hostname) {
      if s'[i].hostname == s'[j].hostname {
        assert s'[i] in multiset(s) && s'[j] in multiset(s);
        assert s'[i] in s && s'[j] in s;
        CountTwice(s', i, j);
        CountOnce(s, s'[i]);
      }
      BeforeTotal(s'[i].hostname, s'[j].hostname);
    }
  }

  lemma {:induction false} InsertRepresents(s: seq<Entry>, m: map<string, int>, e: Entry, s': seq<Entry>)
    requires Represents(s, m) && e.hostname !in m
    requires multiset(s') == multiset(s + [e]) && Nondescending(s')
    ensures Represents(s', m[e.hostname := e.t])
  {
    var u := s + [e];
    forall i, j | 0 <= i < j < |u| ensures u[i].hostname != u[j].hostname {
      BeforeTotal(u[i].hostname, u[j].hostname);
    }
    SortIsStrict(u, s');
    forall i | 0 <= i < |s'|
      ensures s'[i].hostname in m[e.hostname := e.t] && m[e.hostname := e.t][s'[i].hostname] == s'[i].t
    {
      assert s'[i] in multiset(u);
      assert s'[i] in u;
    }
    forall h | h in m[e.hostname := e.t] ensures Listed(s', h) {
      if h == e.hostname {
        assert u[|s|] == e;
        assert e in multiset(s');
      } else {
        assert Listed(s, h);
        var i :| 0 <= i < |s| && s[i].hostname == h;
        assert u[i] == s[i];
        assert s[i] in multiset(u);
        assert s[i] in s';
      }
    }
  }

  /** Insertion keeps a sequence sorted; this stands in for the C library's qsort. */
  function Insert(e: Entry, s: seq<Entry>): seq<Entry> {
    if s == [] || !Before(s[0].hostname, e.hostname) then [e] + s
    else [s[0]] + Insert(e, s[1..])
  }

  function Sort(s: seq<Entry>): seq<Entry> {
    if s == [] then [] else Insert(s[0], Sort(s[1..]))
  }

  lemma {:induction false} InsertSorts(e: Entry, s: seq<Entry>)
    requires Nondescending(s)
    ensures Nondescending(Insert(e, s)) && multiset(Insert(e, s)) == multiset{e} + multiset(s)
  {
    if s == [] {
    } else if !Before(s[0].hostname, e.hostname) {
      forall j | 0 <= j < |s| ensures !Before(s[j].hostname, e.hostname) {
        if j > 0 && Before(s[j].hostname, e.hostname) {
          BeforeTotal(s[0].hostname, s[j].hostname);
          if Before(s[0].hostname, s[j].hostname) {
            BeforeTransitive(s[0].hostname, s[j].hostname, e.hostname);
          }
        }
      }
    } else {
      InsertSorts(e, s[1..]);
      MultisetOfFirst(s);
      var rest := Insert(e, s[1..]);
      forall j | 0 <= j < |rest| ensures !Before(rest[j].hostname, s[0].hostname) {
        assert rest[j] in multiset(rest);
        BeforeTotal(s[0].hostname, e.hostname);
      }
    }
  }

  lemma {:induction false} SortSorts(s: seq<Entry>)
    ensures Nondescending(Sort(s)) && multiset(Sort(s)) == multiset(s)
    ensures |Sort(s)| == |s|
  {
    if s != [] {
      SortSorts(s[1..]);
      InsertSorts(s[0], Sort(s[1..]));
      MultisetOfFirst(s);
    }
    assert |multiset(Sort(s))| == |multiset(s)|;
  }

  // ----- the expiry path

  /** The entries young enough at time t, in their order. */
  function Kept(s: seq<Entry>, t: int, timeout: int): (r: seq<Entry>)
    ensures |r| <= |s|
  {
    if s == [] then []
    else
      var last := s[|s| - 1];
      Kept(s[..|s| - 1], t, timeout) + if t - last.t < timeout then [last] else []
  }

  lemma {:induction false} KeptMembers(s: seq<Entry>, t: int, timeout: int)
    ensures forall e :: e in Kept(s, t, timeout) <==> e in s && t - e.t < timeout
  {
    if s != [] {
      KeptMembers(s[..|s| - 1], t, timeout);
      assert s == s[..|s| - 1] + [s[|s| - 1]];
    }
  }

  lemma {:induction false} KeptSorted(s: seq<Entry>, t: int, timeout: int)
    requires StrictlySorted(s)
    ensures StrictlySorted(Kept(s, t, timeout))
  {
    if s != [] {
      var front := s[..|s| - 1];
      KeptSorted(front, t, timeout);
      KeptMembers(front, t, timeout);
      var k := Kept(front, t, timeout);
      forall i | 0 <= i < |k| ensures Before(k[i].hostname, s[|s| - 1].hostname) {
        assert k[i] in front;
      }
    }
  }

  lemma {:induction false} KeptRepresents(s: seq<Entry>, m: map<string, int>, t: int, timeout: int)
    requires Represents(s, m)
    ensures Represents(Kept(s, t, timeout), Apply(m, Cleaned(t, timeout)))
  {
    KeptSorted(s, t, timeout);
    KeptMembers(s, t, timeout);
    var k, m' := Kept(s, t, timeout), Apply(m, Cleaned(t, timeout));
    forall i | 0 <= i < |k| ensures k[i].hostname in m' && m'[k[i].hostname] == k[i].t {
      assert k[i] in s;
    }
    forall h | h in m' ensures Listed(k, h) {
      assert Listed(s, h);
      var i :| 0 <= i < |s| && s[i].hostname == h;
      assert s[i] in k;
    }
  }
}
