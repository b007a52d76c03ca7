/** Resolving a possibly abbreviated long option name against the option table (getopt.c:654-714). */
module LongNames {
  import opened Common

  /** One row of the table. A flag is named by a number; None is the null pointer. */
  datatype LongOption = LongOption(name: string, hasArg: int, flag: Option<nat>, val: int)

  datatype Resolution =
    | Unknown
    | Ambiguous
    | Exact(index: nat)
    | Abbreviation(index: nat)

  /** What a caller can tell of a resolution: everything but the position in the table. */
  datatype Answer =
    | NoSuchName
    | ManyNames
    | FullName(hasArg: int, flag: Option<nat>, val: int)
    | ShortName(hasArg: int, flag: Option<nat>, val: int)

  predicate SameAction(o: LongOption, p: LongOption) {
    o.hasArg == p.hasArg && o.flag == p.flag && o.val == p.val
  }

  /** Does the entry answer to this name: in full, or merely as an abbreviation? */
  predicate Answers(o: LongOption, name: string, inFull: bool) {
    if inFull then o.name == name else name <= o.name
  }

  /** The first entry at or after index `from` that answers to the name. */
  function First(table: seq<LongOption>, name: string, inFull: bool, from: nat): (r: Option<nat>)
    requires from <= |table|
    ensures r.Some? ==> from <= r.value < |table| && Answers(table[r.value], name, inFull)
    ensures r.Some? ==> forall j :: from <= j < r.value ==> !Answers(table[j], name, inFull)
    ensures r.None? ==> forall j :: from <= j < |table| ==> !Answers(table[j], name, inFull)
    decreases |table| - from
  {
    if from == |table| then None
    else if Answers(table[from], name, inFull) then Some(from)
    else First(table, name, inFull, from + 1)
  }

  /** No two candidates of the name would act differently. */
  ghost predicate CandidatesAgree(table: seq<LongOption>, name: string) {
    forall i, j :: 0 <= i < |table| && 0 <= j < |table| && name <= table[i].name && name <= table[j].name
      ==> SameAction(table[i], table[j])
  }

  /** The rule: an exact match wins; failing that, all prefix matches must agree pairwise. */
  ghost function Resolve(table: seq<LongOption>, name: string): (r: Resolution)
    ensures r.Exact? || r.Abbreviation? ==> r.index < |table|
  {
    match First(table, name, true, 0)
    case Some(k) => Exact(k)
    case None =>
      match First(table, name, false, 0)
      case None => Unknown
      case Some(k) => if CandidatesAgree(table, name) then Abbreviation(k) else Ambiguous
  }

  ghost function AnswerOf(table: seq<LongOption>, name: string): Answer {
    match Resolve(table, name)
    case Unknown => NoSuchName
    case Ambiguous => ManyNames
    case Exact(k) => FullName(table[k].hasArg, table[k].flag, table[k].val)
    case Abbreviation(k) => ShortName(table[k].hasArg, table[k].flag, table[k].val)
  }

  /** The matching loop: it compares every later candidate with the first one only. */
  method Lookup(table: seq<LongOption>, name: string) returns (r: Resolution)
    ensures r == Resolve(table, name)
  {
    var found: Option<nat> := None;
    var ambiguous := false;
    var i := 0;
    while i < |table|
      invariant i <= |table|
      invariant forall j :: 0 <= j < i ==> table[j].name != name
      invariant found.None? ==> !ambiguous && forall j :: 0 <= j < i ==> !(name <= table[j].name)
      invariant found.Some? ==> found.value < i && name <= table[found.value].name
      invariant found.Some? ==> forall j :: 0 <= j < found.value ==> !(name <= table[j].name)
      invariant found.Some? && !ambiguous ==>
        forall j :: 0 <= j < i && name <= table[j].name ==> SameAction(table[found.value], table[j])
      invariant found.Some? && ambiguous ==>
        exists j :: 0 <= j < i && name <= table[j].name && !SameAction(table[found.value], table[j])
    {
      if name <= table[i].name {
        if |name| == |table[i].name| {
          assert Answers(table[i], name, true);
          return Exact(i);
        } else if found.None? {
          found := Some(i);
        } else if !SameAction(table[found.value], table[i]) {
          ambiguous := true;
        }
      }
      i := i + 1;
    }
    assert First(table, name, true, 0) == None;
    if found.None? {
      return Unknown;
    }
    assert Answers(table[found.value], name, false);
    assert First(table, name, false, 0) == found;
    return if ambiguous then Ambiguous else Abbreviation(found.value);
  }

  /**
   * The rule in full. A name is found exactly where it first stands in full; failing that, at the first entry
   * it begins, exactly if all entries it begins have the same has_arg, flag and val; it is ambiguous exactly
   * if it stands nowhere in full and two entries it begins differ in one of these.
   */
  lemma {:induction false} ResolutionMeans(table: seq<LongOption>, name: string)
    ensures forall k: nat :: Resolve(table, name) == Exact(k) <==>
      k < |table| && table[k].name == name && forall j :: 0 <= j < k ==> table[j].name != name
    ensures forall k: nat :: Resolve(table, name) == Abbreviation(k) <==>
      && k < |table| && name <= table[k].name && (forall j :: 0 <= j < k ==> !(name <= table[j].name))
      && (forall j :: 0 <= j < |table| ==> table[j].name != name)
      && (forall j :: 0 <= j < |table| && name <= table[j].name ==>
            table[j].hasArg == table[k].hasArg && table[j].flag == table[k].flag && table[j].val == table[k].val)
    ensures Resolve(table, name).Unknown? <==> forall j :: 0 <= j < |table| ==> !(name <= table[j].name)
    ensures Resolve(table, name).Ambiguous? <==>
      && (forall j :: 0 <= j < |table| ==> table[j].name != name)
      && exists i, j :: 0 <= i < |table| && 0 <= j < |table| && name <= table[i].name && name <= table[j].name
           && (table[i].hasArg, table[i].flag, table[i].val) != (table[j].hasArg, table[j].flag, table[j].val)
  {
    var full, some := First(table, name, true, 0), First(table, name, false, 0);
    if full.Some? {
      assert Answers(table[full.value], name, true) && Answers(table[full.value], name, false);
    } else {
      assert forall j :: 0 <= j < |table| ==> !Answers(table[j], name, true);
    }
    if some.Some? {
      assert Answers(table[some.value], name, false);
    } else {
      assert forall j :: 0 <= j < |table| ==> !Answers(table[j], name, false);
    }
  }

  /** A name that begins one entry only stands for that entry. */
  lemma {:induction false} OnlyCandidate(table: seq<LongOption>, name: string, k: nat)
    requires k < |table| && name <= table[k].name
    requires forall j :: 0 <= j < |table| && name <= table[j].name ==> j == k
    ensures Resolve(table, name) == if name == table[k].name then Exact(k) else Abbreviation(k)
  {
    ResolutionMeans(table, name);
  }

  /** The tables hold the same entries, in any order and any number. */
  ghost predicate SameEntries(s: seq<LongOption>, t: seq<LongOption>) {
    forall o: LongOption :: o in s <==> o in t
  }

  /** Entries that share a name act alike; in particular this holds when all names are distinct. */
  ghost predicate Consistent(table: seq<LongOption>) {
    forall i, j :: 0 <= i < |table| && 0 <= j < |table| && table[i].name == table[j].name
      ==> SameAction(table[i], table[j])
  }

  /** The same, for one name: what decides whether that name's answer depends on the order. */
  ghost predicate ConsistentFor(table: seq<LongOption>, name: string) {
    forall i, j :: 0 <= i < |table| && 0 <= j < |table| && table[i].name == name && table[j].name == name
      ==> SameAction(table[i], table[j])
  }

  lemma {:induction false} CandidatesAgreeOnEntries(s: seq<LongOption>, t: seq<LongOption>, name: string)
    requires SameEntries(s, t) && CandidatesAgree(s, name)
    ensures CandidatesAgree(t, name)
  {
    forall i, j | 0 <= i < |t| && 0 <= j < |t| && name <= t[i].name && name <= t[j].name
      ensures SameAction(t[i], t[j])
    {
      assert t[i] in s && t[j] in s;
    }
  }

  /** Resolution depends on the set of entries alone. */
  lemma {:induction false} OrderIrrelevant(s: seq<LongOption>, t: seq<LongOption>, name: string)
    requires SameEntries(s, t) && ConsistentFor(s, name)
    ensures AnswerOf(s, name) == AnswerOf(t, name)
  {
    forall inFull: bool
      ensures First(s, name, inFull, 0).Some? <==> First(t, name, inFull, 0).Some?
    {
      var f, g := First(s, name, inFull, 0), First(t, name, inFull, 0);
      if f.Some? { assert s[f.value] in t; }
      if g.Some? { assert t[g.value] in s; }
    }
    var f, g := First(s, name, true, 0), First(t, name, true, 0);
    if f.Some? {
      assert t[g.value] in s;
    } else {
      var f', g' := First(s, name, false, 0), First(t, name, false, 0);
      if f'.Some? {
        assert t[g'.value] in s;
        if CandidatesAgree(s, name) { CandidatesAgreeOnEntries(s, t, name); }
        if CandidatesAgree(t, name) { CandidatesAgreeOnEntries(t, s, name); }
      }
    }
  }

  /** Moving one entry to the front rearranges the table and makes that entry win an exact match. */
  lemma {:induction false} MoveToFront(table: seq<LongOption>, k: nat) returns (t: seq<LongOption>)
    requires k < |table|
    ensures multiset(t) == multiset(table)
    ensures AnswerOf(t, table[k].name) == FullName(table[k].hasArg, table[k].flag, table[k].val)
  {
    t := [table[k]] + table[..k] + table[k + 1..];
    assert table == table[..k] + [table[k]] + table[k + 1..];
    assert Answers(t[0], table[k].name, true);
  }

  /** Both directions: a name's answer survives every rearrangement exactly when its entries agree. */
  lemma {:induction false} OrderIrrelevantIff(table: seq<LongOption>, name: string)
    ensures ConsistentFor(table, name)
       <==> forall t: seq<LongOption> :: multiset(t) == multiset(table) ==> AnswerOf(t, name) == AnswerOf(table, name)
  {
    if ConsistentFor(table, name) {
      forall t: seq<LongOption> | multiset(t) == multiset(table)
        ensures AnswerOf(t, name) == AnswerOf(table, name)
      {
        forall o: LongOption ensures o in table <==> o in t {
          assert o in table <==> o in multiset(table);
          assert o in t <==> o in multiset(t);
        }
        OrderIrrelevant(table, t, name);
      }
    } else {
      var i, j :| 0 <= i < |table| && 0 <= j < |table| && table[i].name == name && table[j].name == name
        && !SameAction(table[i], table[j]);
      var s := MoveToFront(table, i);
      var t := MoveToFront(table, j);
      assert AnswerOf(s, name) != AnswerOf(t, name);
    }
  }
}
