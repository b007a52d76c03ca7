/** Reading a vector again after its options have been moved to the front. */
module Rescan {
  import opened Common
  import opened LongNames
  import opened OptionGrammar

  /** Some option found the end of the vector where its argument should have been. */
  ghost predicate Misses(events: seq<Event>) {
    exists k :: 0 <= k < |events| && events[k].diagnostic == ArgumentRequired
  }

  ghost predicate MissingArgument(r: Reading) {
    Misses(r.events)
  }

  lemma {:induction false} MissesAppend(a: seq<Event>, b: seq<Event>)
    ensures Misses(a + b) <==> Misses(a) || Misses(b)
  {
    if Misses(a) {
      var k :| 0 <= k < |a| && a[k].diagnostic == ArgumentRequired;
      assert (a + b)[k] == a[k];
    }
    if Misses(b) {
      var k :| 0 <= k < |b| && b[k].diagnostic == ArgumentRequired;
      assert (a + b)[|a| + k] == b[k];
    }
  }

  lemma {:induction false} MissesOne(event: Event)
    ensures Misses([event]) <==> event.diagnostic == ArgumentRequired
  {
    if event.diagnostic == ArgumentRequired {
      assert [event][0].diagnostic == ArgumentRequired;
    }
  }

  /**
   * How an element depends on the element after it: not at all, unless it takes it or misses it;
   * and where it misses an argument it would have taken any element there was.
   */
  ghost predicate DependsOnlyByTaking(e: Element, next: Option<string>, e': Element, next': Option<string>) {
    && (next == next' ==> e == e')
    && (!e.takesNext && !Misses(e.events) ==> e' == e)
    && (Misses(e.events) ==> next.None? && !e.takesNext)
    && (Misses(e.events) && next'.Some? ==> e'.takesNext && |e'.events| == |e.events| && e'.events != e.events)
  }

  lemma {:induction false} ClusterIgnoresNext(optstring: string, chars: string, next: Option<string>,
          next': Option<string>)
    requires chars != ""
    ensures DependsOnlyByTaking(Cluster(optstring, chars, next), next, Cluster(optstring, chars, next'), next')
  {
    var c, more := chars[0], chars[1..];
    var kind := KindOf(optstring, c);
    var e, e' := Cluster(optstring, chars, next), Cluster(optstring, chars, next');
    if kind.OptionalArgument? {
    } else if kind.RequiredArgument? {
      if more == "" && next.None? && next'.Some? {
        assert e'.events[0].optarg != e.events[0].optarg;
      }
    } else if more != "" {
      ClusterIgnoresNext(optstring, more, next, next');
      var t, t' := Cluster(optstring, more, next), Cluster(optstring, more, next');
      MissesAppend(e.events[..1], t.events);
      assert e.events[1..] == t.events && e'.events[1..] == t'.events;
    }
  }

  lemma {:induction false} ElementIgnoresNext(spec: Spec, arg: string, next: Option<string>, next': Option<string>)
    requires !IsOperand(arg)
    ensures DependsOnlyByTaking(ReadElement(spec, arg, next), next, ReadElement(spec, arg, next'), next')
  {
    if IsLong(spec, arg) {
      LongIgnoresNext(spec.optstring, spec.longopts.value, arg[2..], next, next');
    } else {
      ClusterIgnoresNext(spec.optstring, arg[1..], next, next');
    }
  }

  lemma {:induction false} LongIgnoresNext(optstring: string, table: seq<LongOption>, body: string,
          next: Option<string>, next': Option<string>)
    ensures var e, e' := LongElement(optstring, table, body, next), LongElement(optstring, table, body, next');
      DependsOnlyByTaking(e, next, e', next')
  {
    hide Resolve, NameOf, ValueOf;
    var e, e' := LongElement(optstring, table, body, next), LongElement(optstring, table, body, next');
    MissesOne(e.events[0]);
    assert e.events == [e.events[0]] && e'.events == [e'.events[0]];
    if Misses(e.events) && next'.Some? {
      assert e'.events[0].optarg != e.events[0].optarg;
    }
  }

  /** The `--` element was met: everything after it is an operand, whatever it looks like. */
  ghost predicate Terminated(spec: Spec, args: seq<string>)
    decreases |args|
  {
    args != [] &&
    if IsOperand(args[0]) then Terminated(spec, args[1..])
    else args[0] == "--" || Terminated(spec, args[Width(ReadElement(spec, args[0], Following(args)))..])
  }

  lemma {:induction false} PlainOperands(spec: Spec, args: seq<string>)
    requires !Terminated(spec, args)
    ensures forall x :: x in Operands(spec, Permute, args) ==> IsOperand(x)
    decreases |args|
  {
    if args == [] {
    } else if IsOperand(args[0]) {
      PlainOperands(spec, args[1..]);
      assert Read(spec, Permute, args).operand[1..] == Read(spec, Permute, args[1..]).operand;
    } else {
      SplitElement(spec, Permute, args);
      PlainOperands(spec, args[Width(ReadElement(spec, args[0], Following(args)))..]);
    }
  }

  lemma {:induction false} OnlyOperands(spec: Spec, ordering: Ordering, args: seq<string>)
    requires forall x :: x in args ==> IsOperand(x)
    ensures Read(spec, ordering, args) == Reading([], Repeat(true, |args|))
  {
    if args != [] && ordering.Permute? {
      OnlyOperands(spec, ordering, args[1..]);
      assert [true] + Repeat(true, |args| - 1) == Repeat(true, |args|);
    }
  }

  /** Reading a vector that starts with an option element and what that element takes. */
  lemma {:induction false} ReadThen(spec: Spec, ordering: Ordering, head: seq<string>, tail: seq<string>)
    requires head != [] && !IsOperand(head[0]) && head[0] != "--"
    requires Width(ReadElement(spec, head[0], Following(head + tail))) == |head|
    ensures var e, rest := ReadElement(spec, head[0], Following(head + tail)), Read(spec, ordering, tail);
      Read(spec, ordering, head + tail) == Reading(e.events + rest.events, Repeat(false, |head|) + rest.operand)
  {
    assert (head + tail)[|head|..] == tail;
  }

  /** What is missed, is missed by the first element or later. */
  lemma {:induction false} MissingParts(spec: Spec, args: seq<string>)
    requires args != [] && !IsOperand(args[0]) && args[0] != "--"
    ensures var e := ReadElement(spec, args[0], Following(args));
      MissingArgument(Read(spec, Permute, args))
      <==> Misses(e.events) || MissingArgument(Read(spec, Permute, args[Width(e)..]))
  {
    hide ReadElement, Misses;
    var e := ReadElement(spec, args[0], Following(args));
    MissesAppend(e.events, Read(spec, Permute, args[Width(e)..]).events);
  }

  /** The first element reads the same once the elements after it have been rearranged. */
  lemma {:induction false} SameElement(spec: Spec, args: seq<string>, R: seq<string>)
    requires args != [] && !IsOperand(args[0]) && args[0] != "--"
    requires MissingArgument(Read(spec, Permute, args)) ==> R == []
    ensures ReadElement(spec, args[0], Following(Options(spec, Permute, args) + R))
         == ReadElement(spec, args[0], Following(args))
  {
    MissingParts(spec, args);
    SplitElement(spec, Permute, args);
    ElementIgnoresNext(spec, args[0], Following(args), Following(Options(spec, Permute, args) + R));
    hide ReadElement, Misses;
    if Misses(ReadElement(spec, args[0], Following(args)).events) {
      assert args[1..] == [];
    }
  }

  /** The marks of m options followed by k operands. */
  function Marks(m: nat, k: nat): (s: seq<bool>)
    ensures |s| == m + k
  {
    Repeat(false, m) + Repeat(true, k)
  }

  lemma MarksAppend(m: nat, n: nat, k: nat)
    ensures Repeat(false, m) + Marks(n, k) == Marks(m + n, k)
  {
  }

  lemma Associative<T>(a: seq<T>, b: seq<T>, c: seq<T>)
    ensures (a + b) + c == a + (b + c)
  {
  }

  /** The step of Gathered at an option element, given the result for what follows it. */
  lemma {:induction false} GatheredElement(spec: Spec, ordering: Ordering, args: seq<string>, n: nat, o: seq<string>,
          R: seq<string>)
    requires args != [] && !IsOperand(args[0]) && args[0] != "--"
    requires n == Width(ReadElement(spec, args[0], Following(args)))
    requires o == Options(spec, Permute, args[n..])
    requires MissingArgument(Read(spec, Permute, args)) ==> R == []
    requires Read(spec, ordering, o + R)
          == Reading(Read(spec, Permute, args[n..]).events, Marks(|o|, |R|))
    ensures Read(spec, ordering, args[..n] + (o + R))
         == Reading(Read(spec, Permute, args).events, Marks(n + |o|, |R|))
  {
    var e := ReadElement(spec, args[0], Following(args));
    hide ReadElement, Options, Misses;
    assert ReadElement(spec, args[0], Following(args[..n] + (o + R))) == e by {
      SplitElement(spec, Permute, args);
      Associative(args[..n], o, R);
      SameElement(spec, args, R);
    }
    ReadThen(spec, ordering, args[..n], o + R);
    assert Read(spec, Permute, args).events == e.events + Read(spec, Permute, args[n..]).events;
    hide Read;
    MarksAppend(n, |o|, |R|);
  }

  /**
   * The options alone, followed by operands R that do not look like options (any R at all after `--`),
   * read the same in either ordering as the options did when scattered over the vector.
   */
  lemma {:induction false} Gathered(spec: Spec, ordering: Ordering, args: seq<string>, R: seq<string>)
    requires Terminated(spec, args) || forall x :: x in R ==> IsOperand(x)
    requires MissingArgument(Read(spec, Permute, args)) ==> R == []
    ensures var o := Options(spec, Permute, args);
      Read(spec, ordering, o + R) == Reading(Read(spec, Permute, args).events, Marks(|o|, |R|))
    decreases |args|
  {
    if args == [] {
      OnlyOperands(spec, ordering, R);
      assert [] + R == R && Marks(0, |R|) == Repeat(true, |R|);
    } else if IsOperand(args[0]) {
      SplitOperand(spec, args);
      Gathered(spec, ordering, args[1..], R);
    } else if args[0] == "--" {
      SplitTerminator(spec, Permute, args);
      assert Read(spec, ordering, ["--"] + R) == Reading([], [false] + Repeat(true, |R|));
      assert [false] + Repeat(true, |R|) == Marks(1, |R|);
    } else {
      var n := Width(ReadElement(spec, args[0], Following(args)));
      MissingParts(spec, args);
      hide ReadElement, Misses, Options;
      Gathered(spec, ordering, args[n..], R);
      var o := Options(spec, Permute, args[n..]);
      GatheredElement(spec, ordering, args, n, o, R);
      assert Options(spec, Permute, args) + R == args[..n] + (o + R) && |Options(spec, Permute, args)| == n + |o| by {
        SplitElement(spec, Permute, args);
        Associative(args[..n], o, R);
      }
    }
  }

  /** After a missing argument, any operand placed behind the options is swallowed as that argument. */
  lemma {:induction false} Swallowed(spec: Spec, ordering: Ordering, args: seq<string>, R: seq<string>)
    requires MissingArgument(Read(spec, Permute, args)) && R != []
    ensures Read(spec, ordering, Options(spec, Permute, args) + R).events != Read(spec, Permute, args).events
    decreases |args|
  {
    if IsOperand(args[0]) {
      SplitOperand(spec, args);
      Swallowed(spec, ordering, args[1..], R);
    } else {
      var e := ReadElement(spec, args[0], Following(args));
      MissingParts(spec, args);
      if Misses(e.events) {
        SwallowedHere(spec, ordering, args, R);
      } else {
        Swallowed(spec, ordering, args[Width(e)..], R);
        SwallowedLater(spec, ordering, args, Width(e), Options(spec, Permute, args[Width(e)..]), R);
      }
    }
  }

  lemma {:induction false} SwallowedHere(spec: Spec, ordering: Ordering, args: seq<string>, R: seq<string>)
    requires args != [] && !IsOperand(args[0]) && args[0] != "--" && R != []
    requires Misses(ReadElement(spec, args[0], Following(args)).events)
    ensures Read(spec, ordering, Options(spec, Permute, args) + R).events != Read(spec, Permute, args).events
  {
    var e, e' := ReadElement(spec, args[0], Following(args)), ReadElement(spec, args[0], Some(R[0]));
    ElementIgnoresNext(spec, args[0], Following(args), Some(R[0]));
    hide ReadElement, Misses;
    assert args == [args[0]];
    SplitElement(spec, Permute, args);
    assert Options(spec, Permute, args) == args;
    assert Following(args + R) == Some(R[0]);
    assert Read(spec, ordering, args + R).events[..|e'.events|] == e'.events;
    assert Read(spec, Permute, args).events == e.events;
  }

  lemma {:induction false} SwallowedLater(spec: Spec, ordering: Ordering, args: seq<string>, n: nat, o: seq<string>,
          R: seq<string>)
    requires args != [] && !IsOperand(args[0]) && args[0] != "--" && R != []
    requires !Misses(ReadElement(spec, args[0], Following(args)).events)
    requires n == Width(ReadElement(spec, args[0], Following(args))) && o == Options(spec, Permute, args[n..])
    requires Read(spec, ordering, o + R).events != Read(spec, Permute, args[n..]).events
    ensures Read(spec, ordering, Options(spec, Permute, args) + R).events != Read(spec, Permute, args).events
  {
    SplitElement(spec, Permute, args);
    Associative(args[..n], o, R);
    var all := Options(spec, Permute, args) + R;
    ElementIgnoresNext(spec, args[0], Following(args), Following(all));
    hide ReadElement, Misses;
    var e := ReadElement(spec, args[0], Following(args));
    assert all == args[..n] + (o + R) && args[..n][0] == args[0];
    ReadThen(spec, ordering, args[..n], o + R);
    var tail, rest := Read(spec, ordering, o + R).events, Read(spec, Permute, args[n..]).events;
    assert (e.events + tail)[|e.events|..] == tail && (e.events + rest)[|e.events|..] == rest;
  }

  /**
   * Scanning the rearranged vector again, in either ordering, yields the same events exactly when the
   * first scan did not miss an argument while operands were present; it then finds every option in
   * front and every operand behind, so that a second rearrangement moves nothing.
   */
  lemma {:induction false} RescanIff(spec: Spec, ordering: Ordering, args: seq<string>)
    ensures var first := Read(spec, Permute, args);
      var o, R := Options(spec, Permute, args), Operands(spec, Permute, args);
      && ((Read(spec, ordering, o + R).events == first.events) <==> !(MissingArgument(first) && R != []))
      && (!(MissingArgument(first) && R != []) ==>
            && Options(spec, ordering, o + R) == o
            && Operands(spec, ordering, o + R) == R)
  {
    var first := Read(spec, Permute, args);
    var o, R := Options(spec, Permute, args), Operands(spec, Permute, args);
    if MissingArgument(first) && R != [] {
      Swallowed(spec, ordering, args, R);
    } else {
      if !Terminated(spec, args) { PlainOperands(spec, args); }
      Gathered(spec, ordering, args, R);
      forall b: bool
        ensures Select(o + R, Marks(|o|, |R|), b) == if b then R else o
      {
        SelectAppend(o, Repeat(false, |o|), R, Repeat(true, |R|), b);
        SelectUniform(o, false, b);
        SelectUniform(R, true, b);
      }
    }
  }

  /** The smallest failing input: an operand, then an option whose argument is missing. */
  lemma {:induction false} MissingArgumentCounterexample()
    ensures var spec := Spec("c:", None);
      var args := ["x", "-c"];
      && MissingArgument(Read(spec, Permute, args))
      && Options(spec, Permute, args) + Operands(spec, Permute, args) == ["-c", "x"]
      && Read(spec, Permute, args).events == [Event(FAILURE, None, Some('c' as int), None, None, ArgumentRequired)]
      && Read(spec, Permute, ["-c", "x"]).events == [ShortEvent('c', Some("x"))]
  {
    var spec := Spec("c:", None);
    assert KindOf("c:", 'c') == RequiredArgument;
    assert Cluster("c:", "c", None)
        == Element([Event(FAILURE, None, Some('c' as int), None, None, ArgumentRequired)], false);
    var args := ["x", "-c"];
    assert args[1..] == ["-c"];
    SplitOperand(spec, args);
    SplitElement(spec, Permute, ["-c"]);
    assert ["-c"][1..] == [];
    assert Read(spec, Permute, args).events[0].diagnostic == ArgumentRequired;
    var moved := ["-c", "x"];
    assert "-c"[1..] == "c";
    assert moved[2..] == [];
    assert Cluster("c:", "c", Some("x")) == Element([ShortEvent('c', Some("x"))], true);
    assert ReadElement(spec, "-c", Following(moved)) == Element([ShortEvent('c', Some("x"))], true);
  }
}
