/** The resumable, permuting option scanner (getopt.c). */
module Scanner {
  import opened Common
  import opened LongNames
  import opened OptionGrammar
  import opened Rotation
  import opened ScanLayout

  /** No ordering prefix, and no `W;` entry: the forms the model leaves out. */
  ghost predicate Supported(spec: Spec) {
    && (spec.optstring != "" ==> spec.optstring[0] != '-' && spec.optstring[0] != '+')
    && match IndexOf(spec.optstring, 'W') {
         case None => true
         case Some(k) => k + 1 < |spec.optstring| ==> spec.optstring[k + 1] != ';'
       }
  }

  /** Where the operands end up when `--` is met: exchanged with it, if any were skipped before. */
  lemma {:induction false} TerminatorSeparates(spec: Spec, ordering: Ordering, s: Layout<string>)
    requires Follows(spec, ordering, s, "")
    requires s.at < |s.orig| && s.orig[s.at] == "--"
    requires ordering.Permute? ==> s.last == s.at
    ensures EventsLeft(spec, ordering, s, "") == []
    ensures s.first <= s.last <= s.at < |s.view|
    ensures s.first != s.last ==>
      var view := Rotated(s.view, s.first, s.last, s.at + 1);
      Separated(spec, ordering, s.orig, s.start, view, s.first + (s.at + 1 - s.last))
    ensures s.first == s.last ==> Separated(spec, ordering, s.orig, s.start, s.view, s.at + 1)
  {
    hide Follows, EventsLeft, Data<string>.Consistent, Rotated, Sorted, Separated, ScanLayout.Exchange, Reset;
    FollowsPermutes(spec, ordering, s, "");
    Blocks(s);
    var past := FollowsTerminator(spec, ordering, s);
    if s.first != s.last {
      past := ScanLayout.Exchange(past);
    } else if s.permute {
      past := Reset(past);
    }
    Finish(past);
    SortedSeparates(spec, ordering, s, "", past, past.view, if past.permute then past.first else past.at);
  }

  /** my_index: the first occurrence of a character. */
  method MyIndex(s: string, c: char) returns (r: Option<nat>)
    ensures r == IndexOf(s, c)
  {
    var i := 0;
    while i < |s|
      invariant i <= |s|
      invariant IndexOf(s, c) == match IndexOf(s[i..], c) { case None => None case Some(k) => Some(i + k) }
    {
      if s[i] == c {
        return Some(i);
      }
      assert s[i..][1..] == s[i + 1..];
      i := i + 1;
    }
    return None;
  }

  /**
   * The layout is that of a scan of its vector: what is to be moved where is what the reading of the
   * vector calls options and operands; `left` is what remains of the element the scan has reached.
   */
  ghost predicate Follows(spec: Spec, ordering: Ordering, s: Layout<string>, left: string) {
    && s.start >= 1
    && s.permute == ordering.Permute?
    && s.options == Options(spec, ordering, s.orig[s.start..])
    && s.operands == Operands(spec, ordering, s.orig[s.start..])
    && s.moreOptions == Options(spec, ordering, s.orig[s.at..])
    && s.moreOperands == Operands(spec, ordering, s.orig[s.at..])
    && Begun(spec, s.orig, s.at, left)
  }

  /** A finished scan: options in front, operands behind, and `at` where the operands begin. */
  ghost predicate Separated(spec: Spec, ordering: Ordering, orig: seq<string>, start: nat, v: seq<string>, at: nat) {
    && 1 <= start <= |orig|
    && var args := orig[start..];
    && v == orig[..start] + Options(spec, ordering, args) + Operands(spec, ordering, args)
    && at == start + |Options(spec, ordering, args)|
  }

  lemma SortedSeparates(spec: Spec, ordering: Ordering, s: Layout<string>, left: string, t: Layout<string>,
          v: seq<string>, at: nat)
    requires Follows(spec, ordering, s, left) && Sorted(t, v, at)
    requires t.orig == s.orig && t.start == s.start && t.options == s.options && t.operands == s.operands
    ensures Separated(spec, ordering, t.orig, t.start, v, at)
  {
  }

  /** The events such a scan has still to report. */
  ghost function EventsLeft(spec: Spec, ordering: Ordering, s: Layout<string>, left: string): seq<Event>
    requires left != "" ==> s.at < |s.orig|
  {
    Ahead(spec, ordering, s.orig, s.at, left)
  }

  lemma {:induction false} FollowsBegin(spec: Spec, ordering: Ordering, v: seq<string>, start: nat,
          first: nat) returns (t: Layout<string>)
    requires 1 <= start <= |v| && first <= start && (ordering.Permute? ==> first == start)
    ensures Follows(spec, ordering, t, "") && t.orig == t.view == v
    ensures t.start == t.at == start && t.first == t.last == first
  {
    hide Options, Operands;
    var rest := v[start..];
    t := Begin(ordering.Permute?, v, start, first, Options(spec, ordering, rest), Operands(spec, ordering, rest));
  }

  lemma FollowsPermutes(spec: Spec, ordering: Ordering, s: Layout<string>, left: string)
    requires Follows(spec, ordering, s, left)
    ensures s.permute == ordering.Permute? && s.start >= 1
  {
  }

  lemma FollowsBegun(spec: Spec, ordering: Ordering, s: Layout<string>, left: string)
    requires Follows(spec, ordering, s, left) && left != ""
    ensures s.at < |s.orig| && IsOption(s.orig[s.at]) && !IsLong(spec, s.orig[s.at])
    ensures Current(spec, s.orig, s.at, left) == Cluster(spec.optstring, left, Following(s.orig[s.at..]))
    ensures |s.orig| == |s.view| && s.orig[s.at..] == s.view[s.at..] && |left| < |s.orig[s.at]|
  {
  }

  lemma {:induction false} FollowsLong(spec: Spec, ordering: Ordering, s: Layout<string>)
    requires Follows(spec, ordering, s, "") && s.at < |s.view| && IsOption(s.view[s.at]) && IsLong(spec, s.view[s.at])
    ensures |s.orig| == |s.view| && s.orig[s.at] == s.view[s.at]
    ensures Current(spec, s.orig, s.at, "")
         == LongElement(spec.optstring, spec.longopts.value, s.view[s.at][2..], Following(s.view[s.at..]))
  {
    hide Options, Operands, Data<string>.Consistent, LongElement;
    Blocks(s);
  }

  /** What is left to report can be read off the vector as it stands. */
  lemma {:induction false} EventsHere(spec: Spec, ordering: Ordering, s: Layout<string>, left: string)
    requires Follows(spec, ordering, s, left)
    ensures s.at <= |s.view| && (left != "" ==> s.at < |s.view|)
    ensures Ahead(spec, ordering, s.view, s.at, left) == EventsLeft(spec, ordering, s, left)
  {
    hide Options, Operands, Data<string>.Consistent;
    Blocks(s);
  }

  /** Moving the skipped operands up does not change what the scan reads. */
  lemma FollowsMoves(spec: Spec, s: Layout<string>, t: Layout<string>)
    requires Follows(spec, Permute, s, "")
    requires t == s.(view := t.view, before := t.before, after := t.after, first := t.first, last := t.last)
    ensures Follows(spec, Permute, t, "") && EventsLeft(spec, Permute, t, "") == EventsLeft(spec, Permute, s, "")
  {
  }

  lemma {:induction false} FollowsSkip(spec: Spec, s: Layout<string>) returns (t: Layout<string>)
    requires Follows(spec, Permute, s, "")
    requires s.last == s.at < |s.orig| && IsOperand(s.orig[s.at])
    ensures Follows(spec, Permute, t, "") && EventsLeft(spec, Permute, t, "") == EventsLeft(spec, Permute, s, "")
    ensures t.orig == s.orig && t.start == s.start && t.view == s.view
    ensures t.first == s.first && t.last == t.at == s.at + 1
  {
    hide Options, Operands, Ahead;
    SkipParts(spec, s.orig, s.at);
    t := Skip(s);
  }

  lemma {:induction false} FollowsPass(spec: Spec, ordering: Ordering, s: Layout<string>,
          left: string) returns (t: Layout<string>)
    requires Follows(spec, ordering, s, left)
    requires s.at < |s.orig| && IsOption(s.orig[s.at])
    ensures Follows(spec, ordering, t, "")
    ensures t.orig == s.orig && t.start == s.start && t.view == s.view && t.first == s.first && t.last == s.last
    ensures var e := Current(spec, s.orig, s.at, left);
      && t.at == s.at + Width(e)
      && EventsLeft(spec, ordering, s, left) == e.events + EventsLeft(spec, ordering, t, "")
  {
    hide Options, Operands, Ahead, Current;
    PassParts(spec, ordering, s.orig, s.at, left);
    t := Pass(s, Width(Current(spec, s.orig, s.at, left)));
  }

  lemma {:induction false} FollowsEnter(spec: Spec, ordering: Ordering, s: Layout<string>)
    requires Follows(spec, ordering, s, "")
    requires s.at < |s.orig| && IsOption(s.orig[s.at]) && !IsLong(spec, s.orig[s.at])
    ensures var left := s.orig[s.at][1..];
      && Follows(spec, ordering, s, left)
      && EventsLeft(spec, ordering, s, left) == EventsLeft(spec, ordering, s, "")
  {
    hide Options, Operands, Ahead, Begun;
    EnterParts(spec, ordering, s.orig, s.at);
  }

  lemma {:induction false} FollowsTrim(spec: Spec, ordering: Ordering, s: Layout<string>, left: string)
    requires Follows(spec, ordering, s, left) && |left| > 1 && s.at < |s.orig|
    requires IsOption(s.orig[s.at])
    requires var e := Cluster(spec.optstring, left, Following(s.orig[s.at..]));
      Cluster(spec.optstring, left[1..], Following(s.orig[s.at..])) == Element(e.events[1..], e.takesNext)
    ensures Follows(spec, ordering, s, left[1..])
    ensures var ahead := EventsLeft(spec, ordering, s, left);
      && ahead != [] && ahead[0] == Cluster(spec.optstring, left, Following(s.orig[s.at..])).events[0]
      && ahead[1..] == EventsLeft(spec, ordering, s, left[1..])
  {
    hide Options, Operands, Ahead, Begun, Cluster;
    TrimParts(spec, ordering, s.orig, s.at, left);
  }

  /** The scan ends at the end of the vector, and without permutation at the first operand. */
  lemma {:induction false} FollowsEnd(spec: Spec, ordering: Ordering, s: Layout<string>)
    requires Follows(spec, ordering, s, "")
    requires s.at == |s.orig| || (IsOperand(s.orig[s.at]) && ordering.RequireOrder?)
    requires ordering.Permute? ==> s.last == s.at
    ensures EventsLeft(spec, ordering, s, "") == []
    ensures Sorted(s, s.view, if s.permute then s.first else s.at)
  {
    hide Options, Operands, Ahead;
    EndParts(spec, ordering, s.orig, s.at);
    assert s.at == |s.orig| ==> s.orig[s.at..] == [];
    Finish(s);
  }

  /** `--` is the last option: once it is passed only operands remain. */
  lemma {:induction false} FollowsTerminator(spec: Spec, ordering: Ordering,
          s: Layout<string>) returns (t: Layout<string>)
    requires Follows(spec, ordering, s, "")
    requires s.at < |s.orig| && s.orig[s.at] == "--"
    ensures EventsLeft(spec, ordering, s, "") == []
    ensures t.orig == s.orig && t.start == s.start && t.options == s.options && t.operands == s.operands
    ensures t.permute == s.permute && t.view == s.view && t.first == s.first && t.last == s.last && t.at == s.at + 1
    ensures t.moreOptions == [] && t.moreOperands == t.orig[t.at..]
  {
    hide Options, Operands, Ahead;
    EndParts(spec, ordering, s.orig, s.at);
    t := Pass(s, 1);
  }

  /** What one call made visible. */
  datatype Seen = Seen(ret: int, optarg: Option<string>)

  function SeenOf(events: seq<Event>): (s: seq<Seen>)
    ensures |s| == |events|
  {
    if events == [] then [] else [Seen(events[0].ret, events[0].optarg)] + SeenOf(events[1..])
  }

  /** What a caller sees who stops at the first -1. */
  function UntilEnd(events: seq<Event>): (r: seq<Event>)
    ensures |r| <= |events|
  {
    if events == [] || events[0].ret == -1 then [] else [events[0]] + UntilEnd(events[1..])
  }

  lemma UntilEndBounded(events: seq<Event>)
    ensures |SeenOf(UntilEnd(events))| <= |events|
    ensures Collected(events, [], events)
  {
  }

  lemma {:induction false} UntilEndStep(events: seq<Event>)
    ensures events == [] || events[0].ret == -1 ==> UntilEnd(events) == [] && SeenOf(UntilEnd(events)) == []
    ensures events != [] && events[0].ret != -1 ==>
      && SeenOf(UntilEnd(events)) == [Seen(events[0].ret, events[0].optarg)] + SeenOf(UntilEnd(events[1..]))
      && (UntilEnd(events) == events <==> UntilEnd(events[1..]) == events[1..])
  {
    if events != [] && events[0].ret != -1 {
      assert events == [events[0]] + events[1..];
      assert UntilEnd(events)[1..] == UntilEnd(events[1..]);
    }
  }

  /** Of all events the caller has seen those before `rest`. */
  ghost predicate Collected(all: seq<Event>, seen: seq<Seen>, rest: seq<Event>) {
    && SeenOf(UntilEnd(all)) == seen + SeenOf(UntilEnd(rest))
    && (UntilEnd(all) == all <==> UntilEnd(rest) == rest)
  }

  lemma {:induction false} CollectStep(all: seq<Event>, seen: seq<Seen>, rest: seq<Event>)
    requires Collected(all, seen, rest)
    ensures rest == [] || rest[0].ret == -1 ==> seen == SeenOf(UntilEnd(all)) && (UntilEnd(all) == all <==> rest == [])
    ensures rest != [] && rest[0].ret != -1 ==>
      Collected(all, seen + [Seen(rest[0].ret, rest[0].optarg)], rest[1..])
  {
    UntilEndStep(rest);
    hide SeenOf, UntilEnd;
  }

  /** No long option returns the value that means the end. */
  predicate Distinguishable(spec: Spec) {
    spec.longopts.Some? ==>
      forall i :: 0 <= i < |spec.longopts.value| ==>
        spec.longopts.value[i].flag.Some? || spec.longopts.value[i].val != -1
  }

  ghost predicate NoneEnds(events: seq<Event>) {
    forall k :: 0 <= k < |events| ==> events[k].ret != -1
  }

  lemma {:induction false} NoneEndsUntilEnd(events: seq<Event>)
    ensures NoneEnds(events) <==> UntilEnd(events) == events
  {
    if events != [] {
      UntilEndStep(events);
      NoneEndsUntilEnd(events[1..]);
      assert NoneEnds(events[1..]) <==> forall k :: 1 <= k < |events| ==> events[k].ret != -1 by {
        assert forall k :: 0 <= k < |events| - 1 ==> events[1..][k] == events[k + 1];
        assert forall k :: 1 <= k < |events| ==> events[k] == events[1..][k - 1];
      }
    }
  }

  lemma {:induction false} ClusterNeverEnds(optstring: string, chars: string, next: Option<string>)
    requires chars != ""
    ensures NoneEnds(Cluster(optstring, chars, next).events)
  {
    if chars[1..] != "" {
      ClusterNeverEnds(optstring, chars[1..], next);
    }
  }

  /** Then a caller who stops at the first -1 sees the whole scan. */
  lemma {:induction false} SeesTheWholeScan(spec: Spec, ordering: Ordering, args: seq<string>)
    requires Distinguishable(spec)
    ensures UntilEnd(Read(spec, ordering, args).events) == Read(spec, ordering, args).events
    decreases |args|
  {
    NoneEndsUntilEnd(Read(spec, ordering, args).events);
    if args == [] || args[0] == "--" {
    } else if IsOperand(args[0]) {
      SeesTheWholeScan(spec, ordering, args[1..]);
    } else {
      var e := ReadElement(spec, args[0], Following(args));
      ElementNeverEnds(spec, args[0], Following(args));
      hide ReadElement, UntilEnd;
      SeesTheWholeScan(spec, ordering, args[Width(e)..]);
      var rest := Read(spec, ordering, args[Width(e)..]).events;
      NoneEndsUntilEnd(rest);
      assert Read(spec, ordering, args).events == e.events + rest;
    }
  }

  lemma {:induction false} ElementNeverEnds(spec: Spec, arg: string, next: Option<string>)
    requires Distinguishable(spec) && !IsOperand(arg)
    ensures NoneEnds(ReadElement(spec, arg, next).events)
  {
    hide Resolve, NameOf, ValueOf, Cluster;
    if !IsLong(spec, arg) {
      ClusterNeverEnds(spec.optstring, arg[1..], next);
    }
  }

  class Getopt {
    const posixlyCorrect: bool
    var optind: nat
    var optarg: Option<string>
    var optopt: int
    var initialized: bool
    var nextchar: string
    var ordering: Ordering
    var firstNonopt: nat
    var lastNonopt: nat
    /** The flag variables of the caller that long options may set. */
    var flags: map<nat, int>

    /** Whether a scan is under way, and how far it has rearranged the vector. */
    ghost var running: bool
    ghost var lay: Layout<string>

    constructor (posixlyCorrect: bool)
      ensures optind == 1 && !initialized && !running && nextchar == ""
      ensures optarg == None && optopt == '?' as int && flags == map[]
      ensures this.posixlyCorrect == posixlyCorrect
    {
      this.posixlyCorrect := posixlyCorrect;
      optind, optarg, optopt := 1, None, '?' as int;
      initialized, nextchar, ordering := false, "", Permute;
      firstNonopt, lastNonopt, flags := 0, 0, map[];
      running := false;
      lay := ScanLayout.Begin(true, [], 0, 0, [], []);
    }

    /** The next call will (re)initialise the scanner. */
    ghost predicate Uninitialized()
      reads this
    {
      optind == 0 || !initialized
    }

    /** The ordering in force at the next call. */
    ghost function OrderingAhead(): Ordering
      reads this
    {
      if !Uninitialized() then ordering else if posixlyCorrect then RequireOrder else Permute
    }

    /** Where the next call takes up the vector. */
    ghost function Position(): nat
      reads this
    {
      if optind == 0 then 1 else optind
    }

    /** The events still to come if the scanner takes up the vector v. */
    ghost function EventsAhead(spec: Spec, v: seq<string>): seq<Event>
      reads this
      requires Position() <= |v|
      requires nextchar != "" && !Uninitialized() ==> Position() < |v|
    {
      Ahead(spec, OrderingAhead(), v, Position(), if Uninitialized() then "" else nextchar)
    }

    /** The state between two calls of one scan. */
    ghost predicate Running(spec: Spec, argv: array<string>)
      reads this, argv
    {
      && running && !Uninitialized()
      && lay.view == argv[..] && lay.first == firstNonopt && lay.last == lastNonopt && lay.at == optind
      && Follows(spec, ordering, lay, nextchar)
    }

    /** Before the first call, after a call that returned -1, or after the caller set optind to zero. */
    ghost predicate Idle(argv: array<string>)
      reads this
    {
      && Position() <= argv.Length
      && (Uninitialized() ||
          (&& !running && nextchar == ""
           && ((firstNonopt >= optind && lastNonopt >= optind)
               || (ordering.RequireOrder? && firstNonopt == lastNonopt))))
    }

    /** The scan is over and the vector sorted: options in front, operands behind. */
    ghost predicate Finished(spec: Spec, argv: array<string>)
      reads this, argv
    {
      && Idle(argv) && !Uninitialized() && !running
      && Separated(spec, ordering, lay.orig, lay.start, argv[..], optind)
    }

    /** The characters of the current element that are still to be looked at. */
    ghost function CharsLeft(argv: array<string>): nat
      reads this, argv
    {
      if !Uninitialized() && nextchar != "" then |nextchar|
      else if Position() < argv.Length then |argv[Position()]|
      else 0
    }

    /** The call made exactly this event visible. */
    ghost predicate Shows(e: Event, ret: int, index: Option<nat>, diagnostic: Diagnostic,
                          optoptBefore: int, flagsBefore: map<nat, int>)
      reads this
    {
      && ret == e.ret && index == e.index && diagnostic == e.diagnostic
      && optarg == e.optarg
      && optopt == e.optopt.GetOr(optoptBefore)
      && flags == if e.store.Some? then flagsBefore[e.store.value.0 := e.store.value.1] else flagsBefore
    }

    /** exchange: the skipped operands change places with the options read after them. */
    method Exchange(argv: array<string>) returns (ghost swaps: nat)
      requires firstNonopt <= lastNonopt <= optind <= argv.Length
      modifies this`firstNonopt, this`lastNonopt, argv
      ensures argv[..] == Rotated(old(argv[..]), old(firstNonopt), old(lastNonopt), optind)
      ensures firstNonopt == old(firstNonopt) + (optind - old(lastNonopt)) && lastNonopt == optind
      ensures var p, q := old(lastNonopt) - old(firstNonopt), optind - old(lastNonopt);
        swaps <= p + q && IsGcd(p + q - swaps, p, q)
    {
      hide Rotated;
      swaps := Rotate(argv, firstNonopt, lastNonopt, optind);
      SwapsAreEuclid(lastNonopt - firstNonopt, optind - lastNonopt);
      firstNonopt := firstNonopt + (optind - lastNonopt);
      lastNonopt := optind;
    }

    /** _getopt_initialize, for an option string without an ordering prefix. */
    method Initialize()
      modifies this`firstNonopt, this`lastNonopt, this`nextchar, this`ordering, this`initialized
      ensures firstNonopt == lastNonopt == optind && nextchar == "" && initialized
      ensures ordering == if posixlyCorrect then RequireOrder else Permute
    {
      firstNonopt, lastNonopt := optind, optind;
      nextchar := "";
      ordering := if posixlyCorrect then RequireOrder else Permute;
      initialized := true;
    }

    /** PERMUTE only: the skipped operands are brought up to `optind`, past the options read after them. */
    method BringUp(spec: Spec, argv: array<string>)
      requires Running(spec, argv) && nextchar == "" && ordering.Permute?
      modifies this`firstNonopt, this`lastNonopt, this`lay, argv
      ensures lay.view == argv[..] && lay.first == firstNonopt && lay.last == lay.at == optind
      ensures lay.orig == old(lay.orig) && lay.start == old(lay.start)
      ensures Follows(spec, Permute, lay, "")
      ensures EventsLeft(spec, Permute, lay, "") == old(EventsLeft(spec, Permute, lay, ""))
    {
      hide Follows, EventsLeft, Data<string>.Consistent, Rotated;
      FollowsPermutes(spec, ordering, lay, nextchar);
      ghost var moved := lay;
      Blocks(lay);
      if firstNonopt != lastNonopt && lastNonopt != optind {
        moved := ScanLayout.Exchange(lay);
        ghost var swaps := Exchange(argv);
      } else if lastNonopt != optind {
        moved := Reset(lay);
        firstNonopt := optind;
      }
      FollowsMoves(spec, lay, moved);
      lay := moved;
    }

    /** PERMUTE only: the operands that follow are skipped too. */
    method SkipOperands(spec: Spec, argv: array<string>)
      requires Running(spec, argv) && nextchar == "" && ordering.Permute?
      modifies this`optind, this`firstNonopt, this`lastNonopt, this`lay, argv
      ensures Running(spec, argv) && lastNonopt == optind >= old(optind)
      ensures lay.orig == old(lay.orig) && lay.start == old(lay.start)
      ensures optind < argv.Length ==> !IsOperand(argv[optind])
      ensures EventsLeft(spec, Permute, lay, "") == old(EventsLeft(spec, Permute, lay, ""))
    {
      hide Follows, EventsLeft, Data<string>.Consistent, IsOperand;
      BringUp(spec, argv);
      Blocks(lay);
      while optind < argv.Length && IsOperand(argv[optind])
        invariant old(optind) <= optind <= argv.Length
        invariant lay.orig == old(lay.orig) && lay.start == old(lay.start) && lay.view == argv[..]
        invariant lay.first == firstNonopt && lay.last == lay.at == optind
        invariant Follows(spec, Permute, lay, "")
        invariant EventsLeft(spec, Permute, lay, "") == old(EventsLeft(spec, Permute, lay, ""))
      {
        Blocks(lay);
        lay := FollowsSkip(spec, lay);
        optind := optind + 1;
      }
      lastNonopt := optind;
    }

    /** `--`: exchange it with the skipped operands as if it were an option, and skip everything else. */
    method PassTerminator(spec: Spec, argv: array<string>)
      requires Running(spec, argv) && nextchar == "" && optind < argv.Length && argv[optind] == "--"
      requires ordering.Permute? ==> lastNonopt == optind
      modifies this`optind, this`firstNonopt, this`lastNonopt, argv
      ensures optind == lastNonopt == argv.Length >= firstNonopt >= lay.start >= 1
      ensures Separated(spec, ordering, lay.orig, lay.start, argv[..], firstNonopt)
      ensures EventsLeft(spec, ordering, lay, "") == []
    {
      hide Follows, EventsLeft, Data<string>.Consistent, Rotated, Separated;
      FollowsPermutes(spec, ordering, lay, nextchar);
      Blocks(lay);
      TerminatorSeparates(spec, ordering, lay);
      optind := optind + 1;
      if firstNonopt != lastNonopt && lastNonopt != optind {
        ghost var swaps := Exchange(argv);
      } else if firstNonopt == lastNonopt {
        firstNonopt := optind;
      }
      lastNonopt := argv.Length;
      optind := argv.Length;
    }

    /** Advance to the next option element, or finish the scan. */
    method Advance(spec: Spec, argv: array<string>) returns (done: bool)
      requires Running(spec, argv) && nextchar == ""
      modifies this`optind, this`firstNonopt, this`lastNonopt, this`running, this`lay, argv
      ensures lay.orig == old(lay.orig) && lay.start == old(lay.start)
      ensures done ==> Finished(spec, argv) && old(EventsLeft(spec, ordering, lay, "")) == []
      ensures !done ==> Running(spec, argv) && old(optind) <= optind < argv.Length
      ensures !done ==> IsOption(argv[optind])
      ensures !done ==> EventsLeft(spec, ordering, lay, "") == old(EventsLeft(spec, ordering, lay, ""))
    {
      hide Follows, EventsLeft, Data<string>.Consistent, Separated, Sorted, IsOperand, Ahead, Read, Options, Operands;
      hide Select, Arranged, Rotated;
      if ordering == Permute {
        SkipOperands(spec, argv);
      }
      FollowsPermutes(spec, ordering, lay, nextchar);
      Blocks(lay);
      if optind != argv.Length && argv[optind] == "--" {
        PassTerminator(spec, argv);
      } else if optind == argv.Length || IsOperand(argv[optind]) {
        FollowsEnd(spec, ordering, lay);
        SortedSeparates(spec, ordering, lay, nextchar, lay, lay.view, if lay.permute then lay.first else lay.at);
      }
      if optind == argv.Length {
        if firstNonopt != lastNonopt {
          optind := firstNonopt;
        }
        running := false;
        return true;
      }
      if IsOperand(argv[optind]) {
        running := false;
        return true;
      }
      return false;
    }

    /**
     * The argument of a short option that has one (getopt.c:1127-1187): the rest of the element, or the next
     * element if it is required. A rest that is taken ends the element.
     */
    method TakeArgument(spec: Spec, argv: array<string>, c: char, optional: bool)
      returns (ret: int, diagnostic: Diagnostic)
      requires optarg == None && spec.optstring != ""
      requires optind <= argv.Length && (nextchar != "" ==> optind < argv.Length)
      modifies this`optind, this`nextchar, this`optarg, this`optopt
      ensures nextchar == ""
      ensures if old(nextchar) != "" then optarg == Some(old(nextchar)) && optind == old(optind) + 1
              else if optional || old(optind) == argv.Length then optarg == None && optind == old(optind)
              else optarg == Some(argv[old(optind)]) && optind == old(optind) + 1
      ensures if optional || optarg.Some? then ret == c as int && diagnostic == Silent && optopt == old(optopt)
              else ret == MissingReturn(spec.optstring) && diagnostic == ArgumentRequired && optopt == c as int
    {
      if nextchar != "" {
        optarg := Some(nextchar);
        optind := optind + 1;
      } else if optional {
        optarg := None;
      } else if optind == argv.Length {
        optopt := c as int;
        ret := if spec.optstring[0] == ':' then ':' as int else FAILURE;
        return ret, ArgumentRequired;
      } else {
        optarg := Some(argv[optind]);
        optind := optind + 1;
      }
      nextchar := "";
      return c as int, Silent;
    }

    /** The next short option character, with its argument (getopt.c:882-1189). */
    method DecodeShort(spec: Spec, argv: array<string>) returns (ret: int, diagnostic: Diagnostic)
      requires Supported(spec)
      requires nextchar != "" && optind < argv.Length && optarg == None
      modifies this`optind, this`nextchar, this`optarg, this`optopt
      ensures var next := Following(argv[old(optind)..]);
        var e := Cluster(spec.optstring, old(nextchar), next);
        && Shows(e.events[0], ret, None, diagnostic, old(optopt), flags)
        && (if nextchar == "" then |e.events| == 1 && optind == old(optind) + Width(e)
            else optind == old(optind) && |old(nextchar)| > 1 && nextchar == old(nextchar)[1..]
                 && Cluster(spec.optstring, nextchar, next) == Element(e.events[1..], e.takesNext))
    {
      hide Supported;
      var c := nextchar[0];
      nextchar := nextchar[1..];
      var found := MyIndex(spec.optstring, c);
      if nextchar == "" {
        optind := optind + 1;
      }
      if found.None? || c == ':' {
        optopt := c as int;
        return FAILURE, InvalidCharacter;
      }
      if found.value + 1 < |spec.optstring| && spec.optstring[found.value + 1] == ':' {
        var optional := found.value + 2 < |spec.optstring| && spec.optstring[found.value + 2] == ':';
        ret, diagnostic := TakeArgument(spec, argv, c, optional);
        return;
      }
      return c as int, Silent;
    }

    /** A long option, with its argument (getopt.c:642-878). */
    method DecodeLong(spec: Spec, table: seq<LongOption>, argv: array<string>)
      returns (ret: int, index: Option<nat>, diagnostic: Diagnostic)
      requires optind < argv.Length && optarg == None
      modifies this`optind, this`nextchar, this`optarg, this`optopt, this`flags
      ensures var e := LongElement(spec.optstring, table, old(nextchar), Following(argv[old(optind)..]));
        && Shows(e.events[0], ret, index, diagnostic, old(optopt), old(flags))
        && nextchar == "" && optind == old(optind) + Width(e)
    {
      hide Resolve, NameOf, ValueOf;
      ghost var e := LongElement(spec.optstring, table, nextchar, Following(argv[optind..]));
      var nameend := 0;
      while nameend < |nextchar| && nextchar[nameend] != '='
        invariant nameend <= |nextchar| && '=' !in nextchar[..nameend]
      {
        nameend := nameend + 1;
      }
      NameEnds(nextchar, nameend);
      var r := Lookup(table, nextchar[..nameend]);
      if r.Ambiguous? {
        nextchar := "";
        optind := optind + 1;
        optopt := 0;
        return FAILURE, None, AmbiguousName;
      }
      if r.Unknown? {
        nextchar := "";
        optind := optind + 1;
        optopt := 0;
        return FAILURE, None, UnrecognizedName;
      }
      var o := table[r.index];
      optind := optind + 1;
      if nameend < |nextchar| {
        if o.hasArg != 0 {
          optarg := Some(nextchar[nameend + 1..]);
        } else {
          nextchar := "";
          optopt := o.val;
          return FAILURE, None, ArgumentNotAllowed;
        }
      } else if o.hasArg == 1 {
        if optind < argv.Length {
          optarg := Some(argv[optind]);
          optind := optind + 1;
        } else {
          nextchar := "";
          optopt := o.val;
          ret := if spec.optstring != "" && spec.optstring[0] == ':' then ':' as int else FAILURE;
          return ret, None, ArgumentRequired;
        }
      }
      assert e.events == [LongEvent(o, r.index, optarg)];
      nextchar := "";
      if o.flag.Some? {
        flags := flags[o.flag.value := o.val];
        return 0, Some(r.index), Silent;
      }
      return o.val, Some(r.index), Silent;
    }

    /** Reads the next short option of the element the scan is in. */
    method TakeShort(spec: Spec, argv: array<string>) returns (ret: int, diagnostic: Diagnostic)
      requires Supported(spec) && Running(spec, argv) && nextchar != "" && optarg == None
      modifies this`optind, this`nextchar, this`optarg, this`optopt, this`lay
      ensures Running(spec, argv) && lay.orig == old(lay.orig) && lay.start == old(lay.start)
      ensures var ahead := old(EventsLeft(spec, ordering, lay, nextchar));
        && ahead != []
        && Shows(ahead[0], ret, None, diagnostic, old(optopt), flags)
        && EventsLeft(spec, ordering, lay, nextchar) == ahead[1..]
      ensures optind > old(optind) || (nextchar != "" && optind == old(optind) && |nextchar| < |old(nextchar)|)
    {
      hide Follows, EventsLeft, Data<string>.Consistent, Cluster, Current, Supported;
      ghost var left := nextchar;
      FollowsBegun(spec, ordering, lay, left);
      ret, diagnostic := DecodeShort(spec, argv);
      if nextchar == "" {
        lay := FollowsPass(spec, ordering, lay, left);
      } else {
        FollowsTrim(spec, ordering, lay, left);
      }
    }

    /** Reads the long option at `optind`. */
    method TakeLong(spec: Spec, argv: array<string>) returns (ret: int, index: Option<nat>, diagnostic: Diagnostic)
      requires spec.longopts.Some? && optind < argv.Length && IsOption(argv[optind]) && IsLong(spec, argv[optind])
      requires running && !Uninitialized() && lay.view == argv[..] && optarg == None
      requires lay.first == firstNonopt && lay.last == lastNonopt && lay.at == optind
      requires Follows(spec, ordering, lay, "") && nextchar == argv[optind][2..]
      modifies this`optind, this`nextchar, this`optarg, this`optopt, this`flags, this`lay
      ensures Running(spec, argv) && lay.orig == old(lay.orig) && lay.start == old(lay.start)
      ensures var ahead := old(EventsLeft(spec, ordering, lay, ""));
        && ahead != []
        && Shows(ahead[0], ret, index, diagnostic, old(optopt), old(flags))
        && EventsLeft(spec, ordering, lay, nextchar) == ahead[1..]
      ensures optind > old(optind)
    {
      hide Follows, EventsLeft, Data<string>.Consistent, LongElement, Current;
      FollowsLong(spec, ordering, lay);
      ghost var past := FollowsPass(spec, ordering, lay, "");
      ret, index, diagnostic := DecodeLong(spec, spec.longopts.value, argv);
      lay := past;
    }

    /** Begins the option element at `optind`. */
    method TakeFirst(spec: Spec, argv: array<string>) returns (ret: int, index: Option<nat>, diagnostic: Diagnostic)
      requires Supported(spec) && Running(spec, argv) && nextchar == "" && optarg == None
      requires optind < argv.Length && IsOption(argv[optind])
      modifies this`optind, this`nextchar, this`optarg, this`optopt, this`flags, this`lay
      ensures Running(spec, argv) && lay.orig == old(lay.orig) && lay.start == old(lay.start)
      ensures var ahead := old(EventsLeft(spec, ordering, lay, ""));
        && ahead != []
        && Shows(ahead[0], ret, index, diagnostic, old(optopt), old(flags))
        && EventsLeft(spec, ordering, lay, nextchar) == ahead[1..]
      ensures optind > old(optind) || (nextchar != "" && optind == old(optind) && |nextchar| < |argv[optind]|)
    {
      hide Follows, EventsLeft, Data<string>.Consistent, Cluster, LongElement, Supported;
      Blocks(lay);
      if spec.longopts.Some? && argv[optind][1] == '-' {
        nextchar := argv[optind][2..];
        ret, index, diagnostic := TakeLong(spec, argv);
      } else {
        FollowsEnter(spec, ordering, lay);
        nextchar := argv[optind][1..];
        ret, diagnostic := TakeShort(spec, argv);
        index := None;
      }
    }

    /** Initialise if need be; between elements, bring the bounds of the skipped operands into range. */
    method Prepare(spec: Spec, argv: array<string>)
      requires argv.Length > 0 && (Idle(argv) || Running(spec, argv))
      modifies this`optind, this`initialized, this`ordering, this`nextchar
      modifies this`firstNonopt, this`lastNonopt, this`running, this`lay
      ensures Running(spec, argv)
      ensures optind == old(Position()) && ordering == old(OrderingAhead())
      ensures nextchar == old(if Uninitialized() then "" else nextchar)
      ensures if old(Idle(argv)) then lay.orig == old(argv[..]) && lay.start == optind
              else lay.orig == old(lay.orig) && lay.start == old(lay.start)
    {
      hide Follows, Data<string>.Consistent;
      ghost var idle := Idle(argv);
      if optind == 0 || !initialized {
        if optind == 0 {
          optind := 1;
        }
        Initialize();
      }
      Blocks(lay);
      if nextchar == "" {
        if lastNonopt > optind {
          lastNonopt := optind;
        }
        if firstNonopt > optind {
          firstNonopt := optind;
        }
      }
      if idle {
        lay := FollowsBegin(spec, ordering, argv[..], optind, firstNonopt);
        running := true;
      }
    }

    /** Takes up the element the scan is in, or else advances to the next one. */
    method Step(spec: Spec, argv: array<string>) returns (ret: int, index: Option<nat>, diagnostic: Diagnostic)
      requires Supported(spec) && Running(spec, argv) && optarg == None
      modifies this`optind, this`nextchar, this`optarg, this`optopt, this`flags
      modifies this`firstNonopt, this`lastNonopt, this`running, this`lay, argv
      ensures lay.orig == old(lay.orig) && lay.start == old(lay.start)
      ensures var ahead := old(EventsLeft(spec, ordering, lay, nextchar));
        if ahead == [] then
          && ret == -1 && index == None && diagnostic == Silent && Finished(spec, argv)
          && optarg == None && optopt == old(optopt) && flags == old(flags)
        else
          && Shows(ahead[0], ret, index, diagnostic, old(optopt), old(flags))
          && Running(spec, argv) && EventsLeft(spec, ordering, lay, nextchar) == ahead[1..]
          && (optind > old(optind) || (optind == old(optind) && CharsLeft(argv) < old(CharsLeft(argv))))
    {
      hide Follows, EventsLeft, Data<string>.Consistent, IsOperand, Separated, Supported;
      Blocks(lay);
      if nextchar == "" {
        var done := Advance(spec, argv);
        if done {
          return -1, None, Silent;
        }
        Blocks(lay);
        ret, index, diagnostic := TakeFirst(spec, argv);
      } else {
        ret, diagnostic := TakeShort(spec, argv);
        index := None;
      }
    }

    /**
     * One call. It either finishes the scan and returns -1, or makes the next event visible; the events
     * come in the order in which the vector reads from left to right, whatever has been moved meanwhile.
     */
    method Next(spec: Spec, argv: array<string>) returns (ret: int, index: Option<nat>, diagnostic: Diagnostic)
      requires Supported(spec)
      requires argv.Length == 0 || Idle(argv) || Running(spec, argv)
      modifies this, argv
      ensures argv.Length == 0 ==> ret == -1 && unchanged(this)
      ensures argv.Length > 0 ==>
        var ahead := old(EventsAhead(spec, argv[..]));
        if ahead == [] then
          && ret == -1 && index == None && diagnostic == Silent && Finished(spec, argv)
          && optarg == None && optopt == old(optopt) && flags == old(flags)
        else
          && Shows(ahead[0], ret, index, diagnostic, old(optopt), old(flags))
          && Running(spec, argv) && EventsAhead(spec, argv[..]) == ahead[1..]
          && (optind > old(Position()) || (optind == old(Position()) && CharsLeft(argv) < old(CharsLeft(argv))))
      ensures argv.Length > 0 ==> ordering == old(OrderingAhead())
      ensures argv.Length > 0 ==>
        if old(Idle(argv)) then lay.orig == old(argv[..]) && lay.start == old(Position())
        else lay.orig == old(lay.orig) && lay.start == old(lay.start)
    {
      hide Follows, EventsLeft, Data<string>.Consistent, Ahead, Separated, Supported;
      if argv.Length < 1 {
        return -1, None, Silent;
      }
      optarg := None;
      Prepare(spec, argv);
      EventsHere(spec, ordering, lay, nextchar);
      ret, index, diagnostic := Step(spec, argv);
      if running {
        EventsHere(spec, ordering, lay, nextchar);
      }
    }

    /** The state at the head of the caller's loop: the scan has not begun, or it is under way. */
    ghost predicate Between(spec: Spec, argv: array<string>, orig: seq<string>, start: nat, ordering': Ordering)
      reads this, argv
    {
      && OrderingAhead() == ordering' && argv.Length == |orig|
      && Position() <= argv.Length && (nextchar != "" && !Uninitialized() ==> Position() < argv.Length)
      && if running && !Uninitialized() then Running(spec, argv) && lay.orig == orig && lay.start == start
         else Idle(argv) && argv[..] == orig && Position() == start
    }

    /**
     * The state at every point between calls: the operands skipped so far lie on [firstNonopt, lastNonopt),
     * the options and arguments read so far around them, and the rest of the vector has not moved.
     */
    lemma {:induction false} StateInvariant(spec: Spec, argv: array<string>)
      requires Running(spec, argv)
      ensures 1 <= lay.start && firstNonopt <= lastNonopt <= optind <= argv.Length == |lay.orig|
      ensures argv[..lay.start] == lay.orig[..lay.start] && argv[optind..] == lay.orig[optind..]
      ensures ordering.Permute? ==>
        && lay.start <= firstNonopt
        && argv[firstNonopt..lastNonopt] + Operands(spec, ordering, lay.orig[optind..])
           == Operands(spec, ordering, lay.orig[lay.start..])
        && argv[lay.start..firstNonopt] + argv[lastNonopt..optind] + Options(spec, ordering, lay.orig[optind..])
           == Options(spec, ordering, lay.orig[lay.start..])
    {
      hide Options, Operands, Arranged;
      Blocks(lay);
      assert argv[..] == lay.view;
    }

    lemma {:induction false} RunningInRange(spec: Spec, argv: array<string>)
      requires Running(spec, argv)
      ensures argv.Length == |lay.orig| && optind <= argv.Length && (nextchar != "" ==> optind < argv.Length)
    {
      Blocks(lay);
    }

    lemma {:induction false} BetweenStarts(spec: Spec, argv: array<string>)
      requires argv.Length > 0 && Idle(argv)
      ensures Between(spec, argv, argv[..], Position(), OrderingAhead())
      ensures EventsAhead(spec, argv[..]) == Read(spec, OrderingAhead(), argv[Position()..]).events
    {
      assert argv[..][Position()..] == argv[Position()..];
    }

    /** A call from the head of the caller's loop. */
    method Call(spec: Spec, argv: array<string>, ghost orig: seq<string>, ghost start: nat, ghost ordering': Ordering)
      returns (ret: int)
      requires Supported(spec) && argv.Length > 0 && Between(spec, argv, orig, start, ordering')
      modifies this, argv
      ensures var ahead := old(EventsAhead(spec, argv[..]));
        if ahead == [] then
          ret == -1 && Idle(argv) && ordering == ordering' && Separated(spec, ordering', orig, start, argv[..], optind)
        else
          && ret == ahead[0].ret && optarg == ahead[0].optarg
          && Between(spec, argv, orig, start, ordering') && EventsAhead(spec, argv[..]) == ahead[1..]
          && (optind > old(Position()) || (optind == old(Position()) && CharsLeft(argv) < old(CharsLeft(argv))))
    {
      hide Follows, Data<string>.Consistent, Ahead, Separated;
      ghost var more := EventsAhead(spec, argv[..]) != [];
      var index, diagnostic;
      ret, index, diagnostic := Next(spec, argv);
      if more {
        RunningInRange(spec, argv);
      }
    }

    /** The caller's loop (exact.c:97-111): call the scanner until it returns -1. */
    method Scan(spec: Spec, argv: array<string>) returns (seen: seq<Seen>)
      requires Supported(spec) && argv.Length > 0 && Idle(argv) && Position() <= argv.Length
      modifies this, argv
      ensures var args := old(argv[Position()..]);
        var events := Read(spec, old(OrderingAhead()), args).events;
        && seen == SeenOf(UntilEnd(events))
        && |seen| <= CallBound(args)
        && (UntilEnd(events) == events ==>
              && Separated(spec, old(OrderingAhead()), old(argv[..]), old(Position()), argv[..], optind)
              && Idle(argv) && ordering == old(OrderingAhead()))
    {
      hide Running, Idle, OrderingAhead, Ahead, Separated, Read, CallBound, UntilEnd, SeenOf, Collected;
      ghost var orig, from, ord := argv[..], Position(), OrderingAhead();
      BetweenStarts(spec, argv);
      ghost var all := EventsAhead(spec, argv[..]);
      EventsBounded(spec, ord, argv[from..]);
      UntilEndBounded(all);
      seen := [];
      while true
        invariant Between(spec, argv, orig, from, ord)
        invariant Collected(all, seen, EventsAhead(spec, argv[..]))
        decreases argv.Length - Position(), CharsLeft(argv)
      {
        CollectStep(all, seen, EventsAhead(spec, argv[..]));
        var ret := Call(spec, argv, orig, from, ord);
        if ret == -1 {
          return;
        }
        seen := seen + [Seen(ret, optarg)];
      }
    }
  }

  /** The name ends before the first equals sign. */
  lemma {:induction false} NameEnds(body: string, k: nat)
    requires k <= |body| && '=' !in body[..k] && (k < |body| ==> body[k] == '=')
    ensures NameOf(body) == body[..k]
    ensures ValueOf(body) == if k < |body| then Some(body[k + 1..]) else None
  {
    FirstIs(body, '=', k);
    assert k == |body| ==> body[..k] == body;
  }
}
