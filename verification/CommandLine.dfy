/** The program's own use of the scanner (exact.c:90-141). */
module CommandLine {
  import opened Common
  import opened LongNames
  import opened OptionGrammar
  import opened Reports
  import opened Scanner

  const LONG_OPTIONS: seq<LongOption> := [
    LongOption("help", 0, None, 'h' as int),
    LongOption("foreground", 0, None, 'f' as int),
    LongOption("sleep", 0, None, 's' as int),
    LongOption("debug", 0, None, 'd' as int),
    LongOption("preserver", 0, None, 'p' as int),
    LongOption("config", 1, None, 'c' as int),
    LongOption("version", 0, None, 'V' as int)]

  const SPEC: Spec := Spec("phsfdc:V", Some(LONG_OPTIONS))

  /** What becomes of the program after its command line is read. */
  datatype Fate = Runs | Exits(code: int)

  predicate SetsSomething(ret: int) {
    ret == 'f' as int || ret == 's' as int || ret == 'd' as int || ret == 'p' as int || ret == 'c' as int
  }

  /** The first call result that ends the program, if any, decides its fate. */
  function FateOf(seen: seq<Seen>): Fate {
    if seen == [] then Runs
    else if SetsSomething(seen[0].ret) then FateOf(seen[1..])
    else if seen[0].ret == 'h' as int || seen[0].ret == 'V' as int then Exits(0)
    else Exits(40)
  }

  /** Whether an option was given. */
  predicate Given(seen: seq<Seen>, c: char) {
    exists k :: 0 <= k < |seen| && seen[k].ret == c as int
  }

  /** The argument of the last -c. */
  function LastConfig(seen: seq<Seen>, default: Option<string>): Option<string> {
    if seen == [] then default
    else if seen[|seen| - 1].ret == 'c' as int then seen[|seen| - 1].optarg
    else LastConfig(seen[..|seen| - 1], default)
  }

  // ----- what the scanner can report for this program

  /** A known option, with an argument exactly if it is -c; or an error message and no argument. */
  predicate Reportable(e: Event) {
    if e.diagnostic.Silent? then
      && e.ret in {'p' as int, 'h' as int, 's' as int, 'f' as int, 'd' as int, 'V' as int, 'c' as int}
      && (e.ret == 'c' as int <==> e.optarg.Some?)
    else e.ret == FAILURE && e.optarg.None?
  }

  ghost predicate AllReportable(events: seq<Event>) {
    forall k :: 0 <= k < |events| ==> Reportable(events[k])
  }

  lemma ReportableAppend(a: seq<Event>, b: seq<Event>)
    requires AllReportable(a) && AllReportable(b)
    ensures AllReportable(a + b)
  {
  }

  lemma {:induction false} ProgramKinds(c: char)
    ensures KindOf(SPEC.optstring, c) ==
      if c in {'p', 'h', 's', 'f', 'd', 'V'} then NoArgument else if c == 'c' then RequiredArgument else Invalid
  {
    var k := if c == 'p' then 0 else if c == 'h' then 1 else if c == 's' then 2 else if c == 'f' then 3
             else if c == 'd' then 4 else if c == 'c' then 5 else if c == ':' then 6 else if c == 'V' then 7 else 8;
    hide IndexOf;
    forall j | 0 <= j < k ensures SPEC.optstring[j] != c {}
    FirstIs(SPEC.optstring, c, k);
  }

  lemma {:induction false} ProgramSupported()
    ensures Supported(SPEC)
  {
    assert SPEC.optstring[..8] == SPEC.optstring;
    FirstIs(SPEC.optstring, 'W', 8);
  }

  lemma OneReportable(e: Event)
    requires Reportable(e)
    ensures AllReportable([e])
  {
  }

  lemma {:induction false} ClusterReportable(chars: string, next: Option<string>)
    requires chars != ""
    ensures AllReportable(Cluster(SPEC.optstring, chars, next).events)
  {
    ProgramKinds(chars[0]);
    var more, events := chars[1..], Cluster(SPEC.optstring, chars, next).events;
    hide KindOf, Reportable, AllReportable;
    if KindOf(SPEC.optstring, chars[0]) == RequiredArgument {
      RequiredReportable(chars[0], if more != "" then Some(more) else next);
      OneReportable(events[0]);
      assert events == [events[0]];
    } else {
      SimpleReportable(chars[0]);
      OneReportable(events[0]);
      if more == "" {
        assert events == [events[0]];
      } else {
        ClusterReportable(more, next);
        ReportableAppend([events[0]], Cluster(SPEC.optstring, more, next).events);
      }
    }
  }

  lemma RequiredReportable(c: char, arg: Option<string>)
    requires c == 'c'
    ensures arg.Some? ==> Reportable(ShortEvent(c, arg))
    ensures Reportable(Event(MissingReturn(SPEC.optstring), None, Some(c as int), None, None, ArgumentRequired))
  {
  }

  lemma SimpleReportable(c: char)
    ensures c in {'p', 'h', 's', 'f', 'd', 'V'} ==> Reportable(ShortEvent(c, None))
    ensures Reportable(Event(FAILURE, None, Some(c as int), None, None, InvalidCharacter))
  {
  }

  lemma {:induction false} LongReportable(body: string, next: Option<string>)
    ensures AllReportable(LongElement(SPEC.optstring, LONG_OPTIONS, body, next).events)
  {
    hide Resolve, NameOf, ValueOf;
  }

  lemma {:induction false} ProgramReports(ordering: Ordering, args: seq<string>)
    ensures AllReportable(Read(SPEC, ordering, args).events)
    decreases |args|
  {
    hide Cluster, LongElement, Reportable;
    if args == [] || args[0] == "--" {
    } else if IsOperand(args[0]) {
      ProgramReports(ordering, args[1..]);
    } else {
      if IsLong(SPEC, args[0]) {
        LongReportable(args[0][2..], Following(args));
      } else {
        ClusterReportable(args[0][1..], Following(args));
      }
      var e := ReadElement(SPEC, args[0], Following(args));
      ProgramReports(ordering, args[Width(e)..]);
      ReportableAppend(e.events, Read(SPEC, ordering, args[Width(e)..]).events);
    }
  }

  /** Every abbreviation down to one letter is accepted; only the empty name is ambiguous. */
  lemma {:induction false} AbbreviationsUnambiguous(name: string)
    ensures Resolve(LONG_OPTIONS, name).Ambiguous? <==> name == ""
  {
    if name == "" {
      assert LONG_OPTIONS[0].name != "";
      assert !Answers(LONG_OPTIONS[0], name, true) && Answers(LONG_OPTIONS[0], name, false);
      assert !SameAction(LONG_OPTIONS[0], LONG_OPTIONS[1]);
    } else {
      forall i, j | 0 <= i < 7 && 0 <= j < 7 && name <= LONG_OPTIONS[i].name && name <= LONG_OPTIONS[j].name
        ensures i == j
      {
        assert LONG_OPTIONS[i].name[0] == name[0] == LONG_OPTIONS[j].name[0];
      }
    }
  }

  /** The usage text offers --preserve; the table says preserver, and the abbreviation rule reconciles them. */
  lemma {:induction false} PreserveIsAccepted()
    ensures Resolve(LONG_OPTIONS, "preserve") == Abbreviation(4)
  {
    AbbreviationsUnambiguous("preserve");
    assert forall i :: 0 <= i < 7 ==> LONG_OPTIONS[i].name != "preserve";
    assert "preserve" <= LONG_OPTIONS[4].name;
    assert Answers(LONG_OPTIONS[4], "preserve", false);
    assert forall i :: 0 <= i < 4 ==> LONG_OPTIONS[i].name[0] != "preserve"[0];
  }

  // ----- what the program's options mean

  /** Every word of the table, and every abbreviation of it, stands for the row that has its letter. */
  lemma {:induction false} WordStandsFor(word: string, letter: char, abbreviation: string) returns (k: nat)
    requires (word, letter) in {("help", 'h'), ("foreground", 'f'), ("sleep", 's'), ("debug", 'd'),
                                ("preserver", 'p'), ("config", 'c'), ("version", 'V')}
    requires abbreviation != "" && abbreviation <= word
    ensures StandsFor(SPEC, abbreviation, k) && '=' !in abbreviation
    ensures LONG_OPTIONS[k] == LongOption(word, if letter == 'c' then 1 else 0, None, letter as int)
  {
    k := Row(word, letter);
    forall j | 0 <= j < 7 && abbreviation <= LONG_OPTIONS[j].name ensures j == k {
      assert LONG_OPTIONS[j].name[0] == abbreviation[0] == word[0];
      FirstLetters(j, k);
    }
    hide Resolve;
    OnlyCandidate(LONG_OPTIONS, abbreviation, k);
    NoEquals(word);
    assert forall j :: 0 <= j < |abbreviation| ==> abbreviation[j] == word[j];
  }

  lemma {:induction false} Row(word: string, letter: char) returns (k: nat)
    requires (word, letter) in {("help", 'h'), ("foreground", 'f'), ("sleep", 's'), ("debug", 'd'),
                                ("preserver", 'p'), ("config", 'c'), ("version", 'V')}
    ensures k < 7 && LONG_OPTIONS[k] == LongOption(word, if letter == 'c' then 1 else 0, None, letter as int)
  {
    k := if letter == 'h' then 0 else if letter == 'f' then 1 else if letter == 's' then 2
         else if letter == 'd' then 3 else if letter == 'p' then 4 else if letter == 'c' then 5 else 6;
  }

  lemma FirstLetters(j: nat, k: nat)
    requires j < 7 && k < 7 && LONG_OPTIONS[j].name[0] == LONG_OPTIONS[k].name[0]
    ensures j == k
  {
  }

  lemma NoEquals(word: string)
    requires word in {"help", "foreground", "sleep", "debug", "preserver", "config", "version"}
    ensures '=' !in word
  {
  }

  /** Six letters report themselves. */
  lemma {:induction false} ProgramLetter(ordering: Ordering, letter: char, rest: seq<string>)
    requires letter in {'p', 'h', 's', 'f', 'd', 'V'}
    ensures Yields(SPEC, ordering, [['-', letter]], Event(letter as int, None, None, None, None, Silent), rest)
  {
    var s := SPEC.optstring;
    var k := if letter == 'p' then 0 else if letter == 'h' then 1 else if letter == 's' then 2
             else if letter == 'f' then 3 else if letter == 'd' then 4 else 7;
    assert s == s[..k] + [letter] + s[k + 1..];
    assert forall j :: 0 <= j < k ==> s[j] != letter;
    PlainOption(SPEC, ordering, s[..k], letter, s[k + 1..], rest);
  }

  /** The configuration file, however it is spelled; without a name it is an error. */
  lemma {:induction false} ProgramConfig(ordering: Ordering, abbreviation: string, name: string, rest: seq<string>)
    requires abbreviation != "" && abbreviation <= "config"
    ensures var seen := [Seen('c' as int, Some(name))] + SeenOf(Read(SPEC, ordering, rest).events);
      && SeenOf(Read(SPEC, ordering, ["-c", name] + rest).events) == seen
      && (name != "" ==> SeenOf(Read(SPEC, ordering, ["-c" + name] + rest).events) == seen)
      && SeenOf(Read(SPEC, ordering, ["--" + abbreviation, name] + rest).events) == seen
      && SeenOf(Read(SPEC, ordering, ["--" + abbreviation + "=" + name] + rest).events) == seen
    ensures SeenOf(Read(SPEC, ordering, ["-c"]).events) == [Seen('?' as int, None)]
    ensures SeenOf(Read(SPEC, ordering, ["--" + abbreviation]).events) == [Seen('?' as int, None)]
  {
    var s := SPEC.optstring;
    var k := WordStandsFor("config", 'c', abbreviation);
    assert s == s[..5] + ['c'] + s[6..] && 'c' !in s[..5] && s[6..] == ":V";
    hide Resolve, Read, Options, Operands;
    RequiredOption(SPEC, ordering, s[..5], 'c', s[6..], name, rest);
    assert ['-', 'c'] == "-c";
    var event := LongRequires(SPEC, ordering, abbreviation, k, name, rest);
    var event' := LongTakes(SPEC, ordering, abbreviation, k, name, rest);
    forall e: Event ensures SeenOf([e] + Read(SPEC, ordering, rest).events)
                         == [Seen(e.ret, e.optarg)] + SeenOf(Read(SPEC, ordering, rest).events) {
      SeenOfFirst(e, Read(SPEC, ordering, rest).events);
    }
    assert Read(SPEC, ordering, []).events == [] by { EmptyReads(ordering); }
    assert ["-c"] + [] == ["-c"] && ["--" + abbreviation] + [] == ["--" + abbreviation];
  }

  lemma EmptyReads(ordering: Ordering)
    ensures Read(SPEC, ordering, []).events == []
  {
  }

  lemma {:induction false} SeenOfFirst(e: Event, events: seq<Event>)
    ensures SeenOf([e] + events) == [Seen(e.ret, e.optarg)] + SeenOf(events)
  {
    assert ([e] + events)[1..] == events;
  }

  /** A word, in full or abbreviated, is as good as its letter. */
  lemma {:induction false} ProgramWord(ordering: Ordering, word: string, letter: char, abbreviation: string,
          rest: seq<string>)
    requires (word, letter) in {("help", 'h'), ("foreground", 'f'), ("sleep", 's'), ("debug", 'd'),
                                ("preserver", 'p'), ("config", 'c'), ("version", 'V')}
    requires abbreviation != "" && abbreviation <= word
    ensures SeenOf(Read(SPEC, ordering, ["--" + abbreviation] + rest).events)
         == SeenOf(Read(SPEC, ordering, [['-', letter]] + rest).events)
    ensures letter != 'c' ==>
      SeenOf(Read(SPEC, ordering, ["--" + abbreviation] + rest).events)
        == [Seen(letter as int, None)] + SeenOf(Read(SPEC, ordering, rest).events)
  {
    hide Read, Resolve, Options, Operands;
    if letter == 'c' {
      assert ['-', letter] == "-c";
      if rest == [] {
        ProgramConfig(ordering, abbreviation, "", []);
        assert ["-c"] + rest == ["-c"] && ["--" + abbreviation] + rest == ["--" + abbreviation];
      } else {
        ProgramConfig(ordering, abbreviation, rest[0], rest[1..]);
        assert ["-c"] + rest == ["-c", rest[0]] + rest[1..];
        assert ["--" + abbreviation] + rest == ["--" + abbreviation, rest[0]] + rest[1..];
      }
    } else {
      var k := WordStandsFor(word, letter, abbreviation);
      var event := LongAlone(SPEC, ordering, abbreviation, k, rest);
      ProgramLetter(ordering, letter, rest);
      SeenOfFirst(event, Read(SPEC, ordering, rest).events);
      SeenOfFirst(Event(letter as int, None, None, None, None, Silent), Read(SPEC, ordering, rest).events);
    }
  }

  /** A word that has no argument refuses one, and ends the program. */
  lemma {:induction false} ProgramRefuses(ordering: Ordering, word: string, letter: char, abbreviation: string,
          value: string, rest: seq<string>)
    requires (word, letter) in {("help", 'h'), ("foreground", 'f'), ("sleep", 's'), ("debug", 'd'),
                                ("preserver", 'p'), ("version", 'V')}
    requires abbreviation != "" && abbreviation <= word
    ensures var refusal := Event('?' as int, None, Some(letter as int), None, None, ArgumentNotAllowed);
      Yields(SPEC, ordering, ["--" + abbreviation + "=" + value], refusal, rest)
    ensures FateOf(SeenOf(Read(SPEC, ordering, ["--" + abbreviation + "=" + value] + rest).events)) == Exits(40)
  {
    hide Read, Resolve, Options, Operands;
    var k := WordStandsFor(word, letter, abbreviation);
    LongRefuses(SPEC, ordering, abbreviation, k, value, rest);
    var refusal := Event('?' as int, None, Some(letter as int), None, None, ArgumentNotAllowed);
    SeenOfFirst(refusal, Read(SPEC, ordering, rest).events);
  }

  // ----- cmdline

  /** A result that ends the program: help, version, or an error. */
  predicate Ends(e: Event) {
    e.ret == 'h' as int || e.ret == 'V' as int || !e.diagnostic.Silent?
  }

  /** The program runs iff nothing asks it to end; otherwise the first such thing decides, and 40 means an error. */
  lemma {:induction false} FateMeans(events: seq<Event>)
    requires AllReportable(events)
    ensures FateOf(SeenOf(events)).Runs? <==> forall k :: 0 <= k < |events| ==> !Ends(events[k])
    ensures forall k :: 0 <= k < |events| && Ends(events[k]) && (forall j :: 0 <= j < k ==> !Ends(events[j])) ==>
      FateOf(SeenOf(events)) == Exits(if events[k].diagnostic.Silent? then 0 else 40)
  {
    if events != [] {
      var more := events[1..];
      assert forall k :: 0 <= k < |more| ==> more[k] == events[k + 1];
      assert forall k :: 0 < k < |events| ==> events[k] == more[k - 1];
      FateMeans(more);
      assert Reportable(events[0]);
      assert SeenOf(events)[1..] == SeenOf(more);
    }
  }

  /** The results a program that runs may have seen; and the exit code of one that does not. */
  lemma {:induction false} FateIs(events: seq<Event>)
    ensures FateOf(SeenOf(events)).Runs? <==>
      forall k :: 0 <= k < |events| ==> events[k].ret in {'f' as int, 's' as int, 'd' as int, 'p' as int, 'c' as int}
    ensures forall k | 0 <= k < |events|
      && (forall j :: 0 <= j < k ==> events[j].ret in {'f' as int, 's' as int, 'd' as int, 'p' as int, 'c' as int})
      && events[k].ret !in {'f' as int, 's' as int, 'd' as int, 'p' as int, 'c' as int} ::
        FateOf(SeenOf(events)) == Exits(if events[k].ret == 'h' as int || events[k].ret == 'V' as int then 0 else 40)
  {
    if events != [] {
      var more := events[1..];
      assert forall k :: 0 <= k < |more| ==> more[k] == events[k + 1];
      assert forall k :: 0 < k < |events| ==> events[k] == more[k - 1];
      FateIs(more);
      assert SeenOf(events)[1..] == SeenOf(more);
    }
  }

  lemma {:induction false} GivenIs(events: seq<Event>, c: char)
    ensures Given(SeenOf(events), c) <==> exists k :: 0 <= k < |events| && events[k].ret == c as int
  {
    SeenAt(events);
    if k :| 0 <= k < |events| && events[k].ret == c as int {
      assert SeenOf(events)[k].ret == c as int;
    }
  }

  lemma {:induction false} SeenAt(events: seq<Event>)
    ensures forall k :: 0 <= k < |events| ==> SeenOf(events)[k] == Seen(events[k].ret, events[k].optarg)
  {
    if events != [] {
      SeenAt(events[1..]);
    }
  }

  /** The last configuration file named is the one used. */
  lemma {:induction false} LastConfigIs(seen: seq<Seen>, default: Option<string>)
    ensures (forall k :: 0 <= k < |seen| ==> seen[k].ret != 'c' as int) ==> LastConfig(seen, default) == default
    ensures forall k | 0 <= k < |seen| && seen[k].ret == 'c' as int
      && (forall j :: k < j < |seen| ==> seen[j].ret != 'c' as int) :: LastConfig(seen, default) == seen[k].optarg
  {
    if seen != [] && seen[|seen| - 1].ret != 'c' as int {
      var front := seen[..|seen| - 1];
      assert forall k :: 0 <= k < |front| ==> front[k] == seen[k];
      LastConfigIs(front, default);
    }
  }

  /** A vector that starts with one of these options reports it first. */
  lemma {:induction false} FirstCounts(ordering: Ordering, args: seq<string>)
    ensures var events := Read(SPEC, ordering, args).events;
      args != [] ==>
        && (args[0] in {"-f", "--foreground"} ==> events != [] && events[0].ret == 'f' as int)
        && (args[0] in {"-s", "--sleep"} ==> events != [] && events[0].ret == 's' as int)
        && (args[0] in {"-d", "--debug"} ==> events != [] && events[0].ret == 'd' as int)
        && (args[0] in {"-p", "--preserver", "--preserve"} ==> events != [] && events[0].ret == 'p' as int)
  {
    if args != [] {
      assert args == [args[0]] + args[1..];
      hide Read;
      if args[0] in {"-f", "--foreground"} {
        FirstIsLetter(ordering, args[0], "foreground", "foreground", 'f', args[1..]);
      }
      if args[0] in {"-s", "--sleep"} {
        FirstIsLetter(ordering, args[0], "sleep", "sleep", 's', args[1..]);
      }
      if args[0] in {"-d", "--debug"} {
        FirstIsLetter(ordering, args[0], "debug", "debug", 'd', args[1..]);
      }
      if args[0] in {"-p", "--preserver"} {
        FirstIsLetter(ordering, args[0], "preserver", "preserver", 'p', args[1..]);
      }
      if args[0] == "--preserve" {
        FirstIsLetter(ordering, args[0], "preserver", "preserve", 'p', args[1..]);
      }
    }
  }

  lemma {:induction false} FirstIsLetter(ordering: Ordering, arg: string, word: string, abbreviation: string,
          letter: char, rest: seq<string>)
    requires (word, letter) in {("foreground", 'f'), ("sleep", 's'), ("debug", 'd'), ("preserver", 'p')}
    requires abbreviation != "" && abbreviation <= word && (arg == ['-', letter] || arg == "--" + abbreviation)
    ensures var events := Read(SPEC, ordering, [arg] + rest).events;
      events != [] && events[0].ret == letter as int
  {
    hide Read, Options, Operands;
    ProgramWord(ordering, word, letter, abbreviation, rest);
    ProgramLetter(ordering, letter, rest);
    SeenAt(Read(SPEC, ordering, [arg] + rest).events);
  }

  class Command {
    var foreground: bool
    var sleep: bool
    var debug: bool
    var preserve: bool
    /** The name given to conffile_setname; None is the built-in name. */
    var config: Option<string>

    ghost predicate Reflects(seen: seq<Seen>, config0: Option<string>)
      reads this
    {
      && foreground == Given(seen, 'f') && sleep == Given(seen, 's')
      && debug == Given(seen, 'd') && preserve == Given(seen, 'p')
      && config == LastConfig(seen, config0)
    }

    /** The settings in terms of what the calls returned. */
    lemma {:induction false} Settings(events: seq<Event>, config0: Option<string>)
      requires Reflects(SeenOf(events), config0)
      ensures foreground <==> exists k :: 0 <= k < |events| && events[k].ret == 'f' as int
      ensures sleep <==> exists k :: 0 <= k < |events| && events[k].ret == 's' as int
      ensures debug <==> exists k :: 0 <= k < |events| && events[k].ret == 'd' as int
      ensures preserve <==> exists k :: 0 <= k < |events| && events[k].ret == 'p' as int
      ensures (forall k :: 0 <= k < |events| ==> events[k].ret != 'c' as int) ==> config == config0
      ensures forall k | 0 <= k < |events| && events[k].ret == 'c' as int
        && (forall j :: k < j < |events| ==> events[j].ret != 'c' as int) :: config == events[k].optarg
    {
      GivenIs(events, 'f');
      GivenIs(events, 's');
      GivenIs(events, 'd');
      GivenIs(events, 'p');
      SeenAt(events);
      hide SeenOf, Given, LastConfig;
      LastConfigIs(SeenOf(events), config0);
    }

    method Reset()
      modifies this
      ensures Reflects([], config) && config == old(config)
    {
      foreground, sleep, debug, preserve := false, false, false, false;
    }

    /** Obey one call result. */
    method Obey(ret: int, optarg: Option<string>, ghost before: seq<Seen>,
            ghost config0: Option<string>) returns (fate: Fate)
      requires Reflects(before, config0)
      modifies this
      ensures fate == FateOf([Seen(ret, optarg)])
      ensures fate.Runs? ==> Reflects(before + [Seen(ret, optarg)], config0)
    {
      GivenOneMore(before, Seen(ret, optarg));
      assert (before + [Seen(ret, optarg)])[..|before|] == before;
      hide Given;
      if ret == 'h' as int || ret == 'V' as int {
        return Exits(0);
      } else if ret == 'f' as int {
        foreground := true;
      } else if ret == 's' as int {
        sleep := true;
      } else if ret == 'd' as int {
        debug := true;
      } else if ret == 'p' as int {
        preserve := true;
      } else if ret == 'c' as int {
        config := optarg;
      } else {
        return Exits(40);
      }
      return Runs;
    }

    /** The loop of cmdline: obey one call result after another. */
    method ObeyAll(getopt: Getopt, argv: array<string>) returns (fate: Fate)
      requires argv.Length > 0 && getopt.Idle(argv) && getopt.Uninitialized() && getopt.optind == 1
      requires Reflects([], config)
      modifies this, getopt, argv
      ensures var events := Read(SPEC, old(getopt.OrderingAhead()), old(argv[1..])).events;
        && fate == FateOf(SeenOf(events))
        && (fate.Runs? ==>
              && Reflects(SeenOf(events), old(config))
              && Separated(SPEC, old(getopt.OrderingAhead()), old(argv[..]), 1, argv[..], getopt.optind))
    {
      hide Getopt.Idle, Getopt.OrderingAhead, Getopt.Running, Read, Ahead, Separated;
      hide Reflects, SeenOf, FateOf, AllReportable, Accounted;
      ghost var orig, ord, config0, done := argv[..], getopt.OrderingAhead(), config, [];
      ProgramSupported();
      getopt.BetweenStarts(SPEC, argv);
      ghost var all := getopt.EventsAhead(SPEC, argv[..]);
      ProgramReports(ord, argv[1..]);
      AccountStarts(all);
      while true
        invariant getopt.Between(SPEC, argv, orig, 1, ord)
        invariant Accounted(all, done, getopt.EventsAhead(SPEC, argv[..]))
        invariant Reflects(done, config0)
        decreases |getopt.EventsAhead(SPEC, argv[..])|
      {
        AccountStep(all, done, getopt.EventsAhead(SPEC, argv[..]));
        var ret := getopt.Call(SPEC, argv, orig, 1, ord);
        if ret == -1 {
          return Runs;
        }
        fate := Obey(ret, getopt.optarg, done, config0);
        if fate.Exits? {
          return;
        }
        done := done + [Seen(ret, getopt.optarg)];
      }
    }

    /**
     * cmdline: the settings are those the options of the original vector ask for, in whatever order they
     * are mixed with operands: foreground for f, sleep for s, debug for d, preserve for p, and the file of the
     * last c. The program ends at the first result that is none of these.
     */
    method Cmdline(getopt: Getopt, argv: array<string>) returns (fate: Fate)
      requires argv.Length > 0 && getopt.Idle(argv) && getopt.Uninitialized() && getopt.optind == 1
      modifies this, getopt, argv
      ensures var events := Read(SPEC, old(getopt.OrderingAhead()), old(argv[1..])).events;
        && fate == FateOf(SeenOf(events))
        && (fate.Runs? ==>
              Separated(SPEC, old(getopt.OrderingAhead()), old(argv[..]), 1, argv[..], getopt.optind))
      ensures var events := Read(SPEC, old(getopt.OrderingAhead()), old(argv[1..])).events;
        fate.Runs? ==>
          && (foreground <==> exists k :: 0 <= k < |events| && events[k].ret == 'f' as int)
          && (sleep <==> exists k :: 0 <= k < |events| && events[k].ret == 's' as int)
          && (debug <==> exists k :: 0 <= k < |events| && events[k].ret == 'd' as int)
          && (preserve <==> exists k :: 0 <= k < |events| && events[k].ret == 'p' as int)
          && ((forall k :: 0 <= k < |events| ==> events[k].ret != 'c' as int) ==> config == old(config))
          && (forall k | 0 <= k < |events| && events[k].ret == 'c' as int
                && (forall j :: k < j < |events| ==> events[j].ret != 'c' as int) :: config == events[k].optarg)
      ensures fate.Runs? && argv.Length > 1 ==>
        && (old(argv[1]) in {"-f", "--foreground"} ==> foreground)
        && (old(argv[1]) in {"-s", "--sleep"} ==> sleep)
        && (old(argv[1]) in {"-d", "--debug"} ==> debug)
        && (old(argv[1]) in {"-p", "--preserver", "--preserve"} ==> preserve)
    {
      hide Getopt.Idle, Getopt.OrderingAhead, Read, Separated, Reflects, SeenOf, FateOf;
      ghost var args, ord, config0 := argv[1..], getopt.OrderingAhead(), config;
      Reset();
      fate := ObeyAll(getopt, argv);
      if fate.Runs? {
        Settings(Read(SPEC, ord, args).events, config0);
        FirstCounts(ord, args);
      }
    }
  }

  /** All events but `rest` have been obeyed, and none of them ended the program. */
  ghost predicate Accounted(all: seq<Event>, done: seq<Seen>, rest: seq<Event>) {
    && AllReportable(rest)
    && SeenOf(all) == done + SeenOf(rest)
    && FateOf(SeenOf(all)) == FateOf(SeenOf(rest))
  }

  lemma {:induction false} AccountStarts(all: seq<Event>)
    requires AllReportable(all)
    ensures Accounted(all, [], all)
  {
  }

  lemma {:induction false} AccountStep(all: seq<Event>, done: seq<Seen>, rest: seq<Event>)
    requires Accounted(all, done, rest)
    ensures rest == [] ==> SeenOf(all) == done && FateOf(SeenOf(all)) == Runs
    ensures rest != [] ==> rest[0].ret != -1
    ensures rest != [] ==>
      var x := Seen(rest[0].ret, rest[0].optarg);
      if FateOf([x]).Runs? then Accounted(all, done + [x], rest[1..]) else FateOf(SeenOf(all)) == FateOf([x])
  {
    if rest != [] {
      assert Reportable(rest[0]);
      assert SeenOf(rest) == [Seen(rest[0].ret, rest[0].optarg)] + SeenOf(rest[1..]);
    }
  }

  lemma {:induction false} GivenOneMore(seen: seq<Seen>, last: Seen)
    ensures forall c: char :: Given(seen + [last], c) <==> Given(seen, c) || last.ret == c as int
    ensures LastConfig(seen + [last], None) == if last.ret == 'c' as int then last.optarg else LastConfig(seen, None)
  {
    assert (seen + [last])[..|seen|] == seen;
    forall c: char
      ensures Given(seen + [last], c) <==> Given(seen, c) || last.ret == c as int
    {
      if Given(seen, c) {
        var k :| 0 <= k < |seen| && seen[k].ret == c as int;
        assert (seen + [last])[k] == seen[k];
      }
      assert (seen + [last])[|seen|] == last;
    }
  }
}
