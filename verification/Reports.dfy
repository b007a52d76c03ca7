/**
 * What each element of a vector reports, in the words of the option string and of the long option table
 * (getopt.c:642-1189). Nothing here speaks of the reading of single elements; every statement is about the
 * vector as it was typed.
 */
module Reports {
  import opened Common
  import opened Guidelines
  import opened LongNames
  import opened OptionGrammar

  /** The elements `front` are an option (and its argument) that makes exactly this event visible. */
  ghost predicate Yields(spec: Spec, ordering: Ordering, front: seq<string>, event: Event, rest: seq<string>) {
    && Read(spec, ordering, front + rest).events == [event] + Read(spec, ordering, rest).events
    && Options(spec, ordering, front + rest) == front + Options(spec, ordering, rest)
    && Operands(spec, ordering, front + rest) == Operands(spec, ordering, rest)
  }

  lemma {:induction false} OneYields(spec: Spec, ordering: Ordering, arg: string, event: Event, rest: seq<string>)
    requires IsOption(arg)
    requires ReadElement(spec, arg, if rest == [] then None else Some(rest[0])) == Element([event], false)
    ensures Yields(spec, ordering, [arg], event, rest)
  {
    hide ReadElement, Options, Operands;
    var args := [arg] + rest;
    assert args[1..] == rest && args[..1] == [arg];
    assert Following(args) == if rest == [] then None else Some(rest[0]);
    SplitElement(spec, ordering, args);
    ReadApart(spec, ordering, args, Element([event], false));
  }

  lemma {:induction false} PairYields(spec: Spec, ordering: Ordering, arg: string, next: string, event: Event,
          rest: seq<string>)
    requires IsOption(arg) && ReadElement(spec, arg, Some(next)) == Element([event], true)
    ensures Yields(spec, ordering, [arg, next], event, rest)
  {
    hide ReadElement, Options, Operands;
    var args := [arg, next] + rest;
    assert args[2..] == rest && args[..2] == [arg, next];
    assert Following(args) == Some(next);
    SplitElement(spec, ordering, args);
    ReadApart(spec, ordering, args, Element([event], true));
  }

  // ----- short options

  lemma {:induction false} FirstAt(before: string, c: char, after: string)
    requires c !in before
    ensures IndexOf(before + [c] + after, c) == Some(|before|)
  {
    var s := before + [c] + after;
    assert s[..|before|] == before && s[|before|] == c;
    FirstIs(s, c, |before|);
  }

  /** The option string is read at the first place where it has the character. */
  lemma {:induction false} KindIs(before: string, c: char, after: string)
    requires c !in before && c != ':'
    ensures KindOf(before + [c] + after, c) ==
      if after == "" || after[0] != ':' then NoArgument
      else if |after| == 1 || after[1] != ':' then RequiredArgument
      else OptionalArgument
  {
    FirstAt(before, c, after);
    var s, k := before + [c] + after, |before|;
    assert |s| == k + 1 + |after|;
    assert after != "" ==> s[k + 1] == after[0];
    assert |after| > 1 ==> s[k + 2] == after[1];
  }

  lemma {:induction false} Dashed(spec: Spec, c: char, more: string, next: Option<string>)
    requires c != '-'
    ensures IsOption(['-', c] + more) && [c] + more != ""
    ensures ReadElement(spec, ['-', c] + more, next) == Cluster(spec.optstring, [c] + more, next)
    ensures ([c] + more)[1..] == more && ([c] + more)[0] == c
  {
    ShortElement(spec, c, more, next);
  }

  /** A character without a colon behind it in the option string reports itself, and no argument. */
  lemma {:induction false} PlainOption(spec: Spec, ordering: Ordering, before: string, c: char, after: string,
          rest: seq<string>)
    requires spec.optstring == before + [c] + after && c !in before && c != ':' && c != '-'
    requires after == "" || after[0] != ':'
    ensures Yields(spec, ordering, [['-', c]], Event(c as int, None, None, None, None, Silent), rest)
  {
    KindIs(before, c, after);
    Dashed(spec, c, "", if rest == [] then None else Some(rest[0]));
    assert ['-', c] + "" == ['-', c];
    OneYields(spec, ordering, ['-', c], Event(c as int, None, None, None, None, Silent), rest);
  }

  /** A character the option string does not have, or a colon, is an error; optopt tells which. */
  lemma {:induction false} InvalidOption(spec: Spec, ordering: Ordering, c: char, rest: seq<string>)
    requires (c !in spec.optstring || c == ':') && c != '-'
    ensures Yields(spec, ordering, [['-', c]],
                   Event('?' as int, None, Some(c as int), None, None, InvalidCharacter), rest)
  {
    Dashed(spec, c, "", if rest == [] then None else Some(rest[0]));
    assert ['-', c] + "" == ['-', c];
    OneYields(spec, ordering, ['-', c], Event('?' as int, None, Some(c as int), None, None, InvalidCharacter), rest);
  }

  /**
   * One colon: the argument is what is left of the element, or else the next element, whatever it looks like.
   * Without either it is an error, which a colon at the start of the option string asks to have told apart.
   */
  lemma {:induction false} RequiredOption(spec: Spec, ordering: Ordering, before: string, c: char, after: string,
          arg: string, rest: seq<string>)
    requires spec.optstring == before + [c] + after && c !in before && c != ':' && c != '-'
    requires after != "" && after[0] == ':' && (|after| == 1 || after[1] != ':')
    ensures Yields(spec, ordering, [['-', c], arg], Event(c as int, Some(arg), None, None, None, Silent), rest)
    ensures arg != "" ==>
      Yields(spec, ordering, [['-', c] + arg], Event(c as int, Some(arg), None, None, None, Silent), rest)
    ensures var ret := if spec.optstring[0] == ':' then ':' else '?';
      Yields(spec, ordering, [['-', c]], Event(ret as int, None, Some(c as int), None, None, ArgumentRequired), [])
  {
    KindIs(before, c, after);
    assert ['-', c] + "" == ['-', c];
    var event := Event(c as int, Some(arg), None, None, None, Silent);
    Dashed(spec, c, "", Some(arg));
    PairYields(spec, ordering, ['-', c], arg, event, rest);
    if arg != "" {
      Dashed(spec, c, arg, if rest == [] then None else Some(rest[0]));
      OneYields(spec, ordering, ['-', c] + arg, event, rest);
    }
    Dashed(spec, c, "", None);
    var ret := if spec.optstring[0] == ':' then ':' else '?';
    OneYields(spec, ordering, ['-', c], Event(ret as int, None, Some(c as int), None, None, ArgumentRequired), []);
  }

  /** Two colons: the argument is what is left of the element, if anything is; the next element is never taken. */
  lemma {:induction false} OptionalOption(spec: Spec, ordering: Ordering, before: string, c: char, after: string,
          arg: string, rest: seq<string>)
    requires spec.optstring == before + [c] + after && c !in before && c != ':' && c != '-'
    requires |after| >= 2 && after[0] == after[1] == ':'
    ensures var optarg := if arg == "" then None else Some(arg);
      Yields(spec, ordering, [['-', c] + arg], Event(c as int, optarg, None, None, None, Silent), rest)
  {
    KindIs(before, c, after);
    Dashed(spec, c, arg, if rest == [] then None else Some(rest[0]));
    var optarg := if arg == "" then None else Some(arg);
    OneYields(spec, ordering, ['-', c] + arg, Event(c as int, optarg, None, None, None, Silent), rest);
  }

  // ----- long options

  /** What a long option reports that is accepted: its value, or zero and the flag it sets. */
  ghost predicate Reports(event: Event, o: LongOption, index: nat, optarg: Option<string>) {
    && event.optarg == optarg && event.optopt == None && event.index == Some(index) && event.diagnostic == Silent
    && (o.flag.None? ==> event.ret == o.val && event.store == None)
    && (o.flag.Some? ==> event.ret == 0 && event.store == Some((o.flag.value, o.val)))
  }

  /** The name stands for the entry, in full or abbreviated. */
  ghost predicate StandsFor(spec: Spec, name: string, k: nat) {
    && spec.longopts.Some? && k < |spec.longopts.value|
    && Resolve(spec.longopts.value, name) in {Exact(k), Abbreviation(k)}
  }

  lemma {:induction false} LongSpelled(spec: Spec, name: string, more: string, next: Option<string>)
    requires spec.longopts.Some? && '=' !in name && (more != "" ==> more[0] == '=') && name + more != ""
    ensures var arg := "--" + name + more;
      && IsOption(arg)
      && ReadElement(spec, arg, next) == LongElement(spec.optstring, spec.longopts.value, name + more, next)
    ensures NameOf(name + more) == name && ValueOf(name + more) == if more == "" then None else Some(more[1..])
  {
    var arg := "--" + name + more;
    assert arg[2..] == name + more;
    NamePart(name, more);
  }

  /** An option that has no argument refuses one: an error, whose optopt is the value of the option. */
  lemma {:induction false} LongRefuses(spec: Spec, ordering: Ordering, name: string, k: nat, value: string,
          rest: seq<string>)
    requires '=' !in name && StandsFor(spec, name, k) && spec.longopts.value[k].hasArg == 0
    ensures Yields(spec, ordering, ["--" + name + "=" + value],
                   Event('?' as int, None, Some(spec.longopts.value[k].val), None, None, ArgumentNotAllowed), rest)
  {
    LongSpelled(spec, name, "=" + value, if rest == [] then None else Some(rest[0]));
    assert "--" + name + ("=" + value) == "--" + name + "=" + value;
    hide Resolve;
    OneYields(spec, ordering, "--" + name + "=" + value,
              Event('?' as int, None, Some(spec.longopts.value[k].val), None, None, ArgumentNotAllowed), rest);
  }

  /** Any other option has exactly what follows the first equals sign as its argument. */
  lemma {:induction false} LongTakes(spec: Spec, ordering: Ordering, name: string, k: nat, value: string,
          rest: seq<string>) returns (event: Event)
    requires '=' !in name && StandsFor(spec, name, k) && spec.longopts.value[k].hasArg != 0
    ensures Reports(event, spec.longopts.value[k], k, Some(value))
    ensures Yields(spec, ordering, ["--" + name + "=" + value], event, rest)
  {
    LongSpelled(spec, name, "=" + value, if rest == [] then None else Some(rest[0]));
    assert "--" + name + ("=" + value) == "--" + name + "=" + value && ("=" + value)[1..] == value;
    hide Resolve;
    event := LongEvent(spec.longopts.value[k], k, Some(value));
    OneYields(spec, ordering, "--" + name + "=" + value, event, rest);
  }

  /** Without an equals sign an option has no argument, unless one is required. */
  lemma {:induction false} LongAlone(spec: Spec, ordering: Ordering, name: string, k: nat,
          rest: seq<string>) returns (event: Event)
    requires name != "" && '=' !in name && StandsFor(spec, name, k) && spec.longopts.value[k].hasArg != 1
    ensures Reports(event, spec.longopts.value[k], k, None)
    ensures Yields(spec, ordering, ["--" + name], event, rest)
  {
    LongSpelled(spec, name, "", if rest == [] then None else Some(rest[0]));
    assert "--" + name + "" == "--" + name && name + "" == name;
    hide Resolve;
    event := LongEvent(spec.longopts.value[k], k, None);
    OneYields(spec, ordering, "--" + name, event, rest);
  }

  /** A required argument is then the next element, whatever it looks like; without one it is an error. */
  lemma {:induction false} LongRequires(spec: Spec, ordering: Ordering, name: string, k: nat, value: string,
          rest: seq<string>) returns (event: Event)
    requires name != "" && '=' !in name && StandsFor(spec, name, k) && spec.longopts.value[k].hasArg == 1
    ensures Reports(event, spec.longopts.value[k], k, Some(value))
    ensures Yields(spec, ordering, ["--" + name, value], event, rest)
    ensures var ret := if spec.optstring != "" && spec.optstring[0] == ':' then ':' else '?';
      Yields(spec, ordering, ["--" + name],
             Event(ret as int, None, Some(spec.longopts.value[k].val), None, None, ArgumentRequired), [])
  {
    LongSpelled(spec, name, "", Some(value));
    LongSpelled(spec, name, "", None);
    assert "--" + name + "" == "--" + name && name + "" == name;
    hide Resolve;
    event := LongEvent(spec.longopts.value[k], k, Some(value));
    PairYields(spec, ordering, "--" + name, value, event, rest);
    var ret := if spec.optstring != "" && spec.optstring[0] == ':' then ':' else '?';
    OneYields(spec, ordering, "--" + name,
              Event(ret as int, None, Some(spec.longopts.value[k].val), None, None, ArgumentRequired), []);
  }

  /** A name that stands for no entry, or for several, is an error; optopt is zero. */
  lemma {:induction false} LongUnresolved(spec: Spec, ordering: Ordering, name: string, more: string,
          rest: seq<string>)
    requires spec.longopts.Some? && '=' !in name && (more != "" ==> more[0] == '=') && name + more != ""
    ensures Resolve(spec.longopts.value, name).Unknown? ==>
      Yields(spec, ordering, ["--" + name + more], Event('?' as int, None, Some(0), None, None, UnrecognizedName), rest)
    ensures Resolve(spec.longopts.value, name).Ambiguous? ==>
      Yields(spec, ordering, ["--" + name + more], Event('?' as int, None, Some(0), None, None, AmbiguousName), rest)
  {
    LongSpelled(spec, name, more, if rest == [] then None else Some(rest[0]));
    hide Resolve;
    match Resolve(spec.longopts.value, name)
    case Unknown =>
      OneYields(spec, ordering, "--" + name + more,
                Event('?' as int, None, Some(0), None, None, UnrecognizedName), rest);
    case Ambiguous =>
      OneYields(spec, ordering, "--" + name + more,
                Event('?' as int, None, Some(0), None, None, AmbiguousName), rest);
    case _ =>
  }

  // ----- operands

  /**
   * The empty element, a single dash, and whatever does not start with a dash are operands: in PERMUTE the
   * reading goes on behind them, in REQUIRE_ORDER it ends there.
   */
  lemma {:induction false} OperandReads(spec: Spec, operand: string, rest: seq<string>)
    requires operand == "" || operand == "-" || operand[0] != '-'
    ensures Read(spec, Permute, [operand] + rest).events == Read(spec, Permute, rest).events
    ensures Operands(spec, Permute, [operand] + rest) == [operand] + Operands(spec, Permute, rest)
    ensures Read(spec, RequireOrder, [operand] + rest).events == []
    ensures Operands(spec, RequireOrder, [operand] + rest) == [operand] + rest
  {
    hide Options, Operands;
    OperandsInvisible(spec, operand, rest);
    SplitRest(spec, [operand] + rest);
  }
}
