/**
 * Ways of writing the same options, after section 12.2 of IEEE Std 1003.1 (guidelines 5, 6, 7 and 10) and
 * the long-option rule of the scanner. They say what the reading of a vector means without naming it.
 */
module Guidelines {
  import opened Common
  import opened LongNames
  import opened OptionGrammar

  /**
   * Guideline 5: options without arguments may be grouped behind one dash. What is left of the group must be
   * an option by itself: not `--`, and not a long option if there are any.
   */
  lemma {:induction false} Grouping(spec: Spec, ordering: Ordering, c: char, more: string, rest: seq<string>)
    requires KindOf(spec.optstring, c) in {NoArgument, Invalid}
    requires c != '-' && more != "" && (more[0] == '-' ==> spec.longopts.None? && |more| > 1)
    ensures Read(spec, ordering, [['-', c] + more] + rest).events
         == Read(spec, ordering, [['-', c], ['-'] + more] + rest).events
  {
    var next := if rest == [] then None else Some(rest[0]);
    ShortElement(spec, c, more, next);
    ShortElement(spec, c, "", Some(['-'] + more));
    ShortElement(spec, more[0], more[1..], next);
    ClusterGroups(spec.optstring, c, more, next, Some(['-'] + more));
    assert ['-', c] + "" == ['-', c] && ['-', more[0]] + more[1..] == ['-'] + more && [more[0]] + more[1..] == more;
    hide Cluster, ReadElement, KindOf, IsOperand, IsLong;
    TwoForOne(spec, ordering, ['-', c] + more, ['-', c], ['-'] + more, rest);
  }

  /** An element that reads like two in a row can stand for them. */
  lemma {:induction false} TwoForOne(spec: Spec, ordering: Ordering, both: string, one: string, two: string,
          rest: seq<string>)
    requires IsOption(both) && IsOption(one) && IsOption(two)
    requires var next := if rest == [] then None else Some(rest[0]);
      var first, second := ReadElement(spec, one, Some(two)), ReadElement(spec, two, next);
      !first.takesNext && ReadElement(spec, both, next) == Element(first.events + second.events, second.takesNext)
    ensures Read(spec, ordering, [both] + rest).events == Read(spec, ordering, [one, two] + rest).events
  {
    hide ReadElement, IsOperand, Read;
    var joined, apart, last := [both] + rest, [one, two] + rest, [two] + rest;
    var next := if rest == [] then None else Some(rest[0]);
    assert apart[1..] == last && Following(joined) == Following(last) == next && Following(apart) == Some(two);
    var first, second := ReadElement(spec, one, Some(two)), ReadElement(spec, two, next);
    ReadApart(spec, ordering, apart, first);
    ReadApart(spec, ordering, last, second);
    ReadApart(spec, ordering, joined, Element(first.events + second.events, second.takesNext));
    assert last[Width(second)..] == joined[Width(second)..];
  }

  lemma {:induction false} ShortElement(spec: Spec, c: char, more: string, next: Option<string>)
    requires c == '-' ==> spec.longopts.None? && more != ""
    ensures var arg := ['-', c] + more;
      IsOption(arg) && ReadElement(spec, arg, next) == Cluster(spec.optstring, [c] + more, next)
  {
    assert (['-', c] + more)[1..] == [c] + more;
  }

  lemma {:induction false} ClusterGroups(optstring: string, c: char, more: string, next: Option<string>,
          other: Option<string>)
    requires KindOf(optstring, c) in {NoArgument, Invalid} && more != ""
    ensures var first, tail := Cluster(optstring, [c], other), Cluster(optstring, more, next);
      !first.takesNext && Cluster(optstring, [c] + more, next) == Element(first.events + tail.events, tail.takesNext)
  {
    assert ([c] + more)[1..] == more && [c][1..] == "";
  }

  /** Guidelines 6 and 7: a required argument may be attached to its option or follow it. */
  lemma {:induction false} Attached(spec: Spec, ordering: Ordering, c: char, arg: string, rest: seq<string>)
    requires KindOf(spec.optstring, c) == RequiredArgument && c != '-' && arg != ""
    ensures Read(spec, ordering, [['-', c] + arg] + rest).events == Read(spec, ordering, [['-', c], arg] + rest).events
  {
    var attached, apart := [['-', c] + arg] + rest, [['-', c], arg] + rest;
    assert (['-', c] + arg)[1..] == [c] + arg && ([c] + arg)[1..] == arg;
    assert ['-', c][1..] == [c] && [c][1..] == "";
    ReadApart(spec, ordering, attached, Element([ShortEvent(c, Some(arg))], false));
    ReadApart(spec, ordering, apart, Element([ShortEvent(c, Some(arg))], true));
    assert attached[1..] == apart[2..] == rest;
  }

  /** A required argument of a long option may follow an equals sign or be the next element. */
  lemma {:induction false} LongAttached(spec: Spec, ordering: Ordering, name: string, value: string, rest: seq<string>)
    requires spec.longopts.Some? && name != "" && '=' !in name
    requires var r := Resolve(spec.longopts.value, name);
      (r.Exact? || r.Abbreviation?) && spec.longopts.value[r.index].hasArg == 1
    ensures Read(spec, ordering, ["--" + name + "=" + value] + rest).events
         == Read(spec, ordering, ["--" + name, value] + rest).events
  {
    var long, joined := "--" + name, "--" + name + "=" + value;
    var k := Resolve(spec.longopts.value, name).index;
    NamePart(name, "=" + value);
    NamePart(name, "");
    assert joined[2..] == name + ("=" + value) && long[2..] == name + "" && ("=" + value)[1..] == value;
    hide Resolve, NameOf, ValueOf;
    var event := LongEvent(spec.longopts.value[k], k, Some(value));
    var next := if rest == [] then None else Some(rest[0]);
    assert ReadElement(spec, joined, next) == Element([event], false);
    assert ReadElement(spec, long, Some(value)) == Element([event], true);
    hide ReadElement, Read;
    ReadApart(spec, ordering, [joined] + rest, Element([event], false));
    ReadApart(spec, ordering, [long, value] + rest, Element([event], true));
    assert ([joined] + rest)[1..] == ([long, value] + rest)[2..] == rest;
  }

  /** Guideline 10: after `--` everything is an operand, so what is there makes no difference. */
  lemma {:induction false} Terminator(spec: Spec, ordering: Ordering, rest: seq<string>)
    ensures Read(spec, ordering, ["--"] + rest).events == []
    ensures Options(spec, ordering, ["--"] + rest) == ["--"] && Operands(spec, ordering, ["--"] + rest) == rest
  {
    assert (["--"] + rest)[1..] == rest;
    SplitTerminator(spec, ordering, ["--"] + rest);
  }

  /** PERMUTE: an operand between options makes no difference to the options. */
  lemma {:induction false} OperandsInvisible(spec: Spec, operand: string, rest: seq<string>)
    requires IsOperand(operand)
    ensures Read(spec, Permute, [operand] + rest).events == Read(spec, Permute, rest).events
    ensures Options(spec, Permute, [operand] + rest) == Options(spec, Permute, rest)
    ensures Operands(spec, Permute, [operand] + rest) == [operand] + Operands(spec, Permute, rest)
  {
    assert ([operand] + rest)[1..] == rest;
    SplitOperand(spec, [operand] + rest);
  }

  lemma ReadApart(spec: Spec, ordering: Ordering, args: seq<string>, e: Element)
    requires args != [] && IsOption(args[0]) && e == ReadElement(spec, args[0], Following(args))
    ensures Read(spec, ordering, args).events == e.events + Read(spec, ordering, args[Width(e)..]).events
  {
  }

  lemma {:induction false} NamePart(name: string, more: string)
    requires '=' !in name && (more != "" ==> more[0] == '=')
    ensures NameOf(name + more) == name
    ensures ValueOf(name + more) == if more == "" then None else Some(more[1..])
  {
    FirstEquals(name, more);
    if more != "" {
      assert (name + more)[..|name|] == name && (name + more)[|name| + 1..] == more[1..];
    } else {
      assert name + more == name;
    }
  }

  lemma {:induction false} FirstEquals(name: string, more: string)
    requires '=' !in name && (more != "" ==> more[0] == '=')
    ensures IndexOf(name + more, '=') == if more == "" then None else Some(|name|)
  {
    if name == "" {
      assert name + more == more;
    } else {
      FirstEquals(name[1..], more);
      assert (name + more)[1..] == name[1..] + more;
    }
  }
}
