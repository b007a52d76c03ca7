/**
 * What an argument vector means: a single left-to-right reading of the vector as the user typed it.
 * Nothing moves and nothing is remembered between elements. The scanner of Scanner.dfy, which is
 * called once per option and reorders the vector as it goes, is proved to agree with this reading.
 */
module OptionGrammar {
  import opened Common
  import opened LongNames

  datatype Ordering = Permute | RequireOrder

  /** The option characters, and the long option table unless it is the null pointer. */
  datatype Spec = Spec(optstring: string, longopts: Option<seq<LongOption>>)

  /** Which of the scanner's error messages a call produces. */
  datatype Diagnostic =
    | Silent
    | AmbiguousName
    | ArgumentNotAllowed
    | ArgumentRequired
    | UnrecognizedName
    | InvalidCharacter

  /**
   * Everything one successful call makes visible: the value returned, optarg, the new value of optopt
   * if it is assigned, the long option index if it is stored, the flag variable written and the value
   * written to it, and the error message.
   */
  datatype Event = Event(
    ret: int,
    optarg: Option<string>,
    optopt: Option<int>,
    index: Option<nat>,
    store: Option<(nat, int)>,
    diagnostic: Diagnostic)

  /** The reading of one option element: its events, and whether it takes the next element as argument. */
  datatype Element = Element(events: seq<Event>, takesNext: bool)

  /** The reading of a vector: the events, and for each element whether it is an operand. */
  datatype Reading = Reading(events: seq<Event>, operand: seq<bool>)

  const FAILURE := '?' as int

  predicate IsOperand(arg: string) {
    |arg| <= 1 || arg[0] != '-'
  }

  function Following(args: seq<string>): Option<string> {
    if |args| < 2 then None else Some(args[1])
  }

  // ----- short options

  datatype ShortKind = Invalid | NoArgument | RequiredArgument | OptionalArgument

  /** Position of the first occurrence of c. */
  function IndexOf(s: string, c: char): (r: Option<nat>)
    ensures r.Some? ==> r.value < |s| && s[r.value] == c && c !in s[..r.value]
    ensures r.None? ==> c !in s
  {
    if s == "" then None
    else if s[0] == c then Some(0)
    else
      match IndexOf(s[1..], c)
      case None => None
      case Some(k) => Some(k + 1)
  }

  lemma {:induction false} FirstIs(s: string, c: char, k: nat)
    requires k <= |s| && c !in s[..k] && (k < |s| ==> s[k] == c)
    ensures IndexOf(s, c) == if k < |s| then Some(k) else None
  {
    if k > 0 {
      assert s[..k][0] == s[0];
      assert s[1..][..k - 1] == s[..k][1..];
      FirstIs(s[1..], c, k - 1);
    }
  }

  predicate ColonAt(s: string, k: nat) {
    k < |s| && s[k] == ':'
  }

  function KindOf(optstring: string, c: char): ShortKind {
    match IndexOf(optstring, c)
    case None => Invalid
    case Some(k) =>
      if c == ':' then Invalid
      else if !ColonAt(optstring, k + 1) then NoArgument
      else if !ColonAt(optstring, k + 2) then RequiredArgument
      else OptionalArgument
  }

  function MissingReturn(optstring: string): int {
    if ColonAt(optstring, 0) then ':' as int else FAILURE
  }

  function ShortEvent(c: char, arg: Option<string>): Event {
    Event(c as int, arg, None, None, None, Silent)
  }

  /** The characters of an element after its dash, or what is left of them. */
  function Cluster(optstring: string, chars: string, next: Option<string>): (e: Element)
    requires chars != ""
    ensures e.takesNext ==> next.Some?
    ensures 1 <= |e.events| <= |chars|
  {
    var c, more := chars[0], chars[1..];
    match KindOf(optstring, c)
    case OptionalArgument =>
      Element([ShortEvent(c, if more == "" then None else Some(more))], false)
    case RequiredArgument =>
      if more != "" then Element([ShortEvent(c, Some(more))], false)
      else if next.Some? then Element([ShortEvent(c, next)], true)
      else Element([Event(MissingReturn(optstring), None, Some(c as int), None, None, ArgumentRequired)], false)
    case kind =>
      var event := if kind.Invalid? then Event(FAILURE, None, Some(c as int), None, None, InvalidCharacter)
                   else ShortEvent(c, None);
      if more == "" then Element([event], false)
      else
        var tail := Cluster(optstring, more, next);
        Element([event] + tail.events, tail.takesNext)
  }

  // ----- long options

  /** The part of a long option before its first equals sign. */
  function NameOf(body: string): string {
    match IndexOf(body, '=')
    case None => body
    case Some(k) => body[..k]
  }

  function ValueOf(body: string): Option<string> {
    match IndexOf(body, '=')
    case None => None
    case Some(k) => Some(body[k + 1..])
  }

  function LongEvent(o: LongOption, index: nat, arg: Option<string>): Event {
    match o.flag
    case None => Event(o.val, arg, None, Some(index), None, Silent)
    case Some(f) => Event(0, arg, None, Some(index), Some((f, o.val)), Silent)
  }

  /** A long option: what follows the two dashes, and the element after it. */
  ghost function LongElement(optstring: string, table: seq<LongOption>, body: string,
          next: Option<string>): (e: Element)
    ensures e.takesNext ==> next.Some?
    ensures |e.events| == 1
  {
    match Resolve(table, NameOf(body))
    case Unknown => Element([Event(FAILURE, None, Some(0), None, None, UnrecognizedName)], false)
    case Ambiguous => Element([Event(FAILURE, None, Some(0), None, None, AmbiguousName)], false)
    case r =>
      var o := table[r.index];
      if ValueOf(body).Some? then
        if o.hasArg != 0 then Element([LongEvent(o, r.index, ValueOf(body))], false)
        else Element([Event(FAILURE, None, Some(o.val), None, None, ArgumentNotAllowed)], false)
      else if o.hasArg != 1 then Element([LongEvent(o, r.index, None)], false)
      else if next.Some? then Element([LongEvent(o, r.index, next)], true)
      else Element([Event(MissingReturn(optstring), None, Some(o.val), None, None, ArgumentRequired)], false)
  }

  predicate IsLong(spec: Spec, arg: string) {
    spec.longopts.Some? && |arg| > 1 && arg[1] == '-'
  }

  ghost function ReadElement(spec: Spec, arg: string, next: Option<string>): (e: Element)
    requires !IsOperand(arg)
    ensures e.takesNext ==> next.Some?
    ensures 1 <= |e.events| <= |arg| - 1
  {
    if IsLong(spec, arg) then LongElement(spec.optstring, spec.longopts.value, arg[2..], next)
    else Cluster(spec.optstring, arg[1..], next)
  }

  // ----- whole vectors

  function Width(e: Element): (n: nat)
    ensures 1 <= n <= 2
  {
    if e.takesNext then 2 else 1
  }

  /** The reading of a vector (without the program name). */
  ghost function Read(spec: Spec, ordering: Ordering, args: seq<string>): (r: Reading)
    ensures |r.operand| == |args|
    decreases |args|
  {
    if args == [] then Reading([], [])
    else if IsOperand(args[0]) then
      if ordering.RequireOrder? then Reading([], Repeat(true, |args|))
      else
        var rest := Read(spec, ordering, args[1..]);
        Reading(rest.events, [true] + rest.operand)
    else if args[0] == "--" then Reading([], [false] + Repeat(true, |args| - 1))
    else
      var e := ReadElement(spec, args[0], Following(args));
      var rest := Read(spec, ordering, args[Width(e)..]);
      Reading(e.events + rest.events, Repeat(false, Width(e)) + rest.operand)
  }

  /** The same, resumed inside the first element, of which only `chars` is still to be read. */
  ghost function Resume(spec: Spec, ordering: Ordering, args: seq<string>, chars: string): (r: Reading)
    requires chars != "" ==> args != []
    ensures |r.operand| == |args|
  {
    if chars == "" then Read(spec, ordering, args)
    else
      var e := Cluster(spec.optstring, chars, Following(args));
      var rest := Read(spec, ordering, args[Width(e)..]);
      Reading(e.events + rest.events, Repeat(false, Width(e)) + rest.operand)
  }

  ghost function Options(spec: Spec, ordering: Ordering, args: seq<string>): seq<string> {
    Select(args, Read(spec, ordering, args).operand, false)
  }

  ghost function Operands(spec: Spec, ordering: Ordering, args: seq<string>): seq<string> {
    Select(args, Read(spec, ordering, args).operand, true)
  }

  /** Options and operands together are the whole vector, rearranged; each keeps its original order. */
  lemma {:induction false} StablePartition(spec: Spec, ordering: Ordering, args: seq<string>)
    ensures multiset(Options(spec, ordering, args) + Operands(spec, ordering, args)) == multiset(args)
    ensures var marks := Read(spec, ordering, args).operand;
      var o, r := Options(spec, ordering, args), Operands(spec, ordering, args);
      && |o| == |Positions(marks, false)| && |r| == |Positions(marks, true)|
      && (forall i :: 0 <= i < |o| ==> o[i] == args[Positions(marks, false)[i]])
      && (forall i :: 0 <= i < |r| ==> r[i] == args[Positions(marks, true)[i]])
  {
    var marks := Read(spec, ordering, args).operand;
    SelectPermutes(args, marks);
    SelectAt(args, marks, false);
    SelectAt(args, marks, true);
  }

  /** The parts of a vector that starts with an option element. */
  lemma {:induction false} SplitElement(spec: Spec, ordering: Ordering, args: seq<string>)
    requires args != [] && !IsOperand(args[0]) && args[0] != "--"
    ensures var n := Width(ReadElement(spec, args[0], Following(args)));
      && n <= |args|
      && Options(spec, ordering, args) == args[..n] + Options(spec, ordering, args[n..])
      && Operands(spec, ordering, args) == Operands(spec, ordering, args[n..])
  {
    var n := Width(ReadElement(spec, args[0], Following(args)));
    var rest := Read(spec, ordering, args[n..]);
    forall b: bool
      ensures Select(args, Read(spec, ordering, args).operand, b)
           == (if b then [] else args[..n]) + Select(args[n..], rest.operand, b)
    {
      assert args == args[..n] + args[n..];
      SelectAppend(args[..n], Repeat(false, n), args[n..], rest.operand, b);
      SelectUniform(args[..n], false, b);
    }
  }

  lemma {:induction false} SplitOperand(spec: Spec, args: seq<string>)
    requires args != [] && IsOperand(args[0])
    ensures Options(spec, Permute, args) == Options(spec, Permute, args[1..])
    ensures Operands(spec, Permute, args) == [args[0]] + Operands(spec, Permute, args[1..])
    ensures Read(spec, Permute, args).events == Read(spec, Permute, args[1..]).events
  {
    assert Read(spec, Permute, args).operand[1..] == Read(spec, Permute, args[1..]).operand;
  }

  lemma {:induction false} SplitTerminator(spec: Spec, ordering: Ordering, args: seq<string>)
    requires args != [] && args[0] == "--"
    ensures Options(spec, ordering, args) == ["--"]
    ensures Operands(spec, ordering, args) == args[1..]
    ensures Read(spec, ordering, args).events == []
  {
    assert Read(spec, ordering, args).operand[1..] == Repeat(true, |args| - 1);
    SelectUniform(args[1..], true, false);
    SelectUniform(args[1..], true, true);
  }

  /** Without permutation, the first operand ends the options. */
  lemma {:induction false} SplitRest(spec: Spec, args: seq<string>)
    requires args != [] && IsOperand(args[0])
    ensures Options(spec, RequireOrder, args) == [] && Operands(spec, RequireOrder, args) == args
    ensures Read(spec, RequireOrder, args).events == []
  {
    SelectUniform(args, true, false);
    SelectUniform(args, true, true);
  }

  /** Without permutation the separated vector is the original one: nothing moves. */
  lemma {:induction false} NothingMoves(spec: Spec, args: seq<string>)
    ensures Options(spec, RequireOrder, args) + Operands(spec, RequireOrder, args) == args
    decreases |args|
  {
    if args == [] {
    } else if IsOperand(args[0]) {
      SplitRest(spec, args);
    } else if args[0] == "--" {
      SplitTerminator(spec, RequireOrder, args);
    } else {
      hide Options, Operands, ReadElement, Read;
      var n := Width(ReadElement(spec, args[0], Following(args)));
      SplitElement(spec, RequireOrder, args);
      NothingMoves(spec, args[n..]);
      Reassemble(args, n, Options(spec, RequireOrder, args[n..]), Operands(spec, RequireOrder, args[n..]));
    }
  }

  lemma {:induction false} Reassemble(args: seq<string>, n: nat, o: seq<string>, r: seq<string>)
    requires n <= |args| && o + r == args[n..]
    ensures (args[..n] + o) + r == args
  {
    assert (args[..n] + o) + r == args[..n] + (o + r);
  }

  // ----- reading on from a place inside the vector

  /** What is left of the element at `at`, if it is begun, reads on as the whole element would have. */
  ghost predicate Begun(spec: Spec, orig: seq<string>, at: nat, left: string) {
    left != "" ==>
      && at < |orig| && |left| < |orig[at]|
      && IsOption(orig[at]) && !IsLong(spec, orig[at])
      && Cluster(spec.optstring, left, Following(orig[at..])).takesNext
         == ReadElement(spec, orig[at], Following(orig[at..])).takesNext
  }

  predicate IsOption(arg: string) {
    !IsOperand(arg) && arg != "--"
  }

  /** What the scan has still to read of the element it is in or about to begin. */
  ghost function Current(spec: Spec, orig: seq<string>, at: nat, left: string): (e: Element)
    requires at < |orig| && IsOption(orig[at])
    ensures e.takesNext ==> at + 2 <= |orig|
    ensures |e.events| >= 1
  {
    if left != "" then Cluster(spec.optstring, left, Following(orig[at..]))
    else ReadElement(spec, orig[at], Following(orig[at..]))
  }

  ghost function Ahead(spec: Spec, ordering: Ordering, orig: seq<string>, at: nat, left: string): seq<Event>
    requires at <= |orig| && (left != "" ==> at < |orig|)
  {
    Resume(spec, ordering, orig[at..], left).events
  }

  /** Past an operand. */
  lemma {:induction false} SkipParts(spec: Spec, orig: seq<string>, at: nat)
    requires at < |orig| && IsOperand(orig[at])
    ensures Options(spec, Permute, orig[at + 1..]) == Options(spec, Permute, orig[at..])
    ensures Operands(spec, Permute, orig[at..]) == [orig[at]] + Operands(spec, Permute, orig[at + 1..])
    ensures Ahead(spec, Permute, orig, at + 1, "") == Ahead(spec, Permute, orig, at, "")
  {
    assert orig[at..][1..] == orig[at + 1..];
    SplitOperand(spec, orig[at..]);
  }

  /** Past an option element and its argument. */
  lemma {:induction false} PassParts(spec: Spec, ordering: Ordering, orig: seq<string>, at: nat, left: string)
    requires at < |orig| && IsOption(orig[at]) && Begun(spec, orig, at, left)
    ensures var e := Current(spec, orig, at, left);
      var next := at + Width(e);
      && next <= |orig|
      && Options(spec, ordering, orig[at..]) == orig[at..next] + Options(spec, ordering, orig[next..])
      && Operands(spec, ordering, orig[at..]) == Operands(spec, ordering, orig[next..])
      && Ahead(spec, ordering, orig, at, left) == e.events + Ahead(spec, ordering, orig, next, "")
  {
    var n := Width(Current(spec, orig, at, left));
    assert orig[at..][0] == orig[at];
    SplitElement(spec, ordering, orig[at..]);
    assert orig[at..][..n] == orig[at..at + n] && orig[at..][n..] == orig[at + n..];
  }

  /** Into a cluster of short options. */
  lemma {:induction false} EnterParts(spec: Spec, ordering: Ordering, orig: seq<string>, at: nat)
    requires at < |orig| && IsOption(orig[at]) && !IsLong(spec, orig[at])
    ensures Begun(spec, orig, at, orig[at][1..])
    ensures Current(spec, orig, at, orig[at][1..]) == Current(spec, orig, at, "")
    ensures Ahead(spec, ordering, orig, at, orig[at][1..]) == Ahead(spec, ordering, orig, at, "")
  {
    assert orig[at..][0] == orig[at];
  }

  /** One character on in a cluster. */
  lemma {:induction false} TrimParts(spec: Spec, ordering: Ordering, orig: seq<string>, at: nat, left: string)
    requires at < |orig| && Begun(spec, orig, at, left) && |left| > 1
    requires var e := Current(spec, orig, at, left);
      Cluster(spec.optstring, left[1..], Following(orig[at..])) == Element(e.events[1..], e.takesNext)
    ensures Begun(spec, orig, at, left[1..])
    ensures var ahead := Ahead(spec, ordering, orig, at, left);
      && ahead != [] && ahead[0] == Current(spec, orig, at, left).events[0]
      && ahead[1..] == Ahead(spec, ordering, orig, at, left[1..])
  {
    var e := Current(spec, orig, at, left);
    var rest := Read(spec, ordering, orig[at..][Width(e)..]).events;
    assert (e.events + rest)[1..] == e.events[1..] + rest;
  }

  /** At `--`, at the end, and at an operand that is not to be skipped, only operands remain. */
  lemma {:induction false} EndParts(spec: Spec, ordering: Ordering, orig: seq<string>, at: nat)
    requires at <= |orig|
    ensures at == |orig| ==> Options(spec, ordering, orig[at..]) == [] && Operands(spec, ordering, orig[at..]) == []
    ensures at < |orig| && orig[at] == "--" ==>
      Options(spec, ordering, orig[at..]) == ["--"] && Operands(spec, ordering, orig[at..]) == orig[at + 1..]
    ensures at < |orig| && IsOperand(orig[at]) && ordering.RequireOrder? ==>
      Options(spec, ordering, orig[at..]) == [] && Operands(spec, ordering, orig[at..]) == orig[at..]
    ensures at == |orig| || orig[at] == "--" || (IsOperand(orig[at]) && ordering.RequireOrder?) ==>
      Ahead(spec, ordering, orig, at, "") == []
  {
    if at < |orig| {
      assert orig[at..][0] == orig[at] && orig[at..][1..] == orig[at + 1..];
      if orig[at] == "--" {
        SplitTerminator(spec, ordering, orig[at..]);
      } else if IsOperand(orig[at]) && ordering.RequireOrder? {
        SplitRest(spec, orig[at..]);
      }
    }
  }

  // ----- how many events a vector can produce

  function CallBound(args: seq<string>): nat {
    if args == [] then 0
    else (if |args[0]| <= 1 then 1 else |args[0]| - 1) + CallBound(args[1..])
  }

  lemma {:induction false} CallBoundDrop(args: seq<string>, n: nat)
    requires n <= |args|
    ensures CallBound(args[n..]) <= CallBound(args)
  {
    if n > 0 {
      CallBoundDrop(args[1..], n - 1);
      assert args[1..][n - 1..] == args[n..];
    }
  }

  lemma {:induction false} EventsBounded(spec: Spec, ordering: Ordering, args: seq<string>)
    ensures |Read(spec, ordering, args).events| <= CallBound(args)
    decreases |args|
  {
    if args == [] || args[0] == "--" {
    } else if IsOperand(args[0]) {
      EventsBounded(spec, ordering, args[1..]);
    } else {
      var e := ReadElement(spec, args[0], Following(args));
      EventsBounded(spec, ordering, args[Width(e)..]);
      CallBoundDrop(args[1..], Width(e) - 1);
      assert args[1..][Width(e) - 1..] == args[Width(e)..];
    }
  }
}
