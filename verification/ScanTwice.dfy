/** Scanning a vector that has been scanned before. */
module ScanTwice {
  import opened OptionGrammar
  import opened Rescan
  import opened Scanner

  /** Reading `args` leaves nothing for a second scan to misunderstand. */
  ghost predicate Rereadable(spec: Spec, args: seq<string>) {
    MissingArgument(Read(spec, Permute, args)) ==> Operands(spec, Permute, args) == []
  }

  /**
   * A permuting scan followed by a fresh scan of what it left, by any scanner: the caller sees the same
   * again, the second scan stops at the same index and moves nothing.
   */
  method Twice(spec: Spec, argv: array<string>, one: Getopt, two: Getopt) returns (first: seq<Seen>, second: seq<Seen>)
    requires Supported(spec) && argv.Length > 0 && one != two
    requires one.Uninitialized() && two.Uninitialized() && one.optind == two.optind == 1 && !one.posixlyCorrect
    requires Distinguishable(spec) && Rereadable(spec, argv[1..])
    modifies one, two, argv
    ensures second == first == SeenOf(Read(spec, Permute, old(argv[1..])).events)
    ensures one.optind == two.optind
    ensures argv[..]
         == old(argv[..1]) + Options(spec, Permute, old(argv[1..])) + Operands(spec, Permute, old(argv[1..]))
  {
    ghost var args, name := argv[1..], argv[..1];
    SeesTheWholeScan(spec, Permute, args);
    hide Read, Options, Operands, MissingArgument;
    assert argv[..] == name + args;
    first := one.Scan(spec, argv);
    ghost var o, R := Options(spec, Permute, args), Operands(spec, Permute, args);
    assert argv[1..] == argv[..][1..] == o + R && argv[..1] == argv[..][..1] == name;
    RescanIff(spec, two.OrderingAhead(), args);
    SeesTheWholeScan(spec, two.OrderingAhead(), o + R);
    second := two.Scan(spec, argv);
  }
}
