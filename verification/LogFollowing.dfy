/**
 * Following a log file by name (tail.c:62-170), one pass at a time. Files are numbered and only ever
 * grow; the name may come to stand for another file, or for none.
 */
module LogFollowing {
  import opened Common
  import opened Pacing

  /** The file the log's name stands for, and the text of every file. */
  datatype Disk = Disk(path: Option<nat>, text: map<nat, string>) {
    predicate WellFormed() {
      path.Some? ==> path.value in text
    }
  }

  /** An open file and the position in it. */
  datatype Handle = Handle(file: nat, offset: nat)

  /** The globals of tail.c that outlive a pass. */
  datatype State = State(handle: Option<Handle>, last: int, paws: nat)

  /** What a pass finds: the disk, the clock, and the configured patience. */
  datatype Pass = Pass(disk: Disk, now: int, suspicious: int)

  predicate Fits(s: State, d: Disk) {
    && d.WellFormed()
    && (s.handle.Some? ==> s.handle.value.file in d.text && s.handle.value.offset <= |d.text[s.handle.value.file]|)
  }

  /** tail_reopen: a file shorter than the position is taken to be new, any other to be the old one. */
  function Reopened(d: Disk, current: nat): Option<Handle>
    requires d.WellFormed()
  {
    match d.path
    case None => None
    case Some(f) => Some(Handle(f, if |d.text[f]| < current then 0 else current))
  }

  /** Whether the pass reopens the file instead of reading it. */
  predicate Reopens(s: State, p: Pass)
    requires Fits(s, p.disk)
  {
    match s.handle
    case None => true
    case Some(h) =>
      var seen := if |p.disk.text[h.file]| > h.offset then p.now else s.last;
      p.now - seen > p.suspicious
  }

  /** The text the pass hands on. */
  function Chunk(s: State, p: Pass): string
    requires Fits(s, p.disk)
  {
    if Reopens(s, p) then "" else p.disk.text[s.handle.value.file][s.handle.value.offset..]
  }

  function NewlineCount(text: string): nat {
    if text == "" then 0
    else NewlineCount(text[..|text| - 1]) + if text[|text| - 1] == '\n' then 1 else 0
  }

  lemma {:induction false} NewlinesCounted(text: string)
    ensures NewlineCount(text) == multiset(text)['\n']
  {
    if text != "" {
      NewlinesCounted(text[..|text| - 1]);
      assert text == text[..|text| - 1] + [text[|text| - 1]];
    }
  }

  /** The state after the pass. */
  function After(s: State, p: Pass): (t: State)
    requires Fits(s, p.disk)
    ensures Fits(t, p.disk)
  {
    if Reopens(s, p) then
      State(Reopened(p.disk, if s.handle.None? then 0 else s.handle.value.offset), p.now, s.paws)
    else
      var h := s.handle.value;
      var end := |p.disk.text[h.file]|;
      var seen := if end > h.offset then p.now else s.last;
      State(Some(Handle(h.file, end)), seen, Pace(s.paws, NewlineCount(Chunk(s, p))))
  }

  /**
   * Patience decides whether new text is read: with a file open, a pass that is not impatient leaves nothing
   * of that file as it finds it, and one that is (a negative number of seconds) does not move in it at all.
   */
  lemma PatienceReads(s: State, p: Pass)
    requires Fits(s, p.disk) && s.handle.Some?
    ensures p.suspicious >= 0 && Reopens(s, p) ==> |p.disk.text[s.handle.value.file]| == s.handle.value.offset
    ensures p.suspicious < 0 ==> Chunk(s, p) == ""
  {
  }

  /** Between passes files may be appended to or created, and the name may change hands. */
  ghost predicate Grows(d: Disk, d': Disk) {
    forall f :: f in d.text ==> f in d'.text && d.text[f] <= d'.text[f]
  }

  lemma GrowthFits(s: State, d: Disk, d': Disk)
    requires Fits(s, d) && Grows(d, d') && d'.WellFormed()
    ensures Fits(s, d')
  {
  }

  // ----- runs

  /** A run of passes over disks that grow, from a state that fits the first disk. */
  ghost predicate Run(s: State, d: Disk, passes: seq<Pass>) {
    && Fits(s, d)
    && (forall i :: 0 <= i < |passes| ==> passes[i].disk.WellFormed() && Grows(d, passes[i].disk))
    && (forall i, j :: 0 <= i < j < |passes| ==> Grows(passes[i].disk, passes[j].disk))
  }

  /** The disk at the end of a run. */
  function LastDisk(d: Disk, passes: seq<Pass>): Disk {
    if passes == [] then d else passes[|passes| - 1].disk
  }

  lemma RunBefore(s: State, d: Disk, passes: seq<Pass>)
    requires Run(s, d, passes) && passes != []
    ensures Run(s, d, passes[..|passes| - 1])
    ensures Grows(LastDisk(d, passes[..|passes| - 1]), passes[|passes| - 1].disk)
    ensures passes[|passes| - 1].disk.WellFormed()
  {
  }

  ghost function StateAfter(s: State, d: Disk, passes: seq<Pass>): (t: State)
    requires Run(s, d, passes)
    ensures Fits(t, LastDisk(d, passes))
  {
    if passes == [] then s
    else
      var before, last := passes[..|passes| - 1], passes[|passes| - 1];
      RunBefore(s, d, passes);
      GrowthFits(StateAfter(s, d, before), LastDisk(d, before), last.disk);
      After(StateAfter(s, d, before), last)
  }

  /** The state in which the last pass finds the follower. */
  ghost function StateAtLast(s: State, d: Disk, passes: seq<Pass>): (t: State)
    requires Run(s, d, passes) && passes != []
    ensures Fits(t, passes[|passes| - 1].disk)
  {
    var before := passes[..|passes| - 1];
    RunBefore(s, d, passes);
    GrowthFits(StateAfter(s, d, before), LastDisk(d, before), passes[|passes| - 1].disk);
    StateAfter(s, d, before)
  }

  /** The chunks handed on, one for each pass. */
  ghost function Chunks(s: State, d: Disk, passes: seq<Pass>): (r: seq<string>)
    requires Run(s, d, passes)
    ensures |r| == |passes|
  {
    if passes == [] then []
    else
      RunBefore(s, d, passes);
      Chunks(s, d, passes[..|passes| - 1]) + [Chunk(StateAtLast(s, d, passes), passes[|passes| - 1])]
  }

  // ----- pacing over runs

  /** The line counts of the completed reads. */
  ghost function ReadCounts(s: State, d: Disk, passes: seq<Pass>): seq<nat>
    requires Run(s, d, passes)
  {
    if passes == [] then []
    else
      RunBefore(s, d, passes);
      var t, p := StateAtLast(s, d, passes), passes[|passes| - 1];
      ReadCounts(s, d, passes[..|passes| - 1]) + if Reopens(t, p) then [] else [NewlineCount(Chunk(t, p))]
  }

  /** The delay depends on the completed reads alone: passes that reopen the log leave it as it is. */
  lemma {:induction false} PacedRun(s: State, d: Disk, passes: seq<Pass>)
    requires Run(s, d, passes) && InRange(s.paws)
    ensures StateAfter(s, d, passes).paws == PaceAll(s.paws, ReadCounts(s, d, passes))
    ensures 1 <= StateAfter(s, d, passes).paws <= 1000000
  {
    if passes != [] {
      RunBefore(s, d, passes);
      PacedRun(s, d, passes[..|passes| - 1]);
      var counts, before := ReadCounts(s, d, passes), ReadCounts(s, d, passes[..|passes| - 1]);
      assert |counts| > |before| ==> counts[..|counts| - 1] == before;
      assert before + [] == before;
    }
    PaceAllInRange(s.paws, ReadCounts(s, d, passes));
  }
}
