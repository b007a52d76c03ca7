/** What a run of passes delivers (tail.c:82-170), and when that is the text of the log exactly once. */
module Delivery {
  import opened Common
  import opened LogFollowing

  /** A stretch of one file. */
  datatype Span = Span(file: nat, from: nat, to: nat)

  ghost predicate InText(spans: seq<Span>, text: map<nat, string>) {
    forall k :: 0 <= k < |spans| ==>
      spans[k].file in text && spans[k].from <= spans[k].to <= |text[spans[k].file]|
  }

  ghost function TextOf(spans: seq<Span>, text: map<nat, string>): string
    requires InText(spans, text)
  {
    if spans == [] then ""
    else
      var last := spans[|spans| - 1];
      TextOf(spans[..|spans| - 1], text) + text[last.file][last.from..last.to]
  }

  /** A file opened at a position: a stretch that is still empty. */
  function Opened(h: Option<Handle>): seq<Span> {
    match h
    case None => []
    case Some(h) => [Span(h.file, h.offset, h.offset)]
  }

  /** How a pass extends the stretches delivered: reading lengthens the last, opening begins another. */
  ghost function Extend(spans: seq<Span>, s: State, p: Pass): seq<Span>
    requires Fits(s, p.disk)
  {
    if !Reopens(s, p) then
      if spans == [] then []
      else spans[|spans| - 1 := spans[|spans| - 1].(to := |p.disk.text[s.handle.value.file]|)]
    else if After(s, p).handle == s.handle then spans
    else spans + Opened(After(s, p).handle)
  }

  ghost function Spans(s: State, d: Disk, passes: seq<Pass>): seq<Span>
    requires Run(s, d, passes)
  {
    if passes == [] then Opened(s.handle)
    else
      RunBefore(s, d, passes);
      Extend(Spans(s, d, passes[..|passes| - 1]), StateAtLast(s, d, passes), passes[|passes| - 1])
  }

  /** The open file is the one whose stretch comes last, read up to the position. */
  ghost predicate Follows(spans: seq<Span>, s: State) {
    s.handle.Some? ==>
      && spans != []
      && spans[|spans| - 1].file == s.handle.value.file
      && spans[|spans| - 1].to == s.handle.value.offset
  }

  /** The file has been read to the end it has. */
  ghost predicate ReadOut(spans: seq<Span>, file: nat, text: map<nat, string>) {
    exists k :: 0 <= k < |spans| && spans[k].file == file && file in text && spans[k].to == |text[file]|
  }

  lemma {:induction false} TextSurvives(spans: seq<Span>, d: Disk, d': Disk)
    requires InText(spans, d.text) && Grows(d, d')
    ensures InText(spans, d'.text) && TextOf(spans, d'.text) == TextOf(spans, d.text)
  {
    if spans != [] {
      TextSurvives(spans[..|spans| - 1], d, d');
      var last := spans[|spans| - 1];
      assert d'.text[last.file][last.from..last.to] == d.text[last.file][last.from..last.to];
    }
  }

  /** One pass: what it hands on is what its stretches gain, and a patient one reads the open file out. */
  lemma {:induction false} ExtendDelivers(spans: seq<Span>, s: State, p: Pass)
    requires Fits(s, p.disk) && InText(spans, p.disk.text) && Follows(spans, s)
    ensures var spans' := Extend(spans, s, p);
      && InText(spans', p.disk.text) && Follows(spans', After(s, p))
      && TextOf(spans', p.disk.text) == TextOf(spans, p.disk.text) + Chunk(s, p)
      && (s.handle.Some? && p.suspicious >= 0 ==> ReadOut(spans', s.handle.value.file, p.disk.text))
  {
    var spans' := Extend(spans, s, p);
    if !Reopens(s, p) {
      var n := |spans| - 1;
      var text := p.disk.text[spans[n].file];
      assert spans'[..n] == spans[..n];
      assert text[spans[n].from..|text|] == text[spans[n].from..spans[n].to] + text[spans[n].to..];
      assert spans'[n].to == |text|;
    } else {
      if s.handle.Some? {
        PatienceReads(s, p);
        assert spans'[|spans| - 1] == spans[|spans| - 1];
      }
      assert spans'[..|spans|] == spans;
      assert spans + [] == spans;
    }
  }

  /**
   * Whatever happens to the files, everything handed on over a run is the text of the stretches, in order:
   * across any number of reopenings there is neither a gap nor a repeat inside a stretch. And a pass that is
   * not impatient leaves nothing unread of the file it found open.
   */
  lemma {:induction false} Delivers(s: State, d: Disk, passes: seq<Pass>)
    requires Run(s, d, passes)
    ensures var end, spans := LastDisk(d, passes), Spans(s, d, passes);
      && InText(spans, end.text) && Follows(spans, StateAfter(s, d, passes))
      && TextOf(spans, end.text) == Flatten(Chunks(s, d, passes))
    ensures passes != [] && passes[|passes| - 1].suspicious >= 0 ==>
      var h := StateAtLast(s, d, passes).handle;
      h.Some? ==> ReadOut(Spans(s, d, passes), h.value.file, LastDisk(d, passes).text)
  {
    if passes != [] {
      var before, last := passes[..|passes| - 1], passes[|passes| - 1];
      RunBefore(s, d, passes);
      Delivers(s, d, before);
      TextSurvives(Spans(s, d, before), LastDisk(d, before), last.disk);
      ExtendDelivers(Spans(s, d, before), StateAtLast(s, d, passes), last);
      FlattenAppend(Chunks(s, d, before), [Chunk(StateAtLast(s, d, passes), last)]);
      assert Flatten([Chunk(StateAtLast(s, d, passes), last)]) == Chunk(StateAtLast(s, d, passes), last);
    }
  }

  // ----- one log under one name

  /** How far a log is read that keeps its name: to where it ended at the latest pass that was not impatient. */
  function ReadUpTo(file: nat, from: nat, passes: seq<Pass>): nat
    requires forall i :: 0 <= i < |passes| ==> file in passes[i].disk.text
  {
    if passes == [] then from
    else
      var last := passes[|passes| - 1];
      if last.suspicious >= 0 then |last.disk.text[file]| else ReadUpTo(file, from, passes[..|passes| - 1])
  }

  /** The position of a log that keeps its name. */
  lemma {:induction false} OnePosition(s: State, d: Disk, passes: seq<Pass>)
    requires Run(s, d, passes) && s.handle.Some?
    requires forall i :: 0 <= i < |passes| ==> passes[i].disk.path == Some(s.handle.value.file)
    ensures var h := s.handle.value;
      var upTo := ReadUpTo(h.file, h.offset, passes);
      && StateAfter(s, d, passes).handle == Some(Handle(h.file, upTo))
      && Spans(s, d, passes) == [Span(h.file, h.offset, upTo)]
  {
    if passes != [] {
      RunBefore(s, d, passes);
      OnePosition(s, d, passes[..|passes| - 1]);
      PatienceReads(StateAtLast(s, d, passes), passes[|passes| - 1]);
    }
  }

  /**
   * A log that is only appended to: everything after the opening position up to the end it had at the latest
   * pass that was not impatient arrives, once and in order, across any number of reopenings. So all that was
   * ever appended arrives exactly if nothing has been appended since that pass, and always if the last pass
   * was not impatient itself.
   */
  lemma {:induction false} OneFile(s: State, d: Disk, passes: seq<Pass>)
    requires Run(s, d, passes) && s.handle.Some?
    requires forall i :: 0 <= i < |passes| ==> passes[i].disk.path == Some(s.handle.value.file)
    ensures var h, text := s.handle.value, LastDisk(d, passes).text[s.handle.value.file];
      var upTo := ReadUpTo(h.file, h.offset, passes);
      && h.offset <= upTo <= |text|
      && Spans(s, d, passes) == [Span(h.file, h.offset, upTo)]
      && Flatten(Chunks(s, d, passes)) == text[h.offset..upTo]
      && (Flatten(Chunks(s, d, passes)) == text[h.offset..] <==> upTo == |text|)
      && (passes != [] && passes[|passes| - 1].suspicious >= 0 ==> upTo == |text|)
  {
    OnePosition(s, d, passes);
    Delivers(s, d, passes);
    hide StateAfter, Chunks, Spans;
    var spans := Spans(s, d, passes);
    assert spans[..|spans| - 1] == [] && spans[0] == spans[|spans| - 1];
  }

  // ----- exactly once

  /** The k-th stretch is over: another file, or none, has taken its place. */
  predicate Over(spans: seq<Span>, t: State, k: nat) {
    k < |spans| - 1 || t.handle.None?
  }

  /**
   * No file is followed twice, every file but the first is followed from its start, and whatever was followed
   * and is no longer was followed to its end.
   */
  ghost predicate ExactlyOnce(spans: seq<Span>, t: State, text: map<nat, string>)
    requires InText(spans, text)
  {
    && (forall j, k :: 0 <= j < k < |spans| ==> spans[j].file != spans[k].file)
    && (forall k :: 0 < k < |spans| ==> spans[k].from == 0)
    && (forall k :: 0 <= k < |spans| && Over(spans, t, k) ==> spans[k].to == |text[spans[k].file]|)
  }

  /**
   * A pass that opens the log finds the file it was following, or one that was never followed before and
   * that it will read from the start: because nothing was open, or because the new file is the shorter one,
   * or because nothing of the old one had been read.
   */
  ghost predicate OpensSafely(spans: seq<Span>, s: State, p: Pass)
    requires Fits(s, p.disk)
  {
    Reopens(s, p) && p.disk.path.Some? ==>
      var f := p.disk.path.value;
      match s.handle
      case None => forall k :: 0 <= k < |spans| ==> spans[k].file != f
      case Some(h) =>
        f == h.file ||
        ((forall k :: 0 <= k < |spans| ==> spans[k].file != f) && (|p.disk.text[f]| < h.offset || h.offset == 0))
  }

  /** A pass that gives up the open file for another, or finds none, is not impatient, or finds nothing new. */
  predicate LeavesSafely(s: State, p: Pass)
    requires Fits(s, p.disk)
  {
    Reopens(s, p) && s.handle.Some? && p.disk.path != Some(s.handle.value.file) ==>
      p.suspicious >= 0 || |p.disk.text[s.handle.value.file]| == s.handle.value.offset
  }

  /** No file that is no longer followed has grown between the two disks. */
  ghost predicate OldOnesRest(spans: seq<Span>, s: State, d: Disk, d': Disk)
    requires InText(spans, d.text) && Grows(d, d')
  {
    forall k :: 0 <= k < |spans| && Over(spans, s, k) ==> |d'.text[spans[k].file]| == |d.text[spans[k].file]|
  }

  /** Every pass opens and leaves safely, and no file grows after it was left. */
  ghost predicate SafeRun(s: State, d: Disk, passes: seq<Pass>)
    requires Run(s, d, passes)
  {
    if passes == [] then true
    else
      var before, last := passes[..|passes| - 1], passes[|passes| - 1];
      RunBefore(s, d, passes);
      Delivers(s, d, before);
      && SafeRun(s, d, before)
      && OpensSafely(Spans(s, d, before), StateAtLast(s, d, passes), last)
      && LeavesSafely(StateAtLast(s, d, passes), last)
      && OldOnesRest(Spans(s, d, before), StateAtLast(s, d, passes), LastDisk(d, before), last.disk)
  }

  /** One pass keeps the stretches exactly once if they were so before and the pass is safe, and only then. */
  ghost predicate OnceMore(spans: seq<Span>, s: State, d: Disk, p: Pass)
    requires Fits(s, p.disk) && InText(spans, d.text) && Grows(d, p.disk)
    requires InText(Extend(spans, s, p), p.disk.text)
  {
    ExactlyOnce(Extend(spans, s, p), After(s, p), p.disk.text) <==>
      && ExactlyOnce(spans, s, d.text)
      && OpensSafely(spans, s, p) && LeavesSafely(s, p) && OldOnesRest(spans, s, d, p.disk)
  }

  lemma {:induction false} OnceRead(spans: seq<Span>, s: State, d: Disk, p: Pass)
    requires Fits(s, p.disk) && InText(spans, d.text) && Grows(d, p.disk)
    requires Follows(spans, s) && InText(Extend(spans, s, p), p.disk.text)
    requires !Reopens(s, p)
    ensures OnceMore(spans, s, d, p)
  {
    var spans' := Extend(spans, s, p);
    assert forall k :: 0 <= k < |spans| ==> spans'[k].file == spans[k].file && spans'[k].from == spans[k].from;
    assert forall k :: 0 <= k < |spans| - 1 ==> spans'[k] == spans[k];
  }

  lemma {:induction false} OnceKept(spans: seq<Span>, s: State, d: Disk, p: Pass)
    requires Fits(s, p.disk) && InText(spans, d.text) && Grows(d, p.disk)
    requires Follows(spans, s) && InText(Extend(spans, s, p), p.disk.text)
    requires Reopens(s, p) && After(s, p).handle == s.handle
    ensures OnceMore(spans, s, d, p)
  {
    hide Reopens;
    assert Extend(spans, s, p) == spans;
  }

  lemma {:induction false} OnceLost(spans: seq<Span>, s: State, d: Disk, p: Pass)
    requires Fits(s, p.disk) && InText(spans, d.text) && Grows(d, p.disk)
    requires Follows(spans, s) && InText(Extend(spans, s, p), p.disk.text)
    requires Reopens(s, p) && s.handle.Some? && p.disk.path.None?
    ensures OnceMore(spans, s, d, p)
  {
    PatienceReads(s, p);
    assert Extend(spans, s, p) == spans + [] == spans;
    hide Reopens;
    assert Over(spans, After(s, p), |spans| - 1);
  }

  lemma {:induction false} OnceOpened(spans: seq<Span>, s: State, d: Disk, p: Pass)
    requires Fits(s, p.disk) && InText(spans, d.text) && Grows(d, p.disk)
    requires Follows(spans, s) && InText(Extend(spans, s, p), p.disk.text) && (spans == [] ==> s.handle.Some?)
    requires Reopens(s, p) && p.disk.path.Some? && After(s, p).handle != s.handle
    ensures OnceMore(spans, s, d, p)
  {
    if s.handle.Some? {
      PatienceReads(s, p);
    }
    var spans', h := Extend(spans, s, p), After(s, p).handle.value;
    assert spans' == spans + [Span(h.file, h.offset, h.offset)];
    assert forall k :: 0 <= k < |spans| ==> spans'[k] == spans[k] && Over(spans', After(s, p), k);
    assert spans'[|spans|] == Span(h.file, h.offset, h.offset);
    assert s.handle.Some? ==> spans[|spans| - 1].file != h.file && Over(spans', After(s, p), |spans| - 1);
    assert OpensSafely(spans, s, p) <==>
      (forall k :: 0 <= k < |spans| ==> spans[k].file != h.file) && spans'[|spans|].from == 0;
    hide Reopens, OpensSafely;
  }

  lemma {:induction false} ExtendOnce(spans: seq<Span>, s: State, d: Disk, p: Pass)
    requires Fits(s, p.disk) && InText(spans, d.text) && Grows(d, p.disk)
    requires Follows(spans, s) && (spans == [] ==> s.handle.Some?)
    ensures InText(Extend(spans, s, p), p.disk.text) && OnceMore(spans, s, d, p)
  {
    TextSurvives(spans, d, p.disk);
    ExtendDelivers(spans, s, p);
    hide OnceMore, Extend, InText, Follows, Grows;
    if !Reopens(s, p) {
      OnceRead(spans, s, d, p);
    } else if After(s, p).handle == s.handle {
      OnceKept(spans, s, d, p);
    } else if p.disk.path.None? {
      OnceLost(spans, s, d, p);
    } else {
      OnceOpened(spans, s, d, p);
    }
  }

  /**
   * Exactly-once delivery, both ways: a run that starts with the log open follows no file twice, skips the
   * start of none and leaves none unread exactly if every pass opened and left safely and no file grew after
   * it was left.
   */
  lemma {:induction false} ExactlyOnceIff(s: State, d: Disk, passes: seq<Pass>)
    requires Run(s, d, passes) && s.handle.Some?
    ensures var spans, end := Spans(s, d, passes), LastDisk(d, passes);
      && spans != [] && InText(spans, end.text)
      && (ExactlyOnce(spans, StateAfter(s, d, passes), end.text) <==> SafeRun(s, d, passes))
  {
    Delivers(s, d, passes);
    if passes != [] {
      var before := passes[..|passes| - 1];
      RunBefore(s, d, passes);
      ExactlyOnceIff(s, d, before);
      Delivers(s, d, before);
      ExtendOnce(Spans(s, d, before), StateAtLast(s, d, passes), LastDisk(d, before), passes[|passes| - 1]);
    }
  }

  // ----- what a safe run delivers

  /** The whole text of every file followed, one after another. */
  ghost function WholeText(spans: seq<Span>, text: map<nat, string>): string
    requires InText(spans, text)
  {
    if spans == [] then "" else WholeText(spans[..|spans| - 1], text) + text[spans[|spans| - 1].file]
  }

  /** What is still to be read of the open file. */
  function Unread(t: State, d: Disk): string
    requires Fits(t, d)
  {
    match t.handle
    case None => ""
    case Some(h) => d.text[h.file][h.offset..]
  }

  lemma LastIsWhole(whole: string, from: nat, last: string)
    requires from <= |whole|
    ensures whole[from..] + last[0..|last|] == (whole + last)[from..]
  {
  }

  lemma {:induction false} EachToItsEnd(spans: seq<Span>, text: map<nat, string>)
    requires InText(spans, text) && spans != []
    requires forall k :: 0 <= k < |spans| ==> spans[k].to == |text[spans[k].file]| && (k > 0 ==> spans[k].from == 0)
    ensures spans[0].from <= |WholeText(spans, text)|
    ensures TextOf(spans, text) == WholeText(spans, text)[spans[0].from..]
  {
    var front, last := spans[..|spans| - 1], spans[|spans| - 1];
    if front == [] {
      assert WholeText(front, text) == "" == TextOf(front, text);
      assert WholeText(spans, text) == text[last.file];
    } else {
      assert forall k :: 0 <= k < |front| ==> front[k] == spans[k];
      EachToItsEnd(front, text);
      LastIsWhole(WholeText(front, text), spans[0].from, text[last.file]);
      assert last.from == 0 && last.to == |text[last.file]|;
    }
  }

  lemma {:induction false} OnceIsWhole(spans: seq<Span>, t: State, d: Disk)
    requires Fits(t, d) && InText(spans, d.text) && Follows(spans, t) && spans != []
    requires ExactlyOnce(spans, t, d.text)
    ensures spans[0].from <= |WholeText(spans, d.text)|
    ensures TextOf(spans, d.text) + Unread(t, d) == WholeText(spans, d.text)[spans[0].from..]
  {
    if t.handle.None? {
      EachToItsEnd(spans, d.text);
    } else {
      var front, last := spans[..|spans| - 1], spans[|spans| - 1];
      var text := d.text[last.file];
      assert forall k :: 0 <= k < |front| ==> front[k] == spans[k] && Over(spans, t, k);
      assert text[last.from..last.to] + text[last.to..] == text[last.from..];
      if front == [] {
        assert WholeText(front, d.text) == "" == TextOf(front, d.text);
      } else {
        EachToItsEnd(front, d.text);
        assert last == spans[|spans| - 1] && last.from == 0;
      }
    }
  }

  lemma {:induction false} FirstStretch(s: State, d: Disk, passes: seq<Pass>)
    requires Run(s, d, passes) && s.handle.Some?
    ensures var spans := Spans(s, d, passes);
      spans != [] && spans[0].file == s.handle.value.file && spans[0].from == s.handle.value.offset
  {
    if passes != [] {
      RunBefore(s, d, passes);
      FirstStretch(s, d, passes[..|passes| - 1]);
    }
  }

  /**
   * What has been handed on in a safe run, with what waits in the open file, is the whole text of the files
   * followed from the opening position on: the first file from there to its end, then each later one from its
   * start. And nothing waits when a pass that was not impatient ends with the file it began with.
   */
  lemma {:induction false} DeliversTheLog(s: State, d: Disk, passes: seq<Pass>)
    requires Run(s, d, passes) && s.handle.Some? && SafeRun(s, d, passes)
    ensures var spans, end, t := Spans(s, d, passes), LastDisk(d, passes), StateAfter(s, d, passes);
      && InText(spans, end.text) && s.handle.value.offset <= |WholeText(spans, end.text)|
      && Flatten(Chunks(s, d, passes)) + Unread(t, end) == WholeText(spans, end.text)[s.handle.value.offset..]
    ensures passes != [] && passes[|passes| - 1].suspicious >= 0 ==>
      var h, t := StateAtLast(s, d, passes).handle, StateAfter(s, d, passes);
      h.Some? && t.handle.Some? && h.value.file == t.handle.value.file ==> Unread(t, LastDisk(d, passes)) == ""
  {
    ExactlyOnceIff(s, d, passes);
    Delivers(s, d, passes);
    FirstStretch(s, d, passes);
    hide Run, SafeRun, ExactlyOnce, Follows, InText, Spans, Chunks;
    OnceIsWhole(Spans(s, d, passes), StateAfter(s, d, passes), LastDisk(d, passes));
    if passes != [] && passes[|passes| - 1].suspicious >= 0 && StateAtLast(s, d, passes).handle.Some? {
      PatienceReads(StateAtLast(s, d, passes), passes[|passes| - 1]);
    }
  }

  // ----- rotation, in terms of the disks

  /** The file that carries the log's name: at first the one that is open, then what each pass finds. */
  function NameAt(first: nat, passes: seq<Pass>, i: nat): Option<nat>
    requires i <= |passes|
  {
    if i == 0 then Some(first) else passes[i - 1].disk.path
  }

  function DiskAt(d: Disk, passes: seq<Pass>, i: nat): Disk
    requires i <= |passes|
  {
    if i == 0 then d else passes[i - 1].disk
  }

  /** The name never comes back to a file it has been taken from. */
  predicate NeverReturns(first: nat, passes: seq<Pass>) {
    forall i, j, k :: 0 <= i <= j <= k <= |passes| ==>
      NameAt(first, passes, i).Some? && NameAt(first, passes, i) == NameAt(first, passes, k) ==>
      NameAt(first, passes, j) == NameAt(first, passes, k)
  }

  /** A file the name has been taken from is not written to any more. */
  predicate OldLogsRest(first: nat, d: Disk, passes: seq<Pass>) {
    forall i, j, k :: 0 <= i <= j <= k <= |passes| ==>
      NameAt(first, passes, i).Some? && NameAt(first, passes, i) != NameAt(first, passes, j) ==>
      var f := NameAt(first, passes, i).value;
      f in DiskAt(d, passes, j).text && f in DiskAt(d, passes, k).text
      && DiskAt(d, passes, j).text[f] == DiskAt(d, passes, k).text[f]
  }

  /** The new log is noticed while it is shorter than what was read of the old. */
  predicate Shorter(t: State, p: Pass)
    requires Fits(t, p.disk)
  {
    Reopens(t, p) && p.disk.path.Some? && t.handle.Some? && p.disk.path != Some(t.handle.value.file) ==>
      |p.disk.text[p.disk.path.value]| < t.handle.value.offset || t.handle.value.offset == 0
  }

  /** Whenever the log is opened in place of another file, it is still shorter than what was read of that. */
  ghost predicate FindsShorter(s: State, d: Disk, passes: seq<Pass>)
    requires Run(s, d, passes)
  {
    if passes == [] then true
    else
      RunBefore(s, d, passes);
      var t, p := StateAtLast(s, d, passes), passes[|passes| - 1];
      && FindsShorter(s, d, passes[..|passes| - 1])
      && Shorter(t, p)
  }

  /** The name of the file that is open. */
  function OpenFile(t: State): Option<nat> {
    if t.handle.Some? then Some(t.handle.value.file) else None
  }

  /** The file has carried the name at some moment up to m. */
  ghost predicate CarriedBy(first: nat, passes: seq<Pass>, file: nat, m: nat)
    requires m <= |passes|
  {
    exists i :: 0 <= i <= m && NameAt(first, passes, i) == Some(file)
  }

  /** Every file followed carried the name by the moment m. */
  ghost predicate OpenedBy(spans: seq<Span>, first: nat, passes: seq<Pass>, m: nat)
    requires m <= |passes|
  {
    forall k :: 0 <= k < |spans| ==> CarriedBy(first, passes, spans[k].file, m)
  }

  lemma {:induction false} CarriedLater(first: nat, passes: seq<Pass>, more: seq<Pass>, file: nat, m: nat, m': nat)
    requires m <= m' <= |more| && m <= |passes| && passes <= more
    requires CarriedBy(first, passes, file, m)
    ensures CarriedBy(first, more, file, m')
  {
    var i :| 0 <= i <= m && NameAt(first, passes, i) == Some(file);
    assert NameAt(first, more, i) == Some(file);
  }

  lemma {:induction false} OpenedLater(spans: seq<Span>, first: nat, passes: seq<Pass>, more: seq<Pass>, m: nat,
          m': nat)
    requires m <= m' <= |more| && m <= |passes| && passes <= more
    requires OpenedBy(spans, first, passes, m)
    ensures OpenedBy(spans, first, more, m')
  {
    forall k | 0 <= k < |spans| ensures CarriedBy(first, more, spans[k].file, m') {
      CarriedLater(first, passes, more, spans[k].file, m, m');
    }
  }

  /** A pass opens nothing but the file it finds under the name. */
  lemma {:induction false} ExtendOpens(spans: seq<Span>, s: State, first: nat, passes: seq<Pass>, m: nat)
    returns (m': nat)
    requires passes != [] && Fits(s, passes[|passes| - 1].disk) && Follows(spans, s)
    requires m < |passes| && OpenedBy(spans, first, passes, m) && NameAt(first, passes, m) == OpenFile(s)
    ensures var p := passes[|passes| - 1];
      && m' <= |passes| && NameAt(first, passes, m') == OpenFile(After(s, p))
      && OpenedBy(Extend(spans, s, p), first, passes, m')
  {
    var p := passes[|passes| - 1];
    var spans' := Extend(spans, s, p);
    if Reopens(s, p) && After(s, p).handle != s.handle {
      m' := |passes|;
      OpenedLater(spans, first, passes, passes, m, m');
      assert spans' == spans + Opened(After(s, p).handle);
      hide Reopens, Extend;
      assert NameAt(first, passes, m') == p.disk.path == OpenFile(After(s, p));
      assert p.disk.path.Some? ==> CarriedBy(first, passes, p.disk.path.value, m');
    } else {
      m' := m;
      assert |spans'| == |spans| && forall k :: 0 <= k < |spans| ==> spans'[k].file == spans[k].file;
    }
  }

  /** The moment when the file that is open now, or none, was found: all files followed had the name by then. */
  lemma {:induction false} OpenedWhen(s: State, d: Disk, passes: seq<Pass>) returns (m: nat)
    requires Run(s, d, passes) && s.handle.Some?
    ensures m <= |passes| && NameAt(s.handle.value.file, passes, m) == OpenFile(StateAfter(s, d, passes))
    ensures OpenedBy(Spans(s, d, passes), s.handle.value.file, passes, m)
  {
    var first := s.handle.value.file;
    if passes == [] {
      m := 0;
      assert NameAt(first, passes, 0) == Some(first);
    } else {
      var before := passes[..|passes| - 1];
      RunBefore(s, d, passes);
      m := OpenedWhen(s, d, before);
      Delivers(s, d, before);
      hide OpenedBy, Follows, Extend, Run;
      OpenedLater(Spans(s, d, before), first, before, passes, m, m);
      m := ExtendOpens(Spans(s, d, before), StateAtLast(s, d, passes), first, passes, m);
    }
  }

  lemma {:induction false} RotationBefore(first: nat, d: Disk, passes: seq<Pass>)
    requires NeverReturns(first, passes) && OldLogsRest(first, d, passes) && passes != []
    ensures NeverReturns(first, passes[..|passes| - 1]) && OldLogsRest(first, d, passes[..|passes| - 1])
  {
    var before := passes[..|passes| - 1];
    assert forall i :: 0 <= i <= |before| ==>
      NameAt(first, before, i) == NameAt(first, passes, i) && DiskAt(d, before, i) == DiskAt(d, passes, i);
  }

  /** A file found under the name now is one never followed before, or the one that is open. */
  lemma {:induction false} FoundIsNew(spans: seq<Span>, t: State, first: nat, passes: seq<Pass>, m: nat)
    requires m < |passes| && OpenedBy(spans, first, passes, m) && NameAt(first, passes, m) == OpenFile(t)
    requires NeverReturns(first, passes)
    requires Fits(t, passes[|passes| - 1].disk) && Shorter(t, passes[|passes| - 1])
    ensures OpensSafely(spans, t, passes[|passes| - 1])
  {
    var n := |passes|;
    var p := passes[n - 1];
    assert NameAt(first, passes, n) == p.disk.path;
    forall k | 0 <= k < |spans| && p.disk.path == Some(spans[k].file)
      ensures OpenFile(t) == Some(spans[k].file)
    {
      assert CarriedBy(first, passes, spans[k].file, m);
      var i :| 0 <= i <= m && NameAt(first, passes, i) == Some(spans[k].file);
      assert NameAt(first, passes, m) == NameAt(first, passes, n);
    }
    hide Reopens, NeverReturns, OpenedBy;
  }

  /** A file that is not followed any more does not grow. */
  lemma {:induction false} LeftRest(spans: seq<Span>, t: State, first: nat, d: Disk, passes: seq<Pass>, m: nat)
    requires m < |passes| && OpenedBy(spans, first, passes, m) && NameAt(first, passes, m) == OpenFile(t)
    requires OldLogsRest(first, d, passes)
    requires forall j, k :: 0 <= j < k < |spans| ==> spans[j].file != spans[k].file
    requires Follows(spans, t)
    requires InText(spans, DiskAt(d, passes, |passes| - 1).text)
    requires Grows(DiskAt(d, passes, |passes| - 1), passes[|passes| - 1].disk)
    ensures OldOnesRest(spans, t, DiskAt(d, passes, |passes| - 1), passes[|passes| - 1].disk)
  {
    var n := |passes|;
    var last, now := DiskAt(d, passes, n - 1), DiskAt(d, passes, n);
    forall k | 0 <= k < |spans| && Over(spans, t, k)
      ensures |now.text[spans[k].file]| == |last.text[spans[k].file]|
    {
      var i :| 0 <= i <= m && NameAt(first, passes, i) == Some(spans[k].file);
      assert NameAt(first, passes, m) != NameAt(first, passes, i);
      assert DiskAt(d, passes, m).text[spans[k].file] == last.text[spans[k].file];
      assert DiskAt(d, passes, m).text[spans[k].file] == now.text[spans[k].file];
    }
  }

  /**
   * Rotation in the usual way is safe: the name never comes back to a file it was taken from, nothing is
   * written to such a file any more, no pass is impatient, and the new log is noticed before it has grown as
   * long as what was read of the old.
   */
  lemma {:induction false} RotationIsSafe(s: State, d: Disk, passes: seq<Pass>)
    requires Run(s, d, passes) && s.handle.Some?
    requires forall i :: 0 <= i < |passes| ==> passes[i].suspicious >= 0
    requires NeverReturns(s.handle.value.file, passes) && OldLogsRest(s.handle.value.file, d, passes)
    requires FindsShorter(s, d, passes)
    ensures SafeRun(s, d, passes)
  {
    if passes != [] {
      var first, before := s.handle.value.file, passes[..|passes| - 1];
      RunBefore(s, d, passes);
      RotationBefore(first, d, passes);
      hide NeverReturns, OldLogsRest, OpenedBy, OldOnesRest, OpensSafely, Shorter;
      RotationIsSafe(s, d, before);
      ExactlyOnceIff(s, d, before);
      Delivers(s, d, before);
      hide Run, InText, Follows, Grows, Fits, StateAfter, Spans, Disk.WellFormed, Reopens;
      var m := OpenedWhen(s, d, before);
      OpenedLater(Spans(s, d, before), first, before, passes, m, m);
      FoundIsNew(Spans(s, d, before), StateAtLast(s, d, passes), first, passes, m);
      LeftRest(Spans(s, d, before), StateAtLast(s, d, passes), first, d, passes, m);
    }
  }

  // ----- what goes wrong otherwise

  /** A log moved away long enough to be missed and then moved back is read again from its start. */
  lemma MovedAwayAndBack(text: string)
    requires text != ""
    ensures var s := State(Some(Handle(0, |text|)), 0, 1);
      var away, back := Disk(None, map[0 := text]), Disk(Some(0), map[0 := text]);
      var t := After(After(s, Pass(away, 100, 10)), Pass(back, 101, 10));
      && Fits(s, back) && Chunk(t, Pass(back, 102, 10)) == text
  {
  }

  /** What is written to a log after it was left is not read: the next pass reads the new one. */
  lemma LateAppend(text: string, late: string, next: string, now: int)
    requires |next| < |text|
    ensures var s := State(Some(Handle(0, |text|)), 0, 1);
      var rotated, later := Disk(Some(1), map[0 := text, 1 := next]), Disk(Some(1), map[0 := text + late, 1 := next]);
      var t := After(s, Pass(rotated, 100, 10));
      && Fits(s, rotated) && t.handle == Some(Handle(1, 0))
      && Grows(rotated, later) && Chunk(t, Pass(later, now, 10)) == next
  {
  }
}
