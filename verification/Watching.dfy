/** When a pass reads, waits or reopens the log (tail.c:116-168), by what the files and the clock show. */
module Watching {
  import opened Common
  import opened Delivery
  import opened LogFollowing
  import opened Pacing

  /**
   * The moment of the latest sign of the log: the file that was open had grown, nothing was open, or the
   * latest sign before was longer ago than the patience of the pass.
   */
  ghost function LastSign(s: State, d: Disk, passes: seq<Pass>): int
    requires Run(s, d, passes)
  {
    if passes == [] then s.last
    else
      RunBefore(s, d, passes);
      var before, p := LastSign(s, d, passes[..|passes| - 1]), passes[|passes| - 1];
      match StateAtLast(s, d, passes).handle
      case None => p.now
      case Some(h) => if |p.disk.text[h.file]| > h.offset || p.now - before > p.suspicious then p.now else before
  }

  /** The same for a log that keeps its name, by its lengths and the clock alone. */
  ghost function LastSignOf(file: nat, from: nat, last: int, passes: seq<Pass>): int
    requires forall i :: 0 <= i < |passes| ==> file in passes[i].disk.text
  {
    if passes == [] then last
    else
      var earlier, p := passes[..|passes| - 1], passes[|passes| - 1];
      var before := LastSignOf(file, from, last, earlier);
      if |p.disk.text[file]| > ReadUpTo(file, from, earlier) || p.now - before > p.suspicious then p.now else before
  }

  /** That moment is what the follower remembers. */
  lemma {:induction false} LastSignIs(s: State, d: Disk, passes: seq<Pass>)
    requires Run(s, d, passes)
    ensures StateAfter(s, d, passes).last == LastSign(s, d, passes)
  {
    if passes != [] {
      RunBefore(s, d, passes);
      LastSignIs(s, d, passes[..|passes| - 1]);
    }
  }

  lemma {:induction false} OneFileSigns(s: State, d: Disk, passes: seq<Pass>)
    requires Run(s, d, passes) && s.handle.Some?
    requires forall i :: 0 <= i < |passes| ==> passes[i].disk.path == Some(s.handle.value.file)
    ensures LastSign(s, d, passes) == LastSignOf(s.handle.value.file, s.handle.value.offset, s.last, passes)
  {
    if passes != [] {
      RunBefore(s, d, passes);
      OneFileSigns(s, d, passes[..|passes| - 1]);
      OnePosition(s, d, passes[..|passes| - 1]);
    }
  }

  /** Where reopening leads: nowhere, into a shorter file at its start, or to the same place. */
  ghost predicate LedTo(h: Option<Handle>, d: Disk, current: nat)
    requires d.WellFormed()
  {
    && (d.path.None? ==> h == None)
    && (d.path.Some? && |d.text[d.path.value]| < current ==> h == Some(Handle(d.path.value, 0)))
    && (d.path.Some? && |d.text[d.path.value]| >= current ==> h == Some(Handle(d.path.value, current)))
  }

  /**
   * A pass that finds new text in the open file reads it all, unless it is impatient, and divides the delay by
   * the newlines in it, or doubles it if there is none.
   */
  lemma {:induction false} ReadingPass(s: State, p: Pass)
    requires Fits(s, p.disk) && s.handle.Some? && InRange(s.paws)
    requires |p.disk.text[s.handle.value.file]| > s.handle.value.offset
    ensures p.suspicious >= 0 ==>
      var text := p.disk.text[s.handle.value.file];
      var chunk := text[s.handle.value.offset..];
      var n := multiset(chunk)['\n'];
      var paws := if n == 0 then 2 * s.paws else s.paws / n;
      && Chunk(s, p) == chunk
      && After(s, p) == State(Some(Handle(s.handle.value.file, |text|)), p.now,
                              if paws < 1 then 1 else if paws > 1000000 then 1000000 else paws)
    ensures p.suspicious < 0 ==>
      && Chunk(s, p) == "" && LedTo(After(s, p).handle, p.disk, s.handle.value.offset)
      && After(s, p).last == p.now && After(s, p).paws == s.paws
  {
    var chunk := p.disk.text[s.handle.value.file][s.handle.value.offset..];
    NewlinesCounted(chunk);
    PaceInRange(s.paws, NewlineCount(chunk));
    hide NewlineCount;
  }

  /** A pass that has nothing open opens the log at its start, if it is there. */
  lemma {:induction false} LostPass(s: State, p: Pass)
    requires Fits(s, p.disk) && s.handle.None?
    ensures Chunk(s, p) == "" && LedTo(After(s, p).handle, p.disk, 0)
    ensures After(s, p).last == p.now && After(s, p).paws == s.paws
  {
  }

  /**
   * A pass that finds no new text reopens the log exactly if the latest sign of it is longer ago than the
   * patience; otherwise it keeps its place and the time of that sign, and doubles the delay up to a second.
   */
  lemma {:induction false} QuietPass(s: State, d: Disk, passes: seq<Pass>)
    requires Run(s, d, passes) && passes != [] && StateAtLast(s, d, passes).handle.Some?
    requires var h, p := StateAtLast(s, d, passes).handle.value, passes[|passes| - 1];
      |p.disk.text[h.file]| == h.offset
    ensures Run(s, d, passes[..|passes| - 1]) && passes[|passes| - 1].disk.WellFormed()
    ensures var t, t', p := StateAtLast(s, d, passes), StateAfter(s, d, passes), passes[|passes| - 1];
      var sign := LastSign(s, d, passes[..|passes| - 1]);
      && Chunk(t, p) == ""
      && if p.now - sign > p.suspicious then
           LedTo(t'.handle, p.disk, t.handle.value.offset) && t'.last == p.now && t'.paws == t.paws
         else
           t' == State(t.handle, sign, if 2 * t.paws > 1000000 then 1000000 else 2 * t.paws)
  {
    RunBefore(s, d, passes);
    LastSignIs(s, d, passes[..|passes| - 1]);
    assert NewlineCount("") == 0;
  }

  /**
   * A log that is not written to any more: passes within the patience since its last sign only double the
   * delay, and the first pass beyond it goes after the name. So a log that has been rotated is noticed then.
   */
  lemma {:induction false} QuietLog(s: State, d: Disk, passes: seq<Pass>)
    requires Run(s, d, passes) && passes != [] && s.handle.Some? && InRange(s.paws)
    requires forall i :: 0 <= i < |passes| ==>
      s.handle.value.file in passes[i].disk.text
      && |passes[i].disk.text[s.handle.value.file]| == s.handle.value.offset
    requires forall i :: 0 <= i < |passes| - 1 ==> passes[i].now - s.last <= passes[i].suspicious
    ensures passes[|passes| - 1].disk.WellFormed()
    ensures var t, p, n := StateAfter(s, d, passes), passes[|passes| - 1], |passes|;
      if p.now - s.last > p.suspicious then
        && LedTo(t.handle, p.disk, s.handle.value.offset) && t.last == p.now
        && t.paws == if s.paws * Power2(n - 1) > 1000000 then 1000000 else s.paws * Power2(n - 1)
      else
        && t.handle == s.handle && t.last == s.last
        && t.paws == if s.paws * Power2(n) > 1000000 then 1000000 else s.paws * Power2(n)
    ensures Flatten(Chunks(s, d, passes)) == ""
  {
    var before, p := passes[..|passes| - 1], passes[|passes| - 1];
    RunBefore(s, d, passes);
    if before == [] {
      assert StateAtLast(s, d, passes) == s && Power2(0) == 1;
      assert Flatten(Chunks(s, d, before)) == "";
    } else {
      QuietLog(s, d, before);
    }
    assert NewlineCount("") == 0;
    FlattenAppend(Chunks(s, d, before), [Chunk(StateAtLast(s, d, passes), p)]);
    assert Flatten([Chunk(StateAtLast(s, d, passes), p)]) == Chunk(StateAtLast(s, d, passes), p);
    Doubling(s.paws, |before|);
  }

  lemma {:induction false} Doubling(paws: nat, n: nat)
    ensures paws * Power2(n + 1) == 2 * (paws * Power2(n))
  {
    assert Power2(n + 1) == 2 * Power2(n);
  }
}
