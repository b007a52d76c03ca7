/**
 * How the elements lie in the vector while a scan is under way (getopt.c:550-618). Which elements are
 * options and which are operands is decided elsewhere; here they are only moved.
 */
module ScanLayout {
  import opened Rotation

  /** What precedes the scan, three blocks, and what is not read yet. */
  ghost function Arranged<T>(orig: seq<T>, start: nat, before: seq<T>, skipped: seq<T>, after: seq<T>, at: nat): seq<T>
    requires start <= at <= |orig|
  {
    orig[..start] + before + skipped + after + orig[at..]
  }

  /**
   * `orig` is the vector as it was when the scan began at `start`, `view` the vector as it is now, read
   * up to `at`. The operands skipped so far lie on [first, last), between the options read before and
   * after them; moreOptions and moreOperands are those not read yet, options and operands all of them.
   */
  datatype Data<T> = Data(
    permute: bool, orig: seq<T>, start: nat, options: seq<T>, operands: seq<T>,
    view: seq<T>, before: seq<T>, skipped: seq<T>, after: seq<T>, moreOptions: seq<T>, moreOperands: seq<T>,
    first: nat, last: nat, at: nat)
  {
    /** first and last delimit the skipped operands; without permutation there are none. */
    ghost predicate Delimited() {
      if permute then |before| == first - start && |skipped| == last - first && |after| == at - last
      else first == last <= at && before == skipped == [] && |after| == at - start
    }

    /** No option and no operand is lost, duplicated or out of order. */
    ghost predicate Complete() {
      before + after + moreOptions == options && skipped + moreOperands == operands
    }

    ghost predicate Consistent() {
      && start <= at <= |orig|
      && Delimited()
      && Complete()
      && view == Arranged(orig, start, before, skipped, after, at)
    }
  }

  type Layout<T> = d: Data<T> | d.Consistent()
    ghost witness NothingRead<T>()

  ghost function NothingRead<T>(): (d: Data<T>)
    ensures d.Consistent()
  {
    Data(true, [], 0, [], [], [], [], [], [], [], [], 0, 0, 0)
  }

  /** The start of a scan. Without permutation the bounds of the skipped operands are not used. */
  ghost function Begin<T>(permute: bool, v: seq<T>, start: nat, first: nat, options: seq<T>,
          operands: seq<T>): (s: Layout<T>)
    requires first <= start <= |v| && (permute ==> first == start)
  {
    Data(permute, v, start, options, operands, v, [], [], [], options, operands, first, first, start)
  }

  /** What is not read yet has not moved, and every block lies where the indices say. */
  lemma {:induction false} Blocks<T>(s: Layout<T>)
    ensures s.start <= s.at <= |s.orig| == |s.view| && s.view[s.at..] == s.orig[s.at..]
    ensures s.at < |s.orig| ==> s.view[s.at] == s.orig[s.at]
    ensures s.view[..s.start] == s.orig[..s.start]
    ensures s.first <= s.last <= s.at
    ensures s.permute ==> s.start <= s.first
    ensures s.permute ==>
      s.view[s.first..s.last] == s.skipped && s.view[s.start..s.first] == s.before && s.view[s.last..s.at] == s.after
    ensures !s.permute ==> s.first == s.last && s.view[s.start..s.at] == s.after
  {
    if s.at < |s.orig| { assert s.view[s.at..][0] == s.orig[s.at..][0]; }
  }

  /** Exchanging the skipped operands with the options read after them. */
  ghost function Exchange<T>(s: Layout<T>): (t: Layout<T>)
    requires s.permute
    ensures s.first <= s.last <= s.at <= |s.view|
    ensures t.view == Rotated(s.view, s.first, s.last, s.at)
    ensures t.first == s.first + (s.at - s.last) && t.last == s.at
    ensures t == s.(view := t.view, before := t.before, after := [], first := t.first, last := t.last)
  {
    Blocks(s);
    RotatedBlocks(s);
    s.(view := Rotated(s.view, s.first, s.last, s.at), before := s.before + s.after, after := [],
       first := s.first + (s.at - s.last), last := s.at)
  }

  lemma {:induction false} RotatedBlocks<T>(s: Layout<T>)
    requires s.permute
    ensures s.first <= s.last <= s.at <= |s.view|
    ensures Rotated(s.view, s.first, s.last, s.at) == Arranged(s.orig, s.start, s.before + s.after, s.skipped, [], s.at)
  {
    Blocks(s);
    assert s.view[..s.first] == s.orig[..s.start] + s.before;
    assert s.orig[..s.start] + s.before + s.after == s.orig[..s.start] + (s.before + s.after);
  }

  /** With no operands skipped yet, the place reserved for them can be moved up. */
  ghost function Reset<T>(s: Layout<T>): (t: Layout<T>)
    requires s.permute && s.first == s.last
    ensures t == s.(before := t.before, after := [], first := s.at, last := s.at)
  {
    s.(before := s.before + s.after, after := [], first := s.at, last := s.at)
  }

  /** One more operand is skipped. */
  ghost function Skip<T>(s: Layout<T>): (t: Layout<T>)
    requires s.permute && s.last == s.at < |s.orig|
    requires s.moreOperands != [] && s.moreOperands[0] == s.orig[s.at]
    ensures t == s.(skipped := t.skipped, moreOperands := s.moreOperands[1..], after := [],
                    at := s.at + 1, last := s.at + 1)
  {
    assert s.moreOperands == [s.orig[s.at]] + s.moreOperands[1..];
    assert s.orig[s.at..] == [s.orig[s.at]] + s.orig[s.at + 1..];
    s.(skipped := s.skipped + [s.orig[s.at]], moreOperands := s.moreOperands[1..], after := [],
       at := s.at + 1, last := s.at + 1)
  }

  /** An option element and its argument are read. */
  ghost function Pass<T>(s: Layout<T>, n: nat): (t: Layout<T>)
    requires s.at + n <= |s.orig| && n <= |s.moreOptions| && s.moreOptions[..n] == s.orig[s.at..s.at + n]
    ensures t == s.(after := t.after, moreOptions := s.moreOptions[n..], at := s.at + n)
  {
    var read := s.orig[s.at..s.at + n];
    PassBlocks(s.orig, s.start, s.before, s.skipped, s.after, s.moreOptions, s.at, n);
    s.(after := s.after + read, moreOptions := s.moreOptions[n..], at := s.at + n)
  }

  lemma {:induction false} PassBlocks<T>(orig: seq<T>, start: nat, before: seq<T>, skipped: seq<T>, after: seq<T>,
          more: seq<T>, at: nat, n: nat)
    requires start <= at <= at + n <= |orig| && n <= |more| && more[..n] == orig[at..at + n]
    ensures before + (after + orig[at..at + n]) + more[n..] == before + after + more
    ensures Arranged(orig, start, before, skipped, after + orig[at..at + n], at + n)
         == Arranged(orig, start, before, skipped, after, at)
  {
    var read := orig[at..at + n];
    assert more == read + more[n..];
    assert orig[at..] == read + orig[at + n..];
    assert before + (after + read) + more[n..] == before + after + (read + more[n..]);
    var front := orig[..start] + before + skipped;
    assert front + (after + read) + orig[at + n..] == front + after + (read + orig[at + n..]);
  }

  /** What a finished scan leaves behind: options in front, operands behind, and the index of the latter. */
  ghost predicate Sorted<T>(s: Layout<T>, v: seq<T>, at: nat) {
    && v == s.orig[..s.start] + s.options + s.operands
    && at == s.start + |s.options|
  }

  /** Once only operands remain, they join those already skipped. */
  lemma {:induction false} Finish<T>(s: Layout<T>)
    requires s.moreOptions == [] && s.moreOperands == s.orig[s.at..]
    requires s.permute ==> s.last == s.at
    ensures Sorted(s, s.view, if s.permute then s.first else s.at)
  {
    if s.permute {
      assert s.after == [];
    }
    Regroup(s.orig[..s.start], s.before, s.after, s.skipped, s.moreOperands);
  }

  lemma Regroup<T>(a: seq<T>, b: seq<T>, c: seq<T>, d: seq<T>, e: seq<T>)
    ensures c == [] || d == [] ==> a + b + d + c + e == a + (b + c + []) + (d + e)
  {
  }
}
