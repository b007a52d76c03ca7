/** Sequence vocabulary shared by the whole model. */
module Common {

  datatype Option<+T> = None | Some(value: T) {
    function GetOr(default: T): T {
      match this
      case Some(v) => v
      case None => default
    }
  }

  /** n copies of x. */
  function Repeat<T>(x: T, n: nat): (s: seq<T>)
    ensures |s| == n
    ensures forall i :: 0 <= i < n ==> s[i] == x
  {
    seq(n, _ => x)
  }

  /** The elements of xs whose mark is b, in their original order. */
  function Select<T>(xs: seq<T>, marks: seq<bool>, b: bool): (s: seq<T>)
    requires |xs| == |marks|
    ensures |s| <= |xs|
  {
    if xs == [] then []
    else (if marks[0] == b then [xs[0]] else []) + Select(xs[1..], marks[1..], b)
  }

  lemma {:induction false} SelectAppend<T>(xs: seq<T>, ms: seq<bool>, ys: seq<T>, ns: seq<bool>, b: bool)
    requires |xs| == |ms| && |ys| == |ns|
    ensures Select(xs + ys, ms + ns, b) == Select(xs, ms, b) + Select(ys, ns, b)
  {
    if xs == [] {
      assert xs + ys == ys && ms + ns == ns;
    } else {
      var head := if ms[0] == b then [xs[0]] else [];
      calc {
        Select(xs + ys, ms + ns, b);
        { assert (xs + ys)[1..] == xs[1..] + ys && (ms + ns)[1..] == ms[1..] + ns; }
        head + Select(xs[1..] + ys, ms[1..] + ns, b);
        { SelectAppend(xs[1..], ms[1..], ys, ns, b); }
        head + (Select(xs[1..], ms[1..], b) + Select(ys, ns, b));
        Select(xs, ms, b) + Select(ys, ns, b);
      }
    }
  }

  /** The positions marked b, in order. */
  function Positions(marks: seq<bool>, b: bool): (p: seq<nat>)
    ensures forall i :: 0 <= i < |p| ==> p[i] < |marks| && marks[p[i]] == b
    ensures forall i, j :: 0 <= i < j < |p| ==> p[i] < p[j]
    ensures forall k :: 0 <= k < |marks| && marks[k] == b ==> k in p
  {
    if marks == [] then []
    else
      var n := |marks| - 1;
      Positions(marks[..n], b) + if marks[n] == b then [n] else []
  }

  lemma {:induction false} SelectLast<T>(xs: seq<T>, marks: seq<bool>, b: bool)
    requires |xs| == |marks| > 0
    ensures var n := |xs| - 1;
      Select(xs, marks, b) == Select(xs[..n], marks[..n], b) + if marks[n] == b then [xs[n]] else []
  {
    var n := |xs| - 1;
    SelectAppend(xs[..n], marks[..n], [xs[n]], [marks[n]], b);
    assert xs == xs[..n] + [xs[n]] && marks == marks[..n] + [marks[n]];
  }

  /** Select is stable: it keeps the elements at the marked positions, in increasing order of position. */
  lemma {:induction false} SelectAt<T>(xs: seq<T>, marks: seq<bool>, b: bool)
    requires |xs| == |marks|
    ensures |Select(xs, marks, b)| == |Positions(marks, b)|
    ensures forall i :: 0 <= i < |Select(xs, marks, b)| ==> Select(xs, marks, b)[i] == xs[Positions(marks, b)[i]]
  {
    if xs != [] {
      var n := |xs| - 1;
      var front, all := Positions(marks[..n], b), Positions(marks, b);
      assert all == front + if marks[n] == b then [n] else [];
      hide Select, Positions;
      SelectLast(xs, marks, b);
      SelectAt(xs[..n], marks[..n], b);
      forall i | 0 <= i < |all| ensures Select(xs, marks, b)[i] == xs[all[i]] {
        if i < |front| {
          assert all[i] == front[i] && xs[..n][front[i]] == xs[front[i]];
        }
      }
    }
  }

  lemma {:induction false} SelectUniform<T>(xs: seq<T>, mark: bool, b: bool)
    ensures Select(xs, Repeat(mark, |xs|), b) == if mark == b then xs else []
  {
    if xs != [] {
      SelectUniform(xs[1..], mark, b);
      assert Repeat(mark, |xs|)[1..] == Repeat(mark, |xs| - 1);
      assert xs == [xs[0]] + xs[1..];
    }
  }

  /** The two selections together are a permutation of the whole. */
  lemma {:induction false} SelectPermutes<T>(xs: seq<T>, marks: seq<bool>)
    requires |xs| == |marks|
    ensures multiset(Select(xs, marks, false)) + multiset(Select(xs, marks, true)) == multiset(xs)
    ensures |Select(xs, marks, false)| + |Select(xs, marks, true)| == |xs|
  {
    if xs != [] {
      SelectPermutes(xs[1..], marks[1..]);
      MultisetOfFirst(xs);
      MultisetOfFirst([xs[0]] + Select(xs[1..], marks[1..], marks[0]));
    }
  }

  lemma {:induction false} MultisetOfFirst<T>(xs: seq<T>)
    requires xs != []
    ensures multiset(xs) == multiset{xs[0]} + multiset(xs[1..])
  {
    assert xs == [xs[0]] + xs[1..];
  }

  /** All the pieces, one after another. */
  function Flatten<T>(pieces: seq<seq<T>>): seq<T> {
    if pieces == [] then [] else pieces[0] + Flatten(pieces[1..])
  }

  lemma {:induction false} FlattenAppend<T>(xs: seq<seq<T>>, ys: seq<seq<T>>)
    ensures Flatten(xs + ys) == Flatten(xs) + Flatten(ys)
  {
    if xs == [] {
      assert xs + ys == ys;
    } else {
      FlattenAppend(xs[1..], ys);
      assert Flatten(xs + ys) == xs[0] + Flatten(xs[1..] + ys) by {
        assert (xs + ys)[1..] == xs[1..] + ys;
      }
    }
  }
}
