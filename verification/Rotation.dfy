/** The in-place rotation at the heart of `exchange` (getopt.c:341-377). */
module Rotation {

  ghost predicate Divides(d: nat, x: nat) {
    exists k: nat :: Times(d, k) == x
  }

  function Times(d: nat, k: nat): nat {
    d * k
  }

  /** d is the greatest common divisor of a and b; the one of 0 and b is b. */
  ghost predicate IsGcd(d: nat, a: nat, b: nat) {
    && Divides(d, a)
    && Divides(d, b)
    && forall c: nat :: Divides(c, a) && Divides(c, b) ==> Divides(c, d)
  }

  lemma {:induction false} DividesSum(d: nat, a: nat, b: nat)
    requires Divides(d, a) && Divides(d, b)
    ensures Divides(d, a + b)
  {
    var j: nat, k: nat :| Times(d, j) == a && Times(d, k) == b;
    assert Times(d, j + k) == a + b;
  }

  lemma {:induction false} DividesDifference(d: nat, a: nat, b: nat)
    requires Divides(d, a) && Divides(d, b) && a <= b
    ensures Divides(d, b - a)
  {
    var j: nat, k: nat :| Times(d, j) == a && Times(d, k) == b;
    if k < j {
      assert d * j == d * k + d * (j - k);
      assert d * (j - k) >= 0;
      assert Times(d, 0) == b - a;
    } else {
      assert Times(d, k - j) == d * k - d * j;
    }
  }

  /** One step of subtractive Euclid keeps the greatest common divisor. */
  lemma {:induction false} EuclidStep(d: nat, a: nat, b: nat)
    requires a <= b && IsGcd(d, a, b - a)
    ensures IsGcd(d, a, b)
  {
    DividesSum(d, a, b - a);
    forall c: nat | Divides(c, a) && Divides(c, b) ensures Divides(c, d) {
      DividesDifference(c, a, b);
    }
  }

  lemma GcdSymmetric(d: nat, a: nat, b: nat)
    requires IsGcd(d, a, b)
    ensures IsGcd(d, b, a)
  {
  }

  lemma {:induction false} GcdZero(a: nat)
    ensures IsGcd(a, a, 0) && IsGcd(a, 0, a)
  {
    assert Times(a, 1) == a && Times(a, 0) == 0;
  }

  lemma {:induction false} DividesBound(d: nat, x: nat)
    requires Divides(d, x)
    ensures x == 0 || 0 < d <= x
  {
    var k: nat :| Times(d, k) == x;
    if x != 0 {
      assert k >= 1 && d * k == d * (k - 1) + d && d * (k - 1) >= 0;
    }
  }

  /** Greatest common divisors are unique, so IsGcd pins the number down. */
  lemma {:induction false} GcdUnique(d: nat, e: nat, a: nat, b: nat)
    requires IsGcd(d, a, b) && IsGcd(e, a, b)
    ensures d == e
  {
    DividesBound(d, e);
    DividesBound(e, d);
  }

  /** The number of element swaps the rotation of blocks of a and b elements performs. */
  ghost function Swaps(a: nat, b: nat): nat {
    if a == 0 || b == 0 then 0
    else if b > a then a + Swaps(a, b - a)
    else b + Swaps(a - b, b)
  }

  lemma SwapsStep(a: nat, b: nat)
    requires a > 0 && b > 0
    ensures Swaps(a, b) == if b > a then a + Swaps(a, b - a) else b + Swaps(a - b, b)
  {
  }

  /** In closed form, that number is a + b - gcd(a, b). */
  lemma {:induction false} SwapsAreEuclid(a: nat, b: nat)
    ensures Swaps(a, b) <= a + b && IsGcd(a + b - Swaps(a, b), a, b)
  {
    if a == 0 || b == 0 {
      GcdZero(a + b);
    } else if b > a {
      SwapsAreEuclid(a, b - a);
      EuclidStep(a + b - Swaps(a, b), a, b);
    } else {
      SwapsAreEuclid(a - b, b);
      var d := a + b - Swaps(a, b);
      GcdSymmetric(d, a - b, b);
      EuclidStep(d, b, a);
      GcdSymmetric(d, b, a);
    }
  }

  /** The sequence s with its disjoint blocks [x, x + len) and [y, y + len) exchanged. */
  ghost function Exchanged<T>(s: seq<T>, x: nat, y: nat, len: nat): (t: seq<T>)
    requires x + len <= y && y + len <= |s|
    ensures |t| == |s|
  {
    s[..x] + s[y..y + len] + s[x + len..y] + s[x..x + len] + s[y + len..]
  }

  lemma ExchangedAt<T>(s: seq<T>, x: nat, y: nat, len: nat, k: nat)
    requires x + len <= y && y + len <= |s| && k < |s|
    ensures Exchanged(s, x, y, len)[k]
         == s[if x <= k < x + len then k - x + y else if y <= k < y + len then k - y + x else k]
  {
  }

  lemma {:induction false} ExchangedOneMore<T>(s: seq<T>, x: nat, y: nat, i: nat)
    requires x + i + 1 <= y && y + i + 1 <= |s|
    ensures Exchanged(s, x, y, i + 1) == Exchanged(s, x, y, i)[x + i := s[y + i]][y + i := s[x + i]]
    ensures Exchanged(s, x, y, i)[x + i] == s[x + i] && Exchanged(s, x, y, i)[y + i] == s[y + i]
  {
    hide Exchanged;
    var more := Exchanged(s, x, y, i + 1);
    var swapped := Exchanged(s, x, y, i)[x + i := s[y + i]][y + i := s[x + i]];
    forall k: nat | k < |s| ensures more[k] == swapped[k] {
      ExchangedAt(s, x, y, i, k);
      ExchangedAt(s, x, y, i + 1, k);
    }
    ExchangedAt(s, x, y, i, x + i);
    ExchangedAt(s, x, y, i, y + i);
  }

  /** The inner loops: exchange two disjoint blocks of the same length, element by element. */
  method SwapBlocks<T>(v: array<T>, x: nat, y: nat, len: nat) returns (ghost swaps: nat)
    requires x + len <= y && y + len <= v.Length
    modifies v
    ensures v[..] == Exchanged(old(v[..]), x, y, len)
    ensures swaps == len
  {
    ghost var before := v[..];
    var i := 0;
    swaps := 0;
    assert Exchanged(before, x, y, 0) == before;
    hide Exchanged;
    while i < len
      invariant i <= len && swaps == i
      invariant v[..] == Exchanged(before, x, y, i)
    {
      ExchangedOneMore(before, x, y, i);
      assert v[..][x + i] == before[x + i] && v[..][y + i] == before[y + i];
      v[x + i], v[y + i] := v[y + i], v[x + i];
      i := i + 1;
      swaps := swaps + 1;
    }
  }

  /** The sequence s with A ++ B, lying on [first, last) and [last, end), replaced by B ++ A. */
  ghost function Rotated<T>(s: seq<T>, first: nat, last: nat, end: nat): (t: seq<T>)
    requires first <= last <= end <= |s|
    ensures |t| == |s|
  {
    s[..first] + s[last..end] + s[first..last] + s[end..]
  }

  lemma {:induction false} PendingAtStart<T>(s: seq<T>, first: nat, last: nat, end: nat)
    requires first <= last <= end <= |s|
    ensures Pending(s, Rotated(s, first, last, end), first, last, end)
  {
    assert Rotated(s, first, last, end)[first..end] == s[last..end] + s[first..last];
  }

  /** In every window still to be rotated, what remains to be done is the rotation of the window. */
  ghost predicate Pending<T>(s: seq<T>, goal: seq<T>, bottom: nat, middle: nat, top: nat) {
    && bottom <= middle <= top <= |s| == |goal|
    && s[..bottom] == goal[..bottom]
    && s[top..] == goal[top..]
    && s[middle..top] + s[bottom..middle] == goal[bottom..top]
  }

  lemma {:induction false} SliceOfSlice<T>(s: seq<T>, from: nat, to: nat, i: nat, j: nat)
    requires from <= to <= |s| && i <= j <= to - from
    ensures s[from..to][i..j] == s[from + i..from + j]
  {
    var window := s[from..to];
    assert forall k :: 0 <= k < j - i ==> window[i..j][k] == window[i + k] == s[from + i + k];
  }

  lemma SplitSlice<T>(s: seq<T>, from: nat, mid: nat, to: nat)
    requires from <= mid <= to <= |s|
    ensures s[from..to] == s[from..mid] + s[mid..to]
  {
  }

  /** The parts that a wanted window B ++ A is made of. */
  lemma {:induction false} WindowParts<T>(goal: seq<T>, bottom: nat, top: nat, x: seq<T>, y: seq<T>)
    requires bottom <= top <= |goal| && goal[bottom..top] == x + y
    ensures bottom + |x| <= top && goal[bottom..bottom + |x|] == x && goal[bottom + |x|..top] == y
  {
    assert |x| + |y| == top - bottom;
    SliceOfSlice(goal, bottom, top, 0, |x|);
    SliceOfSlice(goal, bottom, top, |x|, top - bottom);
    assert (x + y)[0..|x|] == x && (x + y)[|x|..top - bottom] == y;
  }

  lemma {:induction false} PendingShrinksTop<T>(s: seq<T>, goal: seq<T>, bottom: nat, middle: nat, top: nat, len: nat)
    requires Pending(s, goal, bottom, middle, top)
    requires len == middle - bottom <= top - middle
    ensures Pending(Exchanged(s, bottom, top - len, len), goal, bottom, middle, top - len)
  {
    var t, top' := Exchanged(s, bottom, top - len, len), top - len;
    WindowParts(goal, bottom, top, s[middle..top], s[bottom..middle]);
    assert bottom + |s[middle..top]| == top';
    SplitSlice(s, middle, top', top);
    assert goal[bottom..top'] == s[middle..top'] + s[top'..top];
    assert t[middle..top'] == s[middle..top'] && t[bottom..middle] == s[top'..top];
    assert t[top'..] == s[bottom..middle] + s[top..];
    assert goal[top'..] == goal[top'..top] + goal[top..];
    assert t[..bottom] == s[..bottom];
  }

  lemma {:induction false} PendingShrinksBottom<T>(s: seq<T>, goal: seq<T>, bottom: nat, middle: nat, top: nat,
          len: nat)
    requires Pending(s, goal, bottom, middle, top)
    requires len == top - middle <= middle - bottom
    ensures Pending(Exchanged(s, bottom, middle, len), goal, bottom + len, middle, top)
  {
    var t, bottom' := Exchanged(s, bottom, middle, len), bottom + len;
    WindowParts(goal, bottom, top, s[middle..top], s[bottom..middle]);
    assert bottom + |s[middle..top]| == bottom';
    SplitSlice(s, bottom, bottom', middle);
    assert goal[bottom'..top] == s[bottom..bottom'] + s[bottom'..middle];
    assert t[bottom'..middle] == s[bottom'..middle] && t[middle..top] == s[bottom..bottom'];
    assert t[top..] == s[top..];
    assert t[..bottom'] == s[..bottom] + s[middle..top];
    assert goal[..bottom'] == goal[..bottom] + goal[bottom..bottom'];
  }

  /** The shorter block A changes places with the end of B: the window shrinks from the top. */
  method RotateTop<T>(v: array<T>, ghost goal: seq<T>, bottom: nat, middle: nat, top: nat)
    returns (top': nat, ghost swaps: nat)
    requires bottom < middle < top <= v.Length && middle - bottom < top - middle
    requires Pending(v[..], goal, bottom, middle, top)
    modifies v
    ensures middle < top' < top && Pending(v[..], goal, bottom, middle, top')
    ensures swaps + Swaps(middle - bottom, top' - middle) == Swaps(middle - bottom, top - middle)
  {
    var len := middle - bottom;
    hide Exchanged, Swaps, Pending;
    PendingShrinksTop(v[..], goal, bottom, middle, top, len);
    SwapsStep(len, top - middle);
    swaps := SwapBlocks(v, bottom, top - len, len);
    top' := top - len;
  }

  /** The shorter block B changes places with the start of A: the window shrinks from the bottom. */
  method RotateBottom<T>(v: array<T>, ghost goal: seq<T>, bottom: nat, middle: nat, top: nat)
    returns (bottom': nat, ghost swaps: nat)
    requires bottom < middle < top <= v.Length && top - middle <= middle - bottom
    requires Pending(v[..], goal, bottom, middle, top)
    modifies v
    ensures bottom < bottom' <= middle && Pending(v[..], goal, bottom', middle, top)
    ensures swaps + Swaps(middle - bottom', top - middle) == Swaps(middle - bottom, top - middle)
  {
    var len := top - middle;
    hide Exchanged, Swaps, Pending;
    PendingShrinksBottom(v[..], goal, bottom, middle, top, len);
    SwapsStep(middle - bottom, len);
    swaps := SwapBlocks(v, bottom, middle, len);
    bottom' := bottom + len;
  }

  /** Turns A ++ B, lying on [first, last) and [last, end), into B ++ A. */
  method Rotate<T>(v: array<T>, first: nat, last: nat, end: nat) returns (ghost swaps: nat)
    requires first <= last <= end <= v.Length
    modifies v
    ensures v[..] == Rotated(old(v[..]), first, last, end)
    ensures swaps == Swaps(last - first, end - last)
  {
    ghost var goal := Rotated(v[..], first, last, end);
    var bottom: nat, middle: nat, top: nat := first, last, end;
    swaps := 0;
    PendingAtStart(v[..], first, last, end);
    hide Rotated, Pending;
    while top > middle && middle > bottom
      invariant bottom <= middle <= top <= v.Length
      invariant Pending(v[..], goal, bottom, middle, top)
      invariant swaps + Swaps(middle - bottom, top - middle) == Swaps(last - first, end - last)
      decreases top - bottom
    {
      ghost var n: nat;
      if top - middle > middle - bottom {
        top, n := RotateTop(v, goal, bottom, middle, top);
      } else {
        bottom, n := RotateBottom(v, goal, bottom, middle, top);
      }
      swaps := swaps + n;
    }
    PendingDone(v[..], goal, bottom, middle, top);
  }

  lemma {:induction false} PendingDone<T>(s: seq<T>, goal: seq<T>, bottom: nat, middle: nat, top: nat)
    requires Pending(s, goal, bottom, middle, top) && (top == middle || middle == bottom)
    ensures s == goal
  {
    assert s == s[..bottom] + s[bottom..top] + s[top..];
    assert goal == goal[..bottom] + goal[bottom..top] + goal[top..];
  }
}
