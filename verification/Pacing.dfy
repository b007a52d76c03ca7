/** The delay between reads of the log (tail.c:44, 157-168). */
module Pacing {

  const PAWS_MAX: nat := 1000000

  /** The delay after a completed read that found this many lines. */
  function Pace(paws: nat, lines: nat): nat {
    if lines > 0 then (if paws / lines == 0 then 1 else paws / lines)
    else if paws * 2 > PAWS_MAX then PAWS_MAX
    else paws * 2
  }

  predicate InRange(paws: nat) {
    1 <= paws <= PAWS_MAX
  }

  lemma {:induction false} ProductGrows(k: nat, d: nat)
    requires k >= 1
    ensures k * d >= d
  {
    assert k * d == (k - 1) * d + d;
  }

  lemma {:induction false} MultipleIsFar(k: int, d: int)
    requires d > 0 && k != 0
    ensures k * d >= d || k * d <= -d
  {
    if k > 0 {
      ProductGrows(k, d);
    } else {
      ProductGrows(-k, d);
      assert k * d == -(-k * d);
    }
  }

  lemma {:induction false} QuotientUnique(a: int, d: int, q: int, r: int)
    requires 0 <= r < d && a == q * d + r
    ensures a / d == q
  {
    var p, s := a / d, a % d;
    assert a == p * d + s;
    assert (p - q) * d == p * d - q * d;
    if p != q {
      MultipleIsFar(p - q, d);
    }
  }

  lemma {:induction false} DivideBounds(a: nat, b: nat)
    requires b > 0
    ensures 0 <= a / b <= a
  {
    var q, r := a / b, a % b;
    assert a == q * b + r;
    if q > 0 {
      ProductGrows(b, q);
      assert b * q == q * b;
    }
  }

  lemma {:induction false} PaceInRange(paws: nat, lines: nat)
    requires InRange(paws)
    ensures InRange(Pace(paws, lines))
  {
    if lines > 0 { DivideBounds(paws, lines); }
  }

  function PaceAll(paws: nat, counts: seq<nat>): nat {
    if counts == [] then paws else Pace(PaceAll(paws, counts[..|counts| - 1]), counts[|counts| - 1])
  }

  lemma {:induction false} PaceAllInRange(paws: nat, counts: seq<nat>)
    requires InRange(paws)
    ensures 1 <= PaceAll(paws, counts) <= 1000000
  {
    if counts != [] {
      PaceAllInRange(paws, counts[..|counts| - 1]);
      PaceInRange(PaceAll(paws, counts[..|counts| - 1]), counts[|counts| - 1]);
    }
  }

  function Product(counts: seq<nat>): nat {
    if counts == [] then 1 else Product(counts[..|counts| - 1]) * counts[|counts| - 1]
  }

  /** Division in steps is division at once. */
  lemma {:induction false} DivideTwice(a: nat, b: nat, c: nat)
    requires b > 0 && c > 0
    ensures b * c > 0 && (a / b) / c == a / (b * c)
  {
    ProductGrows(b, c);
    var p, r1 := a / b, a % b;
    var q, r2 := p / c, p % c;
    Quotient(a, b);
    Quotient(p, c);
    Expand(q, c, r2, b, r1);
    Remainder(r2, b, r1, c);
    QuotientUnique(a, b * c, q, r2 * b + r1);
  }

  lemma Quotient(a: nat, b: nat)
    requires b > 0
    ensures a == a / b * b + a % b && 0 <= a / b && 0 <= a % b < b
  {
  }

  lemma {:induction false} Expand(q: nat, c: nat, r2: nat, b: nat, r1: nat)
    ensures (q * c + r2) * b + r1 == q * (b * c) + (r2 * b + r1)
  {
    assert (q * c + r2) * b == q * c * b + r2 * b;
    assert q * c * b == q * (b * c);
  }

  lemma {:induction false} Remainder(r2: nat, b: nat, r1: nat, c: nat)
    requires r2 < c && r1 < b
    ensures r2 * b + r1 < b * c
  {
    assert b * c == (r2 + 1) * b + (c - r2 - 1) * b;
    assert (r2 + 1) * b == r2 * b + b;
  }

  /** Reads that all find lines divide the delay by the product of their counts, down to one microsecond. */
  lemma {:induction false} BusyPace(paws: nat, counts: seq<nat>)
    requires paws >= 1 && forall i :: 0 <= i < |counts| ==> counts[i] >= 1
    ensures Product(counts) >= 1
    ensures PaceAll(paws, counts) == if paws / Product(counts) == 0 then 1 else paws / Product(counts)
  {
    if counts == [] {
      assert paws / 1 == paws;
    } else {
      var before, n := counts[..|counts| - 1], counts[|counts| - 1];
      BusyPace(paws, before);
      var p := Product(before);
      DivideTwice(paws, p, n);
      if paws / p == 0 {
        assert PaceAll(paws, before) == 1;
        OneOver(n);
        ZeroOver(n);
      }
    }
  }

  lemma {:induction false} OneOver(n: nat)
    requires n >= 1
    ensures 1 / n == if n == 1 then 1 else 0
  {
    if n > 1 { QuotientUnique(1, n, 0, 1); }
  }

  lemma {:induction false} ZeroOver(n: nat)
    requires n >= 1
    ensures 0 / n == 0
  {
    QuotientUnique(0, n, 0, 0);
  }

  function Power2(k: nat): nat {
    if k == 0 then 1 else 2 * Power2(k - 1)
  }

  function Zeros(k: nat): (s: seq<nat>)
    ensures |s| == k && forall i :: 0 <= i < k ==> s[i] == 0
  {
    seq(k, _ => 0)
  }

  /** Reads that find no line double the delay, up to a second. */
  lemma {:induction false} IdlePace(paws: nat, k: nat)
    requires InRange(paws)
    ensures PaceAll(paws, Zeros(k)) == if paws * Power2(k) > 1000000 then 1000000 else paws * Power2(k)
  {
    if k > 0 {
      IdlePace(paws, k - 1);
      assert Zeros(k)[..k - 1] == Zeros(k - 1);
      assert paws * Power2(k) == 2 * (paws * Power2(k - 1));
    }
  }

  lemma {:induction false} Power2Values()
    ensures Power2(10) == 1024 && Power2(19) == 524288 && Power2(20) == 1048576
  {
    assert Power2(5) == 32;
    assert Power2(10) == 1024;
    assert Power2(15) == 32768;
    assert Power2(19) == 524288;
  }

  /** From any delay, twenty idle reads reach the longest one; nineteen are not always enough. */
  lemma {:induction false} TwentyIdleReads(paws: nat)
    requires InRange(paws)
    ensures PaceAll(paws, Zeros(20)) == 1000000
    ensures PaceAll(1, Zeros(19)) < 1000000
  {
    IdlePace(paws, 20);
    IdlePace(1, 19);
    Power2Values();
    assert paws * Power2(20) >= Power2(20);
  }
}
