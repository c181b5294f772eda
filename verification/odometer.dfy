/**
 The odometer-style Cartesian product `product(a, k)` of the candidate
 generator. `product` keeps a vector `indexes` of k positions into `a`; each
 round it emits the tuple those positions select, then adds one to the last
 position and carries leftwards. Carrying out of position 0 sets `indexes` to
 nil, which ends the loop.

 Index vectors are base-|a| numerals (most significant position first), so
 the model identifies round `j` with the numeral of `j`. With k = 0 the carry
 loop has no position to touch, `indexes` never becomes nil and `product`
 loops forever; `Product` takes a `fuel` bound on the rounds it performs so
 that this divergence can be stated: it reports whether the loop of `product` would
 have stopped within that many rounds.
 */
module Odometer {
  import opened Common

  function Pow(n: nat, k: nat): (p: nat)
    ensures n >= 1 ==> p >= 1
  {
    if k == 0 then 1 else n * Pow(n, k - 1)
  }

  // ---------------------------------------------------------------------------
  // Arithmetic facts about Euclidean division used by the numeral lemmas

  lemma DivModUnique(a: nat, n: nat, q: nat, r: nat)
    requires n >= 1 && r < n && a == n * q + r
    ensures a / n == q && a % n == r
  {
    var q', r' := a / n, a % n;
    assert a == n * q' + r';
    if q' > q {
      assert n * q' >= n * (q + 1) by { MulLeftMono(n, q + 1, q'); }
    } else if q' < q {
      assert n * q >= n * (q' + 1) by { MulLeftMono(n, q' + 1, q); }
    }
  }

  lemma DivMod(m: nat, n: nat)
    requires n >= 1
    ensures m == n * (m / n) + m % n
  {
  }

  lemma MulLeftMono(n: nat, x: nat, y: nat)
    requires x <= y
    ensures n * x <= n * y
  {
  }

  /** Stepping a number by one changes only its last digit, unless that digit wraps. */
  lemma SuccDivMod(m: nat, n: nat)
    requires n >= 1
    ensures m % n + 1 < n ==> (m + 1) / n == m / n && (m + 1) % n == m % n + 1
    ensures m % n + 1 == n ==> (m + 1) / n == m / n + 1 && (m + 1) % n == 0
  {
    if m % n + 1 < n {
      DivModUnique(m + 1, n, m / n, m % n + 1);
    } else {
      DivModUnique(m + 1, n, m / n + 1, 0);
    }
  }

  /** Bounds on a quotient by n in terms of n^k. */
  lemma DivPowBound(m: nat, n: nat, k: nat)
    requires n >= 1 && k >= 1
    ensures m < Pow(n, k) <==> m / n < Pow(n, k - 1)
  {
    var q, r := m / n, m % n;
    assert m == n * q + r;
    var p := Pow(n, k - 1);
    assert Pow(n, k) == n * p;
    if q < p {
      MulLeftMono(n, q + 1, p);
    } else {
      MulLeftMono(n, p, q);
    }
  }

  // ---------------------------------------------------------------------------
  // Index vectors as numerals

  /** The k-position base-n numeral of `m` (most significant position first). */
  function ToDigits(m: nat, n: nat, k: nat): (d: seq<nat>)
    requires n >= 1
    ensures |d| == k
    ensures forall i | 0 <= i < k :: d[i] < n
  {
    if k == 0 then [] else ToDigits(m / n, n, k - 1) + [m % n]
  }

  /** The number a base-n index vector denotes. */
  function FromDigits(d: seq<nat>, n: nat): nat
  {
    if d == [] then 0 else n * FromDigits(d[..|d| - 1], n) + d[|d| - 1]
  }

  predicate ValidIndexes(d: seq<nat>, n: nat) {
    forall i | 0 <= i < |d| :: d[i] < n
  }

  /** The numeral of 0 is the all-zero vector `product` starts from. */
  lemma {:induction false} ToDigitsZero(n: nat, k: nat)
    requires n >= 1
    ensures ToDigits(0, n, k) == seq(k, _ => 0)
  {
    if k > 0 {
      ToDigitsZero(n, k - 1);
      assert seq(k - 1, _ => 0) + [0] == seq(k, _ => 0);
    }
  }

  /** Reading back a numeral gives the number, below n^k. */
  lemma {:induction false} FromToDigits(m: nat, n: nat, k: nat)
    requires n >= 1 && m < Pow(n, k)
    ensures FromDigits(ToDigits(m, n, k), n) == m
    decreases k
  {
    if k > 0 {
      var q, r := m / n, m % n;
      var d := ToDigits(m, n, k);
      var pre := ToDigits(q, n, k - 1);
      assert d == pre + [r];
      assert d[..k - 1] == pre;
      DivPowBound(m, n, k);
      FromToDigits(q, n, k - 1);
      var f := FromDigits(pre, n);
      assert f == q;
      assert FromDigits(d, n) == n * f + r;
      DivMod(m, n);
    }
  }

  /** The numeral of `m` is the numeral of its quotient by n followed by its remainder. */
  lemma ToDigitsSnoc(m: nat, q: nat, r: nat, n: nat, k: nat)
    requires n >= 1 && k >= 1 && m / n == q && m % n == r
    ensures ToDigits(m, n, k) == ToDigits(q, n, k - 1) + [r]
  {
  }

  /** A numeral with one more digit stays below the next power. */
  lemma PowSnoc(q: nat, r: nat, n: nat, k: nat)
    requires n >= 1 && r < n && k >= 1 && q < Pow(n, k - 1)
    ensures n * q + r < Pow(n, k)
  {
    MulLeftMono(n, q + 1, Pow(n, k - 1));
  }

  /** Every valid index vector is the numeral of a number below n^k. */
  lemma {:induction false} ToFromDigits(d: seq<nat>, n: nat)
    requires n >= 1 && ValidIndexes(d, n)
    ensures FromDigits(d, n) < Pow(n, |d|)
    ensures ToDigits(FromDigits(d, n), n, |d|) == d
  {
    if d != [] {
      var k := |d|;
      var pre, last := d[..k - 1], d[k - 1];
      assert ValidIndexes(pre, n);
      ToFromDigits(pre, n);
      var f, m := FromDigits(pre, n), FromDigits(d, n);
      assert m == n * f + last;
      DivModUnique(m, n, f, last);
      ToDigitsSnoc(m, f, last, n, k);
      PowSnoc(f, last, n, k);
      assert d == pre + [last];
    }
  }

  // ---------------------------------------------------------------------------
  // The carry step

  /** The carry loop of `product` (pkg/task_builder_engine.go:160-170) on a non-empty vector: add one at the last
      position, carrying leftwards; `None` when the carry leaves position 0. */
  function Carry(idx: seq<nat>, n: nat): Option<seq<nat>>
    requires |idx| >= 1
    decreases |idx|
  {
    var i := |idx| - 1;
    if idx[i] + 1 < n then Some(idx[..i] + [idx[i] + 1])
    else if i == 0 then None
    else match Carry(idx[..i], n)
      case Some(q) => Some(q + [0])
      case None => None
  }

  /** One pass of the carry loop: with no positions it does nothing at all. */
  function Advance(idx: seq<nat>, n: nat): Option<seq<nat>> {
    if |idx| == 0 then Some(idx) else Carry(idx, n)
  }

  /** For k >= 1 the carry step is the successor on numerals, and it yields nil
      exactly after the last numeral n^k - 1. */
  lemma {:induction false} AdvanceIsSuccessor(m: nat, n: nat, k: nat)
    requires n >= 1 && k >= 1 && m < Pow(n, k)
    ensures Advance(ToDigits(m, n, k), n)
            == if m + 1 < Pow(n, k) then Some(ToDigits(m + 1, n, k)) else None
    decreases k
  {
    var d := ToDigits(m, n, k);
    var i := k - 1;
    assert d[..i] == ToDigits(m / n, n, k - 1);
    assert d[i] == m % n;
    SuccDivMod(m, n);
    DivPowBound(m, n, k);
    DivPowBound(m + 1, n, k);
    if m % n + 1 < n {
      assert ToDigits(m + 1, n, k) == ToDigits(m / n, n, k - 1) + [m % n + 1];
    } else if i == 0 {
      assert m + 1 == n;
    } else {
      AdvanceIsSuccessor(m / n, n, k - 1);
    }
  }

  /** With no positions the carry step never produces nil: the k = 0 hang of `product`. */
  lemma AdvanceEmptyNeverStops(n: nat)
    ensures Advance([], n) == Some([])
  {
  }

  // ---------------------------------------------------------------------------
  // The product loop

  /** Tuple number `j` of `product(a, k)`: the symbols its numeral selects. */
  function TupleAt(a: seq<string>, k: nat, j: nat): (t: seq<string>)
    requires |a| >= 1
    ensures |t| == k
    ensures forall i | 0 <= i < k :: t[i] in a
  {
    var d := ToDigits(j, |a|, k);
    seq(k, i requires 0 <= i < k => a[d[i]])
  }

  function Min(x: nat, y: nat): nat {
    if x <= y then x else y
  }

  /** `product(a, k)` run for at most `fuel` rounds. `stopped` says whether the
      source loop ended within them (`indexes` became nil); `ps` holds the
      tuples appended so far. For k >= 1 the loop stops after exactly |a|^k
      rounds having listed tuple 0, 1, ... in numeral order; for k = 0 it never
      stops and appends an empty tuple every round. */
  method Product(a: seq<string>, k: nat, fuel: nat) returns (ps: seq<seq<string>>, stopped: bool)
    requires k == 0 || |a| >= 1
    ensures k == 0 ==> !stopped && |ps| == fuel
    ensures k == 0 ==> forall j | 0 <= j < |ps| :: ps[j] == []
    ensures k >= 1 ==> stopped == (fuel >= Pow(|a|, k))
    ensures k >= 1 ==> |ps| == Min(fuel, Pow(|a|, k))
    ensures k >= 1 ==> forall j | 0 <= j < |ps| :: ps[j] == TupleAt(a, k, j)
  {
    var n := |a|;
    var indexes: Option<seq<nat>> := Some(seq(k, _ => 0));
    ps := [];
    if k >= 1 {
      ToDigitsZero(n, k);
    }
    while indexes.Some? && |ps| < fuel
      invariant |ps| <= fuel
      invariant indexes.Some? ==> |indexes.value| == k && ValidIndexes(indexes.value, n)
      invariant k == 0 ==> indexes == Some([]) && forall j | 0 <= j < |ps| :: ps[j] == []
      invariant k >= 1 ==> |ps| <= Pow(n, k)
      invariant k >= 1 ==> (indexes.Some? <==> |ps| < Pow(n, k))
      invariant k >= 1 && indexes.Some? ==> indexes.value == ToDigits(|ps|, n, k)
      invariant k >= 1 ==> forall j | 0 <= j < |ps| :: ps[j] == TupleAt(a, k, j)
      decreases fuel - |ps|
    {
      var p;
      p, indexes := ProductRound(a, k, indexes.value, |ps|);
      ps := ps + [p];
    }
    stopped := indexes.None?;
  }

  /** One round of `product`: the tuple the index vector of round `j` selects,
      and the vector of the next round (nil after the last one). */
  method ProductRound(a: seq<string>, k: nat, cur: seq<nat>, j: nat) returns (p: seq<string>, next: Option<seq<nat>>)
    requires |cur| == k && ValidIndexes(cur, |a|)
    requires k >= 1 ==> |a| >= 1 && j < Pow(|a|, k) && cur == ToDigits(j, |a|, k)
    ensures k == 0 ==> p == [] && next == Some([])
    ensures k >= 1 ==> p == TupleAt(a, k, j)
    ensures k >= 1 ==> (next.Some? <==> j + 1 < Pow(|a|, k))
    ensures next.Some? ==> |next.value| == k && ValidIndexes(next.value, |a|)
    ensures k >= 1 && next.Some? ==> next.value == ToDigits(j + 1, |a|, k)
  {
    p := seq(k, i requires 0 <= i < k => a[cur[i]]);
    if k >= 1 {
      AdvanceIsSuccessor(j, |a|, k);
    }
    next := Advance(cur, |a|);
  }

  // ---------------------------------------------------------------------------
  // Order and coverage of the tuples

  /** Lexicographic order on equal-length index vectors, position 0 most significant. */
  predicate LexLess(x: seq<nat>, y: seq<nat>)
    requires |x| == |y|
    decreases |x|
  {
    |x| > 0 &&
    var i := |x| - 1;
    (LexLess(x[..i], y[..i]) || (x[..i] == y[..i] && x[i] < y[i]))
  }

  /** Lexicographic order on vectors extended by one position. */
  lemma LexSnoc(p1: seq<nat>, p2: seq<nat>, r1: nat, r2: nat)
    requires |p1| == |p2|
    ensures LexLess(p1 + [r1], p2 + [r2]) <==> LexLess(p1, p2) || (p1 == p2 && r1 < r2)
  {
    assert (p1 + [r1])[..|p1|] == p1;
    assert (p2 + [r2])[..|p2|] == p2;
  }

  /** Two numbers below n^k, split into their last digit and the rest: the
      rest grows, staying below n^(k-1), or stays and the last digit grows. */
  lemma LastDigitStep(j1: nat, j2: nat, n: nat, k: nat) returns (q1: nat, r1: nat, q2: nat, r2: nat)
    requires n >= 1 && k >= 1 && j1 < j2 < Pow(n, k)
    ensures ToDigits(j1, n, k) == ToDigits(q1, n, k - 1) + [r1]
    ensures ToDigits(j2, n, k) == ToDigits(q2, n, k - 1) + [r2]
    ensures (q1 < q2 < Pow(n, k - 1)) || (q1 == q2 && r1 < r2)
  {
    q1, r1, q2, r2 := j1 / n, j1 % n, j2 / n, j2 % n;
    ToDigitsSnoc(j1, q1, r1, n, k);
    ToDigitsSnoc(j2, q2, r2, n, k);
    QuotientMono(j1, j2, n);
    DivPowBound(j2, n, k);
  }

  /** Successive rounds visit the index vectors in increasing lexicographic
      order (the last position turning fastest). */
  lemma {:induction false} ToDigitsOrdered(j1: nat, j2: nat, n: nat, k: nat)
    requires n >= 1 && j1 < j2 < Pow(n, k)
    ensures LexLess(ToDigits(j1, n, k), ToDigits(j2, n, k))
    decreases k
  {
    if k > 0 {
      var q1, r1, q2, r2 := LastDigitStep(j1, j2, n, k);
      LexSnoc(ToDigits(q1, n, k - 1), ToDigits(q2, n, k - 1), r1, r2);
      if q1 < q2 {
        ToDigitsOrdered(q1, q2, n, k - 1);
      }
    }
  }

  lemma QuotientMono(a: nat, b: nat, n: nat)
    requires n >= 1 && a < b
    ensures a / n <= b / n
    ensures a / n == b / n ==> a % n < b % n
  {
    var qa, qb := a / n, b / n;
    DivMod(a, n);
    DivMod(b, n);
    if qa > qb {
      MulLeftMono(n, qb + 1, qa);
    }
  }

  /** Each index vector over `a` is visited in exactly one round below |a|^k. */
  lemma ProductVisitsEachVectorOnce(d: seq<nat>, n: nat, j: nat)
    requires n >= 1 && ValidIndexes(d, n) && j < Pow(n, |d|)
    ensures ToDigits(j, n, |d|) == d <==> j == FromDigits(d, n)
  {
    ToFromDigits(d, n);
    if ToDigits(j, n, |d|) == d {
      FromToDigits(j, n, |d|);
    }
  }

  /** Round 0 produces the tuple made of `a[0]` alone. */
  lemma ProductFirstTuple(a: seq<string>, k: nat)
    requires |a| >= 1
    ensures TupleAt(a, k, 0) == seq(k, _ => a[0])
  {
    ToDigitsZero(|a|, k);
  }
}
