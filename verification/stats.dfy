/** Order statistics and summary statistics over sequences of reals: the
    pieces both request handlers use (Python's `sorted`, `min`, `max`,
    `statistics.mean` and the breach count `sum(1 for v in xs if v > t)`). */
module Stats {

  /** Ascending order. */
  predicate Sorted(s: seq<real>) {
    forall i, j :: 0 <= i <= j < |s| ==> s[i] <= s[j]
  }

  /** `x` lies between `a` and `b`, whichever of the two is smaller. */
  predicate Between(x: real, a: real, b: real) {
    (a <= x <= b) || (b <= x <= a)
  }

  /** Inserts `x` into an ascending sequence, keeping it ascending. */
  function Insert(x: real, s: seq<real>): (r: seq<real>)
    requires Sorted(s)
    ensures Sorted(r)
    ensures |r| == |s| + 1
    ensures r[0] == x || (|s| > 0 && r[0] == s[0])
    ensures multiset(r) == multiset(s) + multiset{x}
  {
    if |s| == 0 then [x]
    else if x <= s[0] then [x] + s
    else
      var rest := Insert(x, s[1..]);
      assert s == [s[0]] + s[1..];
      assert s[0] <= rest[0];
      [s[0]] + rest
  }

  /** Python's `sorted` on reals: an ascending permutation of the input. */
  function SortAsc(s: seq<real>): (r: seq<real>)
    ensures Sorted(r)
    ensures multiset(r) == multiset(s)
    ensures |r| == |s|
  {
    if |s| == 0 then []
    else
      assert s == [s[0]] + s[1..];
      Insert(s[0], SortAsc(s[1..]))
  }

  /** Python's `min` on a non-empty sequence. */
  function Min(s: seq<real>): (m: real)
    requires |s| > 0
    ensures m in s
    ensures forall i :: 0 <= i < |s| ==> m <= s[i]
  {
    if |s| == 1 then s[0]
    else
      var t := Min(s[1..]);
      if s[0] <= t then s[0] else t
  }

  /** Python's `max` on a non-empty sequence. */
  function Max(s: seq<real>): (m: real)
    requires |s| > 0
    ensures m in s
    ensures forall i :: 0 <= i < |s| ==> s[i] <= m
  {
    if |s| == 1 then s[0]
    else
      var t := Max(s[1..]);
      if s[0] >= t then s[0] else t
  }

  /** The ends of any ascending permutation of `s` are the minimum and the
      maximum of `s`. */
  lemma {:induction false} SortedEnds(s: seq<real>, r: seq<real>)
    requires |s| > 0
    requires Sorted(r)
    requires multiset(r) == multiset(s)
    ensures |r| == |s|
    ensures r[0] == Min(s)
    ensures r[|r| - 1] == Max(s)
  {
    assert |r| == |multiset(r)| == |multiset(s)| == |s|;
    var lo, hi := Min(s), Max(s);
    assert lo in multiset(r) && hi in multiset(r);
    assert r[0] in multiset(s) && r[|r| - 1] in multiset(s);
    assert r[0] <= lo && hi <= r[|r| - 1];
  }

  /** An ascending permutation of an ascending sequence is that sequence. */
  lemma {:induction false} SortedUnique(a: seq<real>, b: seq<real>)
    requires Sorted(a) && Sorted(b)
    requires multiset(a) == multiset(b)
    ensures a == b
  {
    assert |a| == |multiset(a)| == |multiset(b)| == |b|;
    if |a| > 0 {
      SortedSameHead(a, b);
      SameTails(a, b);
      SortedUnique(a[1..], b[1..]);
    }
  }

  /** Removing equal heads from two sequences with the same elements leaves
      tails with the same elements. */
  lemma {:induction false} SameTails(a: seq<real>, b: seq<real>)
    requires |a| > 0 && |b| > 0
    requires a[0] == b[0]
    requires multiset(a) == multiset(b)
    ensures multiset(a[1..]) == multiset(b[1..])
  {
    assert a == [a[0]] + a[1..];
    assert b == [b[0]] + b[1..];
    assert multiset(a[1..]) == multiset(a) - multiset{a[0]};
    assert multiset(b[1..]) == multiset(b) - multiset{b[0]};
  }

  /** Two ascending sequences with the same elements start alike. */
  lemma {:induction false} SortedSameHead(a: seq<real>, b: seq<real>)
    requires Sorted(a) && Sorted(b)
    requires multiset(a) == multiset(b)
    requires |a| > 0 && |b| > 0
    ensures a[0] == b[0]
  {
    assert a[0] in multiset(b) && b[0] in multiset(a);
    var j :| 0 <= j < |b| && b[j] == a[0];
    var k :| 0 <= k < |a| && a[k] == b[0];
  }

  /** The sum of a sequence (Python's exact summation in `statistics.mean`). */
  function Sum(s: seq<real>): (total: real)
    ensures |s| == 1 ==> total == s[0]
  {
    if |s| == 0 then 0.0 else s[0] + Sum(s[1..])
  }

  /** Summation is additive: the sum of a concatenation is the sum of the
      parts' sums, whichever way the list is split. */
  lemma {:induction false} SumAppend(a: seq<real>, b: seq<real>)
    ensures Sum(a + b) == Sum(a) + Sum(b)
  {
    if |a| > 0 {
      assert (a + b)[1..] == a[1..] + b;
      SumAppend(a[1..], b);
    } else {
      assert a + b == b;
    }
  }

  /** A lower and an upper bound on every element bound the sum. */
  lemma {:induction false} SumBounds(s: seq<real>, lo: real, hi: real)
    requires forall i :: 0 <= i < |s| ==> lo <= s[i] <= hi
    ensures |s| as real * lo <= Sum(s) <= |s| as real * hi
  {
    if |s| > 0 {
      SumBounds(s[1..], lo, hi);
    }
  }

  /** The arithmetic mean of a non-empty sequence; it lies between the
      minimum and the maximum. */
  function Mean(s: seq<real>): (m: real)
    requires |s| > 0
    ensures Min(s) <= m <= Max(s)
  {
    AverageBounds(s, Min(s), Max(s));
    Sum(s) / |s| as real
  }

  /** Bounds on every element bound the sum over the length. */
  lemma {:induction false} AverageBounds(s: seq<real>, lo: real, hi: real)
    requires |s| > 0
    requires forall i :: 0 <= i < |s| ==> lo <= s[i] <= hi
    ensures lo <= Sum(s) / |s| as real <= hi
  {
    SumBounds(s, lo, hi);
    DivBounds(Sum(s), |s| as real, lo, hi);
  }

  /** Dividing a total by a positive count keeps per-element bounds. */
  lemma {:induction false} DivBounds(total: real, n: real, lo: real, hi: real)
    requires n > 0.0
    requires n * lo <= total <= n * hi
    ensures lo <= total / n <= hi
  {
    var q := total / n;
    assert q * n == total;
    if q < lo {
      MulNonneg(lo - q, n);
      assert false;
    }
    if q > hi {
      MulNonneg(q - hi, n);
      assert false;
    }
  }

  /** The product of two non-negative reals is non-negative. */
  lemma {:induction false} MulNonneg(x: real, y: real)
    requires 0.0 <= x && 0.0 <= y
    ensures 0.0 <= x * y
  {
  }

  /** The mean of a sequence whose elements are all `c` is `c`. */
  lemma {:induction false} MeanOfConstant(s: seq<real>, c: real)
    requires |s| > 0
    requires forall i :: 0 <= i < |s| ==> s[i] == c
    ensures Mean(s) == c
  {
    SumBounds(s, c, c);
  }

  /** How many elements are strictly greater than `t`, counted left to right. */
  function CountAbove(xs: seq<real>, t: real): (k: nat)
    ensures k <= |xs|
  {
    if |xs| == 0 then 0
    else CountAbove(xs[..|xs| - 1], t) + (if xs[|xs| - 1] > t then 1 else 0)
  }

  /** The positions of the elements strictly greater than `t`. */
  ghost function AboveIndices(xs: seq<real>, t: real): set<int> {
    set i | 0 <= i < |xs| && xs[i] > t
  }

  /** The count is the number of positions holding a value above `t`. */
  lemma {:induction false} CountAboveIsCardinality(xs: seq<real>, t: real)
    ensures CountAbove(xs, t) == |AboveIndices(xs, t)|
  {
    if |xs| > 0 {
      var n := |xs| - 1;
      var front := xs[..n];
      CountAboveIsCardinality(front, t);
      var extra: set<int> := if xs[n] > t then {n} else {};
      forall i | 0 <= i < |xs|
        ensures i in AboveIndices(xs, t) <==> i in AboveIndices(front, t) + extra
      {
        if i < n {
          assert front[i] == xs[i];
        }
      }
      assert AboveIndices(xs, t) == AboveIndices(front, t) + extra;
      assert n !in AboveIndices(front, t);
    }
  }

  /** No element is counted exactly when every element is at most `t`; in
      particular a value equal to `t` is never counted. */
  lemma {:induction false} CountAboveZeroIff(xs: seq<real>, t: real)
    ensures CountAbove(xs, t) == 0 <==> forall i :: 0 <= i < |xs| ==> xs[i] <= t
  {
    if |xs| > 0 {
      var n := |xs| - 1;
      CountAboveZeroIff(xs[..n], t);
      assert forall i :: 0 <= i < n ==> xs[..n][i] == xs[i];
    }
  }

  /** Every element is counted exactly when every element exceeds `t`. */
  lemma {:induction false} CountAboveAllIff(xs: seq<real>, t: real)
    ensures CountAbove(xs, t) == |xs| <==> forall i :: 0 <= i < |xs| ==> xs[i] > t
  {
    if |xs| > 0 {
      var n := |xs| - 1;
      CountAboveAllIff(xs[..n], t);
      assert forall i :: 0 <= i < n ==> xs[..n][i] == xs[i];
    }
  }

  /** Raising the threshold never increases the count. */
  lemma {:induction false} CountAboveAntitone(xs: seq<real>, t1: real, t2: real)
    requires t1 <= t2
    ensures CountAbove(xs, t2) <= CountAbove(xs, t1)
  {
    if |xs| > 0 {
      CountAboveAntitone(xs[..|xs| - 1], t1, t2);
    }
  }

  /** Counting over a concatenation adds the two counts. */
  lemma {:induction false} CountAboveAppend(a: seq<real>, b: seq<real>, t: real)
    ensures CountAbove(a + b, t) == CountAbove(a, t) + CountAbove(b, t)
  {
    if |b| > 0 {
      var n := |b| - 1;
      assert (a + b)[..|a + b| - 1] == a + b[..n];
      CountAboveAppend(a, b[..n], t);
    } else {
      assert a + b == a;
    }
  }

  /** Linear interpolation in the `lower + (upper - lower) * weight` form:
      for a weight in [0, 1] the result lies between the two ends. */
  lemma {:induction false} LerpBetween(a: real, b: real, w: real)
    requires 0.0 <= w <= 1.0
    ensures Between(a + (b - a) * w, a, b)
  {
    if a <= b {
      MulNonneg(b - a, w);
      MulNonneg(b - a, 1.0 - w);
    } else {
      MulNonneg(a - b, w);
      MulNonneg(a - b, 1.0 - w);
    }
  }

  /** Interpolation in the `a * (1 - w) + b * w` form between ordered ends
      stays between them. */
  lemma {:induction false} WeightedBetween(a: real, b: real, w: real)
    requires a <= b
    requires 0.0 <= w <= 1.0
    ensures a <= a * (1.0 - w) + b * w <= b
  {
    MulNonneg(b - a, w);
    MulNonneg(b - a, 1.0 - w);
    assert a * (1.0 - w) + b * w == a + (b - a) * w;
  }

  /** Interpolation in the `a * (1 - w) + b * w` form is the same number. */
  lemma {:induction false} LerpForms(a: real, b: real, w: real)
    ensures a * (1.0 - w) + b * w == a + (b - a) * w
  {
  }
}
