/** Column aggregates the feature engine asks pandas for, in exact
    arithmetic: `mean()`, `median()` and `std(ddof=1)` (as its square, the
    sample variance). */
module Statistics {
  import Recency

  function Sum(xs: seq<int>): int {
    if xs == [] then 0 else xs[0] + Sum(xs[1..])
  }

  function Min(xs: seq<int>): (m: int)
    requires xs != []
    ensures m in xs
    ensures forall i :: 0 <= i < |xs| ==> m <= xs[i]
  {
    if |xs| == 1 then xs[0]
    else
      var rest := Min(xs[1..]);
      assert forall i :: 1 <= i < |xs| ==> xs[i] == xs[1..][i - 1];
      if xs[0] <= rest then xs[0] else rest
  }

  function Max(xs: seq<int>): (m: int)
    requires xs != []
    ensures m in xs
    ensures forall i :: 0 <= i < |xs| ==> xs[i] <= m
  {
    if |xs| == 1 then xs[0]
    else
      var rest := Max(xs[1..]);
      assert forall i :: 1 <= i < |xs| ==> xs[i] == xs[1..][i - 1];
      if xs[0] >= rest then xs[0] else rest
  }

  lemma {:induction false} SumAtLeast(xs: seq<int>, lo: int)
    requires forall i :: 0 <= i < |xs| ==> lo <= xs[i]
    ensures (|xs| as real) * (lo as real) <= Sum(xs) as real
  {
    if xs != [] {
      assert forall i :: 0 <= i < |xs[1..]| ==> xs[1..][i] == xs[i + 1];
      SumAtLeast(xs[1..], lo);
      assert (|xs| as real) * (lo as real) == lo as real + (|xs[1..]| as real) * (lo as real);
    }
  }

  lemma {:induction false} SumAtMost(xs: seq<int>, hi: int)
    requires forall i :: 0 <= i < |xs| ==> xs[i] <= hi
    ensures Sum(xs) as real <= (|xs| as real) * (hi as real)
  {
    if xs != [] {
      assert forall i :: 0 <= i < |xs[1..]| ==> xs[1..][i] == xs[i + 1];
      SumAtMost(xs[1..], hi);
      assert (|xs| as real) * (hi as real) == hi as real + (|xs[1..]| as real) * (hi as real);
    }
  }

  lemma QuotientAtLeast(s: real, n: real, lo: real)
    requires n > 0.0 && n * lo <= s
    ensures lo <= s / n
  {
  }

  lemma QuotientAtMost(s: real, n: real, hi: real)
    requires n > 0.0 && s <= n * hi
    ensures s / n <= hi
  {
  }

  /** The mean of values between `lo` and `hi` is between them too. */
  lemma MeanBetween(xs: seq<int>, lo: int, hi: int)
    requires xs != []
    requires forall i :: 0 <= i < |xs| ==> lo <= xs[i] <= hi
    ensures lo as real <= Sum(xs) as real / |xs| as real <= hi as real
  {
    var s, n := Sum(xs) as real, |xs| as real;
    SumAtLeast(xs, lo);
    SumAtMost(xs, hi);
    QuotientAtLeast(s, n, lo as real);
    QuotientAtMost(s, n, hi as real);
  }

  /** `Series.mean()`: the total over the number of values. */
  function Mean(xs: seq<int>): real
    requires xs != []
  {
    Sum(xs) as real / |xs| as real
  }

  /** The mean lies between the smallest and the largest value.  (Kept out of
      `Mean`'s own contract so that proofs multiplying the mean do not carry
      these bounds along.) */
  lemma MeanWithinRange(xs: seq<int>)
    requires xs != []
    ensures Min(xs) as real <= Mean(xs) <= Max(xs) as real
  {
    MeanBetween(xs, Min(xs), Max(xs));
  }

  lemma QuotientTimes(q: real, s: real, n: real)
    requires n != 0.0 && q == s / n
    ensures q * n == s
  {
  }

  /** The mean times the number of values is their total. */
  lemma MeanTimesCount(xs: seq<int>, m: real)
    requires xs != [] && m == Mean(xs)
    ensures m * |xs| as real == Sum(xs) as real
  {
    QuotientTimes(m, Sum(xs) as real, |xs| as real);
  }

  /** The identity key: sorting stats by their own value. */
  function Value(x: int): int { x }

  /** The middle value of a sequence in its given order, or the average of
      the two middle ones when its length is even. */
  function Middle(d: seq<int>): real
    requires d != []
  {
    var n := |d|;
    if n % 2 == 1 then d[n / 2] as real
    else (d[n / 2 - 1] + d[n / 2]) as real / 2.0
  }

  /** `Series.median()`: the middle of the sorted values.  (The middle of a
      descending order is the middle of the ascending one.) */
  function Median(xs: seq<int>): (m: real)
    requires xs != []
    ensures Min(xs) as real <= m <= Max(xs) as real
  {
    var d := Recency.SortDescending(xs, Value);
    Recency.SortDescendingCorrect(xs, Value);
    var n := |xs|;
    assert Min(xs) <= d[n / 2] <= Max(xs) by { assert d[n / 2] in multiset(xs); }
    assert n % 2 == 0 ==> Min(xs) <= d[n / 2 - 1] <= Max(xs) by {
      if n % 2 == 0 { assert d[n / 2 - 1] in multiset(xs); }
    }
    Middle(d)
  }

  /** How many values satisfy `p`. */
  function Count(xs: seq<int>, p: int -> bool): (c: nat)
    ensures c <= |xs|
  {
    if xs == [] then 0 else (if p(xs[0]) then 1 else 0) + Count(xs[1..], p)
  }

  lemma {:induction false} CountConcat(a: seq<int>, b: seq<int>, p: int -> bool)
    ensures Count(a + b, p) == Count(a, p) + Count(b, p)
  {
    if a == [] {
      assert a + b == b;
    } else {
      assert (a + b)[0] == a[0];
      assert (a + b)[1..] == a[1..] + b;
      CountConcat(a[1..], b, p);
      assert Count(a + b, p) == (if p(a[0]) then 1 else 0) + Count(a[1..] + b, p);
    }
  }

  /** Counting does not depend on the order of the values. */
  lemma {:induction false} CountPermutation(a: seq<int>, b: seq<int>, p: int -> bool)
    requires multiset(a) == multiset(b)
    ensures Count(a, p) == Count(b, p)
    decreases |a|
  {
    if a == [] {
      assert |b| == |multiset(b)| == 0;
    } else {
      var x := a[0];
      assert x in multiset(b);
      var k :| 0 <= k < |b| && b[k] == x;
      var b' := b[..k] + b[k + 1..];
      assert b == b[..k] + [x] + b[k + 1..];
      assert multiset(b) == multiset(b[..k]) + multiset{x} + multiset(b[k + 1..]);
      assert a == [x] + a[1..];
      assert multiset(a) == multiset{x} + multiset(a[1..]);
      assert multiset(b') == multiset(b[..k]) + multiset(b[k + 1..]);
      calc {
        multiset(a[1..]);
        multiset(a) - multiset{x};
        multiset(b) - multiset{x};
        multiset(b');
      }
      CountPermutation(a[1..], b', p);
      CountConcat(b[..k] + [x], b[k + 1..], p);
      CountConcat(b[..k], [x], p);
      CountConcat(b[..k], b[k + 1..], p);
    }
  }

  /** A value that satisfies `p` is counted. */
  lemma {:induction false} CountPositive(xs: seq<int>, p: int -> bool, i: nat)
    requires i < |xs| && p(xs[i])
    ensures Count(xs, p) > 0
  {
    if i > 0 {
      assert xs[1..][i - 1] == xs[i];
      CountPositive(xs[1..], p, i - 1);
    }
  }

  /** A value that fails `p` keeps the count below the length. */
  lemma {:induction false} CountFull(xs: seq<int>, p: int -> bool, i: nat)
    requires i < |xs| && Count(xs, p) == |xs|
    ensures p(xs[i])
  {
    if i > 0 {
      assert xs[1..][i - 1] == xs[i];
      CountFull(xs[1..], p, i - 1);
    }
  }

  /** No value is counted exactly when none satisfies `p`. */
  lemma CountZeroIff(xs: seq<int>, p: int -> bool)
    ensures Count(xs, p) == 0 <==> forall i :: 0 <= i < |xs| ==> !p(xs[i])
  {
    if Count(xs, p) == 0 {
      forall i | 0 <= i < |xs| ensures !p(xs[i]) {
        if p(xs[i]) { CountPositive(xs, p, i); }
      }
    }
    if forall i :: 0 <= i < |xs| ==> !p(xs[i]) {
      NoneCount(xs, p);
    }
  }

  /** Every value is counted exactly when every one satisfies `p`. */
  lemma CountFullIff(xs: seq<int>, p: int -> bool)
    ensures Count(xs, p) == |xs| <==> forall i :: 0 <= i < |xs| ==> p(xs[i])
  {
    if Count(xs, p) == |xs| {
      forall i | 0 <= i < |xs| ensures p(xs[i]) {
        CountFull(xs, p, i);
      }
    }
    if forall i :: 0 <= i < |xs| ==> p(xs[i]) {
      AllCount(xs, p);
    }
  }

  lemma {:induction false} NoneCount(xs: seq<int>, p: int -> bool)
    requires forall i :: 0 <= i < |xs| ==> !p(xs[i])
    ensures Count(xs, p) == 0
  {
    if xs != [] {
      assert forall i :: 0 <= i < |xs[1..]| ==> xs[1..][i] == xs[i + 1];
      NoneCount(xs[1..], p);
    }
  }

  /** A weaker condition counts at least as many values. */
  lemma {:induction false} CountMonotone(xs: seq<int>, p: int -> bool, q: int -> bool)
    requires forall x :: p(x) ==> q(x)
    ensures Count(xs, p) <= Count(xs, q)
  {
    if xs != [] {
      CountMonotone(xs[1..], p, q);
    }
  }

  lemma QuotientMonotone(a: real, b: real, n: real)
    requires n > 0.0 && a <= b
    ensures a / n <= b / n
  {
  }

  lemma QuotientZero(a: real, n: real)
    requires n > 0.0 && a / n == 0.0
    ensures a == 0.0
  {
  }

  lemma QuotientOne(a: real, n: real)
    requires n > 0.0 && a / n == 1.0
    ensures a == n
  {
  }

  lemma QuotientFacts(a: real, n: real)
    requires 0.0 <= a <= n && n > 0.0
    ensures 0.0 <= a / n <= 1.0
    ensures a / n == 0.0 <==> a == 0.0
    ensures a / n == 1.0 <==> a == n
  {
    QuotientAtLeast(a, n, 0.0);
    QuotientAtMost(a, n, 1.0);
    if a / n == 0.0 { QuotientZero(a, n); }
    if a / n == 1.0 { QuotientOne(a, n); }
    if a == n { QuotientSelf(n); }
  }

  lemma QuotientSelf(n: real)
    requires n > 0.0
    ensures n / n == 1.0
  {
  }

  /** `part` out of `whole` as a fraction, as `Series.mean()` of a boolean column gives it. */
  function Fraction(part: nat, whole: nat): (q: real)
    requires 0 < whole && part <= whole
    ensures 0.0 <= q <= 1.0
    ensures q == 0.0 <==> part == 0
    ensures q == 1.0 <==> part == whole
  {
    QuotientFacts(part as real, whole as real);
    part as real / whole as real
  }

  lemma FractionTimesWhole(part: nat, whole: nat, q: real)
    requires 0 < whole && part <= whole && q == Fraction(part, whole)
    ensures q * whole as real == part as real
  {
    QuotientTimes(q, part as real, whole as real);
  }

  lemma FractionMonotone(a: nat, b: nat, whole: nat)
    requires 0 < whole && a <= b <= whole
    ensures Fraction(a, whole) <= Fraction(b, whole)
  {
    QuotientMonotone(a as real, b as real, whole as real);
  }

  /** Every value from index `k` on satisfies `p`, so at least `|xs| - k` do. */
  lemma {:induction false} CountSuffix(xs: seq<int>, p: int -> bool, k: nat)
    requires k <= |xs|
    requires forall i :: k <= i < |xs| ==> p(xs[i])
    ensures Count(xs, p) >= |xs| - k
  {
    assert xs == xs[..k] + xs[k..];
    CountConcat(xs[..k], xs[k..], p);
    AllCount(xs[k..], p);
  }

  lemma {:induction false} AllCount(xs: seq<int>, p: int -> bool)
    requires forall i :: 0 <= i < |xs| ==> p(xs[i])
    ensures Count(xs, p) == |xs|
  {
    if xs != [] {
      assert forall i :: 0 <= i < |xs[1..]| ==> xs[1..][i] == xs[i + 1];
      AllCount(xs[1..], p);
    }
  }

  /** Every value before index `k` satisfies `p`, so at least `k` do. */
  lemma {:induction false} CountPrefix(xs: seq<int>, p: int -> bool, k: nat)
    requires k <= |xs|
    requires forall i :: 0 <= i < k ==> p(xs[i])
    ensures Count(xs, p) >= k
  {
    assert xs == xs[..k] + xs[k..];
    CountConcat(xs[..k], xs[k..], p);
    AllCount(xs[..k], p);
  }

  /** In a descending sequence the value at index `|d| / 2` is at most the
      middle, and the value at index `(|d| + 1) / 2 - 1` at least. */
  lemma MiddleBounds(d: seq<int>)
    requires d != [] && Recency.Descending(d, Value)
    ensures d[|d| / 2] as real <= Middle(d) <= d[(|d| + 1) / 2 - 1] as real
  {
    var n := |d|;
    if n % 2 == 0 {
      assert Value(d[n / 2 - 1]) >= Value(d[n / 2]);
      assert (n + 1) / 2 - 1 == n / 2 - 1;
    } else {
      assert (n + 1) / 2 - 1 == n / 2;
    }
  }

  /** In a descending sequence the smaller half, from index `|d| / 2` on, is
      at most the middle. */
  lemma MiddleAboveHalf(d: seq<int>)
    requires d != [] && Recency.Descending(d, Value)
    ensures 2 * Count(d, x => x as real <= Middle(d)) >= |d|
  {
    var n := |d|;
    var m := Middle(d);
    MiddleBounds(d);
    forall i | n / 2 <= i < n ensures d[i] as real <= m {
      assert Value(d[i]) <= Value(d[n / 2]);
    }
    CountSuffix(d, x => x as real <= m, n / 2);
  }

  /** In a descending sequence the larger half, before index `(|d| + 1) / 2`,
      is at least the middle. */
  lemma MiddleBelowHalf(d: seq<int>)
    requires d != [] && Recency.Descending(d, Value)
    ensures 2 * Count(d, x => x as real >= Middle(d)) >= |d|
  {
    var n := |d|;
    var m := Middle(d);
    var hi := (n + 1) / 2;
    MiddleBounds(d);
    forall i | 0 <= i < hi ensures d[i] as real >= m {
      assert Value(d[i]) >= Value(d[hi - 1]);
    }
    CountPrefix(d, x => x as real >= m, hi);
  }

  /** The median splits the values in halves: at least half of them are at
      most the median, and at least half of them are at least the median. */
  lemma MedianSplits(xs: seq<int>)
    requires xs != []
    ensures 2 * Count(xs, x => x as real <= Median(xs)) >= |xs|
    ensures 2 * Count(xs, x => x as real >= Median(xs)) >= |xs|
  {
    var d := Recency.SortDescending(xs, Value);
    Recency.SortDescendingCorrect(xs, Value);
    assert Median(xs) == Middle(d);
    MiddleAboveHalf(d);
    MiddleBelowHalf(d);
    CountPermutation(xs, d, x => x as real <= Median(xs));
    CountPermutation(xs, d, x => x as real >= Median(xs));
  }

  function Square(d: real): real { d * d }

  /** The sum of squared deviations from `m`. */
  function SquaredDeviations(xs: seq<int>, m: real): (s: real)
    ensures s >= 0.0
  {
    if xs == [] then 0.0
    else
      SquareNonNegative(xs[0] as real - m);
      Square(xs[0] as real - m) + SquaredDeviations(xs[1..], m)
  }

  /** `Series.std(ddof=1)` squared: Bessel-corrected sample variance. */
  function SampleVariance(xs: seq<int>): (v: real)
    requires |xs| >= 2
    ensures v >= 0.0
  {
    SquaredDeviations(xs, Mean(xs)) / (|xs| - 1) as real
  }

  /** The sample variance times `n - 1` is the sum of squared deviations
      from the mean. */
  lemma VarianceTimesDegrees(xs: seq<int>)
    requires |xs| >= 2
    ensures SampleVariance(xs) * (|xs| - 1) as real == SquaredDeviations(xs, Mean(xs))
  {
    DegreesTimes(SampleVariance(xs), SquaredDeviations(xs, Mean(xs)), |xs| - 1);
  }

  lemma DegreesTimes(v: real, s: real, d: int)
    requires d > 0 && v == s / d as real
    ensures v * d as real == s
  {
  }

  lemma SquareNonNegative(d: real)
    ensures Square(d) >= 0.0
  {
  }

  function WholeSquare(k: int): int { k * k }

  lemma WholeSquarePositive(k: int)
    requires k != 0
    ensures WholeSquare(k) > 0
  {
  }

  lemma WholeSquareAsReal(k: int)
    ensures WholeSquare(k) as real == Square(k as real)
  {
  }

  /** The square of a non-zero whole number is positive, as a real too. */
  lemma SquarePositive(k: int)
    requires k != 0
    ensures Square(k as real) > 0.0
  {
    WholeSquarePositive(k);
    WholeSquareAsReal(k);
  }

  lemma SquareScales(c: real, d: real)
    ensures Square(c * d) == c * c * Square(d)
  {
  }

  lemma ProductPositive(a: real, b: real)
    requires a > 0.0 && b > 0.0
    ensures a * b > 0.0
  {
  }

  lemma FactorPositive(c: real, q: real)
    requires c > 0.0 && q >= 0.0 && c * q > 0.0
    ensures q > 0.0
  {
  }

  lemma Cancel(a: real, b: real, n: real)
    requires n > 0.0 && a * n == b * n
    ensures a == b
  {
  }

  lemma DeviationScaled(x: int, s: int, n: int, m: real)
    requires n > 0 && m * n as real == s as real
    ensures (n * x - s) as real == n as real * (x as real - m)
  {
  }

  /** A whole value away from the quotient `s / n` is away from it by a
      positive square: `n` times the deviation is the whole number
      `n * x - s`, which is not zero. */
  lemma DeviationPositive(x: int, s: int, n: int, m: real)
    requires n > 0 && m == s as real / n as real && x as real != m
    ensures Square(x as real - m) > 0.0
  {
    QuotientTimes(m, s as real, n as real);
    if n * x == s {
      Cancel(m, x as real, n as real);
      assert false;
    }
    DeviationScaled(x, s, n, m);
    SquarePositive(n * x - s);
    SquareScales(n as real, x as real - m);
    ProductPositive(n as real, n as real);
    SquareNonNegative(x as real - m);
    FactorPositive(n as real * n as real, Square(x as real - m));
  }

  /** Each squared deviation is at most their sum. */
  lemma {:induction false} DeviationAtMostTotal(xs: seq<int>, m: real, k: nat)
    requires k < |xs|
    ensures Square(xs[k] as real - m) <= SquaredDeviations(xs, m)
  {
    if k > 0 {
      assert xs[1..][k - 1] == xs[k];
      DeviationAtMostTotal(xs[1..], m, k - 1);
      SquareNonNegative(xs[0] as real - m);
    }
  }

  lemma QuotientPositive(part: real, s: real, n: real)
    requires 0.0 < part <= s && n > 0.0
    ensures s / n > 0.0
  {
  }

  /** A value away from the mean makes the sample variance positive. */
  lemma VariancePositive(xs: seq<int>, k: nat)
    requires |xs| >= 2 && k < |xs| && xs[k] as real != Mean(xs)
    ensures SampleVariance(xs) > 0.0
  {
    var m := Mean(xs);
    DeviationPositive(xs[k], Sum(xs), |xs|, m);
    DeviationAtMostTotal(xs, m, k);
    QuotientPositive(Square(xs[k] as real - m), SquaredDeviations(xs, m), (|xs| - 1) as real);
  }

  lemma {:induction false} ConstantHasNoDeviation(xs: seq<int>, c: int)
    requires forall i :: 0 <= i < |xs| ==> xs[i] == c
    ensures SquaredDeviations(xs, c as real) == 0.0
    ensures Sum(xs) == |xs| * c
  {
    if xs != [] {
      assert forall i :: 0 <= i < |xs[1..]| ==> xs[1..][i] == xs[i + 1];
      ConstantHasNoDeviation(xs[1..], c);
    }
  }

  /** The sample variance (so the standard deviation) is zero exactly when
      every value is the same. */
  lemma VarianceZeroIffConstant(xs: seq<int>)
    requires |xs| >= 2
    ensures SampleVariance(xs) == 0.0 <==> forall i, j :: 0 <= i < |xs| && 0 <= j < |xs| ==> xs[i] == xs[j]
  {
    var m := Mean(xs);
    if !forall i, j :: 0 <= i < |xs| && 0 <= j < |xs| ==> xs[i] == xs[j] {
      var i, j :| 0 <= i < |xs| && 0 <= j < |xs| && xs[i] != xs[j];
      VariancePositive(xs, if xs[i] as real != m then i else j);
    }
    if forall i, j :: 0 <= i < |xs| && 0 <= j < |xs| ==> xs[i] == xs[j] {
      ConstantHasNoDeviation(xs, xs[0]);
      assert m == xs[0] as real;
    }
  }
}
