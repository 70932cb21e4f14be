// The two Gini computations of core/scalar-emission/src/equity.rs (pairwise definition) and
// core/scalar-emission/src/equity_boost.rs (sorted linear form).
module Gini {
  import opened ModArith
  import opened Words
  import opened Sorting

  const FIXED_POINT_BASIS: int := 1_000_000

  /** A value, or the arithmetic-overflow panic of a checked build. */
  datatype Outcome = Value(gini: int) | Overflow

  function Abs(x: int): nat { if x >= 0 then x else -x }

  // ----- Sums over a list -----

  function Total(s: seq<U64>): nat {
    if s == [] then 0 else Total(s[..|s| - 1]) + s[|s| - 1]
  }

  /** Sum of |x - s[j]| over the list. */
  function Row(x: int, s: seq<U64>): nat {
    if s == [] then 0 else Row(x, s[..|s| - 1]) + Abs(x - s[|s| - 1])
  }

  /** Sum of |s[i] - s[j]| over all ordered pairs with i below n. */
  function RowsUpTo(s: seq<U64>, n: nat): nat
    requires n <= |s|
  {
    if n == 0 then 0 else RowsUpTo(s, n - 1) + Row(s[n - 1], s)
  }

  /** The numerator of the Gini coefficient: |s[i] - s[j]| over all ordered pairs. */
  function PairSum(s: seq<U64>): nat { RowsUpTo(s, |s|) }

  /** Sum of (i + 1) * s[i]. */
  function Weighted(s: seq<U64>): nat {
    if s == [] then 0 else Weighted(s[..|s| - 1]) + |s| * s[|s| - 1]
  }

  function RewardValue(x: U64): int { x }

  predicate Sorted(s: seq<U64>) { SortedBy(RewardValue, s) }

  lemma {:induction false} RowsExtend(t: seq<U64>, x: U64, n: nat)
    requires n <= |t|
    ensures RowsUpTo(t + [x], n) == RowsUpTo(t, n) + Row(x, t[..n])
    decreases n
  {
    if n > 0 {
      RowsExtend(t, x, n - 1);
      assert (t + [x])[..|t|] == t;
      assert t[..n][..n - 1] == t[..n - 1];
    }
  }

  /** Adding one element adds its distance to every other one, twice. */
  lemma PairSumPush(t: seq<U64>, x: U64)
    ensures PairSum(t + [x]) == PairSum(t) + 2 * Row(x, t)
  {
    RowsExtend(t, x, |t|);
    assert t[..|t|] == t;
    assert (t + [x])[..|t|] == t;
  }

  lemma {:induction false} RowRemove(x: int, s: seq<U64>, k: nat)
    requires k < |s|
    ensures Row(x, s) == Row(x, RemoveAt(s, k)) + Abs(x - s[k])
    decreases |s|
  {
    var n := |s| - 1;
    var rest := RemoveAt(s, k);
    if k == n {
      assert rest == s[..n];
    } else {
      RowRemove(x, s[..n], k);
      assert rest[..n - 1] == RemoveAt(s[..n], k);
    }
  }

  lemma {:induction false} PairSumRemove(s: seq<U64>, k: nat)
    requires k < |s|
    ensures PairSum(s) == PairSum(RemoveAt(s, k)) + 2 * Row(s[k], RemoveAt(s, k))
    decreases |s|
  {
    var n := |s| - 1;
    var rest := RemoveAt(s, k);
    assert s == s[..n] + [s[n]];
    PairSumPush(s[..n], s[n]);
    if k == n {
      assert rest == s[..n];
    } else {
      var inner := RemoveAt(s[..n], k);
      PairSumRemove(s[..n], k);
      RowRemove(s[n], s[..n], k);
      assert rest == inner + [s[n]];
      PairSumPush(inner, s[n]);
      RowRemove(s[k], rest, n - 1);
      assert rest[..n - 1] + rest[n..] == inner;
    }
  }

  lemma {:induction false} RowPermutation(x: int, s: seq<U64>, t: seq<U64>)
    requires multiset(s) == multiset(t)
    ensures Row(x, s) == Row(x, t)
    decreases |s|
  {
    if s == [] {
      assert |multiset(t)| == 0;
    } else {
      var n := |s| - 1;
      var k := LocateLast(s, t);
      RowPermutation(x, s[..n], RemoveAt(t, k));
      RowRemove(x, t, k);
    }
  }

  /** The pair sum does not depend on the order of the list. */
  lemma {:induction false} PairSumPermutation(s: seq<U64>, t: seq<U64>)
    requires multiset(s) == multiset(t)
    ensures PairSum(s) == PairSum(t)
    decreases |s|
  {
    if s == [] {
      assert |multiset(t)| == 0;
    } else {
      var n := |s| - 1;
      var k := LocateLast(s, t);
      var rest := RemoveAt(t, k);
      PairSumPermutation(s[..n], rest);
      RowPermutation(s[n], s[..n], rest);
      assert s == s[..n] + [s[n]];
      PairSumPush(s[..n], s[n]);
      PairSumRemove(t, k);
    }
  }

  // ----- The linear form -----

  lemma {:induction false} RowAbove(x: int, t: seq<U64>)
    requires forall i :: 0 <= i < |t| ==> t[i] <= x
    ensures Row(x, t) == |t| * x - Total(t)
    decreases |t|
  {
    if t != [] {
      RowAbove(x, t[..|t| - 1]);
      assert |t| * x == (|t| - 1) * x + x;
    }
  }

  /** On a sorted list the sum over all pairs is 2 * sum((2i - n - 1) * s_i) = 4 * Weighted - 2 * (n + 1) * Total. */
  lemma {:induction false} PairSumSorted(s: seq<U64>)
    requires Sorted(s)
    ensures PairSum(s) == 4 * Weighted(s) - 2 * ((|s| + 1) * Total(s))
    decreases |s|
  {
    if s != [] {
      var n := |s| - 1;
      var t, x := s[..n], s[n];
      PairSumSorted(t);
      assert s == t + [x];
      PairSumPush(t, x);
      RowAbove(x, t);
      LinearStep(n, x, Total(t), Weighted(t));
    }
  }

  lemma LinearStep(n: nat, x: int, total: int, w: int)
    ensures (4 * w - 2 * ((n + 1) * total)) + 2 * (n * x - total)
         == 4 * (w + (n + 1) * x) - 2 * ((n + 2) * (total + x))
  {
    assert (n + 2) * (total + x) == (n + 1) * total + total + n * x + 2 * x;
    assert (n + 1) * x == n * x + x;
  }

  // ----- The two computations -----

  /** sort_unstable on a copy. */
  function SortedCopy(s: seq<U64>): (r: seq<U64>)
    ensures Sorted(r) && multiset(r) == multiset(s) && |r| == |s|
  {
    SortBy(RewardValue, s)
  }

  /** The value of the pairwise form, before any overflow is considered. */
  function PairwiseValue(s: seq<U64>): int
    requires s != [] && Total(s) > 0
  {
    var d := 2 * |s| * Total(s);
    PositiveProduct(2 * |s|, Total(s));
    PairSum(s) * FIXED_POINT_BASIS / d
  }

  lemma {:induction false} RowBound(x: nat, s: seq<U64>)
    ensures Row(x, s) <= |s| * x + Total(s)
    decreases |s|
  {
    if s != [] {
      RowBound(x, s[..|s| - 1]);
      MulDistributes(|s| - 1, 1, x);
    }
  }

  lemma {:induction false} RowsBound(s: seq<U64>, n: nat)
    requires n <= |s|
    ensures RowsUpTo(s, n) <= |s| * Total(s[..n]) + n * Total(s)
    decreases n
  {
    if n > 0 {
      RowsBound(s, n - 1);
      RowBound(s[n - 1], s);
      assert s[..n][..n - 1] == s[..n - 1];
      MulDistributes(Total(s[..n - 1]), s[n - 1], |s|);
      MulDistributes(n - 1, 1, Total(s));
    }
  }

  /** No distance exceeds the sum of the two rewards: the pair sum is at most 2 * n * total. */
  lemma PairSumBound(s: seq<U64>)
    ensures PairSum(s) <= 2 * (|s| * Total(s)) && 2 * (|s| * Total(s)) == 2 * |s| * Total(s)
  {
    RowsBound(s, |s|);
    assert s[..|s|] == s;
    MulAssoc(2, |s|, Total(s));
  }

  /** So the coefficient lies between 0 and 1, in units of 10^-6. */
  lemma GiniInUnitInterval(s: seq<U64>)
    requires s != [] && Total(s) > 0
    ensures 0 <= PairwiseValue(s) <= 1_000_000
  {
    hide PairSum, Total;
    PairSumBound(s);
    var d := 2 * |s| * Total(s);
    PositiveProduct(|s|, Total(s));
    MulMonotone(PairSum(s), d, FIXED_POINT_BASIS);
    QuotientAtMost(PairSum(s) * FIXED_POINT_BASIS, d, FIXED_POINT_BASIS);
  }

  lemma QuotientAtMost(x: nat, d: nat, b: nat)
    requires d > 0 && x <= b * d
    ensures 0 <= x / d <= b
  {
    var q := x / d;
    assert x == q * d + x % d;
    if q > b {
      MulMonotone(b + 1, q, d);
      MulDistributes(b, 1, d);
    }
  }

  lemma {:induction false} TotalPrefix(s: seq<U64>, i: nat)
    requires i <= |s|
    ensures Total(s[..i]) <= Total(s)
    decreases |s|
  {
    if i < |s| {
      TotalPrefix(s[..|s| - 1], i);
      assert s[..|s| - 1][..i] == s[..i];
    } else {
      assert s[..i] == s;
    }
  }

  lemma {:induction false} RowPrefix(x: int, s: seq<U64>, i: nat)
    requires i <= |s|
    ensures Row(x, s[..i]) <= Row(x, s)
    decreases |s|
  {
    if i < |s| {
      RowPrefix(x, s[..|s| - 1], i);
      assert s[..|s| - 1][..i] == s[..i];
    } else {
      assert s[..i] == s;
    }
  }

  lemma {:induction false} RowsPrefix(s: seq<U64>, i: nat, n: nat)
    requires i <= n <= |s|
    ensures RowsUpTo(s, i) <= RowsUpTo(s, n)
    decreases n
  {
    if i < n {
      RowsPrefix(s, i, n - 1);
    }
  }

  /** equity::compute_gini; Overflow exactly when a sum or a product exceeds a u64. */
  method PairwiseGini(distributions: seq<U64>) returns (r: Outcome)
    ensures distributions == [] ==> r == Value(0)
    ensures distributions != [] ==>
              (r == Overflow <==>
                 || Total(distributions) > U64_MAX
                 || PairSum(distributions) * 1_000_000 > U64_MAX
                 || 2 * |distributions| * Total(distributions) > U64_MAX)
    ensures distributions != [] && r.Value? ==>
              r.gini == if Total(distributions) == 0 then 0 else PairwiseValue(distributions)
  {
    hide PairSum, RowsUpTo, Row, Total;
    if distributions == [] {
      return Value(0);
    }
    var dists := SortedCopy(distributions);
    TotalPermutation(dists, distributions);
    PairSumPermutation(dists, distributions);
    PairSumBound(dists);
    var n := |dists|;
    var fits, sumAbs, total := SumLoop(dists);
    if !fits {
      return Overflow;
    }
    if total == 0 {
      return Value(0);
    }
    if 2 * n * total > U64_MAX || sumAbs * FIXED_POINT_BASIS > U64_MAX {
      return Overflow;
    }
    PositiveProduct(2 * n, total);
    var denominator := 2 * n * total;
    r := Value(sumAbs * FIXED_POINT_BASIS / denominator);
  }

  lemma {:induction false} TotalRemove(s: seq<U64>, k: nat)
    requires k < |s|
    ensures Total(s) == s[k] + Total(RemoveAt(s, k))
    decreases |s|
  {
    var n := |s| - 1;
    var rest := RemoveAt(s, k);
    if k == n {
      assert rest == s[..n];
    } else {
      TotalRemove(s[..n], k);
      var inner := RemoveAt(s[..n], k);
      assert rest == inner + [s[n]];
      assert rest[..|rest| - 1] == inner;
    }
  }

  lemma {:induction false} TotalPermutation(s: seq<U64>, t: seq<U64>)
    requires multiset(s) == multiset(t)
    ensures Total(s) == Total(t)
    decreases |s|
  {
    if s == [] {
      assert |multiset(t)| == 0;
    } else {
      var k := LocateLast(s, t);
      TotalPermutation(s[..|s| - 1], RemoveAt(t, k));
      TotalRemove(t, k);
    }
  }

  /** The nested loops of equity::compute_gini, every addition checked. */
  method SumLoop(dists: seq<U64>) returns (fits: bool, sumAbs: nat, total: nat)
    ensures fits <==> PairSum(dists) <= U64_MAX && Total(dists) <= U64_MAX
    ensures fits ==> sumAbs == PairSum(dists) && total == Total(dists)
  {
    hide Total, Row, RowsUpTo;
    fits, sumAbs, total := true, 0, 0;
    SumStart(dists, 0);
    for i := 0 to |dists|
      invariant fits && sumAbs == RowsUpTo(dists, i) <= U64_MAX && total == Total(dists[..i]) <= U64_MAX
    {
      SumNext(dists, i);
      TotalPrefix(dists, i + 1);
      total := total + dists[i];
      if total > U64_MAX {
        fits := false;
        return;
      }
      ghost var before := sumAbs;
      SumStart(dists, dists[i]);
      RowsPrefix(dists, i + 1, |dists|);
      for j := 0 to |dists|
        invariant sumAbs == before + Row(dists[i], dists[..j]) <= U64_MAX
      {
        RowNext(dists[i], dists, j);
        RowPrefix(dists[i], dists, j + 1);
        sumAbs := sumAbs + Abs((dists[i] as int) - (dists[j] as int));
        if sumAbs > U64_MAX {
          fits := false;
          return;
        }
      }
      assert dists[..|dists|] == dists;
    }
    assert dists[..|dists|] == dists;
  }

  lemma SumStart(s: seq<U64>, x: int)
    ensures RowsUpTo(s, 0) == 0 && Total(s[..0]) == 0 && Row(x, s[..0]) == 0
  {
  }

  lemma SumNext(s: seq<U64>, i: nat)
    requires i < |s|
    ensures Total(s[..i + 1]) == Total(s[..i]) + s[i] && RowsUpTo(s, i + 1) == RowsUpTo(s, i) + Row(s[i], s)
  {
    assert s[..i + 1][..i] == s[..i];
  }

  lemma RowNext(x: int, s: seq<U64>, j: nat)
    requires j < |s|
    ensures Row(x, s[..j + 1]) == Row(x, s[..j]) + Abs(x - s[j])
  {
    assert s[..j + 1][..j] == s[..j];
  }

  /** The value of the sorted form, before any overflow is considered. */
  function LinearValue(s: seq<U64>): int
    requires s != [] && Total(s) > 0
  {
    PositiveProduct(|s|, Total(s));
    var term1 := 2 * Weighted(SortedCopy(s)) * FIXED_POINT_BASIS / (|s| * Total(s));
    var term2 := (|s| + 1) * FIXED_POINT_BASIS / |s|;
    if term1 > term2 then term1 - term2 else 0
  }

  /** equity_boost::EquityBoostCalculator::compute_gini; Overflow exactly when a sum or a product exceeds a u64. */
  method LinearGini(rewards: seq<U64>) returns (r: Outcome)
    ensures rewards == [] ==> r == Value(0)
    ensures rewards != [] ==>
              (r == Overflow <==>
                 || Total(rewards) > U64_MAX
                 || (Total(rewards) > 0 &&
                       (|| 2 * Weighted(SortedCopy(rewards)) * 1_000_000 > U64_MAX
                        || |rewards| * Total(rewards) > U64_MAX
                        || (|rewards| + 1) * 1_000_000 > U64_MAX)))
    ensures rewards != [] && r.Value? ==>
              r.gini == if Total(rewards) == 0 then 0 else LinearValue(rewards)
    ensures r.Value? && rewards != [] && Total(rewards) > 0 ==>
              r.gini == PairwiseValue(rewards) + if RoundingsAgree(rewards) then 0 else 1
  {
    hide Total, Weighted, PairSum, SortedCopy;
    if rewards == [] {
      return Value(0);
    }
    var n := |rewards|;
    var sorted := SortedCopy(rewards);
    TotalPermutation(sorted, rewards);
    var sumTotal, weightedSum := WeightedLoop(sorted);
    if sumTotal > U64_MAX {
      return Overflow;
    }
    if sumTotal == 0 {
      return Value(0);
    }
    var numerator := 2 * weightedSum * FIXED_POINT_BASIS;
    var denominator := n * sumTotal;
    if numerator > U64_MAX || denominator > U64_MAX || (n + 1) * FIXED_POINT_BASIS > U64_MAX {
      return Overflow;
    }
    PositiveProduct(n, sumTotal);
    GiniFormsAgree(rewards);
    var term1 := numerator / denominator;
    var term2 := (n + 1) * FIXED_POINT_BASIS / n;
    r := Value(if term1 > term2 then term1 - term2 else 0);
  }

  /** The two iterator sums. */
  method WeightedLoop(sorted: seq<U64>) returns (total: nat, weighted: nat)
    ensures total == Total(sorted) && weighted == Weighted(sorted)
  {
    total, weighted := 0, 0;
    for i := 0 to |sorted|
      invariant total == Total(sorted[..i]) && weighted == Weighted(sorted[..i])
    {
      assert sorted[..i + 1][..i] == sorted[..i];
      total := total + sorted[i];
      weighted := weighted + (i + 1) * sorted[i];
    }
    assert sorted[..|sorted|] == sorted;
  }

  lemma {:induction false} WeightedBound(s: seq<U64>)
    ensures Weighted(s) <= |s| * Total(s)
    decreases |s|
  {
    if s != [] {
      var n := |s| - 1;
      WeightedBound(s[..n]);
      MulDistributes(Total(s[..n]), s[n], |s|);
      MulMonotone(n, |s|, Total(s[..n]));
    }
  }

  /** Lists that neither computation overflows on: those with 2 * n * total * 10^6 below 2^64. */
  lemma SmallListsFit(s: seq<U64>)
    requires s != [] && 2 * |s| * Total(s) * 1_000_000 <= U64_MAX
    ensures Total(s) <= U64_MAX && PairSum(s) * 1_000_000 <= U64_MAX && 2 * |s| * Total(s) <= U64_MAX
    ensures 2 * Weighted(SortedCopy(s)) * 1_000_000 <= U64_MAX && |s| * Total(s) <= U64_MAX
    ensures Total(s) > 0 ==> (|s| + 1) * 1_000_000 <= U64_MAX
  {
    hide PairSum, Weighted, Total, SortedCopy;
    var n, t := |s|, Total(s);
    PairSumBound(s);
    WeightedBound(SortedCopy(s));
    TotalPermutation(SortedCopy(s), s);
    MulMonotone(1, n, t);
    if t > 0 {
      MulMonotone(1, t, n);
    }
  }

  // ----- Agreement -----

  /**
   * Two floors against one: with a = k + c*t, the difference a/(n*t) - c/n of the floors is the floor
   * of k/(n*t), or one more exactly when the remainder of a is smaller than that of c*t.
   */
  lemma FloorDifference(a: int, c: nat, n: nat, t: nat, k: nat)
    requires n > 0 && t > 0 && a == k + c * t
    ensures n * t > 0 && 0 <= (c % n) * t < n * t
    ensures a / (n * t) - c / n == k / (n * t) + if a % (n * t) >= (c % n) * t then 0 else 1
  {
    PositiveProduct(n, t);
    var m := n * t;
    var q, r := a / m, a % m;
    var p, u := c / n, c % n;
    assert a == q * m + r;
    assert c == p * n + u;
    FloorAlgebra(q, p, n, t, r, u);
    if r >= u * t {
      DivModUnique(k, q - p, r - u * t, m);
    } else {
      assert (q - p - 1) * m == (q - p) * m - m;
      DivModUnique(k, q - p - 1, r - u * t + m, m);
    }
  }

  lemma FloorAlgebra(q: int, p: int, n: nat, t: nat, r: int, u: int)
    requires 0 <= u < n && t > 0
    ensures (q * (n * t) + r) - (p * n + u) * t == (q - p) * (n * t) + (r - u * t)
    ensures 0 <= u * t < n * t
  {
    var m := n * t;
    assert (p * n + u) * t == (p * n) * t + u * t;
    assert (p * n) * t == p * m;
    assert (q - p) * m == q * m - p * m;
    PositiveProduct(n - u, t);
    assert (n - u) * t == m - u * t;
  }

  lemma HalveBoth(k: nat, m: nat)
    requires m > 0
    ensures (2 * k) / (2 * m) == k / m
  {
    var q, r := k / m, k % m;
    assert k == q * m + r;
    assert 2 * k == q * (2 * m) + 2 * r;
    DivModUnique(2 * k, q, 2 * r, 2 * m);
  }

  /** The remainder test that decides whether the two roundings agree. */
  predicate RoundingsAgree(s: seq<U64>)
    requires s != [] && Total(s) > 0
  {
    PositiveProduct(|s|, Total(s));
    (2 * Weighted(SortedCopy(s)) * FIXED_POINT_BASIS) % (|s| * Total(s))
      >= (((|s| + 1) * FIXED_POINT_BASIS) % |s|) * Total(s)
  }

  /** The quadratic numerator, in the units of the linear form. */
  lemma NumeratorsMatch(s: seq<U64>)
    ensures PairSum(s) * FIXED_POINT_BASIS
         == 2 * (2 * Weighted(SortedCopy(s)) * FIXED_POINT_BASIS - ((|s| + 1) * FIXED_POINT_BASIS) * Total(s))
  {
    hide PairSum, Weighted, Total, SortedCopy;
    var sorted := SortedCopy(s);
    PairSumSorted(sorted);
    PairSumPermutation(sorted, s);
    TotalPermutation(sorted, s);
    ScaleNumerator(Weighted(sorted), |s| + 1, Total(s), FIXED_POINT_BASIS);
  }

  lemma ScaleNumerator(w: int, n: int, t: int, b: int)
    ensures (4 * w - 2 * (n * t)) * b == 2 * (2 * w * b - (n * b) * t)
  {
    assert (n * b) * t == (n * t) * b;
    assert (4 * w - 2 * (n * t)) * b == 4 * (w * b) - 2 * ((n * t) * b);
    assert 2 * w * b == 2 * (w * b);
  }

  /**
   * For every list of rewards with a positive total the sorted form exceeds the pairwise form by 0 or
   * 1 unit of 10^-6, and they agree exactly when the remainder test holds.
   */
  lemma GiniFormsAgree(s: seq<U64>)
    requires s != [] && Total(s) > 0
    ensures LinearValue(s) == PairwiseValue(s) + if RoundingsAgree(s) then 0 else 1
  {
    hide PairSum, Weighted, SortedCopy, Total;
    var n, t := |s|, Total(s);
    var a, c := 2 * Weighted(SortedCopy(s)) * FIXED_POINT_BASIS, (n + 1) * FIXED_POINT_BASIS;
    var k := a - c * t;
    NumeratorsMatch(s);
    FloorDifference(a, c, n, t, k);
    HalveBoth(k, n * t);
    assert 2 * n * t == 2 * (n * t);
    NonNegativeQuotient(k, n * t);
  }

  lemma NonNegativeQuotient(k: nat, m: nat)
    requires m > 0
    ensures k / m >= 0
  {
  }

  /** They do not always agree: on (0, 0, 1) the pairwise form gives 666666 and the sorted form 666667. */
  lemma GiniFormsCanDiffer()
    ensures Total([0, 0, 1]) > 0
    ensures PairwiseValue([0, 0, 1]) == 666_666 && LinearValue([0, 0, 1]) == 666_667
  {
    hide SortedCopy, Weighted, Total, PairSum;
    SmallSums();
    PairSumSorted([0, 0, 1]);
    NumeratorsMatch([0, 0, 1]);
  }

  lemma SmallSums()
    ensures Weighted([0, 0, 1]) == 3 && Total([0, 0, 1]) == 1
  {
    var s: seq<U64> := [0, 0, 1];
    assert s[..2] == [0, 0] && s[..2][..1] == [0] && [0][..0] == [];
    assert Weighted([0, 0]) == 0 && Total([0, 0]) == 0;
  }
}
