/**
 * The nearest-rank percentile of the metrics summary, the inner `pct` of
 * `metrics_summary` (backend/app/main.py:243-248).  The fraction `p` is an
 * exact rational: 0.5 for the median and 0.95 (19/20) for the 95th
 * percentile.
 */
module Percentile {
  import opened Sorting

  /** The fraction used for `median_latency_ms`. */
  const Median: real := 0.5

  /** The fraction used for `p95_latency_ms`. */
  const P95: real := 0.95

  /**
   * Python's `round(x)` with no digits: to the nearest integer, a tie going
   * to the even neighbour.
   */
  function RoundHalfEven(x: real): (r: int)
    ensures -0.5 <= r as real - x <= 0.5
    ensures (r as real - x == 0.5 || x - r as real == 0.5) ==> r % 2 == 0
    ensures r == x.Floor || r == x.Floor + 1
  {
    var f := x.Floor;
    var frac := x - f as real;
    if frac < 0.5 then f
    else if frac > 0.5 then f + 1
    else if f % 2 == 0 then f
    else f + 1
  }

  /** The two properties of `RoundHalfEven` single out its result. */
  lemma RoundHalfEvenUnique(x: real, k: int)
    requires -0.5 <= k as real - x <= 0.5
    requires (k as real - x == 0.5 || x - k as real == 0.5) ==> k % 2 == 0
    ensures k == RoundHalfEven(x)
  {
  }

  /** Rounding never reverses the order of its arguments. */
  lemma RoundHalfEvenMonotone(x: real, y: real)
    requires x <= y
    ensures RoundHalfEven(x) <= RoundHalfEven(y)
  {
    var fx, fy := x.Floor, y.Floor;
    assert fx <= fy by {
      assert fx as real <= x <= y < fy as real + 1.0;
    }
    if fx == fy {
      assert x - fx as real <= y - fy as real;
    }
  }

  /** A value at or above an integer rounds to at least that integer. */
  lemma RoundAtLeast(x: real, lo: int)
    requires lo as real <= x
    ensures lo <= RoundHalfEven(x)
  {
    assert lo <= x.Floor by {
      assert lo as real - 1.0 <= x - 1.0 < x.Floor as real;
    }
  }

  /** A value at or below an integer rounds to at most that integer. */
  lemma RoundAtMost(x: real, hi: int)
    requires x <= hi as real
    ensures RoundHalfEven(x) <= hi
  {
    var f := x.Floor;
    assert f as real <= x;
    if f == hi {
      assert x == hi as real;
    }
  }

  /** Where the rounded value falls against 0 and against `hi`. */
  lemma RoundAgainstBounds(x: real, hi: int)
    ensures 0.0 <= x ==> 0 <= RoundHalfEven(x)
    ensures x <= 0.0 ==> RoundHalfEven(x) <= 0
    ensures x <= hi as real ==> RoundHalfEven(x) <= hi
    ensures hi as real <= x ==> hi <= RoundHalfEven(x)
  {
    if 0.0 <= x { RoundAtLeast(x, 0); } else { RoundAtMost(x, 0); }
    if x <= hi as real { RoundAtMost(x, hi); } else { RoundAtLeast(x, hi); }
  }

  /** `p * m`: the fractional position of the fraction `p` of a whole `m`. */
  function Scale(p: real, m: nat): real
  {
    p * m as real
  }

  /** Where a fraction of a whole falls, by where the fraction falls. */
  lemma ScaleBounds(p: real, m: nat)
    ensures 0.0 <= p ==> 0.0 <= Scale(p, m)
    ensures p <= 1.0 ==> Scale(p, m) <= m as real
    ensures p <= 0.0 ==> Scale(p, m) <= 0.0
    ensures p >= 1.0 ==> Scale(p, m) >= m as real
  {
    var mr := m as real;
    assert Scale(p, m) - mr == (p - 1.0) * mr;
  }

  /** Scaling by a whole keeps the order of two fractions. */
  lemma ScaleMonotone(p: real, q: real, m: nat)
    requires p <= q
    ensures Scale(p, m) <= Scale(q, m)
  {
    var mr := m as real;
    assert Scale(q, m) - Scale(p, m) == (q - p) * mr;
  }

  /** `min(hi, max(0, k))`. */
  function Clamp(k: int, hi: nat): (r: int)
    ensures 0 <= r <= hi
    ensures 0 <= k <= hi ==> r == k
    ensures k <= 0 ==> r == 0
    ensures k >= hi ==> r == hi
  {
    if hi < (if 0 < k then k else 0) then hi else if 0 < k then k else 0
  }

  /** The integer in [0, hi] nearest to `x`, a tie going to the even one. */
  function NearestRank(x: real, hi: nat): (r: int)
    ensures 0 <= r <= hi
    ensures 0.0 <= x <= hi as real ==> -0.5 <= r as real - x <= 0.5
    ensures 0.0 <= x <= hi as real && (r as real - x == 0.5 || x - r as real == 0.5) ==> r % 2 == 0
    ensures x <= 0.0 ==> r == 0
    ensures hi as real <= x ==> r == hi
  {
    RoundAgainstBounds(x, hi);
    Clamp(RoundHalfEven(x), hi)
  }

  /** The nearest rank never decreases as its argument grows. */
  lemma NearestRankMonotone(x: real, y: real, hi: nat)
    requires x <= y
    ensures NearestRank(x, hi) <= NearestRank(y, hi)
  {
    RoundHalfEvenMonotone(x, y);
  }

  /**
   * `min(n - 1, max(0, int(round(p * (n - 1)))))`: the rank nearest to
   * `p * (n - 1)`, clamped into the list.
   */
  function PctIndex(n: nat, p: real): (r: int)
    requires n > 0
    ensures 0 <= r < n
    ensures 0.0 <= p <= 1.0 ==> -0.5 <= r as real - Scale(p, n - 1) <= 0.5
    ensures 0.0 <= p <= 1.0 && (r as real - Scale(p, n - 1) == 0.5 || Scale(p, n - 1) - r as real == 0.5) ==> r % 2 == 0
    ensures p <= 0.0 ==> r == 0
    ensures p >= 1.0 ==> r == n - 1
  {
    ScaleBounds(p, n - 1);
    NearestRank(Scale(p, n - 1), n - 1)
  }

  /** A larger fraction never selects a smaller rank. */
  lemma PctIndexMonotone(n: nat, p: real, q: real)
    requires n > 0 && p <= q
    ensures PctIndex(n, p) <= PctIndex(n, q)
  {
    ScaleMonotone(p, q, n - 1);
    NearestRankMonotone(Scale(p, n - 1), Scale(q, n - 1), n - 1);
  }

  /** `pct(p)`: the latency at the nearest rank, 0 for an empty list. */
  function Pct(lats: seq<int>, p: real): (r: int)
    ensures |lats| == 0 ==> r == 0
    ensures |lats| > 0 ==> r in lats
    ensures Sorted(lats) && |lats| > 0 ==>
      (forall i :: 0 <= i <= PctIndex(|lats|, p) ==> lats[i] <= r) &&
      (forall i :: PctIndex(|lats|, p) <= i < |lats| ==> r <= lats[i])
  {
    if |lats| == 0 then 0 else lats[PctIndex(|lats|, p)]
  }

  /** On a sorted list, the percentile is monotone in the fraction. */
  lemma PctMonotone(lats: seq<int>, p: real, q: real)
    requires Sorted(lats) && |lats| > 0 && p <= q
    ensures Pct(lats, p) <= Pct(lats, q)
  {
    PctIndexMonotone(|lats|, p, q);
  }

  /** The median never exceeds the 95th percentile. */
  lemma MedianAtMostP95(lats: seq<int>)
    requires Sorted(lats) && |lats| > 0
    ensures Pct(lats, Median) <= Pct(lats, P95)
  {
    PctMonotone(lats, Median, P95);
  }

  /**
   * The percentiles of the sorted latencies are measured latencies, the
   * median never above the 95th percentile.
   */
  lemma SortedPercentiles(measured: seq<int>)
    requires |measured| > 0
    ensures Pct(Sort(measured), Median) in measured
    ensures Pct(Sort(measured), P95) in measured
    ensures Pct(Sort(measured), Median) <= Pct(Sort(measured), P95)
  {
    var lats := Sort(measured);
    MedianAtMostP95(lats);
    assert Pct(lats, Median) in multiset(lats);
    assert Pct(lats, P95) in multiset(lats);
  }

  /** Five latencies 50, 60, 70, 80, 500: median 70, 95th percentile 500. */
  lemma FiveSampleExample()
    ensures Pct([50, 60, 70, 80, 500], Median) == 70
    ensures Pct([50, 60, 70, 80, 500], P95) == 500
  {
    assert RoundHalfEven(2.0) == 2 by { RoundHalfEvenUnique(2.0, 2); }
    assert RoundHalfEven(3.8) == 4 by { RoundHalfEvenUnique(3.8, 4); }
  }

  /**
   * Ties go to the even rank: the median of two latencies is the lower one,
   * the median of four is the third.
   */
  lemma EvenLengthMedians()
    ensures Pct([10, 20], Median) == 10
    ensures Pct([10, 20, 30, 40], Median) == 30
  {
    assert RoundHalfEven(0.5) == 0 by { RoundHalfEvenUnique(0.5, 0); }
    assert RoundHalfEven(1.5) == 2 by { RoundHalfEvenUnique(1.5, 2); }
  }
}
