/** Sums of contiguous parts of a sequence, and the best sums that end just
    before a pivot or start just after it: what both maximum-subarray programs
    compute. */
module SubarraySums {

  /** A subarray as the programs return it: first and last position (both
      included) and its sum. */
  datatype Answer = Answer(start: int, end: int, value: int)

  function Max(x: int, y: int): int {
    if x >= y then x else y
  }

  /** The sum of `a[s]` up to, not including, `a[e]`. */
  function Sum(a: seq<int>, s: int, e: int): int
    requires 0 <= s && e <= |a|
    decreases e - s
  {
    if s >= e then 0 else a[s] + Sum(a, s + 1, e)
  }

  /** A sum splits at any point in between. */
  lemma {:induction false} SumSplit(a: seq<int>, s: int, m: int, e: int)
    requires 0 <= s <= m <= e <= |a|
    ensures Sum(a, s, e) == Sum(a, s, m) + Sum(a, m, e)
    decreases m - s
  {
    if s < m {
      SumSplit(a, s + 1, m, e);
    }
  }

  /** A sum grows by its last cell. */
  lemma SumSnoc(a: seq<int>, s: int, e: int)
    requires 0 <= s < e <= |a|
    ensures Sum(a, s, e) == Sum(a, s, e - 1) + a[e - 1]
  {
    SumSplit(a, s, e - 1, e);
  }

  /** The largest sum of a subarray that starts at or after `lo` and ends at `mid`. */
  function BestLeft(a: seq<int>, lo: int, mid: int): int
    requires 0 <= lo <= mid < |a|
    decreases mid - lo
  {
    if lo == mid then Sum(a, mid, mid + 1) else Max(Sum(a, lo, mid + 1), BestLeft(a, lo + 1, mid))
  }

  /** The largest sum of a subarray that starts at `m` and ends at or before `hi`. */
  function BestRight(a: seq<int>, m: int, hi: int): int
    requires 0 <= m <= hi < |a|
    decreases hi - m
  {
    if hi == m then Sum(a, m, m + 1) else Max(BestRight(a, m, hi - 1), Sum(a, m, hi + 1))
  }

  /** BestLeft is at least every sum it ranges over. */
  lemma {:induction false} BestLeftBound(a: seq<int>, lo: int, mid: int, k: int)
    requires 0 <= lo <= k <= mid < |a|
    ensures Sum(a, k, mid + 1) <= BestLeft(a, lo, mid)
    decreases mid - lo
  {
    if lo < k {
      BestLeftBound(a, lo + 1, mid, k);
    }
  }

  /** BestRight is at least every sum it ranges over. */
  lemma {:induction false} BestRightBound(a: seq<int>, m: int, hi: int, k: int)
    requires 0 <= m <= k <= hi < |a|
    ensures Sum(a, m, k + 1) <= BestRight(a, m, hi)
    decreases hi - m
  {
    if k < hi {
      BestRightBound(a, m, hi - 1, k);
    }
  }

  /** Every subarray across the pivot (from at most `mid` to beyond it; `e` is
      the position after its end) sums to at most the best left part plus the
      best right part. */
  lemma CrossingBound(a: seq<int>, low: int, mid: int, high: int, s: int, e: int)
    requires 0 <= low <= s <= mid && mid + 1 < e <= high + 1 <= |a|
    ensures Sum(a, s, e) <= BestLeft(a, low, mid) + BestRight(a, mid + 1, high)
  {
    SumSplit(a, s, mid + 1, e);
    BestLeftBound(a, low, mid, s);
    BestRightBound(a, mid + 1, high, e - 1);
  }

  /** The subarray from `a[s]` up to, not including, `a[e]` sums to at most `v`. */
  ghost predicate AtMost(a: seq<int>, s: int, e: int, v: int)
    requires 0 <= s && e <= |a|
  {
    Sum(a, s, e) <= v
  }

  /** No subarray of `a[low..high]` (both ends included) sums to more than `v`;
      `e` ranges over the positions just after a subarray's end. */
  ghost predicate Bounds(a: seq<int>, low: int, high: int, v: int)
    requires 0 <= low <= high < |a|
  {
    forall s, e :: low <= s < e <= high + 1 ==> AtMost(a, s, e, v)
  }

  /** `r` is a largest-sum subarray of `a[low..high]`. */
  ghost predicate Best(a: seq<int>, low: int, high: int, r: Answer)
    requires 0 <= low <= high < |a|
  {
    low <= r.start <= r.end <= high && r.value == Sum(a, r.start, r.end + 1) && Bounds(a, low, high, r.value)
  }

  /** A value at least the bounds of both halves and at least the best left part
      plus the best right part of the pivot bounds the whole range. */
  lemma Combine(a: seq<int>, low: int, mid: int, high: int, l: int, h: int, c: int, v: int)
    requires 0 <= low <= mid < high < |a|
    requires Bounds(a, low, mid, l) && Bounds(a, mid + 1, high, h)
    requires c >= BestLeft(a, low, mid) + BestRight(a, mid + 1, high)
    requires v >= l && v >= h && v >= c
    ensures Bounds(a, low, high, v)
  {
    forall s, e | low <= s < e <= high + 1 ensures AtMost(a, s, e, v) {
      if e <= mid + 1 {
        assert AtMost(a, s, e, l);
      } else if mid < s {
        assert AtMost(a, s, e, h);
      } else {
        CrossingBound(a, low, mid, high, s, e);
      }
    }
  }
}
