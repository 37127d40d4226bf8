/** The divide-and-conquer maximum subarray of max_subarray.cpp, whose crossing
    search starts its best sums at INT_MIN. */
module MaxSubarray {
  import opened SubarraySums

  /** INT_MIN of a 32-bit int. */
  const IntMin := -0x8000_0000

  /** maxCrossingSubArray: the best sum ending at `mid`, scanning down to `low`,
      plus the best sum starting at `mid + 1`, scanning up to `high`; a later
      position replaces the best only on a strictly larger sum. The answer spans
      the pivot, holds the sum it reports, and that sum is the best left part
      plus the best right part, which no subarray across the pivot exceeds
      (CrossingBound). */
  method MaxCrossingSubArray(a: seq<int>, low: int, mid: int, high: int) returns (r: Answer)
    requires 0 <= low <= mid < high < |a| && a[mid] > IntMin && a[mid + 1] > IntMin
    ensures low <= r.start <= mid < r.end <= high && r.value == Sum(a, r.start, r.end + 1)
    ensures r.value == BestLeft(a, low, mid) + BestRight(a, mid + 1, high)
  {
    var leftSum, rightSum, sum := IntMin, IntMin, 0;
    // The source leaves maxLeft and maxRight unset: the first step of each scan sets them.
    var maxLeft, maxRight := mid, mid + 1;
    var i := mid;
    while i >= low
      invariant low - 1 <= i <= mid && sum == Sum(a, i + 1, mid + 1)
      invariant i == mid ==> leftSum == IntMin
      invariant i < mid ==> leftSum == BestLeft(a, i + 1, mid) && i < maxLeft <= mid &&
                            Sum(a, maxLeft, mid + 1) == leftSum
    {
      sum := sum + a[i];
      if sum > leftSum {
        leftSum := sum;
        maxLeft := i;
      }
      i := i - 1;
    }
    sum := 0;
    i := mid + 1;
    while i <= high
      invariant mid + 1 <= i <= high + 1 && sum == Sum(a, mid + 1, i)
      invariant i == mid + 1 ==> rightSum == IntMin
      invariant i > mid + 1 ==> rightSum == BestRight(a, mid + 1, i - 1) && mid < maxRight < i &&
                                Sum(a, mid + 1, maxRight + 1) == rightSum
    {
      SumSnoc(a, mid + 1, i + 1);
      sum := sum + a[i];
      if sum > rightSum {
        rightSum := sum;
        maxRight := i;
      }
      i := i + 1;
    }
    r := Answer(maxLeft, maxRight, leftSum + rightSum);
    SumSplit(a, maxLeft, mid + 1, maxRight + 1);
  }

  /** maxSubArray: a single cell is its own answer; otherwise the better of the
      two halves' answers and the crossing answer, in that order on ties. The
      answer is a largest-sum subarray of `a[low..high]`. */
  method MaxSubArray(a: seq<int>, low: int, high: int) returns (r: Answer)
    requires 0 <= low <= high < |a| && forall k :: low <= k <= high ==> a[k] > IntMin
    ensures Best(a, low, high, r)
    ensures low == high ==> r == Answer(low, high, a[low])
    decreases high - low
  {
    if low == high {
      return Answer(low, high, a[low]);
    }
    var mid := (low + high) / 2;
    var lRes := MaxSubArray(a, low, mid);
    var hRes := MaxSubArray(a, mid + 1, high);
    var cRes := MaxCrossingSubArray(a, low, mid, high);
    if lRes.value >= hRes.value && lRes.value >= cRes.value {
      r := lRes;
    } else if hRes.value >= lRes.value && hRes.value >= cRes.value {
      r := hRes;
    } else {
      r := cRes;
    }
    Combine(a, low, mid, high, lRes.value, hRes.value, cRes.value, r.value);
  }
}
