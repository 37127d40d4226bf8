/** The divide-and-conquer maximum subarray of
    divide_and_conquest/maximum_subarray.cpp, whose crossing search starts its
    best sums at the sentinel NINF = -10^8 rather than below every sum. */
module DivideAndConquerSubarray {
  import opened SubarraySums

  /** NINF, the sentinel the source starts both best sums at. */
  const Ninf := -100000000

  /** The subarray from `a[s]` up to, not including, `a[e]` sums to more than
      `floor`. */
  ghost predicate Exceeds(a: seq<int>, s: int, e: int, floor: int)
    requires 0 <= s && e <= |a|
  {
    Sum(a, s, e) > floor
  }

  /** The sums of `a[low..high]` all exceed `floor`. */
  ghost predicate Above(a: seq<int>, low: int, high: int, floor: int)
    requires 0 <= low <= high < |a|
  {
    forall s, e :: low <= s < e <= high + 1 ==> Exceeds(a, s, e, floor)
  }

  /** across: the running sums down from `mid` and up from `mid + 1`, each best
      starting at `floor` (the source's NINF) with its position at `mid` or
      `mid + 1`, replaced only on a strictly larger sum. A side whose sums never
      exceed `floor` reports `floor`, which is then not a sum of the part it
      names. */
  method Across(a: seq<int>, low: int, mid: int, high: int, floor: int) returns (r: Answer)
    requires 0 <= low <= mid < high < |a|
    ensures low <= r.start <= mid < r.end <= high
    ensures r.value == Max(BestLeft(a, low, mid), floor) + Max(BestRight(a, mid + 1, high), floor)
    ensures BestLeft(a, low, mid) > floor && BestRight(a, mid + 1, high) > floor ==>
            r.value == Sum(a, r.start, r.end + 1)
  {
    var leftRunningSum, leftMaxSum, leftIndex := 0, floor, mid;
    var i := leftIndex;
    while i >= low
      invariant low - 1 <= i <= mid && leftRunningSum == Sum(a, i + 1, mid + 1) && leftMaxSum >= floor
      invariant i == mid ==> leftMaxSum == floor && leftIndex == mid
      invariant i < mid ==> leftMaxSum == Max(BestLeft(a, i + 1, mid), floor)
      invariant leftMaxSum > floor ==> i < leftIndex <= mid && Sum(a, leftIndex, mid + 1) == leftMaxSum
      invariant leftMaxSum == floor ==> leftIndex == mid
    {
      leftRunningSum := leftRunningSum + a[i];
      if leftRunningSum > leftMaxSum {
        leftMaxSum := leftRunningSum;
        leftIndex := i;
      }
      i := i - 1;
    }
    var rightRunningSum, rightMaxSum, rightIndex := 0, floor, mid + 1;
    i := rightIndex;
    while i <= high
      invariant mid + 1 <= i <= high + 1 && rightRunningSum == Sum(a, mid + 1, i) && rightMaxSum >= floor
      invariant i == mid + 1 ==> rightMaxSum == floor && rightIndex == mid + 1
      invariant i > mid + 1 ==> rightMaxSum == Max(BestRight(a, mid + 1, i - 1), floor)
      invariant rightMaxSum > floor ==> mid < rightIndex < i && Sum(a, mid + 1, rightIndex + 1) == rightMaxSum
      invariant rightMaxSum == floor ==> rightIndex == mid + 1
    {
      SumSnoc(a, mid + 1, i + 1);
      rightRunningSum := rightRunningSum + a[i];
      if rightRunningSum > rightMaxSum {
        rightMaxSum := rightRunningSum;
        rightIndex := i;
      }
      i := i + 1;
    }
    r := Answer(leftIndex, rightIndex, leftMaxSum + rightMaxSum);
    SumSplit(a, leftIndex, mid + 1, rightIndex + 1);
  }

  /** daq: a single cell is its own answer; otherwise the better of the two
      halves' answers and the crossing answer, in that order on ties. The
      answer lies in `a[low..high]` and no subarray there sums to more than its
      value. With two cells or more the value is at least twice `floor`, the
      least the crossing answer can report; when every sum exceeds `floor` the
      value is the answer's own sum, so the answer is a largest-sum subarray. */
  method Daq(a: seq<int>, low: int, high: int, floor: int) returns (r: Answer)
    requires 0 <= low <= high < |a|
    ensures low <= r.start <= r.end <= high && Bounds(a, low, high, r.value)
    ensures low < high ==> r.value >= floor + floor
    ensures Above(a, low, high, floor) ==> r.value == Sum(a, r.start, r.end + 1)
    decreases high - low
  {
    if low == high {
      assert Sum(a, low, low + 1) == a[low];
      return Answer(low, high, a[low]);
    }
    var mid := (low + high) / 2;
    var left := Daq(a, low, mid, floor);
    var right := Daq(a, mid + 1, high, floor);
    var acr := Across(a, low, mid, high, floor);
    if left.value >= right.value && left.value >= acr.value {
      r := left;
    } else if right.value >= left.value && right.value >= acr.value {
      r := right;
    } else {
      r := acr;
    }
    Combine(a, low, mid, high, left.value, right.value, acr.value, r.value);
    Achieves(a, low, mid, high, floor, left, right, acr, r);
  }

  /** When every sum of the range exceeds `floor`, each of the three answers daq
      chooses from holds the sum it reports. */
  lemma Achieves(a: seq<int>, low: int, mid: int, high: int, floor: int, l: Answer, h: Answer, c: Answer, r: Answer)
    requires 0 <= low <= mid < high < |a|
    requires low <= l.start <= l.end <= mid && mid < h.start <= h.end <= high && low <= c.start <= c.end <= high
    requires Above(a, low, mid, floor) ==> l.value == Sum(a, l.start, l.end + 1)
    requires Above(a, mid + 1, high, floor) ==> h.value == Sum(a, h.start, h.end + 1)
    requires BestLeft(a, low, mid) > floor && BestRight(a, mid + 1, high) > floor ==>
             c.value == Sum(a, c.start, c.end + 1)
    requires r == l || r == h || r == c
    ensures Above(a, low, high, floor) ==> r.value == Sum(a, r.start, r.end + 1)
  {
    if Above(a, low, high, floor) {
      AboveSplit(a, low, mid, high, floor);
    }
  }

  /** The halves of a range whose sums exceed `floor` have that property too, and
      so do the best sums on both sides of the pivot. */
  lemma AboveSplit(a: seq<int>, low: int, mid: int, high: int, floor: int)
    requires 0 <= low <= mid < high < |a| && Above(a, low, high, floor)
    ensures Above(a, low, mid, floor) && Above(a, mid + 1, high, floor)
    ensures BestLeft(a, low, mid) > floor && BestRight(a, mid + 1, high) > floor
  {
    assert Exceeds(a, mid, mid + 1, floor) && Exceeds(a, mid + 1, mid + 2, floor);
    BestLeftBound(a, low, mid, mid);
    BestRightBound(a, mid + 1, high, mid + 1);
  }

  /** With both cells at -3 * 10^8 (each a 32-bit int, as is their sum), neither
      side of the crossing search rises above NINF: daq's answer is worth at
      least -2 * 10^8, more than the sum of every subarray, its own included. */
  method NinfCounterexample() returns (r: Answer)
    ensures var a := [-300000000, -300000000];
            0 <= r.start <= r.end <= 1 && r.value >= -200000000 &&
            forall s, e :: 0 <= s < e <= 2 ==> Sum(a, s, e) < r.value
  {
    var a := [-300000000, -300000000];
    r := Daq(a, 0, 1, Ninf);
    assert Sum(a, 0, 2) == -600000000;
  }

  /** The negated sum of the magnitudes of `a[s..e]`, less one. */
  function Floor(a: seq<int>, s: int, e: int): (f: int)
    requires 0 <= s && e <= |a|
    ensures f < 0
    decreases e - s
  {
    if s >= e then -1 else Floor(a, s + 1, e) - (if a[s] < 0 then -a[s] else a[s])
  }

  /** Floor lies below every sum inside its range. */
  lemma {:induction false} FloorBelow(a: seq<int>, s: int, e: int, s': int, e': int)
    requires 0 <= s <= s' <= e' <= e <= |a|
    ensures Floor(a, s, e) < Sum(a, s', e')
    decreases e - s, e - e'
  {
    if s < s' {
      FloorBelow(a, s + 1, e, s', e');
    } else if e' < e {
      FloorDrop(a, s, e);
      FloorBelow(a, s, e - 1, s', e');
    } else if s < e {
      FloorBelow(a, s + 1, e, s + 1, e);
    }
  }

  /** Dropping the last cell does not lower Floor. */
  lemma {:induction false} FloorDrop(a: seq<int>, s: int, e: int)
    requires 0 <= s < e <= |a|
    ensures Floor(a, s, e) <= Floor(a, s, e - 1)
    decreases e - s
  {
    if s < e - 1 {
      FloorDrop(a, s + 1, e);
    }
  }

  /** daq with its best sums started below every sum of the range, as NINF is
      evidently meant to be: its answer is always a largest-sum subarray. */
  method DaqBelowEverySum(a: seq<int>, low: int, high: int) returns (r: Answer)
    requires 0 <= low <= high < |a|
    ensures Best(a, low, high, r)
  {
    var floor := Floor(a, low, high + 1);
    forall s, e | low <= s < e <= high + 1 ensures Exceeds(a, s, e, floor) {
      FloorBelow(a, low, high + 1, s, e);
    }
    r := Daq(a, low, high, floor);
  }

  /** daq as the source calls it, with NINF; when every sum of the range exceeds
      NINF its answer is a largest-sum subarray. */
  method DaqWithNinf(a: seq<int>, low: int, high: int) returns (r: Answer)
    requires 0 <= low <= high < |a|
    ensures low <= r.start <= r.end <= high && Bounds(a, low, high, r.value)
    ensures Above(a, low, high, Ninf) ==> Best(a, low, high, r)
  {
    r := Daq(a, low, high, Ninf);
  }
}
