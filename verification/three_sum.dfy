/** The 3-sum count of princeton_algs_1/3sum_analysis/Test_2.java: sort the
    array, then for each first position walk two pointers towards each other
    over the rest, counting the zero sums met on the way. The sums are Java
    `int` sums, which wrap around. */
module ThreeSum {
  import opened SortSpec
  import InsertionSort

  const IntMin := -0x8000_0000
  const IntMax := 0x7fff_ffff

  /** Java's `int` addition: the exact sum brought back into the `int` range
      modulo 2^32. */
  function Wrap(x: int): (r: int)
    ensures IntMin <= r <= IntMax
    ensures IntMin <= x <= IntMax ==> r == x
  {
    (x - IntMin) % 0x1_0000_0000 + IntMin
  }

  /** No three values sum to beyond the `int` range. */
  ghost predicate NoOverflow(s: seq<int>) {
    forall v :: v in s ==> -0x2aaa_aaaa <= v <= 0x2aaa_aaaa
  }

  /** No value occurs twice. */
  ghost predicate Distinct(s: seq<int>) {
    forall v :: multiset(s)[v] <= 1
  }

  // ---------------------------------------------------------------------------
  // What is counted

  /** How many `q` with `lo <= q < hi` make a zero sum with the cells `i` and `j`. */
  function Row(s: seq<int>, i: int, j: int, lo: int, hi: int): nat
    requires 0 <= i < |s| && 0 <= j < |s| && 0 <= lo && hi <= |s|
    decreases hi - lo
  {
    if hi <= lo then 0 else Row(s, i, j, lo, hi - 1) + (if s[i] + s[j] + s[hi - 1] == 0 then 1 else 0)
  }

  /** How many `p` with `lo <= p < hi` make a zero sum with the cells `i` and `k`. */
  function Col(s: seq<int>, i: int, k: int, lo: int, hi: int): nat
    requires 0 <= i < |s| && 0 <= k < |s| && 0 <= lo && hi <= |s|
    decreases hi - lo
  {
    if hi <= lo then 0 else (if s[i] + s[lo] + s[k] == 0 then 1 else 0) + Col(s, i, k, lo + 1, hi)
  }

  /** How many pairs `j <= p < q <= k` make a zero sum with the cell `i`. */
  function Pairs(s: seq<int>, i: int, j: int, k: int): nat
    requires 0 <= i < |s| && 0 <= j && k < |s|
    decreases k - j
  {
    if j >= k then 0 else Row(s, i, j, j + 1, k + 1) + Pairs(s, i, j + 1, k)
  }

  /** How many index triples `i < j < k` with `i < n` have a zero sum. */
  function Triples(s: seq<int>, n: int): nat
    requires 0 <= n <= Rounds(|s|)
  {
    if n == 0 then 0 else Triples(s, n - 1) + Pairs(s, n - 1, n, |s| - 1)
  }

  /** How many first positions the outer loop tries: `i < N - 2`. */
  function Rounds(n: int): int {
    if n >= 2 then n - 2 else 0
  }

  /** The number of index triples `i < j < k` whose values sum to zero. */
  function ZeroTriples(s: seq<int>): nat {
    Triples(s, Rounds(|s|))
  }

  // ---------------------------------------------------------------------------
  // What the two pointers count

  /** The inner loop from the pointers `j` and `k`: a zero sum counts one, a sum
      at most zero moves `j` up, a larger one moves `k` down. */
  function Scan(s: seq<int>, i: int, j: int, k: int): nat
    requires 0 <= i < |s| && 0 <= j && k < |s|
    decreases k - j
  {
    if j >= k then 0
    else
      var sum := Wrap(s[i] + s[j] + s[k]);
      (if sum == 0 then 1 else 0) + (if sum <= 0 then Scan(s, i, j + 1, k) else Scan(s, i, j, k - 1))
  }

  /** The outer loop's count after the first positions `0` to `n - 1`. */
  function TwoPointer(s: seq<int>, n: int): nat
    requires 0 <= n <= Rounds(|s|)
  {
    if n == 0 then 0 else TwoPointer(s, n - 1) + Scan(s, n - 1, n, |s| - 1)
  }

  /** count: sorts the caller's array in place (any sort meets the contract of
      Arrays.sort; insertion sort stands in for it) and counts as the two
      pointers do on the sorted values. */
  method Count(a: array<int>) returns (count: int)
    modifies a
    ensures Sorted(a[..]) && multiset(a[..]) == old(multiset(a[..]))
    ensures count == TwoPointer(a[..], Rounds(a.Length))
  {
    InsertionSort.InsertionSort(a);
    count := CountSorted(a);
  }

  /** The loops of count after the sort: for each first position `i < N - 2`
      the pointers start at `i + 1` and `N - 1` and meet. Fewer than three cells
      count 0. */
  method CountSorted(a: array<int>) returns (count: int)
    ensures count == TwoPointer(a[..], Rounds(a.Length))
    ensures a.Length < 3 ==> count == 0
  {
    var n := a.Length;
    count := 0;
    var i := 0;
    while i < n - 2
      invariant 0 <= i <= Rounds(n) && count == TwoPointer(a[..], i)
    {
      var j, k := i + 1, n - 1;
      while j < k
        invariant i < j <= k + 1 && k <= n - 1 && j <= n - 1
        invariant count + Scan(a[..], i, j, k) == TwoPointer(a[..], i) + Scan(a[..], i, i + 1, n - 1)
        decreases k - j
      {
        var sum := Wrap(a[i] + a[j] + a[k]);
        if sum == 0 {
          count := count + 1;
        }
        if sum <= 0 {
          j := j + 1;
        } else {
          k := k - 1;
        }
      }
      i := i + 1;
    }
  }

  // ---------------------------------------------------------------------------
  // When the two pointers count right

  /** A row without zero sums counts nothing. */
  lemma {:induction false} RowNone(s: seq<int>, i: int, j: int, lo: int, hi: int)
    requires 0 <= i < |s| && 0 <= j < |s| && 0 <= lo && hi <= |s|
    requires forall q :: lo <= q < hi ==> s[i] + s[j] + s[q] != 0
    ensures Row(s, i, j, lo, hi) == 0
    decreases hi - lo
  {
    if lo < hi {
      RowNone(s, i, j, lo, hi - 1);
    }
  }

  /** A column without zero sums counts nothing. */
  lemma {:induction false} ColNone(s: seq<int>, i: int, k: int, lo: int, hi: int)
    requires 0 <= i < |s| && 0 <= k < |s| && 0 <= lo && hi <= |s|
    requires forall p :: lo <= p < hi ==> s[i] + s[p] + s[k] != 0
    ensures Col(s, i, k, lo, hi) == 0
    decreases hi - lo
  {
    if lo < hi {
      ColNone(s, i, k, lo + 1, hi);
    }
  }

  /** The pairs of `j..k` are those with `k` as their second cell and the pairs
      of `j..k - 1`. */
  lemma {:induction false} PairsByColumn(s: seq<int>, i: int, j: int, k: int)
    requires 0 <= i < |s| && 0 <= j < k < |s|
    ensures Pairs(s, i, j, k) == Col(s, i, k, j, k) + Pairs(s, i, j, k - 1)
    decreases k - j
  {
    assert Row(s, i, j, j + 1, k + 1) == Row(s, i, j, j + 1, k) + (if s[i] + s[j] + s[k] == 0 then 1 else 0);
    assert Col(s, i, k, j, k) == (if s[i] + s[j] + s[k] == 0 then 1 else 0) + Col(s, i, k, j + 1, k);
    if j + 1 < k {
      PairsByColumn(s, i, j + 1, k);
    }
  }

  /** On sorted values without overflow, each step of the scan skips only
      pairs that cannot sum to zero, given that a zero sum means the pointers'
      values are met nowhere else in between (distinct values). */
  lemma {:induction false} ScanCounts(s: seq<int>, i: int, j: int, k: int)
    requires Sorted(s) && Distinct(s) && NoOverflow(s)
    requires 0 <= i < |s| && 0 <= j && k < |s|
    ensures Scan(s, i, j, k) == Pairs(s, i, j, k)
    decreases k - j
  {
    if j < k {
      assert s[i] in s && s[j] in s && s[k] in s;
      var sum := s[i] + s[j] + s[k];
      assert Wrap(sum) == sum;
      if sum < 0 {
        PairsBelow(s, i, j, k);
        ScanCounts(s, i, j + 1, k);
      } else if sum == 0 {
        PairsAtZero(s, i, j, k);
        ScanCounts(s, i, j + 1, k);
      } else {
        PairsAbove(s, i, j, k);
        ScanCounts(s, i, j, k - 1);
      }
    }
  }

  /** A negative sum at `j` and `k` rules out `j` with every cell up to `k`. */
  lemma PairsBelow(s: seq<int>, i: int, j: int, k: int)
    requires Sorted(s) && 0 <= i < |s| && 0 <= j < k < |s| && s[i] + s[j] + s[k] < 0
    ensures Pairs(s, i, j, k) == Pairs(s, i, j + 1, k)
  {
    RowNone(s, i, j, j + 1, k + 1);
  }

  /** With distinct values, a zero sum at `j` and `k` is the only zero sum of
      `j` with a cell up to `k`. */
  lemma PairsAtZero(s: seq<int>, i: int, j: int, k: int)
    requires Sorted(s) && Distinct(s) && 0 <= i < |s| && 0 <= j < k < |s| && s[i] + s[j] + s[k] == 0
    ensures Pairs(s, i, j, k) == 1 + Pairs(s, i, j + 1, k)
  {
    forall q | j + 1 <= q < k ensures s[i] + s[j] + s[q] != 0 {
      DistinctBelow(s, q, k);
    }
    RowNone(s, i, j, j + 1, k);
  }

  /** A positive sum at `j` and `k` rules out `k` with every cell from `j`. */
  lemma PairsAbove(s: seq<int>, i: int, j: int, k: int)
    requires Sorted(s) && 0 <= i < |s| && 0 <= j < k < |s| && s[i] + s[j] + s[k] > 0
    ensures Pairs(s, i, j, k) == Pairs(s, i, j, k - 1)
  {
    ColNone(s, i, k, j, k);
    PairsByColumn(s, i, j, k);
  }

  /** In a sorted sequence of distinct values an earlier cell is smaller. */
  lemma DistinctBelow(s: seq<int>, p: int, q: int)
    requires Sorted(s) && Distinct(s) && 0 <= p < q < |s|
    ensures s[p] < s[q]
  {
    TwoCopies(s, p, q);
  }

  /** Two equal cells make two copies of their value. */
  lemma TwoCopies(s: seq<int>, p: int, q: int)
    requires 0 <= p < q < |s|
    ensures s[p] == s[q] ==> multiset(s)[s[p]] >= 2
  {
    assert s == s[..p] + [s[p]] + s[p + 1..q] + [s[q]] + s[q + 1..];
  }

  /** On sorted distinct values without overflow the outer loop counts every
      zero triple of its first positions. */
  lemma {:induction false} TwoPointerCounts(s: seq<int>, n: int)
    requires Sorted(s) && Distinct(s) && NoOverflow(s) && 0 <= n <= Rounds(|s|)
    ensures TwoPointer(s, n) == Triples(s, n)
  {
    if n > 0 {
      TwoPointerCounts(s, n - 1);
      ScanCounts(s, n - 1, n, |s| - 1);
    }
  }

  /** For distinct values small enough not to overflow, count is the number of
      zero-sum index triples of the sorted array; the sort keeps the values, so
      whether they are distinct and small is a property of the input. */
  lemma CountDistinct(a: seq<int>, sorted: seq<int>)
    requires Sorted(sorted) && multiset(sorted) == multiset(a) && Distinct(a) && NoOverflow(a)
    ensures TwoPointer(sorted, Rounds(|sorted|)) == ZeroTriples(sorted)
  {
    assert forall v :: v in sorted ==> v in multiset(a);
    assert forall v :: v in multiset(a) ==> v in a;
    TwoPointerCounts(sorted, Rounds(|sorted|));
  }

  /** [-2, 1, 1, 1]: three triples sum to zero, the scan counts two; after
      counting (0, 1, 3) it moves `j` up and never pairs cell 1 with cell 2. */
  lemma RepeatedValuesUndercount()
    ensures TwoPointer([-2, 1, 1, 1], Rounds(4)) == 2
    ensures ZeroTriples([-2, 1, 1, 1]) == 3
  {
    var s := [-2, 1, 1, 1];
    assert Scan(s, 0, 3, 3) == 0 && Scan(s, 0, 2, 3) == 1 && Scan(s, 0, 1, 3) == 2;
    assert Scan(s, 1, 2, 2) == 0 && Scan(s, 1, 2, 3) == 0;
    assert Row(s, 0, 1, 2, 4) == 2 && Row(s, 0, 2, 3, 4) == 1;
    assert Pairs(s, 0, 1, 3) == 3;
    assert Row(s, 1, 2, 3, 4) == 0 && Pairs(s, 1, 2, 3) == 0;
  }

  // ---------------------------------------------------------------------------
  // The count corrected for repeated values

  /** How many cells from `q` down to just after `j` hold the value of cell `k`,
      stopping at the first that does not. */
  function RunFrom(s: seq<int>, j: int, k: int, q: int): nat
    requires 0 <= j && 0 <= k < |s| && q < |s|
    decreases q - j
  {
    if q <= j || s[q] != s[k] then 0 else 1 + RunFrom(s, j, k, q - 1)
  }

  /** The scan corrected: a zero sum counts every cell from `k` down that holds
      the same value as `k`, each of which pairs with `j`. */
  function ScanAll(s: seq<int>, i: int, j: int, k: int): nat
    requires 0 <= i < |s| && 0 <= j && k < |s|
    decreases k - j
  {
    if j >= k then 0
    else
      var sum := Wrap(s[i] + s[j] + s[k]);
      if sum == 0 then RunFrom(s, j, k, k) + ScanAll(s, i, j + 1, k)
      else if sum < 0 then ScanAll(s, i, j + 1, k)
      else ScanAll(s, i, j, k - 1)
  }

  function TwoPointerAll(s: seq<int>, n: int): nat
    requires 0 <= n <= Rounds(|s|)
  {
    if n == 0 then 0 else TwoPointerAll(s, n - 1) + ScanAll(s, n - 1, n, |s| - 1)
  }

  /** The cells that pair with `j` to a zero sum with `i` are the run of cells
      equal to `k` that ends at `k`. */
  lemma {:induction false} RunIsRow(s: seq<int>, i: int, j: int, k: int, q: int)
    requires Sorted(s) && 0 <= i < |s| && 0 <= j <= q <= k < |s| && s[i] + s[j] + s[k] == 0
    ensures RunFrom(s, j, k, q) == Row(s, i, j, j + 1, q + 1)
    decreases q - j
  {
    if q > j {
      if s[q] != s[k] {
        RowNone(s, i, j, j + 1, q + 1);
      } else {
        RunIsRow(s, i, j, k, q - 1);
      }
    }
  }

  /** On sorted values without overflow the corrected scan counts every pair. */
  lemma {:induction false} ScanAllCounts(s: seq<int>, i: int, j: int, k: int)
    requires Sorted(s) && NoOverflow(s)
    requires 0 <= i < |s| && 0 <= j && k < |s|
    ensures ScanAll(s, i, j, k) == Pairs(s, i, j, k)
    decreases k - j
  {
    if j < k {
      assert s[i] in s && s[j] in s && s[k] in s;
      var sum := s[i] + s[j] + s[k];
      assert Wrap(sum) == sum;
      if sum < 0 {
        RowNone(s, i, j, j + 1, k + 1);
        ScanAllCounts(s, i, j + 1, k);
      } else if sum == 0 {
        RunIsRow(s, i, j, k, k);
        ScanAllCounts(s, i, j + 1, k);
      } else {
        ColNone(s, i, k, j, k);
        PairsByColumn(s, i, j, k);
        ScanAllCounts(s, i, j, k - 1);
      }
    }
  }

  lemma {:induction false} TwoPointerAllCounts(s: seq<int>, n: int)
    requires Sorted(s) && NoOverflow(s) && 0 <= n <= Rounds(|s|)
    ensures TwoPointerAll(s, n) == Triples(s, n)
  {
    if n > 0 {
      TwoPointerAllCounts(s, n - 1);
      ScanAllCounts(s, n - 1, n, |s| - 1);
    }
  }

  /** The length of the run of cells equal to `k` that ends at `k`, after `j`. */
  method RunLength(a: array<int>, j: int, k: int) returns (r: int)
    requires 0 <= j < k < a.Length
    ensures r == RunFrom(a[..], j, k, k)
  {
    var q := k;
    r := 0;
    while q > j && a[q] == a[k]
      invariant j <= q <= k && r + RunFrom(a[..], j, k, q) == RunFrom(a[..], j, k, k)
      decreases q
    {
      r := r + 1;
      q := q - 1;
    }
  }

  /** count with repeated values handled: on a zero sum it adds the whole run of
      cells equal to `k` before moving `j` up. For values small enough not to
      overflow it counts every zero-sum index triple of the sorted array. */
  method CountAll(a: array<int>) returns (count: int)
    modifies a
    ensures Sorted(a[..]) && multiset(a[..]) == old(multiset(a[..]))
    ensures NoOverflow(old(a[..])) ==> count == ZeroTriples(a[..])
  {
    InsertionSort.InsertionSort(a);
    count := CountAllSorted(a);
    if NoOverflow(old(a[..])) {
      assert forall v :: v in a[..] ==> v in multiset(old(a[..]));
      assert forall v :: v in multiset(old(a[..])) ==> v in old(a[..]);
      TwoPointerAllCounts(a[..], Rounds(a.Length));
    }
  }

  /** The loops of the corrected count. */
  method CountAllSorted(a: array<int>) returns (count: int)
    ensures count == TwoPointerAll(a[..], Rounds(a.Length))
  {
    var n := a.Length;
    count := 0;
    var i := 0;
    while i < n - 2
      invariant 0 <= i <= Rounds(n) && count == TwoPointerAll(a[..], i)
    {
      var found := ScanAllRound(a, i);
      count := count + found;
      i := i + 1;
    }
  }

  /** One round of the corrected inner loop: the pointers start at `i + 1` and
      `N - 1` and meet. */
  method ScanAllRound(a: array<int>, i: int) returns (count: int)
    requires 0 <= i < a.Length
    ensures count == ScanAll(a[..], i, i + 1, a.Length - 1)
  {
    ghost var s := a[..];
    var j, k := i + 1, a.Length - 1;
    count := 0;
    while j < k
      invariant i < j <= k + 1 && k <= a.Length - 1 && j <= a.Length
      invariant count + ScanAll(s, i, j, k) == ScanAll(s, i, i + 1, a.Length - 1)
      decreases k - j
    {
      var sum := Wrap(a[i] + a[j] + a[k]);
      assert sum == Wrap(s[i] + s[j] + s[k]);
      if sum == 0 {
        var run := RunLength(a, j, k);
        count := count + run;
        j := j + 1;
      } else if sum < 0 {
        j := j + 1;
      } else {
        k := k - 1;
      }
    }
  }
}
