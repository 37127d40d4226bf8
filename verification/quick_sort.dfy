/** The quicksort of sorting/quick/quick.cpp: the first cell of the range is the
    pivot; an up scan and a down scan exchange the cells on the wrong side of it,
    the pivot is put between the two sides, and each side is sorted in turn. */
module QuickSort {
  import opened SeqFacts
  import opened SortSpec

  /** The up scan: the first index from `i` on that is past `hi` or holds a cell no
      smaller than the pivot `s[lo]`. */
  function ScanUpFrom(s: seq<int>, lo: int, hi: int, i: int): (r: int)
    requires 0 <= lo < i <= hi + 1 <= |s|
    ensures i <= r <= hi + 1
    ensures forall k :: i <= k < r ==> s[k] < s[lo]
    ensures r <= hi ==> s[r] >= s[lo]
    decreases hi + 1 - i
  {
    if i <= hi && s[i] < s[lo] then ScanUpFrom(s, lo, hi, i + 1) else i
  }

  /** The down scan: the first index from `j` down that is the pivot's own or holds
      a cell no larger than the pivot `s[lo]`. */
  function ScanDownFrom(s: seq<int>, lo: int, j: int): (r: int)
    requires 0 <= lo <= j < |s|
    ensures lo <= r <= j
    ensures forall k :: r < k <= j ==> s[k] > s[lo]
    ensures r > lo ==> s[r] <= s[lo]
    decreases j - lo
  {
    if j > lo && s[j] > s[lo] then ScanDownFrom(s, lo, j - 1) else j
  }

  /** The first inner loop of the partition. */
  method ScanUp(list: array<int>, lo: int, hi: int, i0: int) returns (i: int)
    requires 0 <= lo < i0 <= hi + 1 <= list.Length
    ensures i == ScanUpFrom(list[..], lo, hi, i0)
  {
    i := i0;
    while i <= hi && list[i] < list[lo]
      invariant i0 <= i <= hi + 1
      invariant ScanUpFrom(list[..], lo, hi, i) == ScanUpFrom(list[..], lo, hi, i0)
      decreases hi + 1 - i
    {
      i := i + 1;
    }
  }

  /** The second inner loop of the partition. */
  method ScanDown(list: array<int>, lo: int, j0: int) returns (j: int)
    requires 0 <= lo <= j0 < list.Length
    ensures j == ScanDownFrom(list[..], lo, j0)
  {
    j := j0;
    while j > lo && list[j] > list[lo]
      invariant lo <= j <= j0
      invariant ScanDownFrom(list[..], lo, j) == ScanDownFrom(list[..], lo, j0)
      decreases j
    {
      j := j - 1;
    }
  }

  /** quickSort, after its shuffle: the whole list is partitioned and sorted. The
      result is a sorted permutation. */
  method QuickSort(list: array<int>)
    modifies list
    ensures Sorted(list[..]) && multiset(list[..]) == old(multiset(list[..]))
  {
    PartitionAndSort(list, 0, list.Length - 1);
  }

  /** partitionAndSort: a range of two or more cells is partitioned around its
      first cell, then the cells before and after the pivot are sorted. The range
      `lo..hi` (inclusive) ends sorted, its cells permuted, and nothing outside it
      changes. */
  method PartitionAndSort(list: array<int>, lo: int, hi: int)
    modifies list
    requires 0 <= lo <= hi + 1 <= list.Length
    ensures SortedRange(list[..], lo, hi + 1)
    ensures multiset(list[..]) == old(multiset(list[..])) && SameOutside(list[..], old(list[..]), lo, hi + 1)
    decreases hi - lo
  {
    if lo < hi {
      ghost var s := list[..];
      var j := Partition(list, lo, hi);
      ghost var t := list[..];
      PartitionAndSort(list, lo, j - 1);
      ghost var u := list[..];
      PartitionAndSort(list, j + 1, hi);
      SortedAroundPivot(s, t, u, list[..], lo, j, hi);
    }
  }

  /** Sorting the two sides of a partitioned range sorts the range. */
  lemma SortedAroundPivot(s: seq<int>, t: seq<int>, u: seq<int>, v: seq<int>, lo: int, j: int, hi: int)
    requires 0 <= lo <= j <= hi < |s| == |t|
    requires forall k :: lo <= k < j ==> t[k] <= t[j]
    requires forall k :: j < k <= hi ==> t[j] <= t[k]
    requires multiset(t) == multiset(s) && SameOutside(t, s, lo, hi + 1)
    requires |u| == |t| && SortedRange(u, lo, j) && multiset(u) == multiset(t) && SameOutside(u, t, lo, j)
    requires |v| == |u| && SortedRange(v, j + 1, hi + 1) && multiset(v) == multiset(u) && SameOutside(v, u, j + 1, hi + 1)
    ensures SortedRange(v, lo, hi + 1) && multiset(v) == multiset(s) && SameOutside(v, s, lo, hi + 1)
  {
    StaysBelow(t, u, lo, j, t[j]);
    StaysAbove(u, v, j + 1, hi + 1, t[j]);
    assert v[j] == t[j];
    forall a, b | lo <= a < b < hi + 1 ensures v[a] <= v[b] {
      if b < j {
        assert v[a] == u[a] && v[b] == u[b];
      } else if a < j {
        assert v[a] == u[a];
      }
    }
  }

  /** What the partition knows at the top of its loop: the pivot is still first,
      the cells before `i` are no larger than it, the cells after `j` no smaller,
      and `i` is at most one past `j`. */
  ghost predicate PartitionInvariant(t: seq<int>, s: seq<int>, lo: int, hi: int, i: int, j: int) {
    0 <= lo < hi < |s| == |t| && lo < i <= hi + 1 && lo <= j <= hi && i <= j + 1 &&
    t[lo] == s[lo] &&
    (forall k :: lo < k < i ==> t[k] <= s[lo]) &&
    (forall k :: j < k <= hi ==> s[lo] <= t[k]) &&
    multiset(t) == multiset(s) && SameOutside(t, s, lo, hi + 1)
  }

  /** What the partition knows after both scans have stopped at `i` and `j`. */
  ghost predicate Scanned(t: seq<int>, s: seq<int>, lo: int, hi: int, i: int, j: int) {
    0 <= lo < hi < |s| == |t| && lo < i <= hi + 1 && lo <= j <= hi && i <= j + 1 &&
    t[lo] == s[lo] &&
    (forall k :: lo < k < i ==> t[k] <= s[lo]) && (i <= hi ==> s[lo] <= t[i]) &&
    (forall k :: j < k <= hi ==> s[lo] <= t[k]) && (j > lo ==> t[j] <= s[lo]) &&
    multiset(t) == multiset(s) && SameOutside(t, s, lo, hi + 1)
  }

  /** The partition, with `i` and `j` stepped past the exchanged cells. The pivot
      ends at the returned index, with no larger cell before it and no smaller
      cell after it in the range; the loop always ends. */
  method Partition(list: array<int>, lo: int, hi: int) returns (j: int)
    modifies list
    requires 0 <= lo < hi < list.Length
    ensures lo <= j <= hi && list[j] == old(list[lo])
    ensures forall k :: lo <= k < j ==> list[k] <= list[j]
    ensures forall k :: j < k <= hi ==> list[j] <= list[k]
    ensures multiset(list[..]) == old(multiset(list[..])) && SameOutside(list[..], old(list[..]), lo, hi + 1)
  {
    ghost var s := list[..];
    var i;
    i, j := ExchangeLoop(list, lo, hi, s);
    ghost var t := list[..];
    Swap(list, lo, j);
    PivotPlaced(t, list[..], s, lo, hi, i, j);
  }

  /** The outer loop of the partition: scan from both ends and exchange, until the
      scans meet or cross. */
  method ExchangeLoop(list: array<int>, lo: int, hi: int, ghost s: seq<int>) returns (i: int, j: int)
    modifies list
    requires PartitionInvariant(list[..], s, lo, hi, lo + 1, hi)
    ensures Scanned(list[..], s, lo, hi, i, j) && i >= j
  {
    i, j := lo + 1, hi;
    while true
      invariant PartitionInvariant(list[..], s, lo, hi, i, j)
      decreases j - i + 1
    {
      var up := ScanUp(list, lo, hi, i);
      var down := ScanDown(list, lo, j);
      BothScans(list[..], s, lo, hi, i, j, up, down);
      i, j := up, down;
      if i >= j {
        break;
      }
      ExchangeAcross(list, s, lo, hi, i, j);
      i, j := i + 1, j - 1;
    }
  }

  /** The scans stop where the cells stop being on their own side of the pivot. */
  lemma BothScans(t: seq<int>, s: seq<int>, lo: int, hi: int, i: int, j: int, up: int, down: int)
    requires PartitionInvariant(t, s, lo, hi, i, j)
    requires up == ScanUpFrom(t, lo, hi, i) && down == ScanDownFrom(t, lo, j)
    ensures Scanned(t, s, lo, hi, up, down) && i <= up && down <= j
  {
    assert j + 1 <= hi ==> t[lo] <= t[j + 1];
    assert down + 1 <= j ==> t[down + 1] > t[lo];
  }

  /** The exchange of the two cells the scans stopped at. */
  method ExchangeAcross(list: array<int>, ghost s: seq<int>, lo: int, hi: int, i: int, j: int)
    modifies list
    requires Scanned(list[..], s, lo, hi, i, j) && i < j
    ensures PartitionInvariant(list[..], s, lo, hi, i + 1, j - 1)
  {
    ghost var t := list[..];
    Swap(list, i, j);
    ExchangeStep(t, list[..], s, lo, hi, i, j);
  }

  lemma ExchangeStep(t: seq<int>, u: seq<int>, s: seq<int>, lo: int, hi: int, i: int, j: int)
    requires Scanned(t, s, lo, hi, i, j) && i < j && u == Exchange(t, i, j)
    ensures PartitionInvariant(u, s, lo, hi, i + 1, j - 1)
  {
  }

  /** Exchanging the pivot with the cell where the down scan stopped puts it
      between the two sides. */
  lemma PivotPlaced(t: seq<int>, u: seq<int>, s: seq<int>, lo: int, hi: int, i: int, j: int)
    requires Scanned(t, s, lo, hi, i, j) && i >= j && u == Exchange(t, lo, j)
    ensures lo <= j <= hi && u[j] == s[lo]
    ensures forall k :: lo <= k < j ==> u[k] <= u[j]
    ensures forall k :: j < k <= hi ==> u[j] <= u[k]
    ensures multiset(u) == multiset(s) && SameOutside(u, s, lo, hi + 1)
  {
  }

  /** The partition loop's state after a round as written: where the scans
      stopped, and whether the `break` was taken. */
  datatype Round = Again(s: seq<int>, i: int, j: int) | Broken(s: seq<int>, i: int, j: int)

  /** One round of the partition loop as written: both scans, then the exchange,
      with `i` and `j` left on the exchanged cells. */
  function RoundAsWritten(s: seq<int>, lo: int, hi: int, i: int, j: int): (r: Round)
    requires 0 <= lo < i <= hi + 1 <= |s| && lo <= j <= hi
    ensures r.Again? ==> i <= r.i < r.j <= j && |r.s| == |s| && multiset(r.s) == multiset(s)
    ensures r.Broken? ==> r.s == s && r.i >= r.j
  {
    var up := ScanUpFrom(s, lo, hi, i);
    var down := ScanDownFrom(s, lo, j);
    if up >= down then Broken(s, up, down) else Again(Exchange(s, up, down), up, down)
  }

  /** `n` rounds of the partition loop as written, stopping early at the `break`. */
  function RoundsAsWritten(s: seq<int>, lo: int, hi: int, i: int, j: int, n: nat): Round
    requires 0 <= lo < i <= hi + 1 <= |s| && lo <= j <= hi
    decreases n
  {
    if n == 0 then Again(s, i, j)
    else
      var r := RoundAsWritten(s, lo, hi, i, j);
      if r.Broken? then r else RoundsAsWritten(r.s, lo, hi, r.i, r.j, n - 1)
  }

  /** As written, once both scans rest on cells equal to the pivot, a round
      exchanges two equal cells and leaves `i` and `j` where they were: the state
      is unchanged and the `break` is not taken. */
  lemma EqualKeysFixedPoint(s: seq<int>, lo: int, hi: int, i: int, j: int)
    requires 0 <= lo < i < j <= hi < |s| && s[i] == s[lo] && s[j] == s[lo]
    ensures RoundAsWritten(s, lo, hi, i, j) == Again(s, i, j)
  {
    assert Exchange(s, i, j) == s;
  }

  /** So no number of rounds as written reaches the `break`. */
  lemma {:induction false} EqualKeysNeverBreak(s: seq<int>, lo: int, hi: int, i: int, j: int, n: nat)
    requires 0 <= lo < i < j <= hi < |s| && s[i] == s[lo] && s[j] == s[lo]
    ensures RoundsAsWritten(s, lo, hi, i, j, n) == Again(s, i, j)
    decreases n
  {
    if n > 0 {
      EqualKeysFixedPoint(s, lo, hi, i, j);
      EqualKeysNeverBreak(s, lo, hi, i, j, n - 1);
    }
  }

  /** Three equal keys: partitionAndSort on `[5, 5, 5]` starts its loop with `i = 1`
      and `j = 2`, and no number of rounds as written ends it. */
  lemma ThreeEqualKeys(n: nat)
    ensures RoundsAsWritten([5, 5, 5], 0, 2, 1, 2, n) == Again([5, 5, 5], 1, 2)
  {
    EqualKeysNeverBreak([5, 5, 5], 0, 2, 1, 2, n);
  }
}
