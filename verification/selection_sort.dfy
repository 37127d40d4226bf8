/** The selection sort of sorting/selection/selection.cpp: for each position in
    turn, the first minimum of the cells from there on is swapped into it. */
module SelectionSort {
  import opened SeqFacts
  import opened SortSpec

  /** 2^64: `size_t` arithmetic wraps modulo this. */
  const SizeRange: int := 0x1_0000_0000_0000_0000

  /** The outer loop's bound as written, `list.size() - 1` computed in `size_t`:
      for an empty list it wraps around to the largest `size_t`. */
  function OuterBound(n: nat): (b: int)
    requires n < SizeRange
    ensures 0 <= b < SizeRange
    ensures n > 0 ==> b == n - 1
  {
    (n - 1 + SizeRange) % SizeRange
  }

  /** On an empty list the outer loop as written is entered: its first test is
      `0 < size() - 1`, which holds. */
  lemma EmptyListEntersLoop()
    ensures OuterBound(0) == SizeRange - 1 && 0 < OuterBound(0)
  {
  }

  /** INT_MAX, the largest value of the `int` counter `i`. */
  const IntMax: int := 0x7fff_ffff

  /** The first minimum the inner loop as written settles on, scanning `j` from
      `i + 1` while `j < size()`; it reads only cells below `size()`. */
  function ScanAsWritten(list: seq<int>, i: nat, j: nat, minIndex: nat): (m: nat)
    requires minIndex < |list| || j >= |list|
    ensures j >= |list| ==> m == minIndex
    decreases |list| - j
  {
    if j >= |list| then minIndex
    else ScanAsWritten(list, i, j + 1, if list[j] < list[minIndex] then j else minIndex)
  }

  /** On an empty list every turn of the outer loop as written leaves the list
      alone: the inner test `i + 1 < size()` fails at once, so no cell is read,
      `minIndex` stays `i`, so nothing is swapped, and the outer test
      `i < size() - 1` still holds for every `int` value of `i`. The loop spins
      until `i++` overflows. */
  lemma EmptyListSpins(i: nat)
    requires i <= IntMax
    ensures ScanAsWritten([], i, i + 1, i) == i
    ensures i < OuterBound(0)
  {
  }

  /** selectionSort, with the outer test read as `i + 1 < size()`, which is the
      written `i < size() - 1` for every non-empty list and skips the loop for an
      empty one. After step `i` the prefix up to `i` is sorted and holds the `i + 1`
      smallest cells: the result is a sorted permutation. */
  method SelectionSort(list: array<int>)
    modifies list
    ensures Sorted(list[..]) && multiset(list[..]) == old(multiset(list[..]))
  {
    var i := 0;
    while i + 1 < list.Length
      invariant 0 <= i <= list.Length && (list.Length > 0 ==> i < list.Length)
      invariant SortedRange(list[..], 0, i) && Below(list[..], 0, i, i, list.Length)
      invariant multiset(list[..]) == old(multiset(list[..]))
    {
      var minIndex := MinIndexFrom(list, i);
      PlaceMinimum(list, i, minIndex);
      i := i + 1;
    }
    if list.Length > 0 {
      assert SortedRange(list[..], 0, list.Length) by {
        forall a, b | 0 <= a < b < list.Length ensures list[a] <= list[b] {
          if b == i {
            assert Below(list[..], 0, i, i, list.Length);
          }
        }
      }
    }
  }

  /** The inner loop: the index of the first minimum of the cells from `i` on (a
      later cell replaces it only when strictly smaller). */
  method MinIndexFrom(list: array<int>, i: int) returns (minIndex: int)
    requires 0 <= i < list.Length
    ensures i <= minIndex < list.Length
    ensures forall k :: i <= k < list.Length ==> list[minIndex] <= list[k]
    ensures forall k :: i <= k < minIndex ==> list[k] > list[minIndex]
  {
    minIndex := i;
    var j := i + 1;
    while j < list.Length
      invariant i <= minIndex < j <= list.Length
      invariant forall k :: i <= k < j ==> list[minIndex] <= list[k]
      invariant forall k :: i <= k < minIndex ==> list[k] > list[minIndex]
    {
      if list[j] < list[minIndex] {
        minIndex := j;
      }
      j := j + 1;
    }
  }

  /** The swap into position `i`, skipped when the minimum is already there: the
      sorted prefix grows by one cell. */
  method PlaceMinimum(list: array<int>, i: int, minIndex: int)
    modifies list
    requires 0 <= i <= minIndex < list.Length
    requires SortedRange(list[..], 0, i) && Below(list[..], 0, i, i, list.Length)
    requires forall k :: i <= k < list.Length ==> list[minIndex] <= list[k]
    ensures SortedRange(list[..], 0, i + 1) && Below(list[..], 0, i + 1, i + 1, list.Length)
    ensures multiset(list[..]) == old(multiset(list[..]))
  {
    ghost var s := list[..];
    if minIndex != i {
      Swap(list, i, minIndex);
    }
    ghost var t := list[..];
    forall a, b | 0 <= a < b < |t| && a <= i ensures t[a] <= t[b] {
      if b < i {
        assert t[a] == s[a] && t[b] == s[b];
      } else {
        var m := if b == minIndex then i else if b == i then minIndex else b;
        assert t[b] == s[m] && i <= m;
        if a < i {
          assert t[a] == s[a];
        }
      }
    }
  }
}
