/** The three insertion sorts of sorting/: the swapping one (insertion/insertion.cpp),
    the shifting one (insertion_optimised/insertion_optimised.cpp) and the recursive
    one (insertion_recursive/insertion_recursive.cpp). */
module InsertionSort {
  import opened SeqFacts
  import opened SortSpec

  /** insertionSort: each cell in turn is swapped down past the larger cells before
      it; the inner loop stops at the first cell that is not larger, so equal
      neighbours are never swapped. The result is a sorted permutation. */
  method InsertionSort(list: array<int>)
    modifies list
    ensures Sorted(list[..]) && multiset(list[..]) == old(multiset(list[..]))
  {
    var i := 1;
    while i < list.Length
      invariant 1 <= i && (list.Length > 0 ==> i <= list.Length)
      invariant list.Length > 0 ==> SortedRange(list[..], 0, i)
      invariant multiset(list[..]) == old(multiset(list[..]))
    {
      SinkInto(list, i);
      i := i + 1;
    }
  }

  /** The inner loop of insertionSort for cell `i`: afterwards the prefix up to `i`
      is sorted and the cells after `i` are untouched. */
  method SinkInto(list: array<int>, i: int)
    modifies list
    requires 0 < i < list.Length && SortedRange(list[..], 0, i)
    ensures SortedRange(list[..], 0, i + 1) && multiset(list[..]) == old(multiset(list[..]))
    ensures list[i + 1..] == old(list[i + 1..])
  {
    var j := i;
    while j > 0
      invariant 0 <= j <= i
      invariant SortedRange(list[..], 0, j) && SortedRange(list[..], j, i + 1)
      invariant Below(list[..], 0, j, j + 1, i + 1)
      invariant multiset(list[..]) == old(multiset(list[..]))
      invariant list[i + 1..] == old(list[i + 1..])
    {
      if list[j - 1] <= list[j] {
        JoinSorted(list[..], 0, j, i + 1);
        break;
      }
      SwapDown(list, j, i);
      j := j - 1;
    }
  }

  /** The swap of cells `j` and `j - 1` in the inner loop. */
  method SwapDown(list: array<int>, j: int, i: int)
    modifies list
    requires 0 < j <= i < list.Length
    requires SortedRange(list[..], 0, j) && SortedRange(list[..], j, i + 1) && Below(list[..], 0, j, j + 1, i + 1)
    requires list[j - 1] > list[j]
    ensures SortedRange(list[..], 0, j - 1) && SortedRange(list[..], j - 1, i + 1) && Below(list[..], 0, j - 1, j, i + 1)
    ensures multiset(list[..]) == old(multiset(list[..])) && list[i + 1..] == old(list[i + 1..])
  {
    ghost var s := list[..];
    Swap(list, j, j - 1);
    SinkStep(s, j, i);
  }

  /** One swap of the inner loop keeps its invariant, one place further down. */
  lemma SinkStep(s: seq<int>, j: int, i: int)
    requires 0 < j <= i < |s|
    requires SortedRange(s, 0, j) && SortedRange(s, j, i + 1) && Below(s, 0, j, j + 1, i + 1)
    requires s[j - 1] > s[j]
    ensures var t := Exchange(s, j, j - 1);
            SortedRange(t, 0, j - 1) && SortedRange(t, j - 1, i + 1) && Below(t, 0, j - 1, j, i + 1) &&
            multiset(t) == multiset(s) && t[i + 1..] == s[i + 1..]
  {
    var t := Exchange(s, j, j - 1);
    assert t[i + 1..] == s[i + 1..];
    forall a, b | j - 1 <= a < b < i + 1 ensures t[a] <= t[b] {
      if a == j - 1 && b > j {
        assert s[j] <= s[b];
      } else if a == j {
        assert s[j - 1] <= s[b];
      }
    }
    forall a, b | 0 <= a < j - 1 && j <= b < i + 1 ensures t[a] <= t[b] {
      if b == j {
        assert s[a] <= s[j - 1];
      } else {
        assert s[a] <= s[b];
      }
    }
  }

  /** optimisedInsertionSort: each cell in turn is lifted out and the larger cells
      before it shift up one place until its position is found. */
  method OptimisedInsertionSort(list: array<int>)
    modifies list
    ensures Sorted(list[..]) && multiset(list[..]) == old(multiset(list[..]))
  {
    var i := 1;
    while i < list.Length
      invariant 1 <= i && (list.Length > 0 ==> i <= list.Length)
      invariant list.Length > 0 ==> SortedRange(list[..], 0, i)
      invariant multiset(list[..]) == old(multiset(list[..]))
    {
      ghost var s := list[..];
      var p := ShiftInsert(list, i);
      MoveDownSorts(s, p, i);
      MoveDownPermutes(s, p, i);
      i := i + 1;
    }
  }

  /** The shift loop of optimisedInsertionSort and recursiveInsertionSort for cell
      `i`: the cells before `i` that are larger than it (the shift keeps each of them
      strictly above it) move up one place and it drops into the gap at `p`, after
      the last cell not larger than it. */
  method ShiftInsert(list: array<int>, i: int) returns (ghost p: int)
    modifies list
    requires 0 <= i < list.Length && SortedRange(list[..], 0, i)
    ensures 0 <= p <= i && list[..] == MoveDown(old(list[..]), p, i)
    ensures p > 0 ==> old(list[p - 1]) <= old(list[i])
    ensures forall k :: p <= k < i ==> old(list[k]) > old(list[i])
  {
    ghost var s := list[..];
    var currentVal := list[i];
    var j := i - 1;
    while j >= 0 && list[j] > currentVal
      invariant -1 <= j < i
      invariant forall k :: 0 <= k <= j || i < k < list.Length ==> list[k] == s[k]
      invariant forall k :: j + 1 < k <= i ==> list[k] == s[k - 1]
      invariant forall k :: j < k < i ==> s[k] > currentVal
      invariant currentVal == s[i]
    {
      list[j + 1] := list[j];
      j := j - 1;
    }
    list[j + 1] := currentVal;
    p := j + 1;
    assert list[..] == MoveDown(s, p, i);
  }

  /** recursiveInsertionSort: sort the prefix up to `index - 1`, then shift cell
      `index` into it. An index of at most 0 is a no-op; the cells after `index`
      are never touched. */
  method RecursiveInsertionSort(list: array<int>, index: int)
    modifies list
    requires index < list.Length
    ensures index >= 0 ==> SortedRange(list[..], 0, index + 1)
    ensures index <= 0 ==> list[..] == old(list[..])
    ensures multiset(list[..]) == old(multiset(list[..]))
    ensures forall k :: 0 <= k < list.Length && index < k ==> list[k] == old(list[k])
    decreases index
  {
    if index > 0 {
      RecursiveInsertionSort(list, index - 1);
      ghost var s := list[..];
      var p := ShiftInsert(list, index);
      MoveDownSorts(s, p, index);
      MoveDownPermutes(s, p, index);
    }
  }

  /** The call the test driver makes: the whole list, from its last index. */
  method RecursiveSort(list: array<int>)
    modifies list
    ensures Sorted(list[..]) && multiset(list[..]) == old(multiset(list[..]))
  {
    RecursiveInsertionSort(list, list.Length - 1);
  }
}
