/** The top-down merge sort of sorting/merge_recursive/merge_recursive.cpp: the
    range is halved, each half is sorted with the roles of the list and its
    duplicate exchanged, and the two sorted halves are merged from the duplicate
    back into the list. */
module RecursiveMergeSort {
  import opened SortSpec
  import opened Merging

  /** The result of the top-down merge sort on a sequence: the merge of the
      sorted halves, the left half holding the first `|s| / 2` cells. */
  function TopDown(s: seq<int>): (r: seq<int>)
    ensures |r| == |s|
    decreases |s|
  {
    if |s| <= 1 then s else Merge(TopDown(s[..|s| / 2]), TopDown(s[|s| / 2..]))
  }

  /** The top-down merge sort returns a sorted permutation of its input. */
  lemma {:induction false} TopDownSorts(s: seq<int>)
    ensures Sorted(TopDown(s)) && multiset(TopDown(s)) == multiset(s)
    decreases |s|
  {
    if |s| > 1 {
      var h := |s| / 2;
      TopDownSorts(s[..h]);
      TopDownSorts(s[h..]);
      MergeOfSorted(TopDown(s[..h]), TopDown(s[h..]));
      MergeIsPermutation(TopDown(s[..h]), TopDown(s[h..]));
      assert s == s[..h] + s[h..];
    }
  }

  /** recursiveMergeSort: the list is duplicated and the whole range is split and
      merged; the list ends as the top-down merge sort of its old contents, a
      sorted permutation of them. */
  method RecursiveMergeSort(list: array<int>)
    modifies list
    ensures list[..] == TopDown(old(list[..]))
    ensures Sorted(list[..]) && multiset(list[..]) == old(multiset(list[..]))
  {
    ghost var s := list[..];
    var duplicate := new int[list.Length];
    forall k | 0 <= k < list.Length {
      duplicate[k] := list[k];
    }
    assert list[0..list.Length] == s;
    assert Agree(duplicate[..], list[..], 0, list.Length);
    MergeSplit(duplicate, 0, list.Length, list);
    assert list[..] == list[0..list.Length];
    TopDownSorts(s);
  }

  /** mergeSplit: a range of more than one cell is halved at `(l + r) / 2`; each
      half is sorted into `duplicate` (with `list` as its scratch copy), and the
      halves are merged from `duplicate` into `list`. Given equal contents on the
      range in both arrays, `list` ends with the top-down merge sort of them, and
      neither array changes outside the range. */
  method MergeSplit(duplicate: array<int>, l: int, r: int, list: array<int>)
    modifies duplicate, list
    requires duplicate != list && duplicate.Length == list.Length && 0 <= l <= r <= list.Length
    requires Agree(duplicate[..], list[..], l, r)
    ensures list[l..r] == TopDown(old(list[l..r]))
    ensures SameOutside(list[..], old(list[..]), l, r) && SameOutside(duplicate[..], old(duplicate[..]), l, r)
    decreases r - l
  {
    if r - l > 1 {
      ghost var list0, dup0 := list[..], duplicate[..];
      var mid := (l + r) / 2;
      MergeSplit(list, l, mid, duplicate);
      ghost var list1, dup1 := list[..], duplicate[..];
      SecondHalfReady(list0, dup0, list1, dup1, l, mid, r);
      MergeSplit(list, mid, r, duplicate);
      ghost var list2, dup2 := list[..], duplicate[..];
      MergeInto(duplicate, l, mid, r, list);
      SplitDone(list0, dup0, list1, dup1, list2, dup2, list[..], l, mid, r);
    }
  }

  /** Sorting the left half leaves the right half equal in both arrays. */
  lemma SecondHalfReady(list0: seq<int>, dup0: seq<int>, list1: seq<int>, dup1: seq<int>, l: int, mid: int, r: int)
    requires Agree(dup0, list0, l, r) && l <= mid <= r
    requires SameOutside(list1, list0, l, mid) && SameOutside(dup1, dup0, l, mid)
    ensures Agree(dup1, list1, mid, r)
  {
  }

  /** After both halves are sorted into the duplicate and merged into the list, the
      list holds the top-down merge sort of the range, and both arrays are as
      before outside it. */
  lemma SplitDone(list0: seq<int>, dup0: seq<int>, list1: seq<int>, dup1: seq<int>,
                  list2: seq<int>, dup2: seq<int>, list3: seq<int>, l: int, mid: int, r: int)
    requires Agree(dup0, list0, l, r) && r - l > 1 && mid == (l + r) / 2
    requires SameOutside(list1, list0, l, mid) && SameOutside(dup1, dup0, l, mid)
    requires SameOutside(list2, list1, mid, r) && SameOutside(dup2, dup1, mid, r)
    requires SameOutside(list3, list2, l, r)
    requires dup1[l..mid] == TopDown(dup0[l..mid])
    requires dup2[mid..r] == TopDown(dup1[mid..r])
    requires list3[l..r] == Merge(dup2[l..mid], dup2[mid..r])
    ensures list3[l..r] == TopDown(list0[l..r])
    ensures SameOutside(list3, list0, l, r) && SameOutside(dup2, dup0, l, r)
  {
    Halves(list0, l, mid, r);
    SliceAgree(dup0, list0, l, mid);
    SliceAgree(dup1, dup0, mid, r);
    SliceAgree(dup1, list0, mid, r);
    SliceAgree(dup2, dup1, l, mid);
  }

  /** The two halves of a range that mergeSplit sorts. */
  lemma Halves(t: seq<int>, l: int, mid: int, r: int)
    requires 0 <= l && r - l > 1 && mid == (l + r) / 2 && r <= |t|
    ensures l < mid < r && |t[l..r]| / 2 == mid - l
    ensures t[l..r][..|t[l..r]| / 2] == t[l..mid] && t[l..r][|t[l..r]| / 2..] == t[mid..r]
  {
  }

  /** Two sequences that agree cell by cell on `lo..hi` have equal slices there. */
  lemma SliceAgree(x: seq<int>, y: seq<int>, lo: int, hi: int)
    requires 0 <= lo <= hi <= |x| && hi <= |y| && forall k :: lo <= k < hi ==> x[k] == y[k]
    ensures x[lo..hi] == y[lo..hi]
  {
  }

  /** merge: the cells `l..m` and `m..r` (half-open) of `source` are merged into
      `l..r` of `target`, taking the left cell on ties; `target` changes nowhere
      else. */
  method MergeInto(source: array<int>, l: int, m: int, r: int, target: array<int>)
    modifies target
    requires source != target
    requires 0 <= l <= m <= r <= source.Length && r <= target.Length
    ensures target[l..r] == Merge(source[l..m], source[m..r])
    ensures SameOutside(target[..], old(target[..]), l, r)
  {
    ghost var a, b := source[l..m], source[m..r];
    ghost var s := target[..];
    MergeStart(s, a, b, l, r);
    var leftIndex, rightIndex := MergeLoop(source, l, m, r, target, s, a, b);
    MergeWritten(target[..], s, a, b, Merge(a, b), l, r, leftIndex - l, rightIndex - m);
    WrittenOutside(target[..], s, a, b, Merge(a, b), l, r, leftIndex - l, rightIndex - m);
  }

  /** The loop of merge, over the target cells `l..r`. */
  method MergeLoop(source: array<int>, l: int, m: int, r: int, target: array<int>,
                   ghost s: seq<int>, ghost a: seq<int>, ghost b: seq<int>)
    returns (leftIndex: int, rightIndex: int)
    modifies target
    requires source != target && 0 <= l <= m <= r <= source.Length
    requires a == source[l..m] && b == source[m..r]
    requires MergeInvariant(target[..], s, a, b, Merge(a, b), l, r, 0, 0, l)
    ensures MergeInvariant(target[..], s, a, b, Merge(a, b), l, r, leftIndex - l, rightIndex - m, r)
  {
    leftIndex, rightIndex := l, m;
    for i := l to r
      invariant MergeInvariant(target[..], s, a, b, Merge(a, b), l, r, leftIndex - l, rightIndex - m, i)
    {
      leftIndex, rightIndex := MergeOne(source, l, m, r, target, s, a, b, Merge(a, b), leftIndex, rightIndex, i);
    }
  }

  /** merge writes nothing outside its range. */
  lemma WrittenOutside(t: seq<int>, s: seq<int>, a: seq<int>, b: seq<int>, merged: seq<int>, l: int, e: int,
                       i: int, j: int)
    requires MergeInvariant(t, s, a, b, merged, l, e, i, j, e)
    ensures SameOutside(t, s, l, e)
  {
  }

  /** One turn of merge's loop: the cell at `i` is taken from the left run while it
      has cells and either the right run has none or the left cell is not larger. */
  method MergeOne(source: array<int>, l: int, m: int, r: int, target: array<int>,
                  ghost s: seq<int>, ghost a: seq<int>, ghost b: seq<int>, ghost merged: seq<int>,
                  leftIndex: int, rightIndex: int, i: int)
    returns (leftIndex': int, rightIndex': int)
    modifies target
    requires source != target && 0 <= l <= m <= r <= source.Length && i < r
    requires a == source[l..m] && b == source[m..r]
    requires MergeInvariant(target[..], s, a, b, merged, l, r, leftIndex - l, rightIndex - m, i)
    ensures MergeInvariant(target[..], s, a, b, merged, l, r, leftIndex' - l, rightIndex' - m, i + 1)
  {
    if leftIndex < m && (rightIndex >= r || source[leftIndex] <= source[rightIndex]) {
      WriteLeft(source, l, m, r, target, s, a, b, merged, leftIndex, rightIndex, i);
      leftIndex', rightIndex' := leftIndex + 1, rightIndex;
    } else {
      WriteRight(source, l, m, r, target, s, a, b, merged, leftIndex, rightIndex, i);
      leftIndex', rightIndex' := leftIndex, rightIndex + 1;
    }
  }

  /** The left run's next cell is written at `i`. */
  method WriteLeft(source: array<int>, l: int, m: int, r: int, target: array<int>,
                   ghost s: seq<int>, ghost a: seq<int>, ghost b: seq<int>, ghost merged: seq<int>,
                   leftIndex: int, rightIndex: int, i: int)
    modifies target
    requires source != target && 0 <= l <= m <= r <= source.Length && i < r
    requires a == source[l..m] && b == source[m..r]
    requires MergeInvariant(target[..], s, a, b, merged, l, r, leftIndex - l, rightIndex - m, i)
    requires leftIndex < m && (rightIndex >= r || source[leftIndex] <= source[rightIndex])
    ensures MergeInvariant(target[..], s, a, b, merged, l, r, leftIndex + 1 - l, rightIndex - m, i + 1)
  {
    ghost var t := target[..];
    assert source[leftIndex] == a[leftIndex - l];
    assert rightIndex < r ==> source[rightIndex] == b[rightIndex - m];
    target[i] := source[leftIndex];
    LeftStep(t, target[..], s, a, b, merged, l, r, leftIndex - l, rightIndex - m, i);
    assert leftIndex + 1 - l == leftIndex - l + 1;
  }

  /** The right run's next cell is written at `i`. */
  method WriteRight(source: array<int>, l: int, m: int, r: int, target: array<int>,
                    ghost s: seq<int>, ghost a: seq<int>, ghost b: seq<int>, ghost merged: seq<int>,
                    leftIndex: int, rightIndex: int, i: int)
    modifies target
    requires source != target && 0 <= l <= m <= r <= source.Length && i < r
    requires a == source[l..m] && b == source[m..r]
    requires MergeInvariant(target[..], s, a, b, merged, l, r, leftIndex - l, rightIndex - m, i)
    requires !(leftIndex < m && (rightIndex >= r || source[leftIndex] <= source[rightIndex]))
    ensures MergeInvariant(target[..], s, a, b, merged, l, r, leftIndex - l, rightIndex + 1 - m, i + 1)
  {
    ghost var t := target[..];
    assert source[rightIndex] == b[rightIndex - m];
    assert leftIndex < m ==> source[leftIndex] == a[leftIndex - l];
    target[i] := source[rightIndex];
    RightStep(t, target[..], s, a, b, merged, l, r, leftIndex - l, rightIndex - m, i);
    assert rightIndex + 1 - m == rightIndex - m + 1;
  }
}
