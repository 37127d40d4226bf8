/** The bottom-up merge sort of sorting/merge/merge.cpp: passes of doubling width
    merge neighbouring sorted runs, through copies of the two runs. */
module MergeSort {
  import opened SortSpec
  import opened Merging

  /** merge: the runs `l..m` and `m + 1..r` (inclusive bounds) are copied out and
      merged back over `l..r`, taking the left run's cell on ties; nothing else
      changes. Two sorted runs give a sorted range, and the cells are permuted. */
  method MergeRuns(list: array<int>, l: int, m: int, r: int)
    modifies list
    requires 0 <= l <= m + 1 <= r + 1 <= list.Length
    ensures list[l..r + 1] == Merge(old(list[l..m + 1]), old(list[m + 1..r + 1]))
    ensures list[..l] == old(list[..l]) && list[r + 1..] == old(list[r + 1..])
    ensures multiset(list[..]) == old(multiset(list[..]))
    ensures old(SortedRange(list[..], l, m + 1) && SortedRange(list[..], m + 1, r + 1)) ==>
            SortedRange(list[..], l, r + 1)
  {
    ghost var s := list[..];
    var left := CopyRun(list, l, m - l + 1);
    var right := CopyRun(list, m + 1, r - m);
    MergeBack(list, left, right, l);
    MergeDone(list[..], s, left[..], right[..], l, m, r);
  }

  /** The three loops of merge: while both copies have cells the smaller head
      (the left one on ties) is written at `k`, then the rest of the left copy,
      then the rest of the right copy. */
  method MergeBack(list: array<int>, left: array<int>, right: array<int>, l: int)
    modifies list
    requires left != list && right != list
    requires 0 <= l && l + left.Length + right.Length <= list.Length
    ensures list[l..l + left.Length + right.Length] == Merge(left[..], right[..])
    ensures list[..l] == old(list[..l]) && list[l + left.Length + right.Length..] == old(list[l + left.Length + right.Length..])
  {
    ghost var s := list[..];
    ghost var merged := Merge(left[..], right[..]);
    ghost var e := l + left.Length + right.Length;
    var i, j, k := MergeWhileBoth(list, left, right, l, s, merged, e);
    i, k := DrainLeft(list, left, right, l, s, merged, e, i, j, k);
    j, k := DrainRight(list, left, right, l, s, merged, e, i, j, k);
    MergeWritten(list[..], s, left[..], right[..], merged, l, e, i, j);
  }

  /** The first loop of merge. */
  method MergeWhileBoth(list: array<int>, left: array<int>, right: array<int>, l: int,
                        ghost s: seq<int>, ghost merged: seq<int>, ghost e: int)
    returns (i: int, j: int, k: int)
    modifies list
    requires left != list && right != list && merged == Merge(left[..], right[..])
    requires MergeInvariant(list[..], s, left[..], right[..], merged, l, e, 0, 0, l)
    ensures MergeInvariant(list[..], s, left[..], right[..], merged, l, e, i, j, k)
    ensures i == left.Length || j == right.Length
  {
    i, j, k := 0, 0, l;
    while i < left.Length && j < right.Length
      invariant MergeInvariant(list[..], s, left[..], right[..], merged, l, e, i, j, k)
    {
      ghost var t := list[..];
      if left[i] <= right[j] {
        list[k] := left[i];
        LeftStep(t, list[..], s, left[..], right[..], merged, l, e, i, j, k);
        i := i + 1;
      } else {
        list[k] := right[j];
        RightStep(t, list[..], s, left[..], right[..], merged, l, e, i, j, k);
        j := j + 1;
      }
      k := k + 1;
    }
  }

  /** The second loop of merge: the rest of the left copy. */
  method DrainLeft(list: array<int>, left: array<int>, right: array<int>, l: int,
                   ghost s: seq<int>, ghost merged: seq<int>, ghost e: int, i0: int, j: int, k0: int)
    returns (i: int, k: int)
    modifies list
    requires left != list && right != list
    requires MergeInvariant(list[..], s, left[..], right[..], merged, l, e, i0, j, k0)
    requires i0 == left.Length || j == right.Length
    ensures MergeInvariant(list[..], s, left[..], right[..], merged, l, e, i, j, k) && i == left.Length
  {
    i, k := i0, k0;
    while i < left.Length
      invariant (i < left.Length ==> j == right.Length)
      invariant MergeInvariant(list[..], s, left[..], right[..], merged, l, e, i, j, k)
    {
      ghost var t := list[..];
      list[k] := left[i];
      LeftStep(t, list[..], s, left[..], right[..], merged, l, e, i, j, k);
      i := i + 1;
      k := k + 1;
    }
  }

  /** The third loop of merge: the rest of the right copy. */
  method DrainRight(list: array<int>, left: array<int>, right: array<int>, l: int,
                    ghost s: seq<int>, ghost merged: seq<int>, ghost e: int, i: int, j0: int, k0: int)
    returns (j: int, k: int)
    modifies list
    requires left != list && right != list && i == left.Length
    requires MergeInvariant(list[..], s, left[..], right[..], merged, l, e, i, j0, k0)
    ensures MergeInvariant(list[..], s, left[..], right[..], merged, l, e, i, j, k) && j == right.Length
  {
    j, k := j0, k0;
    while j < right.Length
      invariant MergeInvariant(list[..], s, left[..], right[..], merged, l, e, i, j, k)
    {
      ghost var t := list[..];
      list[k] := right[j];
      RightStep(t, list[..], s, left[..], right[..], merged, l, e, i, j, k);
      j := j + 1;
      k := k + 1;
    }
  }

  /** The copy of `n` cells from `from` into a new array (the arrays L and R). */
  method CopyRun(list: array<int>, from: int, n: int) returns (run: array<int>)
    requires 0 <= from && 0 <= n && from + n <= list.Length
    ensures fresh(run) && run[..] == list[from..from + n]
  {
    run := new int[n];
    for i := 0 to n
      invariant forall q :: 0 <= q < i ==> run[q] == list[from + q]
    {
      run[i] := list[from + i];
    }
  }

  /** The merged range is a permutation of the two runs, and sorted when they are. */
  lemma MergeDone(t: seq<int>, s: seq<int>, a: seq<int>, b: seq<int>, l: int, m: int, r: int)
    requires 0 <= l <= m + 1 <= r + 1 <= |s| == |t|
    requires a == s[l..m + 1] && b == s[m + 1..r + 1] && t[l..r + 1] == Merge(a, b)
    requires t[..l] == s[..l] && t[r + 1..] == s[r + 1..]
    ensures multiset(t) == multiset(s)
    ensures SortedRange(s, l, m + 1) && SortedRange(s, m + 1, r + 1) ==> SortedRange(t, l, r + 1)
  {
    MergeDonePermutes(t, s, a, b, l, m, r);
    if SortedRange(s, l, m + 1) && SortedRange(s, m + 1, r + 1) {
      MergeDoneSorted(t, s, a, b, l, m, r);
    }
  }

  lemma MergeDonePermutes(t: seq<int>, s: seq<int>, a: seq<int>, b: seq<int>, l: int, m: int, r: int)
    requires 0 <= l <= m + 1 <= r + 1 <= |s| == |t|
    requires a == s[l..m + 1] && b == s[m + 1..r + 1] && t[l..r + 1] == Merge(a, b)
    requires t[..l] == s[..l] && t[r + 1..] == s[r + 1..]
    ensures multiset(t) == multiset(s)
  {
    MergeIsPermutation(a, b);
    SliceSplit(s, l, m + 1, r + 1);
    SplicePermutes(s, t, l, r + 1);
  }

  lemma MergeDoneSorted(t: seq<int>, s: seq<int>, a: seq<int>, b: seq<int>, l: int, m: int, r: int)
    requires 0 <= l <= m + 1 <= r + 1 <= |s| == |t|
    requires a == s[l..m + 1] && b == s[m + 1..r + 1] && t[l..r + 1] == Merge(a, b)
    requires SortedRange(s, l, m + 1) && SortedRange(s, m + 1, r + 1)
    ensures SortedRange(t, l, r + 1)
  {
    SortedSlice(s, l, m + 1);
    SortedSlice(s, m + 1, r + 1);
    MergeOfSorted(a, b);
    SortedSlice(t, l, r + 1);
  }

  /** mergeSort: with `n` the last index, passes of width 1, 2, 4, ... while the
      width is at most `n`. Before each pass the runs of the current width are
      sorted, so the last pass leaves one sorted run: the result is a sorted
      permutation, for every length including 0 and 1. */
  method MergeSort(list: array<int>)
    modifies list
    ensures Sorted(list[..]) && multiset(list[..]) == old(multiset(list[..]))
  {
    var n := list.Length - 1;
    var i := 1;
    RunsOfOne(list[..], 0);
    while i <= n
      invariant 1 <= i && RunsFrom(list[..], 0, i)
      invariant multiset(list[..]) == old(multiset(list[..]))
      decreases list.Length - i
    {
      MergePass(list, i);
      i := i * 2;
    }
    if list.Length > 0 {
      assert SortedRange(list[..], 0, Min(i, list.Length));
    }
  }

  /** One pass of width `i`: neighbouring runs of width `i` are merged, starting at
      0 and stepping by `2 * i` while the start is before the last index; the runs
      of width `2 * i` are then sorted. */
  method MergePass(list: array<int>, i: int)
    modifies list
    requires 1 <= i && RunsFrom(list[..], 0, i)
    ensures RunsFrom(list[..], 0, 2 * i) && multiset(list[..]) == old(multiset(list[..]))
  {
    var n := list.Length - 1;
    var j := 0;
    while j < n
      invariant 0 <= j && RunsBefore(list[..], j, 2 * i) && RunsFrom(list[..], j, i)
      invariant multiset(list[..]) == old(multiset(list[..]))
      decreases n - j
    {
      MergeNext(list, i, j);
      j := j + 2 * i;
    }
    PassDone(list[..], i, j);
  }

  /** When the pass stops, at or past the last index, the cells from `j` on are a
      single run or none, so the runs of width `2 * i` are all sorted. */
  lemma PassDone(s: seq<int>, i: int, j: int)
    requires 1 <= i && 0 <= j && |s| - 1 <= j && RunsBefore(s, j, 2 * i)
    ensures RunsFrom(s, 0, 2 * i)
  {
    if j < |s| {
      assert RunsFrom(s, j + 2 * i, 2 * i);
    }
    RunsJoin(s, j, 2 * i);
  }

  /** The body of the pass's loop: the runs of width `i` at `j` and `j + i` (the
      second possibly short or empty) are merged. */
  method MergeNext(list: array<int>, i: int, j: int)
    modifies list
    requires 1 <= i && 0 <= j < list.Length - 1
    requires RunsBefore(list[..], j, 2 * i) && RunsFrom(list[..], j, i)
    ensures RunsBefore(list[..], j + 2 * i, 2 * i) && RunsFrom(list[..], j + 2 * i, i)
    ensures multiset(list[..]) == old(multiset(list[..]))
  {
    var n := list.Length - 1;
    var mid := if j + i - 1 < n then j + i - 1 else n;
    var rightEnd := if j + 2 * i - 1 < n then j + 2 * i - 1 else n;
    ghost var s := list[..];
    MergeRuns(list, j, mid, rightEnd);
    PassStep(s, list[..], i, j, mid, rightEnd);
  }

  /** Merging the two runs of width `i` at `j` completes the run of width `2 * i`
      there, and leaves the runs on either side as they were. */
  lemma PassStep(s: seq<int>, t: seq<int>, i: int, j: int, mid: int, rightEnd: int)
    requires 1 <= i && 0 <= j < |s| - 1 && |t| == |s|
    requires RunsBefore(s, j, 2 * i) && RunsFrom(s, j, i)
    requires mid == Min(j + i - 1, |s| - 1) && rightEnd == Min(j + 2 * i - 1, |s| - 1)
    requires t[..j] == s[..j] && t[rightEnd + 1..] == s[rightEnd + 1..]
    requires SortedRange(s, j, mid + 1) && SortedRange(s, mid + 1, rightEnd + 1) ==>
             SortedRange(t, j, rightEnd + 1)
    ensures RunsBefore(t, j + 2 * i, 2 * i) && RunsFrom(t, j + 2 * i, i)
  {
    TwoRuns(s, i, j, mid, rightEnd);
    CellsOutside(s, t, j, rightEnd + 1);
    GrowBefore(s, t, i, j, rightEnd);
    if j + 2 * i < |s| {
      RunsFromFrame(s, t, j + 2 * i, i);
    }
  }

  /** The sorted runs of width `2 * i` before `j`, followed by the sorted merged
      run at `j`, are the sorted runs before `j + 2 * i`. */
  lemma GrowBefore(s: seq<int>, t: seq<int>, i: int, j: int, rightEnd: int)
    requires 1 <= i && 0 <= j < |s| - 1 && |t| == |s| && RunsBefore(s, j, 2 * i)
    requires rightEnd == Min(j + 2 * i - 1, |s| - 1) && SortedRange(t, j, rightEnd + 1)
    requires forall k :: 0 <= k < j || rightEnd + 1 <= k < |s| ==> s[k] == t[k]
    ensures RunsBefore(t, j + 2 * i, 2 * i)
  {
    RunsBeforeFrame(s, t, j, 2 * i);
  }

  /** The runs of width `i` at `j` and `j + i` are sorted, and so are the ones after
      them. */
  lemma TwoRuns(s: seq<int>, i: int, j: int, mid: int, rightEnd: int)
    requires 1 <= i && 0 <= j < |s| - 1 && RunsFrom(s, j, i)
    requires mid == Min(j + i - 1, |s| - 1) && rightEnd == Min(j + 2 * i - 1, |s| - 1)
    ensures SortedRange(s, j, mid + 1) && SortedRange(s, mid + 1, rightEnd + 1)
    ensures j + 2 * i < |s| ==> RunsFrom(s, j + 2 * i, i)
  {
    if j + i < |s| {
      assert RunsFrom(s, j + i, i);
    }
  }

  /** Two sequences equal before `lo` and from `hi` on agree cell by cell there. */
  lemma CellsOutside(s: seq<int>, t: seq<int>, lo: int, hi: int)
    requires 0 <= lo <= hi <= |s| == |t| && t[..lo] == s[..lo] && t[hi..] == s[hi..]
    ensures forall k :: 0 <= k < lo || hi <= k < |s| ==> s[k] == t[k]
  {
    forall k | 0 <= k < lo || hi <= k < |s| ensures s[k] == t[k] {
      if k < lo {
        assert s[k] == s[..lo][k];
      } else {
        assert s[k] == s[hi..][k - hi];
      }
    }
  }
}
