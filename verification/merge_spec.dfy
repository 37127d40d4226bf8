/** The merge that both merge sorts of sorting/ compute, and the runs of a fixed
    width that the bottom-up merge sort keeps sorted. */
module Merging {
  import opened SortSpec

  /** The merge of the runs `a` and `b`: the smaller head first, the left run's
      head when the heads are equal. */
  function Merge(a: seq<int>, b: seq<int>): (r: seq<int>)
    ensures |r| == |a| + |b|
  {
    MergeFrom(a, b, 0, 0)
  }

  /** The merge of what is left of the runs from `a[i]` and `b[j]` on. */
  function MergeFrom(a: seq<int>, b: seq<int>, i: nat, j: nat): (r: seq<int>)
    requires i <= |a| && j <= |b|
    ensures |r| == |a| - i + |b| - j
    decreases |a| - i + |b| - j
  {
    if i == |a| then b[j..]
    else if j == |b| then a[i..]
    else if a[i] <= b[j] then [a[i]] + MergeFrom(a, b, i + 1, j)
    else [b[j]] + MergeFrom(a, b, i, j + 1)
  }

  /** The merge of two runs holds exactly their cells. */
  lemma MergeIsPermutation(a: seq<int>, b: seq<int>)
    ensures multiset(Merge(a, b)) == multiset(a) + multiset(b)
  {
    MergePermutes(a, b, 0, 0);
    assert a[0..] == a && b[0..] == b;
  }

  /** The merge of two sorted runs is sorted. */
  lemma MergeOfSorted(a: seq<int>, b: seq<int>)
    requires Sorted(a) && Sorted(b)
    ensures Sorted(Merge(a, b))
  {
    MergeSorted(a, b, 0, 0);
  }

  /** A merge holds exactly the cells of what is left of its two runs. */
  lemma {:induction false} MergePermutes(a: seq<int>, b: seq<int>, i: nat, j: nat)
    requires i <= |a| && j <= |b|
    ensures multiset(MergeFrom(a, b, i, j)) == multiset(a[i..]) + multiset(b[j..])
    decreases |a| - i + |b| - j
  {
    if i == |a| {
      assert a[i..] == [];
    } else if j == |b| {
      assert b[j..] == [];
    } else if a[i] <= b[j] {
      MergePermutes(a, b, i + 1, j);
      SliceCons(a, i);
    } else {
      MergePermutes(a, b, i, j + 1);
      SliceCons(b, j);
    }
  }

  /** A suffix is its first cell and the suffix after it. */
  lemma SliceCons(a: seq<int>, i: int)
    requires 0 <= i < |a|
    ensures multiset(a[i..]) == multiset{a[i]} + multiset(a[i + 1..])
  {
    assert a[i..] == [a[i]] + a[i + 1..];
  }

  /** The merge of two sorted runs is sorted, and it starts with one of their
      heads. */
  lemma {:induction false} MergeSorted(a: seq<int>, b: seq<int>, i: nat, j: nat)
    requires i <= |a| && j <= |b| && Sorted(a) && Sorted(b)
    ensures Sorted(MergeFrom(a, b, i, j))
    ensures MergeFrom(a, b, i, j) != [] ==>
            (i < |a| && MergeFrom(a, b, i, j)[0] == a[i]) || (j < |b| && MergeFrom(a, b, i, j)[0] == b[j])
    decreases |a| - i + |b| - j
  {
    if i == |a| {
      assert forall p, q :: 0 <= p < q < |b| - j ==> b[j..][p] == b[j + p] && b[j..][q] == b[j + q];
    } else if j == |b| {
      assert forall p, q :: 0 <= p < q < |a| - i ==> a[i..][p] == a[i + p] && a[i..][q] == a[i + q];
    } else if a[i] <= b[j] {
      MergeSorted(a, b, i + 1, j);
      PrependSorted(a[i], MergeFrom(a, b, i + 1, j));
    } else {
      MergeSorted(a, b, i, j + 1);
      PrependSorted(b[j], MergeFrom(a, b, i, j + 1));
    }
  }

  /** A cell at most the head of a sorted sequence extends it. */
  lemma PrependSorted(x: int, t: seq<int>)
    requires Sorted(t) && (t != [] ==> x <= t[0])
    ensures Sorted([x] + t)
  {
    forall p, q | 0 <= p < q < |t| + 1 ensures ([x] + t)[p] <= ([x] + t)[q] {
      if p == 0 {
        assert t[0] <= t[q - 1];
      }
    }
  }

  /** Cells `l` to `k - 1` hold the first `k - l` cells of the merge, and the merge
      of what is left of the two runs is the rest of it; outside `l..e` nothing
      changes. */
  ghost predicate MergeInvariant(t: seq<int>, s: seq<int>, a: seq<int>, b: seq<int>, merged: seq<int>,
                                 l: int, e: int, i: int, j: int, k: int) {
    |t| == |s| && 0 <= l && 0 <= i <= |a| && 0 <= j <= |b| && k == l + i + j &&
    e == l + |a| + |b| <= |s| && |merged| == |a| + |b| &&
    (forall q :: l <= q < k ==> t[q] == merged[q - l]) &&
    MergeFrom(a, b, i, j) == merged[k - l..] &&
    (forall q :: 0 <= q < l || e <= q < |s| ==> t[q] == s[q])
  }

  /** Writing the left run's next cell at `k` extends the merge written so far. */
  lemma LeftStep(t: seq<int>, u: seq<int>, s: seq<int>, a: seq<int>, b: seq<int>, merged: seq<int>,
                 l: int, e: int, i: int, j: int, k: int)
    requires MergeInvariant(t, s, a, b, merged, l, e, i, j, k)
    requires i < |a| && (j == |b| || a[i] <= b[j]) && u == t[k := a[i]]
    ensures MergeInvariant(u, s, a, b, merged, l, e, i + 1, j, k + 1)
  {
    HeadOf(merged, k - l, a[i], MergeFrom(a, b, i + 1, j));
  }

  /** Writing the right run's next cell at `k` extends the merge written so far. */
  lemma RightStep(t: seq<int>, u: seq<int>, s: seq<int>, a: seq<int>, b: seq<int>, merged: seq<int>,
                  l: int, e: int, i: int, j: int, k: int)
    requires MergeInvariant(t, s, a, b, merged, l, e, i, j, k)
    requires j < |b| && (i == |a| || a[i] > b[j]) && u == t[k := b[j]]
    ensures MergeInvariant(u, s, a, b, merged, l, e, i, j + 1, k + 1)
  {
    HeadOf(merged, k - l, b[j], MergeFrom(a, b, i, j + 1));
  }

  /** A suffix that starts with `x` followed by `rest` has `x` at its start and
      `rest` after it. */
  lemma HeadOf(m: seq<int>, p: int, x: int, rest: seq<int>)
    requires 0 <= p <= |m| && m[p..] == [x] + rest
    ensures p < |m| && m[p] == x && m[p + 1..] == rest
  {
    assert m[p..][0] == x;
    assert m[p..][1..] == rest;
  }

  /** Before anything is written the invariant holds with both runs whole. */
  lemma MergeStart(s: seq<int>, a: seq<int>, b: seq<int>, l: int, e: int)
    requires 0 <= l && e == l + |a| + |b| <= |s|
    ensures MergeInvariant(s, s, a, b, Merge(a, b), l, e, 0, 0, l)
  {
    assert Merge(a, b)[0..] == Merge(a, b);
  }

  /** With the range written up to `e`, both runs are used up, the range holds
      the merge and the rest is as it was. */
  lemma MergeWritten(t: seq<int>, s: seq<int>, a: seq<int>, b: seq<int>, merged: seq<int>, l: int, e: int,
                     i: int, j: int)
    requires MergeInvariant(t, s, a, b, merged, l, e, i, j, e)
    requires merged == Merge(a, b)
    ensures i == |a| && j == |b|
    ensures t[l..e] == merged && t[..l] == s[..l] && t[e..] == s[e..]
  {
  }

  function Min(x: int, y: int): int {
    if x < y then x else y
  }

  /** The runs of width `w` from `j` on (`j`, `j + w`, ..., the last one cut at the
      end of the sequence) are each sorted. */
  ghost predicate RunsFrom(s: seq<int>, j: int, w: int)
    requires 0 <= j && 1 <= w
    decreases |s| - j
  {
    j >= |s| || (SortedRange(s, j, Min(j + w, |s|)) && RunsFrom(s, j + w, w))
  }

  /** `j` is a multiple of `w`, and the runs of width `w` that tile the cells before
      `j` are each sorted. */
  ghost predicate RunsBefore(s: seq<int>, j: int, w: int)
    requires 0 <= j && 1 <= w
    decreases j
  {
    j == 0 ||
    (j >= w && (j - w < |s| ==> SortedRange(s, j - w, Min(j, |s|))) && RunsBefore(s, j - w, w))
  }

  /** Runs of width one are trivially sorted. */
  lemma {:induction false} RunsOfOne(s: seq<int>, j: int)
    requires 0 <= j
    ensures RunsFrom(s, j, 1)
    decreases |s| - j
  {
    if j < |s| {
      RunsOfOne(s, j + 1);
    }
  }

  /** The sorted runs before `j` and from `j` on are the sorted runs from 0. */
  lemma {:induction false} RunsJoin(s: seq<int>, j: int, w: int)
    requires 0 <= j && 1 <= w && RunsBefore(s, j, w) && RunsFrom(s, j, w)
    ensures RunsFrom(s, 0, w)
    decreases j
  {
    if j > 0 {
      RunsJoin(s, j - w, w);
    }
  }

  /** RunsBefore reads only the cells before `j`. */
  lemma {:induction false} RunsBeforeFrame(s: seq<int>, t: seq<int>, j: int, w: int)
    requires 0 <= j && 1 <= w && |s| == |t| && RunsBefore(s, j, w)
    requires forall k :: 0 <= k < j && k < |s| ==> s[k] == t[k]
    ensures RunsBefore(t, j, w)
    decreases j
  {
    if j > 0 {
      RunsBeforeFrame(s, t, j - w, w);
      if j - w < |s| {
        assert SortedRange(s, j - w, Min(j, |s|));
      }
    }
  }

  /** RunsFrom reads only the cells from `j` on. */
  lemma {:induction false} RunsFromFrame(s: seq<int>, t: seq<int>, j: int, w: int)
    requires 0 <= j && 1 <= w && |s| == |t| && RunsFrom(s, j, w)
    requires forall k :: j <= k < |s| ==> s[k] == t[k]
    ensures RunsFrom(t, j, w)
    decreases |s| - j
  {
    if j < |s| {
      RunsFromFrame(s, t, j + w, w);
      assert SortedRange(s, j, Min(j + w, |s|));
    }
  }
}
