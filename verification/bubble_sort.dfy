/** The two bubble sorts of sorting/: bubble.cpp, whose every pass runs over the
    whole list, and bubble_optimised/bubble_optimised.cpp, whose passes shrink by
    one cell each time. Both repeat passes until one makes no swap. */
module BubbleSort {
  import opened SeqFacts
  import opened SortSpec

  /** bubbleSort: passes over the whole list until a pass makes no swap. After `p`
      passes the last `p` cells are final, so at most one pass more than the
      length is made. A sorted list is left as it is. */
  method BubbleSort(list: array<int>)
    modifies list
    ensures Sorted(list[..]) && multiset(list[..]) == old(multiset(list[..]))
    ensures old(Sorted(list[..])) ==> list[..] == old(list[..])
  {
    ghost var k := list.Length;
    assert Final(list[..], k);
    var swapped := Pass(list, list.Length, k);
    if k > 0 {
      k := k - 1;
    }
    while swapped
      invariant Final(list[..], k) && multiset(list[..]) == old(multiset(list[..]))
      invariant !swapped ==> Sorted(list[..])
      invariant old(Sorted(list[..])) ==> !swapped && list[..] == old(list[..])
      decreases k + (if swapped then 1 else 0)
    {
      swapped := Pass(list, list.Length, k);
      if k > 0 {
        k := k - 1;
      }
    }
  }

  /** optimisedBubbleSort: the same passes, each one cell shorter than the last,
      since the pass before has put its largest cell in its final place; `n`
      strictly decreases. */
  method OptimisedBubbleSort(list: array<int>)
    modifies list
    ensures Sorted(list[..]) && multiset(list[..]) == old(multiset(list[..]))
    ensures old(Sorted(list[..])) ==> list[..] == old(list[..])
  {
    var n := list.Length;
    assert Final(list[..], n);
    var swapped := Pass(list, n, n);
    if !swapped {
      FinalSorted(list[..], if n > 0 then n - 1 else 0);
    }
    n := n - 1;
    while swapped
      invariant -1 <= n < list.Length && (n >= 0 ==> Final(list[..], n))
      invariant multiset(list[..]) == old(multiset(list[..]))
      invariant swapped ==> n >= 0
      invariant !swapped ==> Sorted(list[..])
      invariant old(Sorted(list[..])) ==> !swapped && list[..] == old(list[..])
      decreases n + 1
    {
      swapped := Pass(list, n, n);
      if !swapped {
        FinalSorted(list[..], if n > 0 then n - 1 else 0);
      }
      n := n - 1;
    }
  }

  /** One pass: the adjacent pairs of the cells below `m` from the front, each
      exchanged when out of order. The largest of them ends at `m - 1`, and the
      final suffix from `k` grows by a cell. A pass over a sorted range swaps
      nothing, and a pass that swaps nothing has met a sorted range. */
  method Pass(list: array<int>, m: int, ghost k: int) returns (swapped: bool)
    modifies list
    requires 0 <= k <= m <= list.Length && Final(list[..], k)
    ensures multiset(list[..]) == old(multiset(list[..])) && list[m..] == old(list[m..])
    ensures k > 0 ==> Final(list[..], k - 1)
    ensures m > 0 ==> Below(list[..], 0, m - 1, m - 1, m)
    ensures old(SortedRange(list[..], 0, m)) ==> !swapped
    ensures !swapped ==> list[..] == old(list[..]) && SortedRange(list[..], 0, m)
  {
    swapped := false;
    if m == 0 {
      return;
    }
    ghost var s := list[..];
    PassStart(s, m, k);
    var i := 1;
    while i < m
      invariant PassInvariant(list[..], s, i, m, k, swapped)
    {
      swapped := PassStep(list, s, i, m, k, swapped);
      i := i + 1;
    }
    PassEnd(list[..], s, m, k, swapped);
  }

  /** What the pass knows before comparing cells `i - 1` and `i`: the cells from `i`
      on are untouched, cell `i - 1` is the largest so far, everything before `k`
      stays at most every final cell, nothing moves once the final suffix is
      reached, and no swap so far means nothing changed over a sorted prefix. */
  ghost predicate PassInvariant(t: seq<int>, s: seq<int>, i: int, m: int, k: int, swapped: bool) {
    0 <= k <= m <= |s| == |t| && 1 <= i <= m && Final(s, k) &&
    multiset(t) == multiset(s) &&
    (forall c :: i <= c < |t| ==> t[c] == s[c]) &&
    Below(t, 0, i - 1, i - 1, i) &&
    (forall a, b :: 0 <= a < i && a < k <= b < |s| ==> t[a] <= s[b]) &&
    (i > k ==> forall c :: k <= c < |t| ==> t[c] == s[c]) &&
    (i >= k > 0 ==> Below(t, 0, k - 1, k - 1, k)) &&
    (!swapped ==> t == s && SortedRange(s, 0, i)) &&
    (SortedRange(s, 0, m) ==> !swapped)
  }

  lemma PassStart(s: seq<int>, m: int, k: int)
    requires 0 <= k <= m <= |s| && 0 < m && Final(s, k)
    ensures PassInvariant(s, s, 1, m, k, false)
  {
    forall a, b | 0 <= a < 1 && a < k <= b < |s| ensures s[a] <= s[b] {
      assert Below(s, 0, k, k, |s|);
    }
  }

  /** One comparison of the pass, and the swap when cell `i - 1` is the larger. */
  method PassStep(list: array<int>, ghost s: seq<int>, i: int, m: int, ghost k: int, swapped: bool)
    returns (swapped': bool)
    modifies list
    requires i < m && PassInvariant(list[..], s, i, m, k, swapped)
    ensures PassInvariant(list[..], s, i + 1, m, k, swapped')
  {
    swapped' := swapped;
    ghost var t := list[..];
    NoSwapInFinal(t, s, i, m, k, swapped);
    if list[i - 1] > list[i] {
      Swap(list, i - 1, i);
      swapped' := true;
      SwappedStep(t, list[..], s, i, m, k, swapped);
    } else {
      KeptStep(t, s, i, m, k, swapped);
    }
  }

  /** Once the pass reaches the final suffix it meets no out-of-order pair. */
  lemma NoSwapInFinal(t: seq<int>, s: seq<int>, i: int, m: int, k: int, swapped: bool)
    requires i < m && PassInvariant(t, s, i, m, k, swapped)
    ensures i >= k ==> t[i - 1] <= t[i]
  {
    if i > k {
      assert t[i - 1] == s[i - 1] && t[i] == s[i];
    } else if i == k {
      assert t[i - 1] <= s[i];
    }
  }

  lemma SwappedStep(t: seq<int>, u: seq<int>, s: seq<int>, i: int, m: int, k: int, swapped: bool)
    requires i < m && i < k && PassInvariant(t, s, i, m, k, swapped) && t[i - 1] > t[i]
    requires u == Exchange(t, i - 1, i)
    ensures PassInvariant(u, s, i + 1, m, k, true)
  {
    if !swapped {
      assert s[i - 1] > s[i];
    }
    forall a, b | 0 <= a < i && b == i ensures u[a] <= u[b] {
      if a < i - 1 {
        assert t[a] <= t[i - 1];
      }
    }
    forall a, b | 0 <= a < i + 1 && a < k <= b < |s| ensures u[a] <= s[b] {
      if a == i - 1 {
        assert u[a] == t[i] == s[i];
        assert Below(s, 0, k, k, |s|);
      } else if a == i {
        assert u[a] == t[i - 1];
      }
    }
  }

  lemma KeptStep(t: seq<int>, s: seq<int>, i: int, m: int, k: int, swapped: bool)
    requires i < m && PassInvariant(t, s, i, m, k, swapped) && t[i - 1] <= t[i]
    ensures PassInvariant(t, s, i + 1, m, k, swapped)
  {
    forall a, b | 0 <= a < i && b == i ensures t[a] <= t[b] {
      if a < i - 1 {
        assert t[a] <= t[i - 1];
      }
    }
    if i < k {
      forall b | k <= b < |s| ensures t[i] <= s[b] {
        assert t[i] == s[i];
        assert Below(s, 0, k, k, |s|);
      }
    }
    if !swapped {
      forall a, b | 0 <= a < b < i + 1 ensures s[a] <= s[b] {
        if b == i && a < i - 1 {
          assert s[a] <= s[i - 1];
        }
      }
    }
  }

  /** At the end of the pass its invariant gives the pass's promises. */
  lemma PassEnd(t: seq<int>, s: seq<int>, m: int, k: int, swapped: bool)
    requires 0 < m && PassInvariant(t, s, m, m, k, swapped)
    ensures multiset(t) == multiset(s) && t[m..] == s[m..]
    ensures k > 0 ==> Final(t, k - 1)
    ensures Below(t, 0, m - 1, m - 1, m)
    ensures SortedRange(s, 0, m) ==> !swapped
    ensures !swapped ==> t == s && SortedRange(t, 0, m)
  {
    if k > 0 {
      forall a, b | k - 1 <= a < b < |t| ensures t[a] <= t[b] {
        if a >= k {
          assert t[a] == s[a] && t[b] == s[b];
        } else {
          assert t[b] == s[b];
        }
      }
      forall a, b | 0 <= a < k - 1 && k - 1 <= b < |t| ensures t[a] <= t[b] {
        if b >= k {
          assert t[b] == s[b];
        }
      }
    }
  }
}
