/** The heap sort of sorting/heap/heap.cpp: the list is made a max-heap in place
    (cell `p` above its children `2p + 1` and `2p + 2`), then its root is swapped
    to the end of a shrinking heap prefix, one cell at a time. */
module HeapSort {
  import opened SeqFacts
  import opened SortSpec

  /** The parent of cell `c` in the implicit tree. */
  function Parent(c: int): (r: int)
    requires c >= 1
    ensures 0 <= r < c && (c == 2 * r + 1 || c == 2 * r + 2)
  {
    (c - 1) / 2
  }

  /** Cell `p` is at least each of its children that lies below `n`. */
  ghost predicate Dominates(s: seq<int>, p: int, n: int)
    requires 0 <= p && n <= |s|
  {
    (2 * p + 1 < n ==> s[p] >= s[2 * p + 1]) && (2 * p + 2 < n ==> s[p] >= s[2 * p + 2])
  }

  /** The max-heap order holds at every parent from `i` on, within the first `n`
      cells. */
  ghost predicate HeapFrom(s: seq<int>, i: int, n: int)
    requires 0 <= i && 0 <= n <= |s|
  {
    forall p :: i <= p < n ==> Dominates(s, p, n)
  }

  /** The root of a max-heap is its largest cell. */
  lemma {:induction false} RootIsMax(s: seq<int>, n: int, c: int)
    requires 0 <= c < n <= |s| && HeapFrom(s, 0, n)
    ensures s[0] >= s[c]
    decreases c
  {
    if c > 0 {
      var p := Parent(c);
      RootIsMax(s, n, p);
      assert Dominates(s, p, n);
    }
  }

  /** heapSort: heapify, then move the root (the maximum) behind the heap and
      restore the smaller heap, until one cell is left. The result is a sorted
      permutation. */
  method HeapSort(list: array<int>)
    modifies list
    ensures Sorted(list[..]) && multiset(list[..]) == old(multiset(list[..]))
  {
    Heapify(list);
    var n := list.Length;
    var i := n - 1;
    while i > 0
      invariant -1 <= i < n && (n > 0 ==> 0 <= i)
      invariant i >= 0 ==> HeapFrom(list[..], 0, i + 1)
      invariant Final(list[..], i + 1)
      invariant multiset(list[..]) == old(multiset(list[..]))
    {
      PlaceLargest(list, i);
      i := i - 1;
    }
    FinalSorted(list[..], i + 1);
  }

  /** The first loop of heapSort: every parent is sunk, from the last one up to
      the root, after which the whole list is a max-heap. */
  method Heapify(list: array<int>)
    modifies list
    ensures HeapFrom(list[..], 0, list.Length) && multiset(list[..]) == old(multiset(list[..]))
  {
    var n := list.Length;
    var i := n / 2 - 1;
    while i >= 0
      invariant -1 <= i < n && HeapFrom(list[..], i + 1, n)
      invariant multiset(list[..]) == old(multiset(list[..]))
    {
      Sink(list, n, i);
      i := i - 1;
    }
  }

  /** One extraction: the root goes to cell `i` and the heap on the cells below `i`
      is restored; the final suffix grows to start at `i`. */
  method PlaceLargest(list: array<int>, i: int)
    modifies list
    requires 0 < i < list.Length && HeapFrom(list[..], 0, i + 1) && Final(list[..], i + 1)
    ensures HeapFrom(list[..], 0, i) && Final(list[..], i)
    ensures multiset(list[..]) == old(multiset(list[..]))
  {
    ghost var t := list[..];
    Swap(list, 0, i);
    ExtractStep(t, list[..], i);
    ghost var u := list[..];
    Sink(list, i, 0);
    SinkKeepsFinal(u, list[..], i);
  }

  /** After the root is swapped to cell `i`, cell `i` is final and the cells below
      it are a heap everywhere but at the root. */
  lemma ExtractStep(t: seq<int>, u: seq<int>, i: int)
    requires 0 < i < |t| && HeapFrom(t, 0, i + 1) && Final(t, i + 1)
    requires u == Exchange(t, 0, i)
    ensures HeapFrom(u, 1, i) && Final(u, i)
  {
    forall p | 1 <= p < i ensures Dominates(u, p, i) {
      assert Dominates(t, p, i + 1);
    }
    forall a | 0 <= a < i ensures u[a] <= u[i] {
      RootIsMax(t, i + 1, if a == 0 then i else a);
    }
    forall a, b | 0 <= a < b < |u| && i <= b ensures u[a] <= u[b] {
      if i < b {
        var a' := if a == 0 then i else if a == i then 0 else a;
        assert u[a] == t[a'] && u[b] == t[b];
        assert Below(t, 0, i + 1, i + 1, |t|);
      }
    }
  }

  /** Sinking within the first `i` cells permutes them only, so cell `i` onwards
      stays final. */
  lemma SinkKeepsFinal(u: seq<int>, v: seq<int>, i: int)
    requires 0 <= i <= |u| == |v| && Final(u, i)
    requires multiset(v) == multiset(u) && v[i..] == u[i..]
    ensures Final(v, i)
  {
    PrefixPermutes(u, v, i);
    forall a, b | 0 <= a < i <= b < |v| ensures v[a] <= v[b] {
      assert v[a] in multiset(u[..i]) by {
        assert v[a] == v[..i][a];
      }
      var a' :| 0 <= a' < i && u[..i][a'] == v[a];
      assert u[a'] <= u[b];
    }
    assert SortedRange(v, i, |v|) by {
      forall a, b | i <= a < b < |v| ensures v[a] <= v[b] {
        assert v[a] == v[i..][a - i] && v[b] == v[i..][b - i];
      }
    }
  }

  /** sink: the cell at `i` moves down, swapped each time with its larger child
      while that child is larger. Given the heap order below `i`, the order then
      holds from `i` on; only the first `size` cells move, and only among
      themselves. */
  method Sink(list: array<int>, size: int, i: int)
    modifies list
    requires 0 <= i && 0 <= size <= list.Length && HeapFrom(list[..], i + 1, size)
    ensures HeapFrom(list[..], i, size)
    ensures multiset(list[..]) == old(multiset(list[..])) && list[size..] == old(list[size..])
  {
    ghost var s := list[..];
    var cur := i;
    while cur < size / 2
      invariant SinkInvariant(list[..], s, i, cur, size)
      decreases size - cur
    {
      var j := 2 * cur + 1;
      if j + 1 < size && list[j] < list[j + 1] {
        j := j + 1;
      }
      if list[cur] < list[j] {
        SwapWithChild(list, s, i, cur, j, size);
        cur := j;
      } else {
        assert Dominates(list[..], cur, size);
        break;
      }
    }
    SinkEnd(list[..], s, i, cur, size);
  }

  /** What sink knows at cell `cur`: the order holds at every other parent from
      `i` on, and the parent of `cur` is also at least the children of `cur`. */
  ghost predicate SinkInvariant(t: seq<int>, s: seq<int>, i: int, cur: int, n: int) {
    0 <= i <= cur && 0 <= n <= |t| == |s| &&
    multiset(t) == multiset(s) && t[n..] == s[n..] &&
    (forall p :: i <= p < n && p != cur ==> Dominates(t, p, n)) &&
    (cur > i ==> Parent(cur) >= i &&
                 (2 * cur + 1 < n ==> t[Parent(cur)] >= t[2 * cur + 1]) &&
                 (2 * cur + 2 < n ==> t[Parent(cur)] >= t[2 * cur + 2]))
  }

  /** Child `j` of `cur` is the larger of its children below `n`. */
  ghost predicate LargerChild(t: seq<int>, cur: int, j: int, n: int)
    requires 0 <= n <= |t|
  {
    0 <= cur && (j == 2 * cur + 1 || j == 2 * cur + 2) && j < n &&
    t[2 * cur + 1] <= t[j] && (2 * cur + 2 < n ==> t[2 * cur + 2] <= t[j])
  }

  /** One swap of sink: the larger child `j` rises to `cur`. */
  method SwapWithChild(list: array<int>, ghost s: seq<int>, ghost i: int, cur: int, j: int, n: int)
    modifies list
    requires SinkInvariant(list[..], s, i, cur, n) && LargerChild(list[..], cur, j, n)
    requires list[cur] < list[j]
    ensures SinkInvariant(list[..], s, i, j, n)
  {
    ghost var t := list[..];
    Swap(list, cur, j);
    SinkStep(t, list[..], s, i, cur, j, n);
  }

  lemma SinkStep(t: seq<int>, u: seq<int>, s: seq<int>, i: int, cur: int, j: int, n: int)
    requires SinkInvariant(t, s, i, cur, n) && LargerChild(t, cur, j, n) && t[cur] < t[j]
    requires u == Exchange(t, cur, j)
    ensures SinkInvariant(u, s, i, j, n)
  {
    assert u[n..] == t[n..];
    OrderAfterSwap(t, u, s, i, cur, j, n);
    assert Dominates(t, j, n);
  }

  /** After the swap the order holds at every parent from `i` on but the child
      `j` that now holds the sinking cell. */
  lemma OrderAfterSwap(t: seq<int>, u: seq<int>, s: seq<int>, i: int, cur: int, j: int, n: int)
    requires SinkInvariant(t, s, i, cur, n) && LargerChild(t, cur, j, n) && t[cur] < t[j]
    requires u == Exchange(t, cur, j)
    ensures forall p :: i <= p < n && p != j ==> Dominates(u, p, n)
  {
    forall p | i <= p < n && p != j ensures Dominates(u, p, n) {
      if p == cur {
      } else if 2 * p + 1 == cur || 2 * p + 2 == cur {
        assert p == Parent(cur) && Dominates(t, p, n);
      } else {
        assert Dominates(t, p, n);
        assert 2 * p + 1 != j && 2 * p + 2 != j;
      }
    }
  }

  /** When sink stops, at a cell without children in range or above its children,
      the order holds from `i` on. */
  lemma SinkEnd(t: seq<int>, s: seq<int>, i: int, cur: int, n: int)
    requires SinkInvariant(t, s, i, cur, n)
    requires cur >= n / 2 || (cur < n && Dominates(t, cur, n))
    ensures HeapFrom(t, i, n) && multiset(t) == multiset(s) && t[n..] == s[n..]
  {
    forall p | i <= p < n ensures Dominates(t, p, n) {
      if p == cur {
      }
    }
  }
}
