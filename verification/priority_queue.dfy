/** The binary-heap priority queue of data_structures/priority_queue.cpp: a container
    adapter over a growable vector, kept as an implicit binary tree in which no parent
    compares below either of its children.

    Elements are `int`. The comparator template argument becomes an `Order`: `Less`
    (std::less, the default) keeps the largest element on top, `Greater` (std::greater)
    the smallest. The vector is a sequence field that the methods reassign. */
module PriorityQueue {
  import opened Wrappers
  import opened SeqFacts

  datatype Order = Less | Greater

  /** comp(a, b): `a` has lower priority than `b`. */
  predicate Comp(o: Order, a: int, b: int) {
    if o == Less then a < b else a > b
  }

  /** The link from `i` to its parent holds: the parent does not compare below `i`. */
  ghost predicate LinkOk(o: Order, c: seq<int>, i: int)
    requires 0 < i < |c|
  {
    !Comp(o, c[(i - 1) / 2], c[i])
  }

  /** No parent compares below its child. */
  ghost predicate Heap(o: Order, c: seq<int>) {
    forall i :: 0 < i < |c| ==> LinkOk(o, c, i)
  }

  /** The state inside heapify_up: only the link from `k` to its parent may be broken,
      and `k`'s parent already dominates `k`'s children. */
  ghost predicate HeapAbove(o: Order, c: seq<int>, k: int) {
    (forall i :: 0 < i < |c| && i != k ==> LinkOk(o, c, i)) &&
    (0 < k < |c| ==> forall i :: 0 < i < |c| && (i - 1) / 2 == k ==> !Comp(o, c[(k - 1) / 2], c[i]))
  }

  /** The state inside heapify_down: only the links from `k` to its children may be
      broken, and `k`'s parent already dominates `k`'s children. */
  ghost predicate HeapBelow(o: Order, c: seq<int>, k: int) {
    (forall i :: 0 < i < |c| && (i - 1) / 2 != k ==> LinkOk(o, c, i)) &&
    (0 < k < |c| ==> forall i :: 0 < i < |c| && (i - 1) / 2 == k ==> !Comp(o, c[(k - 1) / 2], c[i]))
  }

  /** `x` has priority at least that of every element of `c`. */
  ghost predicate Dominates(o: Order, x: int, c: seq<int>) {
    forall i :: 0 <= i < |c| ==> !Comp(o, x, c[i])
  }

  /** The front of a heap dominates every element: every element is reached from the
      front by a chain of parent links, none of which goes up in priority. */
  lemma {:induction false} FrontDominates(o: Order, c: seq<int>, n: nat)
    requires Heap(o, c) && 0 < |c| && n <= |c|
    ensures forall i :: 0 <= i < n ==> !Comp(o, c[0], c[i])
  {
    if n > 0 {
      FrontDominates(o, c, n - 1);
      var i := n - 1;
      if i > 0 {
        assert LinkOk(o, c, i);
        assert !Comp(o, c[0], c[(i - 1) / 2]);
      }
    }
  }

  /** Appending to a heap leaves only the new element's parent link to repair. */
  lemma PushStart(o: Order, c: seq<int>, v: int)
    requires Heap(o, c)
    ensures HeapAbove(o, c + [v], |c|)
  {
    var d := c + [v];
    forall i | 0 < i < |d| && i != |c| ensures LinkOk(o, d, i) {
      assert LinkOk(o, c, i);
    }
  }

  /** One step of heapify_up: after exchanging `k` with a parent that compares below it,
      only the parent's own link may be broken. */
  lemma UpStep(o: Order, c: seq<int>, k: int)
    requires 0 < k < |c| && HeapAbove(o, c, k) && Comp(o, c[(k - 1) / 2], c[k])
    ensures HeapAbove(o, Exchange(c, (k - 1) / 2, k), (k - 1) / 2)
  {
    var p := (k - 1) / 2;
    var d := Exchange(c, p, k);
    forall i | 0 < i < |d| && i != p ensures LinkOk(o, d, i) {
      if i != k && (i - 1) / 2 != k && (i - 1) / 2 != p {
        assert LinkOk(o, c, i);
      } else if (i - 1) / 2 == p && i != k {
        assert LinkOk(o, c, i);
      }
    }
    if 0 < p {
      assert LinkOk(o, c, p);
      forall i | 0 < i < |d| && (i - 1) / 2 == p ensures !Comp(o, d[(p - 1) / 2], d[i]) {
        if i != k {
          assert LinkOk(o, c, i);
        }
      }
    }
  }

  /** heapify_up stops at the front or at a parent that does not compare below. */
  lemma UpDone(o: Order, c: seq<int>, k: int)
    requires 0 <= k < |c| && HeapAbove(o, c, k) && (k == 0 || !Comp(o, c[(k - 1) / 2], c[k]))
    ensures Heap(o, c)
  {
  }

  /** Removing the front of a heap by moving the last element there leaves only the
      front's links to its children to repair. */
  lemma PopStart(o: Order, c: seq<int>)
    requires Heap(o, c) && |c| > 0
    ensures HeapBelow(o, Exchange(c, 0, |c| - 1)[..|c| - 1], 0)
  {
    var d := Exchange(c, 0, |c| - 1)[..|c| - 1];
    forall i | 0 < i < |d| && (i - 1) / 2 != 0 ensures LinkOk(o, d, i) {
      assert LinkOk(o, c, i);
    }
  }

  /** One step of heapify_down: after exchanging `k` with its higher-priority child `m`
      that compares above it, only `m`'s links to its children may be broken. */
  lemma DownStep(o: Order, c: seq<int>, k: int, m: int)
    requires 0 <= k && (m == 2 * k + 1 || m == 2 * k + 2) && m < |c| && HeapBelow(o, c, k)
    requires Comp(o, c[k], c[m])
    requires NoChildAbove(o, c, k, c[m])
    ensures HeapBelow(o, Exchange(c, m, k), m)
  {
    var d := Exchange(c, m, k);
    ChildrenOf(o, c, k, c[m]);
    forall i | 0 < i < |d| && (i - 1) / 2 != m ensures LinkOk(o, d, i) {
      if i != k && i != m && (i - 1) / 2 != k {
        assert LinkOk(o, c, i);
      }
    }
    forall i | 0 < i < |d| && (i - 1) / 2 == m ensures !Comp(o, d[(m - 1) / 2], d[i]) {
      assert LinkOk(o, c, i);
    }
  }

  /** heapify_down stops when no child compares above `k`. */
  lemma DownDone(o: Order, c: seq<int>, k: int)
    requires 0 <= k && HeapBelow(o, c, k)
    requires k < |c| ==> NoChildAbove(o, c, k, c[k])
    ensures Heap(o, c)
  {
    if k < |c| {
      ChildrenOf(o, c, k, c[k]);
    } else {
      forall i | 0 < i < |c| ensures LinkOk(o, c, i) {
        assert (i - 1) / 2 < i <= k;
      }
    }
  }

  /** `x` compares above neither child of position `k`. */
  ghost predicate NoChildAbove(o: Order, c: seq<int>, k: int, x: int) {
    0 <= k && (2 * k + 1 < |c| ==> !Comp(o, x, c[2 * k + 1])) && (2 * k + 2 < |c| ==> !Comp(o, x, c[2 * k + 2]))
  }

  /** The children of `k` are the positions whose parent is `k`. */
  lemma ChildrenOf(o: Order, c: seq<int>, k: int, x: int)
    requires 0 <= k && NoChildAbove(o, c, k, x)
    ensures forall i :: 0 < i < |c| && (i - 1) / 2 == k ==> !Comp(o, x, c[i])
  {
    forall i | 0 < i < |c| && (i - 1) / 2 == k ensures !Comp(o, x, c[i]) {
      assert i == 2 * k + 1 || i == 2 * k + 2;
    }
  }

  class PriorityQueue {
    var c: seq<int>
    var order: Order

    ghost predicate Valid()
      reads this
    {
      Heap(order, c)
    }

    /** The default constructor, with the comparator chosen by `order`. */
    constructor(order: Order)
      ensures Valid() && c == [] && this.order == order
    {
      c := [];
      this.order := order;
    }

    /** heapify_up: swap the element at `index` with its parent while the parent
        compares below it. */
    method HeapifyUp(index: nat)
      modifies this
      requires index < |c| && HeapAbove(order, c, index)
      ensures Valid() && multiset(c) == old(multiset(c)) && |c| == old(|c|) && order == old(order)
    {
      var k := index;
      while k > 0
        invariant 0 <= k < |c| && |c| == old(|c|) && multiset(c) == old(multiset(c))
        invariant HeapAbove(order, c, k) && order == old(order)
      {
        var parent := (k - 1) / 2;
        if Comp(order, c[parent], c[k]) {
          UpStep(order, c, k);
          c := Exchange(c, parent, k);
          k := parent;
        } else {
          break;
        }
      }
      UpDone(order, c, k);
    }

    /** heapify_down: swap the element at `index` with its higher-priority child, if
        either child compares above it, and continue from that child. */
    method HeapifyDown(index: nat)
      modifies this
      requires HeapBelow(order, c, index)
      ensures Valid() && multiset(c) == old(multiset(c)) && |c| == old(|c|) && order == old(order)
      decreases |c| - index
    {
      var left, right := 2 * index + 1, 2 * index + 2;
      var largest := index;
      if left < |c| && Comp(order, c[largest], c[left]) {
        largest := left;
      }
      if right < |c| && Comp(order, c[largest], c[right]) {
        largest := right;
      }
      if largest != index {
        DownStep(order, c, index, largest);
        ghost var before := c;
        c := Exchange(c, largest, index);
        assert multiset(c) == multiset(before) && |c| == |before|;
        HeapifyDown(largest);
      } else {
        DownDone(order, c, index);
      }
    }

    /** top: the front element, which no element outranks; out_of_range when empty. */
    method Top() returns (r: Option<int>)
      requires Valid()
      ensures r.None? <==> |c| == 0
      ensures r.Some? ==> r.value in c && Dominates(order, r.value, c)
    {
      if |c| == 0 {
        return None;
      }
      FrontDominates(order, c, |c|);
      return Some(c[0]);
    }

    method Empty() returns (r: bool)
      ensures r <==> |c| == 0
    {
      r := |c| == 0;
    }

    method Size() returns (n: nat)
      ensures n == |c|
    {
      n := |c|;
    }

    /** push: append the value and sift it up. */
    method Push(value: int)
      modifies this
      requires Valid()
      ensures Valid() && order == old(order)
      ensures multiset(c) == old(multiset(c)) + multiset{value} && |c| == old(|c|) + 1
    {
      PushStart(order, c, value);
      c := c + [value];
      HeapifyUp(|c| - 1);
    }

    /** pop: move the last element to the front, drop the old front and sift down; a
        no-op on an empty queue. */
    method Pop()
      modifies this
      requires Valid()
      ensures Valid() && order == old(order)
      ensures old(|c|) == 0 ==> c == old(c)
      ensures old(|c|) > 0 ==> multiset(c) == old(multiset(c)) - multiset{old(c[0])} && |c| == old(|c|) - 1
    {
      if |c| > 0 {
        var last := |c| - 1;
        PopStart(order, c);
        c := Exchange(c, 0, last);
        assert c == c[..last] + [c[last]];
        c := c[..last];
        HeapifyDown(0);
      }
    }

    /** swap: exchange contents and comparators with another queue. */
    method Swap(other: PriorityQueue)
      modifies this, other
      ensures c == old(other.c) && order == old(other.order)
      ensures other.c == old(c) && other.order == old(order)
    {
      c, other.c := other.c, c;
      order, other.order := other.order, order;
    }
  }
}
