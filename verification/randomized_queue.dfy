/** The randomized queue of princeton_algs_1/deque_and_randomized_queue/
    RandomizedQueue.java: a resizing array whose first `size` cells hold the items,
    from which dequeue and sample pick a uniformly random index.

    The random choices are parameters: `choice` is the index StdRandom.uniformInt
    returned, and `shuffled` the index order StdRandom.shuffle produced for an
    iterator. Cells are `Option<T>`, `None` standing for Java's null. */
module RandomizedQueue {
  import opened Wrappers
  import opened SeqFacts

  datatype QueueError = IllegalArgument | NoSuchElement | UnsupportedOperation

  class RandomizedQueue<T> {
    var size: int
    var capacity: int
    var arr: array<Option<T>>
    ghost var items: seq<T>

    /** The first `size` cells hold the items in order and every later cell is null;
        the capacity never drops below four. */
    ghost predicate Valid()
      reads this, arr
    {
      arr.Length == capacity && 4 <= capacity && size == |items| <= capacity &&
      (forall i :: 0 <= i < size ==> arr[i] == Some(items[i])) &&
      (forall i :: size <= i < capacity ==> arr[i] == None)
    }

    /** resize: a new array of `newCapacity` cells holding the first `size` cells of
        the old one. */
    method Resize(newCapacity: int)
      modifies this
      requires arr.Length == capacity && 0 <= size <= capacity && size <= newCapacity
      ensures fresh(arr) && capacity == newCapacity && arr.Length == newCapacity
      ensures size == old(size) && items == old(items)
      ensures arr[..size] == old(arr[..size])
      ensures forall i :: size <= i < newCapacity ==> arr[i] == None
    {
      var newArr := new Option<T>[newCapacity](_ => None);
      for i := 0 to size
        modifies newArr
        invariant forall k :: 0 <= k < i ==> newArr[k] == arr[k]
        invariant forall k :: size <= k < newCapacity ==> newArr[k] == None
      {
        newArr[i] := arr[i];
      }
      arr := newArr;
      capacity := newCapacity;
    }

    /** The constructor: empty, with four cells. */
    constructor()
      ensures Valid() && items == [] && capacity == 4
    {
      size := 0;
      capacity := 0;
      arr := new Option<T>[0];
      items := [];
      new;
      Resize(4);
    }

    method IsEmpty() returns (b: bool)
      requires Valid()
      ensures b <==> items == []
    {
      var n := Size();
      b := n <= 0;
    }

    method Size() returns (n: int)
      requires Valid()
      ensures n == |items|
    {
      n := size;
    }

    /** enqueue: the item goes after the last one, doubling the array first when it
        is full; a null item is rejected and nothing changes. */
    method Enqueue(item: Option<T>) returns (r: Result<(), QueueError>)
      modifies this, arr
      requires Valid()
      ensures Valid()
      ensures item.None? ==> r == Failure(IllegalArgument) && items == old(items) && capacity == old(capacity)
      ensures item.Some? ==> r == Success(()) && items == old(items) + [item.value]
      ensures item.Some? ==> capacity == if old(size) >= old(capacity) then 2 * old(capacity) else old(capacity)
    {
      if item.None? {
        return Failure(IllegalArgument);
      }
      if size >= capacity {
        Resize(capacity * 2);
      }
      arr[size] := item;
      size := size + 1;
      items := items + [item.value];
      return Success(());
    }

    /** dequeue: the item at index `choice`, which is removed, the last item taking
        its place; the array halves when at most a quarter full, but never below four
        cells. NoSuchElementException when empty. */
    method Dequeue(choice: int) returns (r: Result<T, QueueError>)
      modifies this, arr
      requires Valid() && (items != [] ==> 0 <= choice < |items|)
      ensures Valid()
      ensures old(items) == [] ==> r == Failure(NoSuchElement) && items == [] && capacity == old(capacity)
      ensures old(items) != [] ==>
                var last := |old(items)| - 1;
                r == Success(old(items)[choice]) &&
                items == old(items)[choice := old(items)[last]][..last] &&
                capacity == if last * 4 <= old(capacity) && old(capacity) / 2 >= 4 then old(capacity) / 2 else old(capacity)
      ensures r.Success? ==> multiset(items) == old(multiset(items)) - multiset{r.value}
    {
      var empty := IsEmpty();
      if empty {
        return Failure(NoSuchElement);
      }
      FillHole(items, choice);
      var payload := arr[choice];
      arr[choice] := arr[size - 1];
      size := size - 1;
      arr[size] := None;
      items := items[choice := items[size]][..size];
      if size * 4 <= capacity && capacity / 2 >= 4 {
        Resize(capacity / 2);
      }
      return Success(payload.value);
    }

    /** sample: the item at index `choice`, left in place; NoSuchElementException when
        empty. */
    method Sample(choice: int) returns (r: Result<T, QueueError>)
      requires Valid() && (items != [] ==> 0 <= choice < |items|)
      ensures items == [] ==> r == Failure(NoSuchElement)
      ensures items != [] ==> r == Success(items[choice])
    {
      var empty := IsEmpty();
      if empty {
        return Failure(NoSuchElement);
      }
      return Success(arr[choice].value);
    }

    /** iterator: a fresh iterator over the items in the order `shuffled` gives. */
    method Iterator(shuffled: seq<int>) returns (it: RandomizedIterator<T>)
      requires Valid() && IsShuffle(shuffled, |items|)
      ensures fresh(it) && it.queue == this && it.Valid() && it.currentIndex == 0
      ensures it.shuffledIndices[..] == shuffled && fresh(it.shuffledIndices)
    {
      it := new RandomizedIterator(this, shuffled);
    }
  }

  /** Filling the hole at `c` with the last item and dropping the last cell removes
      exactly one copy of the item at `c`. */
  lemma {:induction false} FillHole<T>(xs: seq<T>, c: int)
    requires 0 <= c < |xs|
    ensures var last := |xs| - 1;
            multiset(xs[c := xs[last]][..last]) == multiset(xs) - multiset{xs[c]}
  {
    var last := |xs| - 1;
    assert xs == xs[..last] + [xs[last]];
    if c < last {
      assert xs[c := xs[last]][..last] == xs[..last][c := xs[last]];
      Updated(xs[..last], c, xs[last]);
    }
  }

  /** `shuffled` lists each index below `n` once. */
  ghost predicate IsShuffle(shuffled: seq<int>, n: int) {
    |shuffled| == n &&
    (forall k :: 0 <= k < n ==> 0 <= shuffled[k] < n) &&
    (forall k, m :: 0 <= k < m < n ==> shuffled[k] != shuffled[m])
  }

  /** The items taken in the order of `order`. */
  function Pick<T>(items: seq<T>, order: seq<int>): (s: seq<T>)
    requires forall k :: 0 <= k < |order| ==> 0 <= order[k] < |items|
    ensures |s| == |order| && forall k :: 0 <= k < |order| ==> s[k] == items[order[k]]
  {
    seq(|order|, k requires 0 <= k < |order| => items[order[k]])
  }

  /** RandomizedIterator: the indices 0 to size - 1 in shuffled order, of which the
      first `currentIndex` have been visited. */
  class RandomizedIterator<T> {
    const queue: RandomizedQueue<T>
    var currentIndex: int
    const shuffledIndices: array<int>

    ghost predicate Valid()
      reads this, queue, queue.arr, shuffledIndices
    {
      queue.Valid() &&
      IsShuffle(shuffledIndices[..], queue.size) && 0 <= currentIndex <= queue.size
    }

    /** The constructor: indices in order, then shuffled (the shuffle is `shuffled`). */
    constructor(queue: RandomizedQueue<T>, shuffled: seq<int>)
      requires queue.Valid() && IsShuffle(shuffled, queue.size)
      ensures Valid() && this.queue == queue && currentIndex == 0
      ensures shuffledIndices[..] == shuffled && fresh(shuffledIndices)
    {
      this.queue := queue;
      currentIndex := 0;
      var indices := new int[queue.size];
      for i := 0 to queue.size
        invariant forall k :: 0 <= k < i ==> indices[k] == k
      {
        indices[i] := i;
      }
      forall k | 0 <= k < queue.size {
        indices[k] := shuffled[k];
      }
      shuffledIndices := indices;
    }

    method HasNext() returns (b: bool)
      requires Valid()
      ensures b <==> currentIndex < |queue.items|
    {
      b := currentIndex < queue.size;
    }

    /** next: the item at the next shuffled index; NoSuchElementException at the
        end. */
    method Next() returns (r: Result<T, QueueError>)
      modifies this
      requires Valid()
      ensures Valid()
      ensures old(currentIndex) == |queue.items| ==> r == Failure(NoSuchElement) && currentIndex == old(currentIndex)
      ensures old(currentIndex) < |queue.items| ==>
                r == Success(queue.items[shuffledIndices[old(currentIndex)]]) && currentIndex == old(currentIndex) + 1
    {
      var more := HasNext();
      if !more {
        return Failure(NoSuchElement);
      }
      var item := queue.arr[shuffledIndices[currentIndex]];
      currentIndex := currentIndex + 1;
      return Success(item.value);
    }

    /** remove: not supported. */
    method Remove() returns (r: Result<(), QueueError>)
      ensures r == Failure(UnsupportedOperation)
    {
      return Failure(UnsupportedOperation);
    }
  }

  /** A for-each loop over the queue sees the items in the shuffled order: every item
      once, since the order is a shuffle of the indices. */
  method Iterate<T>(q: RandomizedQueue<T>, shuffled: seq<int>) returns (s: seq<T>)
    requires q.Valid() && IsShuffle(shuffled, |q.items|)
    ensures s == Pick(q.items, shuffled)
  {
    var it := q.Iterator(shuffled);
    s := [];
    var more := it.HasNext();
    while more
      invariant fresh(it) && fresh(it.shuffledIndices) && it.Valid() && it.queue == q
      invariant it.shuffledIndices[..] == shuffled
      invariant s == Pick(q.items, shuffled[..it.currentIndex])
      invariant more <==> it.currentIndex < |q.items|
      decreases |q.items| - it.currentIndex
    {
      ghost var k := it.currentIndex;
      var x := it.Next();
      assert shuffled[..k + 1] == shuffled[..k] + [shuffled[k]];
      s := s + [x.value];
      more := it.HasNext();
    }
    assert shuffled[..|q.items|] == shuffled;
  }
}
