/** The FIFO queue of data_structures/resizing_array_queue.cpp: a circular buffer over
    a heap-allocated array that doubles when full and halves when a quarter full, never
    going below four slots.

    Elements are `int`. `first` is first_filled_index (-1 when the queue is empty) and
    `next` is next_to_fill_index. */
module ResizingArrayQueue {
  import opened Wrappers

  /** size(): no items when `first` is -1, otherwise the circular distance from `first`
      to `next`, which is the whole capacity when they meet. */
  function SizeOf(capacity: int, first: int, next: int): int {
    if first == -1 then 0
    else if next > first then next - first
    else capacity - first + next
  }

  /** The error dequeue throws on an empty queue. */
  datatype QueueError = OutOfRange

  /** An index below twice the capacity, wrapped once into the buffer. */
  function Wrap(x: int, capacity: int): int {
    if x < capacity then x else x - capacity
  }

  /** The source's `%` agrees with one wrap on the indices it is applied to. */
  lemma ModWrap(x: int, capacity: int)
    requires 0 <= x < 2 * capacity
    ensures x % capacity == Wrap(x, capacity)
  {
    if x >= capacity {
      assert x == capacity + (x - capacity);
    }
  }

  /** `n` slots of a circular buffer read from `start` onwards. */
  ghost function Circular(a: seq<int>, start: int, n: nat): (r: seq<int>)
    requires n <= |a| && (n == 0 || 0 <= start < |a|)
    ensures |r| == n && forall i :: 0 <= i < n ==> r[i] == a[Wrap(start + i, |a|)]
  {
    seq(n, i requires 0 <= i < n => a[Wrap(start + i, |a|)])
  }

  /** The sizes size() can report, and when it reports none. */
  lemma SizeRange(capacity: int, first: int, next: int)
    requires 0 < capacity && -1 <= first < capacity && 0 <= next < capacity
    ensures 0 <= SizeOf(capacity, first, next) <= capacity
    ensures SizeOf(capacity, first, next) == 0 <==> first == -1
  {
  }

  /** In a non-empty queue `next` is `size` slots after `first`. */
  lemma EndIndex(capacity: int, first: int, next: int)
    requires 0 <= first < capacity && 0 <= next < capacity
    ensures next == Wrap(first + SizeOf(capacity, first, next), capacity)
  {
  }

  /** `m` items from `first` end `m` slots later, for any count up to the capacity. */
  lemma SizeAfter(capacity: int, first: int, m: int)
    requires 0 <= first < capacity && 1 <= m <= capacity
    ensures SizeOf(capacity, first, Wrap(first + m, capacity)) == m
  {
  }

  /** enqueue's index step: bumping and wrapping `next` after `n` items adds one item. */
  lemma AdvanceNext(capacity: int, first: int, n: int)
    requires 0 <= first < capacity && 0 <= n < capacity
    ensures Wrap(Wrap(first + n, capacity) + 1, capacity) == Wrap(first + n + 1, capacity)
    ensures SizeOf(capacity, first, Wrap(first + n + 1, capacity)) == n + 1
  {
    SizeAfter(capacity, first, n + 1);
  }

  /** dequeue's index step: bumping and wrapping `first` meets `next` exactly when one
      item was left, and otherwise removes one item. */
  lemma AdvanceFirst(capacity: int, first: int, next: int)
    requires 0 <= first < capacity && 0 <= next < capacity
    ensures Wrap(first + 1, capacity) == next <==> SizeOf(capacity, first, next) == 1
    ensures SizeOf(capacity, first, next) != 1 ==>
              SizeOf(capacity, Wrap(first + 1, capacity), next) == SizeOf(capacity, first, next) - 1
  {
  }

  /** Writing the slot just past the items appends to them. */
  lemma CircularWrite(a: seq<int>, start: int, n: nat, v: int)
    requires 0 <= start < |a| && n < |a|
    ensures Circular(a[Wrap(start + n, |a|) := v], start, n + 1) == Circular(a, start, n) + [v]
  {
  }

  /** Advancing `start` by one slot drops the first item. */
  lemma CircularDrop(a: seq<int>, start: int, n: nat)
    requires 0 <= start < |a| && 0 < n <= |a|
    ensures Circular(a, Wrap(start + 1, |a|), n - 1) == Circular(a, start, n)[1..]
  {
  }

  /** Items starting at slot 0 are a prefix of the buffer. */
  lemma CircularFront(a: seq<int>, n: nat)
    requires n <= |a|
    ensures Circular(a, 0, n) == a[..n]
  {
  }

  class Queue {
    var capacity: int
    var first: int
    var next: int
    var arr: array<int>

    /** The buffer and its two indices. */
    ghost predicate Indices()
      reads this
    {
      arr.Length == capacity && 4 <= capacity && -1 <= first < capacity && 0 <= next < capacity
    }

    /** The representation invariant: the indices, and more than a quarter full whenever
        the buffer is above its minimum, so a shrink never happens on an empty queue. */
    ghost predicate Valid()
      reads this
    {
      Indices() && (capacity < 8 || 4 * SizeOf(capacity, first, next) > capacity)
    }

    /** The queued items, oldest first. */
    ghost function Items(): seq<int>
      reads this, arr
      requires Indices()
    {
      SizeRange(capacity, first, next);
      Circular(arr[..], first, SizeOf(capacity, first, next))
    }

    method Size() returns (n: int)
      requires Valid()
      ensures n == |Items()|
    {
      n := SizeOf(capacity, first, next);
    }

    method IsEmpty() returns (r: bool)
      requires Valid()
      ensures r <==> Items() == []
    {
      r := SizeOf(capacity, first, next) <= 0;
    }

    /** resize: copy the items in order to the front of a fresh array. An empty queue
        keeps its indices. */
    method Resize(newCapacity: int)
      modifies this
      requires Indices() && 4 <= newCapacity && SizeOf(capacity, first, next) < newCapacity
      requires first == -1 ==> next < newCapacity
      ensures Indices() && capacity == newCapacity && fresh(arr)
      ensures old(first) == -1 ==> first == -1 && next == old(next)
      ensures old(first) != -1 ==> first == 0 && next == SizeOf(old(capacity), old(first), old(next))
      ensures SizeOf(capacity, first, next) == SizeOf(old(capacity), old(first), old(next))
      ensures arr[..SizeOf(capacity, first, next)] == old(Items())
    {
      var newArr := new int[newCapacity];
      var n := SizeOf(capacity, first, next);
      SizeRange(capacity, first, next);
      if first != -1 {
        var i := 0;
        while i < n
          modifies newArr
          invariant 0 <= i <= n
          invariant forall j :: 0 <= j < i ==> newArr[j] == arr[Wrap(first + j, capacity)]
        {
          ModWrap(first + i, capacity);
          newArr[i] := arr[(first + i) % capacity];
          i := i + 1;
        }
        first := 0;
        next := i;
      }
      assert newArr[..n] == old(Items());
      capacity := newCapacity;
      arr := newArr;
    }

    /** The constructor: an empty queue with four slots. */
    constructor()
      ensures Valid() && Items() == [] && capacity == 4
    {
      first := -1;
      next := 0;
      capacity := 4;
      arr := new int[4];
    }

    /** enqueue: double a full buffer, then write at `next` and wrap it. */
    method Enqueue(payload: int)
      modifies this, arr
      requires Valid()
      ensures Valid() && Items() == old(Items()) + [payload]
      ensures capacity == if old(|Items()|) == old(capacity) then 2 * old(capacity) else old(capacity)
    {
      ghost var items := Items();
      if SizeOf(capacity, first, next) == capacity {
        Resize(capacity * 2);
        CircularFront(arr[..], |items|);
      }
      Push(payload);
    }

    /** The write of enqueue into a buffer with a free slot. */
    method Push(payload: int)
      modifies this, arr
      requires Indices() && SizeOf(capacity, first, next) < capacity
      ensures Indices() && capacity == old(capacity) && arr == old(arr)
      ensures SizeOf(capacity, first, next) == old(SizeOf(capacity, first, next)) + 1
      ensures Items() == old(Items()) + [payload]
    {
      ghost var items := Items();
      var n := SizeOf(capacity, first, next);
      SizeRange(capacity, first, next);
      if n <= 0 {
        first := next;
      } else {
        EndIndex(capacity, first, next);
      }
      assert next == Wrap(first + n, capacity);
      ghost var a := arr[..];
      assert Circular(a, first, n) == items;
      arr[next] := payload;
      assert arr[..] == a[Wrap(first + n, capacity) := payload];
      next := next + 1;
      if next == capacity {
        next := 0;
      }
      AdvanceNext(capacity, first, n);
      CircularWrite(a, first, n, payload);
    }

    /** dequeue: read at `first`, advance and wrap it, mark an emptied queue with -1,
        then halve a buffer that is at most a quarter full while it has at least eight
        slots. */
    method Dequeue() returns (r: Result<int, QueueError>)
      modifies this, arr
      requires Valid()
      ensures Valid()
      ensures old(Items()) == [] ==> r == Failure(OutOfRange) && Items() == []
      ensures old(Items()) != [] ==> r == Success(old(Items())[0]) && Items() == old(Items())[1..]
      ensures capacity == if old(|Items()|) > 0 && 4 * (old(|Items()|) - 1) <= old(capacity) && old(capacity) / 2 >= 4
                          then old(capacity) / 2 else old(capacity)
    {
      if SizeOf(capacity, first, next) <= 0 {
        return Failure(OutOfRange);
      }
      var payload := Pop();
      var n := SizeOf(capacity, first, next);
      if n * 4 <= capacity && capacity / 2 >= 4 {
        SizeRange(capacity, first, next);
        Resize(capacity / 2);
        CircularFront(arr[..], n);
      }
      return Success(payload);
    }

    /** The read of dequeue from a non-empty buffer. */
    method Pop() returns (payload: int)
      modifies this
      requires Indices() && SizeOf(capacity, first, next) > 0
      ensures Indices() && capacity == old(capacity) && arr == old(arr)
      ensures SizeOf(capacity, first, next) == old(SizeOf(capacity, first, next)) - 1
      ensures payload == old(Items())[0] && Items() == old(Items())[1..]
    {
      ghost var items := Items();
      ghost var a := arr[..];
      var n := SizeOf(capacity, first, next);
      SizeRange(capacity, first, next);
      payload := arr[first];
      assert payload == items[0];
      AdvanceFirst(capacity, first, next);
      CircularDrop(a, first, n);
      first := first + 1;
      if first == capacity {
        first := 0;
      }
      if first == next {
        first := -1;
      }
      assert SizeOf(capacity, first, next) == n - 1;
    }

    /** The copy constructor as written: it always sets `first` to 0 and `next` to the
        item count, so a copy of an empty queue claims to be full and a copy of a full
        queue leaves `next` one past the last slot. */
    constructor CopyAsWritten(other: Queue)
      requires other.Valid()
      ensures capacity == other.capacity && arr.Length == capacity && fresh(arr)
      ensures first == 0 && next == |other.Items()|
      ensures arr[..next] == other.Items()
    {
      var n := SizeOf(other.capacity, other.first, other.next);
      SizeRange(other.capacity, other.first, other.next);
      var newArr := new int[other.capacity];
      var i := 0;
      while i < n
        modifies newArr
        invariant 0 <= i <= n
        invariant forall j :: 0 <= j < i ==> newArr[j] == other.arr[Wrap(other.first + j, other.capacity)]
      {
        ModWrap(other.first + i, other.capacity);
        newArr[i] := other.arr[(other.first + i) % other.capacity];
        i := i + 1;
      }
      assert newArr[..n] == other.Items();
      capacity := other.capacity;
      first := 0;
      next := n;
      arr := newArr;
    }

    /** The copy constructor as intended: the same items in the same order, from slot 0,
        with an empty copy marked empty and a full copy's `next` wrapped to 0. */
    constructor Copy(other: Queue)
      requires other.Valid()
      ensures Valid() && Items() == other.Items() && capacity == other.capacity && fresh(arr)
    {
      var n := SizeOf(other.capacity, other.first, other.next);
      SizeRange(other.capacity, other.first, other.next);
      var newArr := new int[other.capacity];
      var i := 0;
      while i < n
        modifies newArr
        invariant 0 <= i <= n
        invariant forall j :: 0 <= j < i ==> newArr[j] == other.arr[Wrap(other.first + j, other.capacity)]
      {
        ModWrap(other.first + i, other.capacity);
        newArr[i] := other.arr[(other.first + i) % other.capacity];
        i := i + 1;
      }
      assert newArr[..n] == other.Items();
      CircularFront(newArr[..], n);
      if n > 0 {
        SizeAfter(other.capacity, 0, n);
      }
      capacity := other.capacity;
      first := if n == 0 then -1 else 0;
      next := if n == other.capacity then 0 else n;
      arr := newArr;
    }

    /** Copy assignment as intended: self-assignment changes nothing; otherwise the
        items of `other` are copied as in Copy. */
    method Assign(other: Queue)
      modifies this
      requires Valid() && other.Valid()
      ensures Valid() && Items() == old(other.Items()) && capacity == old(other.capacity)
    {
      if this == other {
        return;
      }
      var n := SizeOf(other.capacity, other.first, other.next);
      SizeRange(other.capacity, other.first, other.next);
      var newArr := new int[other.capacity];
      var i := 0;
      while i < n
        modifies newArr
        invariant 0 <= i <= n
        invariant forall j :: 0 <= j < i ==> newArr[j] == other.arr[Wrap(other.first + j, other.capacity)]
      {
        ModWrap(other.first + i, other.capacity);
        newArr[i] := other.arr[(other.first + i) % other.capacity];
        i := i + 1;
      }
      assert newArr[..n] == other.Items();
      CircularFront(newArr[..], n);
      if n > 0 {
        SizeAfter(other.capacity, 0, n);
      }
      capacity := other.capacity;
      first := if n == 0 then -1 else 0;
      next := if n == capacity then 0 else n;
      arr := newArr;
    }
  }

  /** size() of a state with `first` at 0 and `next` at the item count, as the copy
      operations leave it: right exactly when the source was neither empty nor full. */
  lemma CopiedSizeAsWritten(capacity: int, n: int)
    requires 4 <= capacity && 0 <= n <= capacity
    ensures SizeOf(capacity, 0, n) == (if n == 0 then capacity else n)
    ensures (SizeOf(capacity, 0, n) == n && n < capacity) <==> 0 < n < capacity
  {
  }

  /** A copy of an empty four-slot queue reports four items. */
  lemma EmptyCopyReportsFull()
    ensures SizeOf(4, -1, 0) == 0 && SizeOf(4, 0, 0) == 4
  {
  }

  /** A copy of a full queue starts with `next` equal to the capacity. After one
      dequeue `first` is 1, size() reports one free slot, so the next enqueue does not
      resize and writes at `next`, one past the end of the buffer. */
  lemma FullCopyOverrun(capacity: int)
    requires 4 <= capacity
    ensures SizeOf(capacity, 0, capacity) == capacity
    ensures Wrap(0 + 1, capacity) != capacity && SizeOf(capacity, 1, capacity) == capacity - 1
  {
  }
}
