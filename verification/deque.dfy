/** The deque of princeton_algs_1/deque_and_randomized_queue/Deque.java: a doubly
    linked list with a first and a last node and a size counter, and an iterator that
    walks the list from the front.

    Items are `Option<T>` values at the interface, `None` standing for Java's null,
    which the add operations reject; the list itself holds only non-null items. The
    ghost sequence `nodes` names the list's nodes front to back and `items` their
    payloads. */
module Deque {
  import opened Wrappers

  datatype DequeError = IllegalArgument | NoSuchElement | UnsupportedOperation

  class LinkedListNode<T> {
    var payload: T
    var next: LinkedListNode?<T>
    var previous: LinkedListNode?<T>

    constructor(payload: T, next: LinkedListNode?<T>, previous: LinkedListNode?<T>)
      ensures this.payload == payload && this.next == next && this.previous == previous
    {
      this.payload := payload;
      this.next := next;
      this.previous := previous;
    }
  }

  /** Node `i` of `nodes` holds item `i` and links to its two neighbours, or to null at
      either end. */
  ghost predicate Linked<T>(nodes: seq<LinkedListNode<T>>, items: seq<T>, i: int)
    requires 0 <= i < |nodes| == |items|
    reads nodes[i]
  {
    nodes[i].payload == items[i] &&
    nodes[i].next == (if i + 1 < |nodes| then nodes[i + 1] else null) &&
    nodes[i].previous == (if 0 < i then nodes[i - 1] else null)
  }

  class Deque<T> {
    var size: int
    var firstNode: LinkedListNode?<T>
    var lastNode: LinkedListNode?<T>
    ghost var items: seq<T>
    ghost var nodes: seq<LinkedListNode<T>>
    ghost var Repr: set<object>

    ghost predicate Valid()
      reads this, Repr
    {
      this in Repr && (forall i :: 0 <= i < |nodes| ==> nodes[i] in Repr) &&
      |nodes| == |items| && size == |items| &&
      (forall i, j :: 0 <= i < j < |nodes| ==> nodes[i] != nodes[j]) &&
      firstNode == (if nodes == [] then null else nodes[0]) &&
      lastNode == (if nodes == [] then null else nodes[|nodes| - 1]) &&
      (forall i {:trigger Linked(nodes, items, i)} :: 0 <= i < |nodes| ==> Linked(nodes, items, i))
    }

    constructor()
      ensures Valid() && fresh(Repr) && items == []
    {
      size := 0;
      firstNode, lastNode := null, null;
      items, nodes := [], [];
      Repr := {this};
    }

    method IsEmpty() returns (b: bool)
      requires Valid()
      ensures b <==> items == []
    {
      var n := Size();
      b := n <= 0;
    }

    method Size() returns (n: int)
      requires Valid()
      ensures n == |items|
    {
      n := size;
    }

    /** addFirst: the item becomes the front; a null item is rejected and nothing
        changes. */
    method AddFirst(item: Option<T>) returns (r: Result<(), DequeError>)
      modifies Repr
      requires Valid()
      ensures Valid() && fresh(Repr - old(Repr))
      ensures item.None? ==> r == Failure(IllegalArgument) && items == old(items)
      ensures item.Some? ==> r == Success(()) && items == [item.value] + old(items)
    {
      if item.None? {
        return Failure(IllegalArgument);
      }
      var node := new LinkedListNode(item.value, firstNode, null);
      firstNode := node;
      size := size + 1;
      if lastNode == null {
        lastNode := firstNode;
      } else {
        firstNode.next.previous := firstNode;
      }
      items, nodes := [item.value] + items, [node] + nodes;
      Repr := Repr + {node};
      forall i | 0 <= i < |nodes| ensures Linked(nodes, items, i) {
        if i > 0 {
          assert old(Linked(nodes, items, i - 1));
        }
      }
      return Success(());
    }

    /** addLast: the item becomes the back; a null item is rejected and nothing
        changes. An empty deque defers to addFirst. */
    method AddLast(item: Option<T>) returns (r: Result<(), DequeError>)
      modifies Repr
      requires Valid()
      ensures Valid() && fresh(Repr - old(Repr))
      ensures item.None? ==> r == Failure(IllegalArgument) && items == old(items)
      ensures item.Some? ==> r == Success(()) && items == old(items) + [item.value]
    {
      if item.None? {
        return Failure(IllegalArgument);
      }
      if lastNode == null {
        r := AddFirst(item);
        return;
      }
      var node := new LinkedListNode(item.value, null, lastNode);
      lastNode.next := node;
      lastNode := lastNode.next;
      size := size + 1;
      items, nodes := items + [item.value], nodes + [node];
      Repr := Repr + {node};
      forall i | 0 <= i < |nodes| ensures Linked(nodes, items, i) {
        if i < |nodes| - 1 {
          assert old(Linked(nodes, items, i));
        }
      }
      return Success(());
    }

    /** removeFirst: the front item, which is removed; NoSuchElementException when
        the deque is empty. */
    method RemoveFirst() returns (r: Result<T, DequeError>)
      modifies Repr
      requires Valid()
      ensures Valid() && fresh(Repr - old(Repr))
      ensures old(items) == [] ==> r == Failure(NoSuchElement) && items == []
      ensures old(items) != [] ==> r == Success(old(items)[0]) && items == old(items)[1..]
    {
      var empty := IsEmpty();
      if empty {
        return Failure(NoSuchElement);
      }
      assert Linked(nodes, items, 0);
      var payload := firstNode.payload;
      firstNode := firstNode.next;
      if firstNode == null {
        lastNode := null;
      } else {
        firstNode.previous := null;
      }
      size := size - 1;
      items, nodes := items[1..], nodes[1..];
      forall i | 0 <= i < |nodes| ensures Linked(nodes, items, i) {
        assert old(Linked(nodes, items, i + 1));
      }
      return Success(payload);
    }

    /** removeLast: the back item, which is removed; NoSuchElementException when the
        deque is empty. */
    method RemoveLast() returns (r: Result<T, DequeError>)
      modifies Repr
      requires Valid()
      ensures Valid() && fresh(Repr - old(Repr))
      ensures old(items) == [] ==> r == Failure(NoSuchElement) && items == []
      ensures old(items) != [] ==> r == Success(old(items)[|old(items)| - 1]) && items == old(items)[..|old(items)| - 1]
    {
      var empty := IsEmpty();
      if empty {
        return Failure(NoSuchElement);
      }
      var n := |nodes|;
      assert Linked(nodes, items, n - 1);
      var payload := lastNode.payload;
      lastNode := lastNode.previous;
      if lastNode == null {
        firstNode := null;
      } else {
        lastNode.next := null;
      }
      size := size - 1;
      items, nodes := items[..n - 1], nodes[..n - 1];
      forall i | 0 <= i < |nodes| ensures Linked(nodes, items, i) {
        assert old(Linked(nodes, items, i));
      }
      return Success(payload);
    }

    /** iterator: a fresh iterator at the front of the deque. */
    method Iterator() returns (it: ListIterator<T>)
      requires Valid()
      ensures fresh(it) && it.deque == this && it.index == 0 && it.Valid()
    {
      it := new ListIterator(this);
    }
  }

  /** ListIterator: `current` is node `index` of the deque, or null past the back. */
  class ListIterator<T> {
    const deque: Deque<T>
    var current: LinkedListNode?<T>
    ghost var index: nat

    ghost predicate Valid()
      reads this, deque, deque.Repr
    {
      this !in deque.Repr && deque.Valid() && index <= |deque.nodes| &&
      current == (if index < |deque.nodes| then deque.nodes[index] else null)
    }

    constructor(deque: Deque<T>)
      requires deque.Valid()
      ensures Valid() && this.deque == deque && index == 0
    {
      this.deque := deque;
      current := deque.firstNode;
      index := 0;
    }

    method HasNext() returns (b: bool)
      requires Valid()
      ensures b <==> index < |deque.items|
    {
      b := current != null;
    }

    /** next: the item at the iterator's position, moving one step towards the back;
        NoSuchElementException past the back. */
    method Next() returns (r: Result<T, DequeError>)
      modifies this
      requires Valid()
      ensures Valid() && deque.items == old(deque.items)
      ensures old(index) == |deque.items| ==> r == Failure(NoSuchElement) && index == old(index)
      ensures old(index) < |deque.items| ==> r == Success(deque.items[old(index)]) && index == old(index) + 1
    {
      var more := HasNext();
      if !more {
        return Failure(NoSuchElement);
      }
      assert Linked(deque.nodes, deque.items, index);
      var payload := current.payload;
      current := current.next;
      index := index + 1;
      return Success(payload);
    }

    /** remove: not supported. */
    method Remove() returns (r: Result<(), DequeError>)
      ensures r == Failure(UnsupportedOperation)
    {
      return Failure(UnsupportedOperation);
    }
  }

  lemma PrefixStep<T>(xs: seq<T>, k: int)
    requires 0 <= k < |xs|
    ensures xs[..k + 1] == xs[..k] + [xs[k]]
  {
  }

  /** A for-each loop over the deque sees its items front to back. */
  method Iterate<T>(d: Deque<T>) returns (s: seq<T>)
    requires d.Valid()
    ensures s == d.items
  {
    var it := d.Iterator();
    ghost var xs := d.items;
    s := [];
    var more := it.HasNext();
    while more
      invariant fresh(it) && it.Valid() && it.deque == d && d.items == xs
      invariant s == xs[..it.index] && (more <==> it.index < |xs|)
      decreases |xs| - it.index
    {
      ghost var k := it.index;
      var x := it.Next();
      assert x == Success(xs[k]) && it.index == k + 1;
      PrefixStep(xs, k);
      s := s + [x.value];
      more := it.HasNext();
    }
  }
}
