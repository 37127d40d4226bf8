/** The queue of data_structures/QueueUsingTwoStacks.java: items are pushed onto an
    enqueue stack and popped from a dequeue stack, which is refilled from the enqueue
    stack, reversing it, only when it runs empty. Each stack is a singly linked list
    of nodes whose fields never change after construction.

    Payloads are of any type `T`; Java's null payloads are not distinguished. */
module QueueUsingTwoStacks {
  import opened Wrappers
  import SeqFacts

  datatype StackError = IndexOutOfBounds
  datatype QueueError = NoSuchElement

  /** The sequence in reverse order. */
  function Reverse<T>(s: seq<T>): (r: seq<T>)
    ensures |r| == |s|
    ensures forall i :: 0 <= i < |s| ==> r[i] == s[|s| - 1 - i]
  {
    if s == [] then [] else Reverse(s[1..]) + [s[0]]
  }

  /** Reversing twice gives the sequence back. */
  lemma ReverseReverse<T>(s: seq<T>)
    ensures Reverse(Reverse(s)) == s
  {
    var r := Reverse(Reverse(s));
    assert |r| == |s|;
    forall i | 0 <= i < |s| ensures r[i] == s[i] {
    }
  }

  /** Moving the top of a non-empty stack `s` onto `d` keeps the reversed `s`
      followed by `d` unchanged. */
  lemma ReverseMove<T>(s: seq<T>, d: seq<T>)
    requires s != []
    ensures Reverse(s[1..]) + ([s[0]] + d) == Reverse(s) + d
  {
    SeqFacts.Regroup(Reverse(s[1..]), [s[0]], d);
  }

  /** A list node; `items` is the list from this node to the end. */
  class LinkedListNode<T> {
    const payload: T
    const next: LinkedListNode?<T>
    ghost const items: seq<T>

    /** `items` lists this node's payload and then the nodes after it. */
    ghost predicate Valid()
      decreases |items|
    {
      items == [payload] + (if next == null then [] else next.items) &&
      (next != null ==> |next.items| < |items| && next.Valid())
    }

    constructor(payload: T, next: LinkedListNode?<T>)
      requires next != null ==> next.Valid()
      ensures Valid() && this.payload == payload && this.next == next
      ensures items == [payload] + (if next == null then [] else next.items)
    {
      this.payload := payload;
      this.next := next;
      items := [payload] + (if next == null then [] else next.items);
    }
  }

  /** LinkedListStack: the top of the stack is the first element of `items`. */
  class LinkedListStack<T> {
    var itemsCounter: int
    var topMostNode: LinkedListNode?<T>
    ghost var items: seq<T>

    ghost predicate Valid()
      reads this
    {
      (topMostNode == null ==> items == []) &&
      (topMostNode != null ==> topMostNode.Valid() && items == topMostNode.items) &&
      itemsCounter == |items|
    }

    constructor()
      ensures Valid() && items == []
    {
      itemsCounter := 0;
      topMostNode := null;
      items := [];
    }

    /** push: a new node on top. */
    method Push(payload: T)
      modifies this
      requires Valid()
      ensures Valid() && items == [payload] + old(items)
    {
      topMostNode := new LinkedListNode(payload, topMostNode);
      itemsCounter := itemsCounter + 1;
      items := [payload] + items;
    }

    /** pop: the top item, which is removed; IndexOutOfBoundsException when empty. */
    method Pop() returns (r: Result<T, StackError>)
      modifies this
      requires Valid()
      ensures Valid()
      ensures old(items) == [] ==> r == Failure(IndexOutOfBounds) && items == []
      ensures old(items) != [] ==> r == Success(old(items)[0]) && items == old(items)[1..]
    {
      if topMostNode == null {
        return Failure(IndexOutOfBounds);
      }
      var payload := topMostNode.payload;
      items := topMostNode.items[1..];
      topMostNode := topMostNode.next;
      itemsCounter := itemsCounter - 1;
      return Success(payload);
    }

    method IsEmpty() returns (b: bool)
      requires Valid()
      ensures b <==> items == []
    {
      var n := Size();
      b := n <= 0;
    }

    method Size() returns (n: int)
      requires Valid()
      ensures n == |items|
    {
      n := itemsCounter;
    }
  }

  class QueueUsingTwoStacks<T> {
    const enqueueStack: LinkedListStack<T>
    const dequeueStack: LinkedListStack<T>

    ghost predicate Valid()
      reads this, enqueueStack, dequeueStack
    {
      enqueueStack != dequeueStack && enqueueStack.Valid() && dequeueStack.Valid()
    }

    /** The queue front to back: the dequeue stack top down, then the enqueue stack
        bottom up. */
    ghost function Items(): seq<T>
      reads this, enqueueStack, dequeueStack
    {
      dequeueStack.items + Reverse(enqueueStack.items)
    }

    constructor()
      ensures Valid() && Items() == [] && fresh(enqueueStack) && fresh(dequeueStack)
    {
      enqueueStack := new LinkedListStack();
      dequeueStack := new LinkedListStack();
    }

    method IsEmpty() returns (b: bool)
      requires Valid()
      ensures b <==> Items() == []
    {
      var e := enqueueStack.IsEmpty();
      var d := dequeueStack.IsEmpty();
      b := e && d;
    }

    /** size: the sum of the two stack sizes, which is the number of queued items. */
    method Size() returns (n: int)
      requires Valid()
      ensures n == |Items()|
    {
      var e := enqueueStack.Size();
      var d := dequeueStack.Size();
      n := e + d;
    }

    /** enqueue: push onto the enqueue stack; the item joins the back of the queue. */
    method Enqueue(payload: T)
      modifies enqueueStack
      requires Valid()
      ensures Valid() && Items() == old(Items()) + [payload]
      ensures dequeueStack.items == old(dequeueStack.items)
    {
      enqueueStack.Push(payload);
      assert Reverse([payload] + old(enqueueStack.items))[..|old(enqueueStack.items)|]
          == Reverse(old(enqueueStack.items));
    }

    /** Move every item of the enqueue stack onto the empty dequeue stack, reversing
        them, so that the front of the queue comes to the top. */
    method Transfer()
      modifies enqueueStack, dequeueStack
      requires Valid() && dequeueStack.items == []
      ensures Valid() && enqueueStack.items == [] && dequeueStack.items == old(Items())
    {
      ghost var queued := Reverse(enqueueStack.items);
      var empty := enqueueStack.IsEmpty();
      while !empty
        invariant Valid() && (empty <==> enqueueStack.items == [])
        invariant Reverse(enqueueStack.items) + dequeueStack.items == queued
        decreases |enqueueStack.items|
      {
        ghost var rest, moved := enqueueStack.items, dequeueStack.items;
        var top := enqueueStack.Pop();
        dequeueStack.Push(top.value);
        ReverseMove(rest, moved);
        empty := enqueueStack.IsEmpty();
      }
    }

    /** dequeue: the front item, which is removed; NoSuchElementException when the
        queue is empty. The dequeue stack is refilled only when it is empty. */
    method Dequeue() returns (r: Result<T, QueueError>)
      modifies enqueueStack, dequeueStack
      requires Valid()
      ensures Valid()
      ensures old(Items()) == [] ==> r == Failure(NoSuchElement) && Items() == []
      ensures old(Items()) != [] ==> r == Success(old(Items())[0]) && Items() == old(Items())[1..]
      ensures old(dequeueStack.items) != [] ==> enqueueStack.items == old(enqueueStack.items)
    {
      var empty := IsEmpty();
      if empty {
        return Failure(NoSuchElement);
      }
      var refill := dequeueStack.IsEmpty();
      if refill {
        Transfer();
      }
      var top := dequeueStack.Pop();
      return Success(top.value);
    }
  }
}
