/** The ordered symbol table of data_structures/OrderedSymbolTable.java: an unbalanced
    binary search tree of key-value pairs with distinct keys, where every node records
    the size of its subtree.

    Keys are `int`. As in the red-black table, each subtree has one owner, so the
    recursive helpers that rewire a subtree and return its new root are functions from
    the old subtree value to the new one; `Nil` stands for Java's null link. */
module OrderedSymbolTable {
  import opened Wrappers
  import opened SymbolTableSpec

  datatype Node<V> =
    | Nil
    | Node(key: int, val: V, left: Node<V>, right: Node<V>, size: nat)

  function InOrder<V>(t: Node<V>): (s: seq<Entry<V>>)
    ensures |s| == 0 <==> t.Nil?
  {
    if t.Nil? then [] else InOrder(t.left) + [Entry(t.key, t.val)] + InOrder(t.right)
  }

  function SizeOf<V>(t: Node<V>): nat {
    if t.Nil? then 0 else t.size
  }

  /** Every node's `size` is one more than its children's sizes. */
  ghost predicate Sized<V>(t: Node<V>) {
    t.Nil? || (Sized(t.left) && Sized(t.right) && t.size == 1 + SizeOf(t.left) + SizeOf(t.right))
  }

  /** The size recomputation every helper ends with. */
  function Resized<V>(t: Node<V>): (r: Node<V>)
    requires t.Node?
    ensures r.Node? && InOrder(r) == InOrder(t)
    ensures Sized(t.left) && Sized(t.right) ==> Sized(r)
  {
    t.(size := 1 + SizeOf(t.left) + SizeOf(t.right))
  }

  // ---------------------------------------------------------------------------
  // The recursive helpers (insert, delete, deleteMin, deleteMax)

  /** insert: a new leaf, or the value replaced on an equal key; sizes recomputed on the
      way back. */
  function Insert<V>(t: Node<V>, k: int, val: V): (r: Node<V>)
    ensures r.Node?
  {
    if t.Nil? then Node(k, val, Nil, Nil, 1)
    else if k == t.key then Resized(t.(val := val))
    else if k < t.key then Resized(t.(left := Insert(t.left, k, val)))
    else Resized(t.(right := Insert(t.right, k, val)))
  }

  /** deleteMin: the leftmost node is replaced by its right subtree. */
  function DelMin<V>(t: Node<V>): (r: Node<V>)
    requires t.Node?
  {
    if t.left.Nil? then t.right else Resized(t.(left := DelMin(t.left)))
  }

  /** deleteMax: the rightmost node is replaced by its left subtree. */
  function DelMax<V>(t: Node<V>): (r: Node<V>)
    requires t.Node?
  {
    if t.right.Nil? then t.left else Resized(t.(right := DelMax(t.right)))
  }

  /** The successor walk of delete: follow left links to the leftmost node. */
  function Leftmost<V>(t: Node<V>): (m: Node<V>)
    requires t.Node?
    ensures m.Node? && Entry(m.key, m.val) == InOrder(t)[0]
  {
    if t.left.Nil? then t else Leftmost(t.left)
  }

  /** delete: Hibbard deletion. A matched leaf (size 1) disappears, a node with one
      child is replaced by it, and a node with two children takes over its successor's
      key and value while deleteMin removes the successor; an absent key only has the
      sizes on its search path recomputed. The leaf test reads the stored size, so the
      sizes must be correct. */
  function Del<V>(t: Node<V>, k: int): (r: Node<V>)
    requires Sized(t)
  {
    if t.Nil? then Nil
    else if t.key < k then Resized(t.(right := Del(t.right, k)))
    else if t.key > k then Resized(t.(left := Del(t.left, k)))
    else if t.size == 1 then Nil
    else if t.left.Nil? then Resized(t.right)
    else if t.right.Nil? then Resized(t.left)
    else
      var m := Leftmost(t.right);
      Resized(t.(key := m.key, val := m.val, right := DelMin(t.right)))
  }

  // ---------------------------------------------------------------------------
  // Order, contents and sizes

  /** A node's keys are strictly ascending exactly when both sides' are and the node's
      key separates them. */
  lemma StrictSplit<V>(t: Node<V>)
    requires t.Node?
    ensures Strict(InOrder(t)) <==>
      Strict(InOrder(t.left)) && Strict(InOrder(t.right)) &&
      KeysBelow(InOrder(t.left), t.key) && KeysAbove(InOrder(t.right), t.key)
  {
    var x := Entry(t.key, t.val);
    if Strict(InOrder(t)) {
      StrictParts(InOrder(t.left), x, InOrder(t.right));
    }
    if Strict(InOrder(t.left)) && Strict(InOrder(t.right)) &&
       KeysBelow(InOrder(t.left), t.key) && KeysAbove(InOrder(t.right), t.key) {
      StrictJoin(InOrder(t.left), x, InOrder(t.right));
    }
  }

  /** insert replaces the entry for `k`, or adds it between the smaller and larger keys. */
  lemma {:induction false} InsertContents<V>(t: Node<V>, k: int, val: V)
    requires Strict(InOrder(t))
    ensures InOrder(Insert(t, k, val)) == PutSeq(InOrder(t), k, val)
  {
    if t.Node? {
      var l, r := InOrder(t.left), InOrder(t.right);
      var x := Entry(t.key, t.val);
      StrictSplit(t);
      if k == t.key {
        PutSeqHere(l, x, r, k, val);
      } else if k < t.key {
        InsertContents(t.left, k, val);
        PutSeqLeft(l, x, r, k, val);
      } else {
        InsertContents(t.right, k, val);
        PutSeqRight(l, x, r, k, val);
      }
    }
  }

  /** insert keeps every size equal to its subtree's node count. */
  lemma {:induction false} InsertSized<V>(t: Node<V>, k: int, val: V)
    requires Sized(t)
    ensures Sized(Insert(t, k, val))
  {
    if t.Node? {
      if k < t.key {
        InsertSized(t.left, k, val);
      } else if k > t.key {
        InsertSized(t.right, k, val);
      }
    }
  }

  /** deleteMin removes exactly the first entry in order. */
  lemma {:induction false} DelMinContents<V>(t: Node<V>)
    requires t.Node?
    ensures InOrder(DelMin(t)) == InOrder(t)[1..]
  {
    if t.left.Node? {
      DelMinContents(t.left);
      TailOfJoin(InOrder(t.left), [Entry(t.key, t.val)], InOrder(t.right));
    }
  }

  /** deleteMax removes exactly the last entry in order. */
  lemma {:induction false} DelMaxContents<V>(t: Node<V>)
    requires t.Node?
    ensures InOrder(DelMax(t)) == InOrder(t)[..|InOrder(t)| - 1]
  {
    if t.right.Node? {
      DelMaxContents(t.right);
      DropLastOfJoin(InOrder(t.left), [Entry(t.key, t.val)], InOrder(t.right));
    } else {
      assert InOrder(t) == InOrder(t.left) + [Entry(t.key, t.val)];
    }
  }

  lemma {:induction false} DelMinSized<V>(t: Node<V>)
    requires t.Node? && Sized(t)
    ensures Sized(DelMin(t))
  {
    if t.left.Node? {
      DelMinSized(t.left);
    }
  }

  lemma {:induction false} DelMaxSized<V>(t: Node<V>)
    requires t.Node? && Sized(t)
    ensures Sized(DelMax(t))
  {
    if t.right.Node? {
      DelMaxSized(t.right);
    }
  }

  /** With sizes maintained, `size` is the number of stored entries. */
  lemma {:induction false} SizeCounts<V>(t: Node<V>)
    requires Sized(t)
    ensures SizeOf(t) == |InOrder(t)|
  {
    if t.Node? {
      SizeCounts(t.left);
      SizeCounts(t.right);
    }
  }

  /** The matched node's own step of delete removes exactly its entry. */
  lemma DelHereContents<V>(t: Node<V>)
    requires t.Node? && Strict(InOrder(t)) && Sized(t)
    ensures InOrder(Del(t, t.key)) == DelSeq(InOrder(t), t.key)
  {
    var l, x, r := InOrder(t.left), Entry(t.key, t.val), InOrder(t.right);
    StrictSplit(t);
    DelSeqHere(l, x, r);
    if t.size == 1 {
      SizeCounts(t.left);
      SizeCounts(t.right);
    } else if t.left.Node? && t.right.Node? {
      DelMinContents(t.right);
      SuccessorJoin(l, r);
    }
  }

  /** delete removes exactly the entry for `k`, and changes no entry when `k` is absent. */
  lemma {:induction false} DelContents<V>(t: Node<V>, k: int)
    requires Strict(InOrder(t)) && Sized(t)
    ensures InOrder(Del(t, k)) == DelSeq(InOrder(t), k)
  {
    if t.Nil? {
      assert DelSeq(InOrder(t), k) == [];
    } else {
      var l, x, r := InOrder(t.left), Entry(t.key, t.val), InOrder(t.right);
      StrictSplit(t);
      if t.key < k {
        DelContents(t.right, k);
        DelSeqRight(l, x, r, k);
      } else if t.key > k {
        DelContents(t.left, k);
        DelSeqLeft(l, x, r, k);
      } else {
        DelHereContents(t);
      }
    }
  }

  /** delete keeps every size equal to its subtree's node count. */
  lemma {:induction false} DelSized<V>(t: Node<V>, k: int)
    requires Sized(t)
    ensures Sized(Del(t, k))
  {
    if t.Node? {
      if t.key < k {
        DelSized(t.right, k);
      } else if t.key > k {
        DelSized(t.left, k);
      } else if t.left.Node? && t.right.Node? {
        DelMinSized(t.right);
      }
    }
  }

  // ---------------------------------------------------------------------------
  // The queries

  /** The keys of a subtree in order: inorderTraverse's queue. */
  function KeysOf<V>(t: Node<V>): (ks: seq<int>)
    ensures |ks| == |InOrder(t)|
    ensures forall i :: 0 <= i < |ks| ==> ks[i] == InOrder(t)[i].key
  {
    if t.Nil? then [] else KeysOf(t.left) + [t.key] + KeysOf(t.right)
  }

  /** A node's keys, split by the node's key. */
  lemma KeysSplit<V>(t: Node<V>)
    requires t.Node? && Strict(InOrder(t))
    ensures Strict(InOrder(t.left)) && Strict(InOrder(t.right))
    ensures forall j :: j in KeysOf(t.left) ==> j < t.key
    ensures forall j :: j in KeysOf(t.right) ==> j > t.key
    ensures forall j :: j in KeysOf(t) <==> j in KeysOf(t.left) || j == t.key || j in KeysOf(t.right)
  {
    StrictSplit(t);
  }

  /** get's descent as a function. */
  function Find<V>(t: Node<V>, k: int): Option<V> {
    if t.Nil? then None
    else if k == t.key then Some(t.val)
    else if k < t.key then Find(t.left, k)
    else Find(t.right, k)
  }

  /** With strictly ascending keys get agrees with the map. */
  lemma {:induction false} FindComplete<V>(t: Node<V>, k: int)
    requires Strict(InOrder(t))
    ensures Find(t, k) == Lookup(InOrder(t), k)
  {
    if t.Node? {
      var l, x, r := InOrder(t.left), Entry(t.key, t.val), InOrder(t.right);
      StrictSplit(t);
      LookupAppend(l, [x] + r, k);
      assert InOrder(t) == l + ([x] + r);
      assert ([x] + r)[1..] == r;
      FindComplete(t.left, k);
      FindComplete(t.right, k);
      if k < t.key {
        LookupMissing(r, k);
      } else {
        LookupMissing(l, k);
      }
    }
  }

  /** A sequence split at a node: where the i-th entry lies. */
  lemma SelectSplit<V>(t: Node<V>, i: int)
    requires t.Node?
    ensures SelectSpec(InOrder(t), i) ==
      if i < |InOrder(t.left)| then SelectSpec(InOrder(t.left), i)
      else if i == |InOrder(t.left)| then Some(t.key)
      else SelectSpec(InOrder(t.right), i - 1 - |InOrder(t.left)|)
  {
    var l, x, r := InOrder(t.left), Entry(t.key, t.val), InOrder(t.right);
    var s := InOrder(t);
    assert s == l + [x] + r;
    if 0 <= i < |l| {
      assert s[i] == l[i];
    } else if i == |l| {
      assert s[i] == x;
    } else if |l| < i < |s| {
      assert s[i] == r[i - 1 - |l|];
    }
  }

  /** The number of keys below `k`, counted at a node. */
  lemma RankSplit<V>(t: Node<V>, k: int)
    requires t.Node? && Strict(InOrder(t))
    ensures |Below(InOrder(t), k)| ==
      if k < t.key then |Below(InOrder(t.left), k)|
      else if k == t.key then |InOrder(t.left)|
      else |InOrder(t.left)| + 1 + |Below(InOrder(t.right), k)|
  {
    var l, x, r := InOrder(t.left), Entry(t.key, t.val), InOrder(t.right);
    StrictSplit(t);
    var bl, h, br := Below(l, k), (if t.key < k then [x] else []), Below(r, k);
    assert |Below(InOrder(t), k)| == |bl| + |h| + |br| by {
      FiltersJoin(l, x, r, k);
    }
    if k <= t.key {
      assert |br| == 0 by { BelowNone(r, t.key, k); }
    }
    if k >= t.key {
      assert bl == l by { BelowAll(l, t.key, k); }
    }
  }

  // ---------------------------------------------------------------------------
  // The table object

  class OrderedTable<V> {
    var root: Node<V>

    /** Correct sizes and ascending keys. */
    ghost predicate Valid()
      reads this
    {
      Sized(root) && Strict(InOrder(root))
    }

    /** The table's contents. */
    ghost function Contents(): seq<Entry<V>>
      reads this
    {
      InOrder(root)
    }

    constructor()
      ensures Valid() && Contents() == []
    {
      root := Nil;
    }

    /** put: insert from the root. */
    method Put(k: int, val: V)
      modifies this
      requires Valid()
      ensures Valid() && Contents() == PutSeq(old(Contents()), k, val)
    {
      InsertSized(root, k, val);
      InsertContents(root, k, val);
      PutDelStrict(InOrder(root), k, val);
      root := Insert(root, k, val);
    }

    /** get: a loop down from the root; None plays the part of null. */
    method Get(k: int) returns (r: Option<V>)
      requires Valid()
      ensures r == Lookup(Contents(), k)
    {
      FindComplete(root, k);
      var current := root;
      while current.Node?
        invariant Find(current, k) == Find(root, k)
        decreases current
      {
        if k == current.key {
          return Some(current.val);
        }
        current := if k < current.key then current.left else current.right;
      }
      return None;
    }

    method IsEmpty() returns (r: bool)
      ensures r <==> |Contents()| == 0
    {
      r := root.Nil?;
    }

    method Contains(k: int) returns (r: bool)
      requires Valid()
      ensures r <==> Lookup(Contents(), k).Some?
    {
      var v := Get(k);
      r := v.Some?;
    }

    method Size() returns (n: nat)
      requires Valid()
      ensures n == |Contents()|
    {
      SizeCounts(root);
      n := SizeOf(root);
    }

    /** getMinimum: follow left links from the root. */
    method Minimum() returns (r: Option<int>)
      requires Valid()
      ensures r.None? <==> |Contents()| == 0
      ensures r.Some? ==> r.value in KeysOf(root) && forall j :: j in KeysOf(root) ==> r.value <= j
    {
      if root.Nil? {
        return None;
      }
      var current := root;
      while current.left.Node?
        invariant current.Node? && InOrder(current)[0] == InOrder(root)[0]
        decreases current
      {
        current := current.left;
      }
      assert InOrder(current) == [] + [Entry(current.key, current.val)] + InOrder(current.right);
      r := Some(current.key);
    }

    /** getMaximum: follow right links from the root. */
    method Maximum() returns (r: Option<int>)
      requires Valid()
      ensures r.None? <==> |Contents()| == 0
      ensures r.Some? ==> r.value in KeysOf(root) && forall j :: j in KeysOf(root) ==> j <= r.value
    {
      if root.Nil? {
        return None;
      }
      var current := root;
      while current.right.Node?
        invariant current.Node?
        invariant InOrder(current)[|InOrder(current)| - 1] == InOrder(root)[|InOrder(root)| - 1]
        decreases current
      {
        current := current.right;
      }
      assert InOrder(current) == InOrder(current.left) + [Entry(current.key, current.val)] + [];
      r := Some(current.key);
    }

    /** getFloor: the largest key at most `k`, remembered each time the search goes right. */
    method Floor(k: int) returns (r: Option<int>)
      requires Valid()
      ensures r.Some? ==> r.value in KeysOf(root) && r.value <= k
      ensures forall j :: j in KeysOf(root) && j <= k ==> r.Some? && j <= r.value
    {
      var current := root;
      r := None;
      while current.Node?
        invariant Strict(InOrder(current))
        invariant forall j :: j in KeysOf(current) ==> j in KeysOf(root)
        invariant r.Some? ==> r.value in KeysOf(root) && r.value <= k
        invariant r.Some? ==> forall j :: j in KeysOf(current) ==> r.value < j
        invariant forall j :: j in KeysOf(root) && j <= k ==> j in KeysOf(current) || (r.Some? && j <= r.value)
        decreases current
      {
        KeysSplit(current);
        if k == current.key {
          return Some(current.key);
        }
        if k > current.key {
          forall j | j in KeysOf(current) && j <= k ensures j in KeysOf(current.right) || j <= current.key {
          }
          r := Some(current.key);
          current := current.right;
        } else {
          forall j | j in KeysOf(current) && j <= k ensures j in KeysOf(current.left) {
          }
          current := current.left;
        }
      }
    }

    /** getCeiling: the smallest key at least `k`, remembered each time the search goes left. */
    method Ceiling(k: int) returns (r: Option<int>)
      requires Valid()
      ensures r.Some? ==> r.value in KeysOf(root) && r.value >= k
      ensures forall j :: j in KeysOf(root) && j >= k ==> r.Some? && j >= r.value
    {
      var current := root;
      r := None;
      while current.Node?
        invariant Strict(InOrder(current))
        invariant forall j :: j in KeysOf(current) ==> j in KeysOf(root)
        invariant r.Some? ==> r.value in KeysOf(root) && r.value >= k
        invariant r.Some? ==> forall j :: j in KeysOf(current) ==> r.value > j
        invariant forall j :: j in KeysOf(root) && j >= k ==> j in KeysOf(current) || (r.Some? && j >= r.value)
        decreases current
      {
        KeysSplit(current);
        if k == current.key {
          return Some(current.key);
        }
        if k < current.key {
          forall j | j in KeysOf(current) && j >= k ensures j in KeysOf(current.left) || j >= current.key {
          }
          r := Some(current.key);
          current := current.left;
        } else {
          forall j | j in KeysOf(current) && j >= k ensures j in KeysOf(current.right) {
          }
          current := current.right;
        }
      }
    }

    /** rank: the number of keys below `k`, summed on the way down. */
    method Rank(k: int) returns (rank: nat)
      requires Valid()
      ensures rank == |Below(Contents(), k)|
    {
      var current := root;
      rank := 0;
      while current.Node?
        invariant Sized(current) && Strict(InOrder(current))
        invariant rank + |Below(InOrder(current), k)| == |Below(InOrder(root), k)|
        decreases current
      {
        RankSplit(current, k);
        SizeCounts(current.left);
        StrictSplit(current);
        if k == current.key {
          rank := rank + SizeOf(current.left);
          return;
        }
        if k < current.key {
          current := current.left;
        } else {
          rank := rank + 1 + SizeOf(current.left);
          current := current.right;
        }
      }
    }

    /** select: the key of the given rank, found by comparing against left sizes. */
    method Select(rank: int) returns (r: Option<int>)
      requires Valid()
      ensures r == SelectSpec(Contents(), rank)
    {
      var current := root;
      var i := rank;
      while current.Node?
        invariant Sized(current)
        invariant SelectSpec(InOrder(current), i) == SelectSpec(InOrder(root), rank)
        decreases current
      {
        SelectSplit(current, i);
        SizeCounts(current.left);
        var smaller := SizeOf(current.left);
        if smaller == i {
          return Some(current.key);
        }
        if smaller > i {
          current := current.left;
        } else {
          i := i - (smaller + 1);
          current := current.right;
        }
      }
      return None;
    }

    /** delete: Hibbard deletion from the root. */
    method Delete(k: int)
      modifies this
      requires Valid()
      ensures Valid() && Contents() == DelSeq(old(Contents()), k)
    {
      DelContents(root, k);
      DelSized(root, k);
      if root.Node? {
        PutDelStrict(InOrder(root), k, root.val);
      }
      root := Del(root, k);
    }

    /** deleteMinimum: no-op when empty. */
    method DeleteMinimum()
      modifies this
      requires Valid()
      ensures Valid()
      ensures Contents() == if old(Contents()) == [] then [] else old(Contents())[1..]
    {
      if root.Node? {
        DelMinContents(root);
        DelMinSized(root);
        StrictSlice(InOrder(root), 1, |InOrder(root)|);
        root := DelMin(root);
      }
    }

    /** deleteMaximum: no-op when empty. */
    method DeleteMaximum()
      modifies this
      requires Valid()
      ensures Valid()
      ensures Contents() == if old(Contents()) == [] then [] else old(Contents())[..|old(Contents())| - 1]
    {
      if root.Node? {
        DelMaxContents(root);
        DelMaxSized(root);
        StrictSlice(InOrder(root), 0, |InOrder(root)| - 1);
        assert InOrder(root)[0..|InOrder(root)| - 1] == InOrder(root)[..|InOrder(root)| - 1];
        root := DelMax(root);
      }
    }

    /** keys: the keys in order, strictly ascending. */
    method Keys() returns (ks: seq<int>)
      requires Valid()
      ensures |ks| == |Contents()| && forall i :: 0 <= i < |ks| ==> ks[i] == Contents()[i].key
      ensures forall i, j :: 0 <= i < j < |ks| ==> ks[i] < ks[j]
    {
      ks := KeysOf(root);
    }
  }
}
