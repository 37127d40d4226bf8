/** The ordered symbol table of data_structures/LLRBSymbolTable.java: a left-leaning
    red-black (LLRB) tree of key-value pairs with distinct keys, where every node
    records the size of its subtree.

    Keys are `int` (the Java class accepts any Comparable key). Each subtree is owned by
    one parent, so the recursive helpers that rewire a subtree and return its new root
    are functions from the old subtree value to the new one; `Nil` stands for Java's
    null link. */
module LlrbSymbolTable {
  import opened Wrappers
  import opened SymbolTableSpec
  datatype Node<V> =
    | Nil
    | Node(key: int, val: V, left: Node<V>, right: Node<V>, size: nat, red: bool)

  // ---------------------------------------------------------------------------
  // Abstract view: the in-order sequence of entries

  function InOrder<V>(t: Node<V>): (s: seq<Entry<V>>)
    ensures |s| == 0 <==> t.Nil?
  {
    if t.Nil? then [] else InOrder(t.left) + [Entry(t.key, t.val)] + InOrder(t.right)
  }

  // ---------------------------------------------------------------------------
  // Sizes and the red-black shape

  predicate IsRed<V>(t: Node<V>) {
    t.Node? && t.red
  }

  function SizeOf<V>(t: Node<V>): nat {
    if t.Nil? then 0 else t.size
  }

  /** Every node's `size` is one more than its children's sizes. */
  ghost predicate Sized<V>(t: Node<V>) {
    t.Nil? || (Sized(t.left) && Sized(t.right) && t.size == 1 + SizeOf(t.left) + SizeOf(t.right))
  }

  ghost function BlackHeight<V>(t: Node<V>): nat {
    if t.Nil? then 0 else BlackHeight(t.left) + (if t.red then 0 else 1)
  }

  /** Equal black height on both sides of every node, no right-leaning red link and no
      red node with a red left child. */
  ghost predicate LLRB<V>(t: Node<V>) {
    t.Nil? ||
    (LLRB(t.left) && LLRB(t.right) && BlackHeight(t.left) == BlackHeight(t.right) &&
     !IsRed(t.right) && (t.red ==> !IsRed(t.left)))
  }

  /** A red root that may have a red left child: what `insert` returns for a red
      subtree, repaired by the parent's `fixUp`. */
  ghost predicate RedLeftPair<V>(t: Node<V>) {
    t.Node? && t.red && LLRB(t.left) && LLRB(t.right) &&
    BlackHeight(t.left) == BlackHeight(t.right) && !IsRed(t.right)
  }

  // ---------------------------------------------------------------------------
  // LLRB helpers (rotateLeft, rotateRight, flipColours, fixUp, insert)

  /** rotateLeft: the right child becomes the root. Its size is computed while the old
      root still has its old size, so it is stale until fixUp recomputes it. */
  function RotateLeft<V>(t: Node<V>): (r: Node<V>)
    requires t.Node? && t.right.Node?
    ensures r.Node? && InOrder(r) == InOrder(t)
  {
    var x := t.right;
    var c := t.(right := x.left, red := true, size := 1 + SizeOf(t.left) + SizeOf(x.left));
    x.(left := c, red := t.red, size := 1 + t.size + SizeOf(x.right))
  }

  /** rotateRight: the left child becomes the root, with the same stale size. */
  function RotateRight<V>(t: Node<V>): (r: Node<V>)
    requires t.Node? && t.left.Node?
    ensures r.Node? && InOrder(r) == InOrder(t)
  {
    var x := t.left;
    var c := t.(left := x.right, red := true, size := 1 + SizeOf(x.right) + SizeOf(t.right));
    x.(right := c, red := t.red, size := 1 + SizeOf(x.left) + t.size)
  }

  function Toggle<V>(t: Node<V>): Node<V> {
    if t.Node? then t.(red := !t.red) else t
  }

  /** flipColours: the node and its two children change colour (every caller has two
      children there; a null child is left alone). */
  function FlipColours<V>(t: Node<V>): (r: Node<V>)
    requires t.Node?
    ensures r.Node? && InOrder(r) == InOrder(t)
  {
    t.(red := !t.red, left := Toggle(t.left), right := Toggle(t.right))
  }

  /** fixUp: lean a lone right red link left, split a red-red left pair, push a double
      red up, then recompute the size. */
  function FixUp<V>(t: Node<V>): (r: Node<V>)
    requires t.Node?
    ensures r.Node? && InOrder(r) == InOrder(t)
  {
    var a := if IsRed(t.right) && !IsRed(t.left) then RotateLeft(t) else t;
    var b := if IsRed(a.left) && IsRed(a.left.left) then RotateRight(a) else a;
    var c := if IsRed(b.left) && IsRed(b.right) then FlipColours(b) else b;
    c.(size := 1 + SizeOf(c.left) + SizeOf(c.right))
  }

  /** insert: a new red node at the bottom, or the value replaced on an equal key;
      fixUp on the way back. */
  function Insert<V>(t: Node<V>, k: int, val: V): (r: Node<V>)
    ensures r.Node?
  {
    if t.Nil? then Node(k, val, Nil, Nil, 1, true)
    else if k == t.key then FixUp(t.(val := val))
    else if k < t.key then FixUp(t.(left := Insert(t.left, k, val)))
    else FixUp(t.(right := Insert(t.right, k, val)))
  }

  // ---------------------------------------------------------------------------
  // Facts about the in-order sequence

  /** A node's keys are strictly ascending exactly when both sides' are and the node's
      key separates them. */
  lemma StrictSplit<V>(t: Node<V>)
    requires t.Node?
    ensures Strict(InOrder(t)) <==>
      Strict(InOrder(t.left)) && Strict(InOrder(t.right)) &&
      KeysBelow(InOrder(t.left), t.key) && KeysAbove(InOrder(t.right), t.key)
  {
    var x := Entry(t.key, t.val);
    if Strict(InOrder(t)) {
      StrictParts(InOrder(t.left), x, InOrder(t.right));
    }
    if Strict(InOrder(t.left)) && Strict(InOrder(t.right)) &&
       KeysBelow(InOrder(t.left), t.key) && KeysAbove(InOrder(t.right), t.key) {
      StrictJoin(InOrder(t.left), x, InOrder(t.right));
    }
  }

  lemma BoundsOfNode<V>(t: Node<V>, b: int)
    requires t.Node?
    ensures KeysBelow(InOrder(t), b) <==>
      KeysBelow(InOrder(t.left), b) && t.key < b && KeysBelow(InOrder(t.right), b)
    ensures KeysAbove(InOrder(t), b) <==>
      KeysAbove(InOrder(t.left), b) && t.key > b && KeysAbove(InOrder(t.right), b)
  {
    BoundsJoin(InOrder(t.left), Entry(t.key, t.val), InOrder(t.right), b);
  }

  // ---------------------------------------------------------------------------
  // insert keeps the order, the sizes and the 2-3 shape

  lemma {:induction false} InsertBounds<V>(t: Node<V>, k: int, val: V, b: int)
    ensures KeysBelow(InOrder(t), b) && k < b ==> KeysBelow(InOrder(Insert(t, k, val)), b)
    ensures KeysAbove(InOrder(t), b) && k > b ==> KeysAbove(InOrder(Insert(t, k, val)), b)
  {
    var r := Insert(t, k, val);
    if t.Nil? {
      assert InOrder(r) == [Entry(k, val)];
    } else {
      BoundsOfNode(t, b);
      if k == t.key {
        BoundsOfNode(t.(val := val), b);
      } else if k < t.key {
        InsertBounds(t.left, k, val, b);
        BoundsOfNode(t.(left := Insert(t.left, k, val)), b);
      } else {
        InsertBounds(t.right, k, val, b);
        BoundsOfNode(t.(right := Insert(t.right, k, val)), b);
      }
    }
  }

  /** insert keeps the keys strictly ascending. */
  lemma {:induction false} InsertStrict<V>(t: Node<V>, k: int, val: V)
    requires Strict(InOrder(t))
    ensures Strict(InOrder(Insert(t, k, val)))
  {
    if t.Node? {
      StrictSplit(t);
      if k == t.key {
        StrictSplit(t.(val := val));
      } else if k < t.key {
        InsertStrict(t.left, k, val);
        InsertBounds(t.left, k, val, t.key);
        StrictSplit(t.(left := Insert(t.left, k, val)));
      } else {
        InsertStrict(t.right, k, val);
        InsertBounds(t.right, k, val, t.key);
        StrictSplit(t.(right := Insert(t.right, k, val)));
      }
    }
  }

  /** insert replaces the entry for `k`, or adds it between the smaller and larger keys. */
  lemma {:induction false} InsertContents<V>(t: Node<V>, k: int, val: V)
    requires Strict(InOrder(t))
    ensures InOrder(Insert(t, k, val)) == PutSeq(InOrder(t), k, val)
  {
    if t.Node? {
      var l, r := InOrder(t.left), InOrder(t.right);
      var x := Entry(t.key, t.val);
      StrictSplit(t);
      if k == t.key {
        PutSeqHere(l, x, r, k, val);
      } else if k < t.key {
        InsertContents(t.left, k, val);
        PutSeqLeft(l, x, r, k, val);
      } else {
        InsertContents(t.right, k, val);
        PutSeqRight(l, x, r, k, val);
      }
    }
  }

  lemma RotateLeftSized<V>(t: Node<V>)
    requires t.Node? && t.right.Node? && Sized(t.left) && Sized(t.right)
    ensures Sized(RotateLeft(t).left) && Sized(RotateLeft(t).right)
  {
  }

  lemma RotateRightSized<V>(t: Node<V>)
    requires t.Node? && t.left.Node? && Sized(t.left) && Sized(t.right)
    ensures Sized(RotateRight(t).left) && Sized(RotateRight(t).right)
  {
  }

  lemma FlipSized<V>(t: Node<V>)
    requires t.Node? && Sized(t.left) && Sized(t.right)
    ensures Sized(FlipColours(t).left) && Sized(FlipColours(t).right)
  {
  }

  /** fixUp leaves correct sizes everywhere whenever the children have them. */
  lemma FixUpSized<V>(t: Node<V>)
    requires t.Node? && Sized(t.left) && Sized(t.right)
    ensures Sized(FixUp(t))
  {
    var a := if IsRed(t.right) && !IsRed(t.left) then RotateLeft(t) else t;
    if IsRed(t.right) && !IsRed(t.left) { RotateLeftSized(t); }
    assert Sized(a.left) && Sized(a.right);
    var b := if IsRed(a.left) && IsRed(a.left.left) then RotateRight(a) else a;
    if IsRed(a.left) && IsRed(a.left.left) { RotateRightSized(a); }
    assert Sized(b.left) && Sized(b.right);
    var c := if IsRed(b.left) && IsRed(b.right) then FlipColours(b) else b;
    FlipSized(b);
    assert Sized(c.left) && Sized(c.right);
  }

  lemma {:induction false} InsertSized<V>(t: Node<V>, k: int, val: V)
    requires Sized(t)
    ensures Sized(Insert(t, k, val))
  {
    if t.Node? {
      if k == t.key {
        FixUpSized(t.(val := val));
      } else if k < t.key {
        InsertSized(t.left, k, val);
        FixUpSized(t.(left := Insert(t.left, k, val)));
      } else {
        InsertSized(t.right, k, val);
        FixUpSized(t.(right := Insert(t.right, k, val)));
      }
    }
  }

  /** fixUp on every configuration insert and delete give it: it keeps the black
      height, returns a 2-3 tree for a black node and at worst a red-red left pair for a
      red one, and colours its result red exactly when a red link is passed up. */
  lemma FixUpShape<V>(u: Node<V>)
    requires u.Node? && BlackHeight(u.left) == BlackHeight(u.right) && LLRB(u.right)
    requires LLRB(u.left) || (RedLeftPair(u.left) && !u.red && !IsRed(u.right))
    requires u.red ==> !(IsRed(u.left) && IsRed(u.right))
    ensures BlackHeight(FixUp(u)) == BlackHeight(u)
    ensures if u.red then RedLeftPair(FixUp(u)) else LLRB(FixUp(u))
    ensures FixUp(u).red <==> u.red || (IsRed(u.left) && (IsRed(u.right) || IsRed(u.left.left)))
  {
  }

  /** insert keeps the black height; into a black subtree it returns a 2-3 tree, into a
      red one a red node that may have a red left child. */
  lemma {:induction false} InsertBalance<V>(t: Node<V>, k: int, val: V)
    requires LLRB(t)
    ensures BlackHeight(Insert(t, k, val)) == BlackHeight(t)
    ensures if IsRed(t) then RedLeftPair(Insert(t, k, val)) else LLRB(Insert(t, k, val))
  {
    if t.Node? {
      if k == t.key {
        FixUpShape(t.(val := val));
      } else if k < t.key {
        InsertBalance(t.left, k, val);
        FixUpShape(t.(left := Insert(t.left, k, val)));
      } else {
        InsertBalance(t.right, k, val);
        FixUpShape(t.(right := Insert(t.right, k, val)));
      }
    }
  }

  // ---------------------------------------------------------------------------
  // Deletion (moveRedLeft, moveRedRight, deleteMin, deleteMax, delete)

  /** The entries from a node onwards: its own entry followed by its right subtree. */
  function FromNode<V>(t: Node<V>): seq<Entry<V>>
    requires t.Node?
  {
    [Entry(t.key, t.val)] + InOrder(t.right)
  }

  predicate LeftLeftRed<V>(t: Node<V>) {
    t.Node? && t.left.Node? && IsRed(t.left.left)
  }

  predicate RightLeftRed<V>(t: Node<V>) {
    t.Node? && t.right.Node? && IsRed(t.right.left)
  }

  /** moveRedLeft: the node lends to its left child, borrowing back from the right
      sibling when that sibling has a red left link. The old left subtree stays a prefix
      of the new left subtree. */
  function MoveRedLeft<V>(t: Node<V>): (r: Node<V>)
    requires t.Node?
    ensures r.Node? && InOrder(r) == InOrder(t)
    ensures t.left.Node? ==> r.left.Node?
    ensures |InOrder(t.left)| <= |InOrder(r.left)| &&
            InOrder(r.left)[..|InOrder(t.left)|] == InOrder(t.left)
  {
    var f := FlipColours(t);
    if RightLeftRed(f) then FlipColours(RotateLeft(f.(right := RotateRight(f.right))))
    else f
  }

  /** moveRedRight: the node lends to its right child, borrowing from the left sibling
      when it has a red left link. The entries from the node onwards stay a suffix of the
      entries from the new root onwards. */
  function MoveRedRight<V>(t: Node<V>): (r: Node<V>)
    requires t.Node?
    ensures r.Node? && InOrder(r) == InOrder(t)
    ensures |FromNode(t)| <= |FromNode(r)| &&
            FromNode(r)[|FromNode(r)| - |FromNode(t)|..] == FromNode(t)
    ensures r.right.Nil? ==> t.right.Nil? && r.key == t.key
  {
    var f := FlipColours(t);
    if LeftLeftRed(f) then
      var r := FlipColours(RotateRight(f));
      assert InOrder(f.right) == InOrder(t.right);
      assert InOrder(r.right) == InOrder(f.left.right) + [Entry(t.key, t.val)] + InOrder(t.right);
      assert FromNode(r) == [Entry(f.left.key, f.left.val)] + InOrder(f.left.right) + FromNode(t);
      r
    else f
  }

  /** deleteMin: removes the leftmost entry. */
  function DelMin<V>(t: Node<V>): (r: Node<V>)
    requires t.Node?
    decreases |InOrder(t)|
  {
    if t.left.Nil? then Nil
    else
      var c := if !IsRed(t.left) && !LeftLeftRed(t) then MoveRedLeft(t) else t;
      FixUp(c.(left := DelMin(c.left)))
  }

  /** deleteMax: removes the rightmost entry, first leaning a red left link right. */
  function DelMax<V>(t: Node<V>): (r: Node<V>)
    requires t.Node?
    decreases |InOrder(t)|
  {
    var c := if IsRed(t.left) then RotateRight(t) else t;
    if c.right.Nil? then Nil
    else
      var d := if !IsRed(c.right) && !RightLeftRed(c) then MoveRedRight(c) else c;
      assert InOrder(d) == InOrder(d.left) + [Entry(d.key, d.val)] + InOrder(d.right);
      FixUp(d.(right := DelMax(d.right)))
  }

  /** The successor walk of delete: follow left links to the leftmost node. */
  function Leftmost<V>(t: Node<V>): (m: Node<V>)
    requires t.Node?
    ensures m.Node? && Entry(m.key, m.val) == InOrder(t)[0]
  {
    if t.left.Nil? then t else Leftmost(t.left)
  }

  /** Where a stored key sits relative to a node. */
  lemma KeyPlace<V>(t: Node<V>, k: int)
    requires t.Node? && Strict(InOrder(t)) && Lookup(InOrder(t), k).Some?
    ensures Strict(InOrder(t.left)) && Strict(InOrder(t.right))
    ensures k < t.key ==> Lookup(InOrder(t.left), k) == Lookup(InOrder(t), k)
    ensures k >= t.key ==> Lookup(FromNode(t), k) == Lookup(InOrder(t), k)
    ensures k > t.key ==> Lookup(InOrder(t.right), k) == Lookup(InOrder(t), k)
  {
    KeyPlaceLeft(t, k);
    KeyPlaceRight(t, k);
  }

  lemma KeyPlaceLeft<V>(t: Node<V>, k: int)
    requires t.Node? && Strict(InOrder(t)) && Lookup(InOrder(t), k).Some?
    ensures Strict(InOrder(t.left)) && Strict(InOrder(t.right))
    ensures k < t.key ==> Lookup(InOrder(t.left), k) == Lookup(InOrder(t), k)
  {
    var l, r := InOrder(t.left), InOrder(t.right);
    StrictSplit(t);
    if k < t.key {
      LookupAppend(l, FromNode(t), k);
      assert InOrder(t) == l + FromNode(t);
      LookupMissing(FromNode(t), k) by {
        BoundsJoin([], Entry(t.key, t.val), r, k);
        assert [] + [Entry(t.key, t.val)] + r == FromNode(t);
      }
    }
  }

  lemma KeyPlaceRight<V>(t: Node<V>, k: int)
    requires t.Node? && Strict(InOrder(t)) && Lookup(InOrder(t), k).Some?
    ensures k >= t.key ==> Lookup(FromNode(t), k) == Lookup(InOrder(t), k)
    ensures k > t.key ==> Lookup(InOrder(t.right), k) == Lookup(InOrder(t), k)
  {
    if k >= t.key {
      var l, r := InOrder(t.left), InOrder(t.right);
      StrictSplit(t);
      LookupAppend(l, FromNode(t), k);
      assert InOrder(t) == l + FromNode(t);
      assert FromNode(t)[1..] == r;
      LookupMissing(l, k);
    }
  }

  /** A key found to the right of a node is above the node's key. */
  lemma KeyRightOf<V>(t: Node<V>, k: int)
    requires t.Node? && Strict(InOrder(t)) && Lookup(InOrder(t.right), k).Some?
    ensures k > t.key
  {
    StrictSplit(t);
    LookupMeaning(InOrder(t.right), k);
  }

  lemma KeyLeftOf<V>(t: Node<V>, k: int)
    requires t.Node? && Strict(InOrder(t)) && Lookup(InOrder(t.left), k).Some?
    ensures k < t.key
  {
    StrictSplit(t);
    LookupMeaning(InOrder(t.left), k);
  }

  /** delete: removes the stored key `k`. */
  function Del<V>(t: Node<V>, k: int): (r: Node<V>)
    requires t.Node? && Strict(InOrder(t)) && Lookup(InOrder(t), k).Some?
    decreases |InOrder(t)|, 1
  {
    if k < t.key then
      var c := if !IsRed(t.left) && !LeftLeftRed(t) then MoveRedLeft(t) else t;
      DelLeftReady(t, k);
      FixUp(c.(left := Del(c.left, k)))
    else
      var c := if IsRed(t.left) then RotateRight(t) else t;
      DelRightReady(t, k);
      if k == c.key && c.right.Nil? then Nil
      else
        var d := if !IsRed(c.right) && !RightLeftRed(c) then MoveRedRight(c) else c;
        DelHere(d, k)
  }

  /** What delete needs before it goes left. */
  lemma DelLeftReady<V>(t: Node<V>, k: int)
    requires t.Node? && Strict(InOrder(t)) && Lookup(InOrder(t), k).Some? && k < t.key
    ensures var c := if !IsRed(t.left) && !LeftLeftRed(t) then MoveRedLeft(t) else t;
      c.Node? && Strict(InOrder(c.left)) && Lookup(InOrder(c.left), k).Some? &&
      |InOrder(c.left)| < |InOrder(t)|
  {
    KeyPlace(t, k);
    var c := if !IsRed(t.left) && !LeftLeftRed(t) then MoveRedLeft(t) else t;
    LookupPrefix(InOrder(t.left), InOrder(c.left), k);
    StrictSplit(c);
  }

  /** What delete needs once the key is at or right of the node: after the optional
      right rotation the key is in the node or its right subtree, and after the optional
      moveRedRight too unless the matched node has no right child. */
  lemma DelRightReady<V>(t: Node<V>, k: int)
    requires t.Node? && Strict(InOrder(t)) && Lookup(InOrder(t), k).Some? && k >= t.key
    ensures var c := if IsRed(t.left) then RotateRight(t) else t;
      c.Node? && Strict(InOrder(c)) && Lookup(FromNode(c), k).Some? &&
      (!(k == c.key && c.right.Nil?) ==>
        var d := if !IsRed(c.right) && !RightLeftRed(c) then MoveRedRight(c) else c;
        d.Node? && Strict(InOrder(d)) && Lookup(FromNode(d), k).Some? &&
        (k == d.key ==> d.right.Node?))
  {
    var c := if IsRed(t.left) then RotateRight(t) else t;
    RotatedReady(t, k);
    if !(k == c.key && c.right.Nil?) {
      MovedReady(c, k);
    }
  }

  lemma RotatedReady<V>(t: Node<V>, k: int)
    requires t.Node? && Strict(InOrder(t)) && Lookup(InOrder(t), k).Some? && k >= t.key
    ensures var c := if IsRed(t.left) then RotateRight(t) else t;
      c.Node? && Strict(InOrder(c)) && Lookup(FromNode(c), k).Some?
  {
    KeyPlaceRight(t, k);
    if IsRed(t.left) {
      var c := RotateRight(t);
      var x := t.left;
      assert FromNode(c) == [Entry(x.key, x.val)] + InOrder(x.right) + FromNode(t);
      LookupSuffix(FromNode(t), FromNode(c), k);
    }
  }

  lemma MovedReady<V>(c: Node<V>, k: int)
    requires c.Node? && Strict(InOrder(c)) && Lookup(FromNode(c), k).Some?
    requires !(k == c.key && c.right.Nil?)
    ensures var d := if !IsRed(c.right) && !RightLeftRed(c) then MoveRedRight(c) else c;
      d.Node? && Strict(InOrder(d)) && Lookup(FromNode(d), k).Some? &&
      (k == d.key ==> d.right.Node?)
  {
    var d := if !IsRed(c.right) && !RightLeftRed(c) then MoveRedRight(c) else c;
    LookupSuffix(FromNode(c), FromNode(d), k);
  }

  /** The last step of delete, once the key is at or to the right of `d`: a matched node
      takes over its successor's key and value, and the successor is removed from the
      right subtree with deleteMin; otherwise delete continues to the right. */
  function DelHere<V>(d: Node<V>, k: int): (r: Node<V>)
    requires d.Node? && Strict(InOrder(d)) && Lookup(FromNode(d), k).Some?
    requires k == d.key ==> d.right.Node?
    decreases |InOrder(d)|, 0
  {
    assert FromNode(d)[1..] == InOrder(d.right);
    StrictSplit(d);
    if k == d.key then
      var m := Leftmost(d.right);
      FixUp(d.(key := m.key, val := m.val, right := DelMin(d.right)))
    else
      assert Lookup(InOrder(d.right), k).Some?;
      FixUp(d.(right := Del(d.right, k)))
  }

  // ---------------------------------------------------------------------------
  // Deletion keeps the 2-3 shape

  /** fixUp as deletion uses it: both sides are 2-3 trees of the same black height and a
      red node has no red child. */
  lemma FixUpDel<V>(u: Node<V>)
    requires u.Node? && LLRB(u.left) && LLRB(u.right) && BlackHeight(u.left) == BlackHeight(u.right)
    requires u.red ==> !IsRed(u.left) && !IsRed(u.right)
    ensures LLRB(FixUp(u)) && BlackHeight(FixUp(u)) == BlackHeight(u)
    ensures FixUp(u).red <==> u.red || (IsRed(u.left) && IsRed(u.right))
  {
    FixUpShape(u);
  }

  /** What moveRedLeft hands to deleteMin and delete: a left child that is red or has a
      red left child, 2-3 subtrees of equal black height, and no red child under a red root. */
  lemma MoveRedLeftShape<V>(t: Node<V>)
    requires t.Node? && t.red && LLRB(t) && t.left.Node? && !IsRed(t.left) && !LeftLeftRed(t)
    ensures var c := MoveRedLeft(t);
      c.left.Node? && LLRB(c.left) && (IsRed(c.left) || LeftLeftRed(c)) &&
      LLRB(c.right) && BlackHeight(c.left) == BlackHeight(c.right) &&
      BlackHeight(c) == BlackHeight(t) &&
      (c.red ==> !IsRed(c.left) && !IsRed(c.right))
  {
    var hl, hr := t.left, t.right;
    assert hr.Node? && !hr.red;
    var f := FlipColours(t);
    var hl' := f.left;
    assert LLRB(hl') && hl'.red && BlackHeight(hl') + 1 == BlackHeight(hl);
    if RightLeftRed(f) {
      var x := hr.left;
      assert LLRB(hr) && LLRB(x);
      assert x.red && LLRB(x.left) && LLRB(x.right) && !IsRed(x.left) && !IsRed(x.right);
      var c1 := hr.(left := x.right, red := true, size := 1 + SizeOf(x.right) + SizeOf(hr.right));
      assert RotateRight(f.right).right == c1;
      var c2 := RotateLeft(f.(right := RotateRight(f.right))).left;
      assert c2.left == hl' && c2.right == x.left && c2.red;
      var c := MoveRedLeft(t);
      assert c.left == Toggle(c2) && c.right == Toggle(c1) && c.red;
      assert LLRB(c.left) && LLRB(c.right);
    } else {
      assert f.right == Toggle(hr) && LLRB(f.right);
    }
  }

  /** deleteMin on a 2-3 tree whose root or left child is red: the result is a 2-3 tree
      of the same black height, black when the root was black. */
  lemma {:induction false} DelMinShape<V>(t: Node<V>)
    requires t.Node? && LLRB(t) && (IsRed(t) || IsRed(t.left))
    ensures LLRB(DelMin(t)) && BlackHeight(DelMin(t)) == BlackHeight(t)
    ensures !IsRed(t) ==> !IsRed(DelMin(t))
    decreases |InOrder(t)|
  {
    if t.left.Node? {
      var c := if !IsRed(t.left) && !LeftLeftRed(t) then MoveRedLeft(t) else t;
      if !IsRed(t.left) && !LeftLeftRed(t) {
        MoveRedLeftShape(t);
      }
      DelMinShape(c.left);
      FixUpDel(c.(left := DelMin(c.left)));
    }
  }

  /** deleteMin's step: fixUp over a node whose left subtree lost its first entry. */
  lemma DelMinStep<V>(c: Node<V>)
    requires c.Node? && c.left.Node? && InOrder(DelMin(c.left)) == InOrder(c.left)[1..]
    ensures InOrder(FixUp(c.(left := DelMin(c.left)))) == InOrder(c)[1..]
  {
    var u := c.(left := DelMin(c.left));
    var a, x, b := InOrder(c.left), [Entry(c.key, c.val)], InOrder(c.right);
    assert InOrder(FixUp(u)) == InOrder(u) == a[1..] + x + b;
    TailOfJoin(a, x, b);
  }

  /** On the same trees, deleteMin removes exactly the first entry in order. */
  lemma {:induction false} DelMinContents<V>(t: Node<V>)
    requires t.Node? && LLRB(t) && (IsRed(t) || IsRed(t.left))
    ensures InOrder(DelMin(t)) == InOrder(t)[1..]
    decreases |InOrder(t)|
  {
    if t.left.Nil? {
      assert t.right.Nil?;
    } else if !IsRed(t.left) && !LeftLeftRed(t) {
      var c := MoveRedLeft(t);
      MoveRedLeftShape(t);
      DelMinContents(c.left);
      DelMinStep(c);
    } else {
      DelMinContents(t.left);
      DelMinStep(t);
    }
  }

  /** A black node with a black left child and a red right child: the state
      moveRedRight can hand on for the right subtree. */
  ghost predicate RightRedPair<V>(t: Node<V>) {
    t.Node? && !t.red && LLRB(t.left) && !IsRed(t.left) && LLRB(t.right) && IsRed(t.right) &&
    BlackHeight(t.left) == BlackHeight(t.right)
  }

  /** The shapes delete accepts: a 2-3 tree whose root or left child is red, or a
      RightRedPair when the key lies at or to the right of the root. */
  ghost predicate DelReady<V>(t: Node<V>, k: int) {
    t.Node? && ((LLRB(t) && (IsRed(t) || IsRed(t.left))) || (RightRedPair(t) && k >= t.key))
  }

  /** The shapes deleteMax accepts: those of delete for a key at or right of the root. */
  ghost predicate DelMaxReady<V>(t: Node<V>) {
    t.Node? && ((LLRB(t) && (IsRed(t) || IsRed(t.left))) || RightRedPair(t))
  }

  lemma MoveRedRightShape<V>(t: Node<V>)
    requires t.Node? && t.red && LLRB(t) && t.left.Node? && t.right.Node? && !RightLeftRed(t)
    ensures var d := MoveRedRight(t);
      LLRB(d.left) && BlackHeight(d.left) == BlackHeight(d.right) && BlackHeight(d) == BlackHeight(t) &&
      (LeftLeftRed(t) ==>
        d.red && !IsRed(d.left) && RightRedPair(d.right) && d.right.key == t.key &&
        |FromNode(t)| <= |InOrder(d.right)| &&
        InOrder(d.right)[|InOrder(d.right)| - |FromNode(t)|..] == FromNode(t)) &&
      (!LeftLeftRed(t) ==>
        !d.red && IsRed(d.left) && IsRed(d.right) && LLRB(d.right) && d.key == t.key)
  {
    if LeftLeftRed(t) {
      MoveRedRightRotated(t);
    } else {
      var f := FlipColours(t);
      assert LLRB(t.left) && LLRB(t.right);
      assert f.right == Toggle(t.right);
    }
  }

  lemma MoveRedRightRotated<V>(t: Node<V>)
    requires t.Node? && t.red && LLRB(t) && t.left.Node? && t.right.Node? && !RightLeftRed(t)
    requires LeftLeftRed(t)
    ensures var d := MoveRedRight(t);
      LLRB(d.left) && BlackHeight(d.left) == BlackHeight(d.right) && BlackHeight(d) == BlackHeight(t) &&
      d.red && !IsRed(d.left) && RightRedPair(d.right) && d.right.key == t.key &&
      |FromNode(t)| <= |InOrder(d.right)| &&
      InOrder(d.right)[|InOrder(d.right)| - |FromNode(t)|..] == FromNode(t)
  {
    var f := FlipColours(t);
    assert LLRB(t.left) && LLRB(t.right);
    var hl := f.left;
    assert LLRB(t.left.left);
    var c := MoveRedRight(t).right;
    assert c.left == hl.right && c.right == f.right && !c.red;
    assert InOrder(c) == InOrder(hl.right) + FromNode(t);
  }

  lemma {:induction false} DelShape<V>(t: Node<V>, k: int)
    requires t.Node? && Strict(InOrder(t)) && Lookup(InOrder(t), k).Some? && DelReady(t, k)
    ensures LLRB(Del(t, k)) && BlackHeight(Del(t, k)) == BlackHeight(t)
    ensures !IsRed(t) ==> !IsRed(Del(t, k))
    decreases |InOrder(t)|, 4
  {
    KeyPlace(t, k);
    if k < t.key {
      var c := if !IsRed(t.left) && !LeftLeftRed(t) then MoveRedLeft(t) else t;
      if !IsRed(t.left) && !LeftLeftRed(t) {
        MoveRedLeftShape(t);
      }
      LookupPrefix(InOrder(t.left), InOrder(c.left), k);
      StrictSplit(c);
      DelShape(c.left, k);
      FixUpDel(c.(left := Del(c.left, k)));
    } else {
      DelShapeRight(t, k);
    }
  }

  lemma {:induction false} DelShapeRight<V>(t: Node<V>, k: int)
    requires t.Node? && Strict(InOrder(t)) && Lookup(InOrder(t), k).Some? && DelReady(t, k)
    requires k >= t.key
    ensures LLRB(Del(t, k)) && BlackHeight(Del(t, k)) == BlackHeight(t)
    ensures !IsRed(t) ==> !IsRed(Del(t, k))
    decreases |InOrder(t)|, 3
  {
    KeyPlace(t, k);
    if IsRed(t.left) {
      var c := RotateRight(t);
      assert |FromNode(t)| <= |FromNode(c)| && FromNode(c)[|FromNode(c)| - |FromNode(t)|..] == FromNode(t);
      LookupSuffix(FromNode(t), FromNode(c), k);
      assert LLRB(t.left);
      assert LLRB(c.left) && !IsRed(c.left) && IsRed(c.right) && LLRB(c.right) && !c.red;
      assert Del(t, k) == DelHere(c, k);
      DelHereShape(c, k);
    } else {
      DelShapeRightUnrotated(t, k);
    }
  }

  lemma {:induction false} DelShapeRightUnrotated<V>(t: Node<V>, k: int)
    requires t.Node? && Strict(InOrder(t)) && Lookup(InOrder(t), k).Some? && DelReady(t, k)
    requires k >= t.key && !IsRed(t.left)
    ensures LLRB(Del(t, k)) && BlackHeight(Del(t, k)) == BlackHeight(t)
    ensures !IsRed(t) ==> !IsRed(Del(t, k))
    decreases |InOrder(t)|, 2
  {
    KeyPlace(t, k);
    if !(k == t.key && t.right.Nil?) {
      if !IsRed(t.right) && !RightLeftRed(t) {
        DelShapeMovedRight(t, k);
      } else {
        assert Del(t, k) == DelHere(t, k);
        DelHereShape(t, k);
      }
    }
  }

  lemma {:induction false} DelShapeMovedRight<V>(t: Node<V>, k: int)
    requires t.Node? && Strict(InOrder(t)) && Lookup(InOrder(t), k).Some? && DelReady(t, k)
    requires k >= t.key && !IsRed(t.left) && t.right.Node? && !IsRed(t.right) && !RightLeftRed(t)
    ensures LLRB(Del(t, k)) && BlackHeight(Del(t, k)) == BlackHeight(t)
    decreases |InOrder(t)|, 1
  {
    var d := MoveRedRight(t);
    DelUnrotated(t, k);
    MovedRightReady(t, k);
    DelHereShape(d, k);
  }

  /** The shapes DelHere meets: 2-3 on the left, equal black heights, and on the right a
      red child, a black one with a red left child under a red node, or (below a red node,
      when the key is further right) a RightRedPair. */
  ghost predicate DelHereReady<V>(d: Node<V>, k: int) {
    d.Node? && LLRB(d.left) && BlackHeight(d.left) == BlackHeight(d.right) &&
    ((!d.red && IsRed(d.right) && LLRB(d.right)) ||
     (d.red && !IsRed(d.left) && LLRB(d.right) && d.right.Node? && !IsRed(d.right) && IsRed(d.right.left)) ||
     (d.red && !IsRed(d.left) && RightRedPair(d.right) && k > d.key && k >= d.right.key))
  }

  lemma {:induction false} DelHereShape<V>(d: Node<V>, k: int)
    requires d.Node? && Strict(InOrder(d)) && Lookup(FromNode(d), k).Some?
    requires k == d.key ==> d.right.Node?
    requires DelHereReady(d, k)
    ensures LLRB(DelHere(d, k)) && BlackHeight(DelHere(d, k)) == BlackHeight(d)
    ensures !d.red && !IsRed(d.left) ==> !IsRed(DelHere(d, k))
    decreases |InOrder(d)|, 0
  {
    assert FromNode(d)[1..] == InOrder(d.right);
    StrictSplit(d);
    if k == d.key {
      var m := Leftmost(d.right);
      DelMinShape(d.right);
      FixUpDel(d.(key := m.key, val := m.val, right := DelMin(d.right)));
    } else {
      DelShape(d.right, k);
      FixUpDel(d.(right := Del(d.right, k)));
    }
  }

  lemma DelUnrotated<V>(t: Node<V>, k: int)
    requires t.Node? && Strict(InOrder(t)) && Lookup(InOrder(t), k).Some?
    requires k >= t.key && !IsRed(t.left) && t.right.Node?
    ensures var d := if !IsRed(t.right) && !RightLeftRed(t) then MoveRedRight(t) else t;
      Lookup(FromNode(d), k).Some? && (k == d.key ==> d.right.Node?) &&
      Strict(InOrder(d)) && Del(t, k) == DelHere(d, k)
  {
    KeyPlaceRight(t, k);
    MovedReady(t, k);
  }

  /** deleteMax keeps the 2-3 shape and the black height, and leaves a black root black. */
  lemma {:induction false} DelMaxShape<V>(t: Node<V>)
    requires DelMaxReady(t)
    ensures LLRB(DelMax(t)) && BlackHeight(DelMax(t)) == BlackHeight(t)
    ensures !IsRed(t) ==> !IsRed(DelMax(t))
    decreases |InOrder(t)|
  {
    if IsRed(t.left) {
      var c := RotateRight(t);
      assert LLRB(t.left);
      assert LLRB(c.left) && !IsRed(c.left) && IsRed(c.right) && LLRB(c.right) && !c.red;
      DelMaxShape(c.right);
      FixUpDel(c.(right := DelMax(c.right)));
    } else if t.right.Node? {
      if IsRed(t.right) || RightLeftRed(t) {
        DelMaxShape(t.right);
        FixUpDel(t.(right := DelMax(t.right)));
      } else {
        assert t.left.Node?;
        var d := MoveRedRight(t);
        MoveRedRightShape(t);
        DelMaxShape(d.right);
        FixUpDel(d.(right := DelMax(d.right)));
      }
    }
  }

  /** deleteMax's step: fixUp over a node whose right subtree lost its last entry. */
  lemma DelMaxStep<V>(d: Node<V>)
    requires d.Node? && d.right.Node?
    requires InOrder(DelMax(d.right)) == InOrder(d.right)[..|InOrder(d.right)| - 1]
    ensures InOrder(FixUp(d.(right := DelMax(d.right)))) == InOrder(d)[..|InOrder(d)| - 1]
  {
    var u := d.(right := DelMax(d.right));
    var a, x, b := InOrder(d.left), [Entry(d.key, d.val)], InOrder(d.right);
    assert InOrder(FixUp(u)) == InOrder(u) == a + x + b[..|b| - 1];
    DropLastOfJoin(a, x, b);
  }

  /** On the trees it accepts, deleteMax removes exactly the last entry in order. */
  lemma {:induction false} DelMaxContents<V>(t: Node<V>)
    requires DelMaxReady(t)
    ensures InOrder(DelMax(t)) == InOrder(t)[..|InOrder(t)| - 1]
    decreases |InOrder(t)|, 1
  {
    if IsRed(t.left) {
      DelMaxContentsRotated(t);
    } else if t.right.Nil? {
      assert t.left.Nil?;
    } else if IsRed(t.right) || RightLeftRed(t) {
      DelMaxContents(t.right);
      DelMaxStep(t);
    } else {
      DelMaxContentsMoved(t);
    }
  }

  lemma {:induction false} DelMaxContentsRotated<V>(t: Node<V>)
    requires DelMaxReady(t) && IsRed(t.left)
    ensures InOrder(DelMax(t)) == InOrder(t)[..|InOrder(t)| - 1]
    decreases |InOrder(t)|, 0
  {
    var c := RotateRight(t);
    assert DelMaxReady(c.right) by {
      assert LLRB(t.left);
      assert IsRed(c.right) && LLRB(c.right);
    }
    assert DelMax(t) == FixUp(c.(right := DelMax(c.right)));
    DelMaxContents(c.right);
    DelMaxStep(c);
  }

  lemma {:induction false} DelMaxContentsMoved<V>(t: Node<V>)
    requires DelMaxReady(t) && !IsRed(t.left) && t.right.Node? && !IsRed(t.right) && !RightLeftRed(t)
    ensures InOrder(DelMax(t)) == InOrder(t)[..|InOrder(t)| - 1]
    decreases |InOrder(t)|, 0
  {
    var d := MoveRedRight(t);
    MovedDelMax(t);
    DelMaxContents(d.right);
    DelMaxStep(d);
  }

  /** deleteMax past a moveRedRight: the right child is ready and the step is one fixUp. */
  lemma MovedDelMax<V>(t: Node<V>)
    requires DelMaxReady(t) && !IsRed(t.left) && t.right.Node? && !IsRed(t.right) && !RightLeftRed(t)
    ensures var d := MoveRedRight(t);
      d.right.Node? && DelMaxReady(d.right) && |InOrder(d.right)| < |InOrder(t)| &&
      DelMax(t) == FixUp(d.(right := DelMax(d.right)))
  {
    assert t.left.Node?;
    var d := MoveRedRight(t);
    MoveRedRightShape(t);
  }

  // ---------------------------------------------------------------------------
  // Deletion removes exactly the key and keeps the sizes

  /** delete on a tree it accepts removes exactly the entry for `k`. */
  lemma {:induction false} DelContents<V>(t: Node<V>, k: int)
    requires t.Node? && Strict(InOrder(t)) && Lookup(InOrder(t), k).Some? && DelReady(t, k)
    ensures InOrder(Del(t, k)) == DelSeq(InOrder(t), k)
    decreases |InOrder(t)|, 4
  {
    KeyPlace(t, k);
    if k < t.key {
      var c := if !IsRed(t.left) && !LeftLeftRed(t) then MoveRedLeft(t) else t;
      if !IsRed(t.left) && !LeftLeftRed(t) {
        MoveRedLeftShape(t);
      }
      LookupPrefix(InOrder(t.left), InOrder(c.left), k);
      StrictSplit(c);
      KeyLeftOf(c, k);
      DelContents(c.left, k);
      DelSeqLeft(InOrder(c.left), Entry(c.key, c.val), InOrder(c.right), k);
    } else {
      DelContentsRight(t, k);
    }
  }

  lemma {:induction false} DelContentsRight<V>(t: Node<V>, k: int)
    requires t.Node? && Strict(InOrder(t)) && Lookup(InOrder(t), k).Some? && DelReady(t, k)
    requires k >= t.key
    ensures InOrder(Del(t, k)) == DelSeq(InOrder(t), k)
    decreases |InOrder(t)|, 3
  {
    if IsRed(t.left) {
      DelContentsRotated(t, k);
    } else if k == t.key && t.right.Nil? {
      assert t.left.Nil?;
      DelSeqHere([], Entry(t.key, t.val), []);
      assert InOrder(t) == [] + [Entry(t.key, t.val)] + [];
    } else if !IsRed(t.right) && !RightLeftRed(t) {
      DelContentsMovedRight(t, k);
    } else {
      KeyPlaceRight(t, k);
      assert Del(t, k) == DelHere(t, k);
      DelHereContents(t, k);
    }
  }

  lemma {:induction false} DelContentsRotated<V>(t: Node<V>, k: int)
    requires t.Node? && Strict(InOrder(t)) && Lookup(InOrder(t), k).Some? && DelReady(t, k)
    requires k >= t.key && IsRed(t.left)
    ensures InOrder(Del(t, k)) == DelSeq(InOrder(t), k)
    decreases |InOrder(t)|, 2
  {
    var c := RotateRight(t);
    RotatedReady(t, k);
    assert LLRB(t.left);
    assert LLRB(c.left) && !IsRed(c.left) && IsRed(c.right) && LLRB(c.right) && !c.red;
    assert Del(t, k) == DelHere(c, k);
    DelHereContents(c, k);
  }

  lemma {:induction false} DelContentsMovedRight<V>(t: Node<V>, k: int)
    requires t.Node? && Strict(InOrder(t)) && Lookup(InOrder(t), k).Some? && DelReady(t, k)
    requires k >= t.key && !IsRed(t.left) && t.right.Node? && !IsRed(t.right) && !RightLeftRed(t)
    ensures InOrder(Del(t, k)) == DelSeq(InOrder(t), k)
    decreases |InOrder(t)|, 1
  {
    var d := MoveRedRight(t);
    DelUnrotated(t, k);
    MovedRightReady(t, k);
    DelHereContents(d, k);
  }

  /** After moveRedRight the node meets DelHere's shape requirement. */
  lemma MovedRightReady<V>(t: Node<V>, k: int)
    requires t.Node? && Strict(InOrder(t)) && Lookup(InOrder(t), k).Some? && DelReady(t, k)
    requires k >= t.key && !IsRed(t.left) && t.right.Node? && !IsRed(t.right) && !RightLeftRed(t)
    ensures DelHereReady(MoveRedRight(t), k)
  {
    MoveRedRightShape(t);
    if LeftLeftRed(t) {
      MovedRightKey(t, k);
    }
  }

  /** When moveRedRight rotates, the key ends up right of the new node. */
  lemma MovedRightKey<V>(t: Node<V>, k: int)
    requires t.Node? && Strict(InOrder(t)) && k >= t.key && LeftLeftRed(t)
    ensures k > MoveRedRight(t).key
  {
    StrictSplit(t);
    var l := t.left;
    assert InOrder(l)[|InOrder(l.left)|] == Entry(l.key, l.val);
    assert MoveRedRight(t).key == l.key;
  }

  lemma {:induction false} DelHereContents<V>(d: Node<V>, k: int)
    requires d.Node? && Strict(InOrder(d)) && Lookup(FromNode(d), k).Some?
    requires k == d.key ==> d.right.Node?
    requires DelHereReady(d, k)
    ensures InOrder(DelHere(d, k)) == DelSeq(InOrder(d), k)
    decreases |InOrder(d)|, 0
  {
    if k == d.key {
      DelHereSuccessor(d);
    } else {
      assert FromNode(d)[1..] == InOrder(d.right);
      StrictSplit(d);
      var l, x, r := InOrder(d.left), Entry(d.key, d.val), InOrder(d.right);
      assert Lookup(r, k).Some?;
      KeyRightOf(d, k);
      assert DelReady(d.right, k);
      DelContents(d.right, k);
      var e := d.(right := Del(d.right, k));
      assert InOrder(DelHere(d, k)) == InOrder(e) == l + [x] + DelSeq(r, k);
      DelSeqRight(l, x, r, k);
    }
  }

  /** The node holding the key is replaced by its successor, which deleteMin removes
      from the right subtree. */
  lemma DelHereSuccessor<V>(d: Node<V>)
    requires d.Node? && Strict(InOrder(d)) && d.right.Node?
    requires LLRB(d.right) && (IsRed(d.right) || IsRed(d.right.left))
    ensures InOrder(DelHere(d, d.key)) == DelSeq(InOrder(d), d.key)
  {
    var l, x, r := InOrder(d.left), Entry(d.key, d.val), InOrder(d.right);
    var m := Leftmost(d.right);
    var e := d.(key := m.key, val := m.val, right := DelMin(d.right));
    assert DelHere(d, d.key) == FixUp(e);
    DelMinContents(d.right);
    assert InOrder(e) == l + [Entry(m.key, m.val)] + r[1..];
    SuccessorJoin(l, r);
    StrictSplit(d);
    DelSeqHere(l, x, r);
  }

  lemma MoveRedLeftSized<V>(t: Node<V>)
    requires t.Node? && Sized(t.left) && Sized(t.right)
    ensures Sized(MoveRedLeft(t).left) && Sized(MoveRedLeft(t).right)
  {
    var f := FlipColours(t);
    FlipSized(t);
    if RightLeftRed(f) {
      var g := f.(right := RotateRight(f.right));
      assert Sized(g.left) && Sized(g.right.left) && Sized(g.right.right);
      var r := RotateLeft(g);
      assert Sized(r.left) && Sized(r.right);
    }
  }

  lemma MoveRedRightSized<V>(t: Node<V>)
    requires t.Node? && Sized(t.left) && Sized(t.right)
    ensures Sized(MoveRedRight(t).left) && Sized(MoveRedRight(t).right)
  {
    var f := FlipColours(t);
    FlipSized(t);
    if LeftLeftRed(f) {
      RotateRightSized(f);
    }
  }

  lemma {:induction false} DelMinSized<V>(t: Node<V>)
    requires t.Node? && Sized(t.left) && Sized(t.right)
    ensures Sized(DelMin(t))
    decreases |InOrder(t)|
  {
    if t.left.Node? {
      var c := if !IsRed(t.left) && !LeftLeftRed(t) then MoveRedLeft(t) else t;
      MoveRedLeftSized(t);
      DelMinSized(c.left);
      FixUpSized(c.(left := DelMin(c.left)));
    }
  }

  lemma {:induction false} DelMaxSized<V>(t: Node<V>)
    requires t.Node? && Sized(t.left) && Sized(t.right)
    ensures Sized(DelMax(t))
    decreases |InOrder(t)|
  {
    var c := if IsRed(t.left) then RotateRight(t) else t;
    if IsRed(t.left) { RotateRightSized(t); }
    if c.right.Node? {
      var d := if !IsRed(c.right) && !RightLeftRed(c) then MoveRedRight(c) else c;
      MoveRedRightSized(c);
      DelMaxSized(d.right);
      FixUpSized(d.(right := DelMax(d.right)));
    }
  }

  lemma {:induction false} DelSized<V>(t: Node<V>, k: int)
    requires t.Node? && Strict(InOrder(t)) && Lookup(InOrder(t), k).Some?
    requires Sized(t.left) && Sized(t.right)
    ensures Sized(Del(t, k))
    decreases |InOrder(t)|, 3
  {
    KeyPlace(t, k);
    if k < t.key {
      var c := if !IsRed(t.left) && !LeftLeftRed(t) then MoveRedLeft(t) else t;
      MoveRedLeftSized(t);
      LookupPrefix(InOrder(t.left), InOrder(c.left), k);
      StrictSplit(c);
      DelSized(c.left, k);
      FixUpSized(c.(left := Del(c.left, k)));
    } else {
      DelSizedRight(t, k);
    }
  }

  lemma {:induction false} DelSizedRight<V>(t: Node<V>, k: int)
    requires t.Node? && Strict(InOrder(t)) && Lookup(InOrder(t), k).Some? && k >= t.key
    requires Sized(t.left) && Sized(t.right)
    ensures Sized(Del(t, k))
    decreases |InOrder(t)|, 2
  {
    KeyPlace(t, k);
    if IsRed(t.left) {
      DelSizedRotated(t, k);
    } else if t.right.Node? {
      var d := if !IsRed(t.right) && !RightLeftRed(t) then MoveRedRight(t) else t;
      MoveRedRightSized(t);
      DelUnrotated(t, k);
      DelHereSized(d, k);
    }
  }

  lemma {:induction false} DelSizedRotated<V>(t: Node<V>, k: int)
    requires t.Node? && Strict(InOrder(t)) && Lookup(InOrder(t), k).Some? && k >= t.key
    requires Sized(t.left) && Sized(t.right) && IsRed(t.left)
    ensures Sized(Del(t, k))
    decreases |InOrder(t)|, 1
  {
    var c := RotateRight(t);
    RotatedReady(t, k);
    RotateRightSized(t);
    assert Del(t, k) == DelHere(c, k);
    DelHereSized(c, k);
  }

  lemma {:induction false} DelHereSized<V>(d: Node<V>, k: int)
    requires d.Node? && Strict(InOrder(d)) && Lookup(FromNode(d), k).Some?
    requires k == d.key ==> d.right.Node?
    requires Sized(d.left) && Sized(d.right)
    ensures Sized(DelHere(d, k))
    decreases |InOrder(d)|, 0
  {
    assert FromNode(d)[1..] == InOrder(d.right);
    StrictSplit(d);
    if k == d.key {
      var m := Leftmost(d.right);
      DelMinSized(d.right);
      FixUpSized(d.(key := m.key, val := m.val, right := DelMin(d.right)));
    } else {
      assert Lookup(InOrder(d.right), k).Some?;
      DelSized(d.right, k);
      FixUpSized(d.(right := Del(d.right, k)));
    }
  }

  // ---------------------------------------------------------------------------
  // The map behind the tree

  // ---------------------------------------------------------------------------
  // What the sizes mean, and the queries

  /** With sizes maintained, `size` is the number of stored entries. */
  lemma {:induction false} SizeCounts<V>(t: Node<V>)
    requires Sized(t)
    ensures SizeOf(t) == |InOrder(t)|
  {
    if t.Node? {
      SizeCounts(t.left);
      SizeCounts(t.right);
    }
  }

  /** The keys of a subtree in order: inorderTraverse's queue. */
  function KeysOf<V>(t: Node<V>): (ks: seq<int>)
    ensures |ks| == |InOrder(t)|
    ensures forall i :: 0 <= i < |ks| ==> ks[i] == InOrder(t)[i].key
  {
    if t.Nil? then [] else KeysOf(t.left) + [t.key] + KeysOf(t.right)
  }

  /** keys() lists the keys strictly ascending. */
  lemma KeysAscending<V>(t: Node<V>)
    requires Strict(InOrder(t))
    ensures forall i, j :: 0 <= i < j < |KeysOf(t)| ==> KeysOf(t)[i] < KeysOf(t)[j]
  {
  }

  /** A node's keys, split by the node's key. */
  lemma KeysSplit<V>(t: Node<V>)
    requires t.Node? && Strict(InOrder(t))
    ensures Strict(InOrder(t.left)) && Strict(InOrder(t.right))
    ensures forall j :: j in KeysOf(t.left) ==> j < t.key
    ensures forall j :: j in KeysOf(t.right) ==> j > t.key
    ensures forall j :: j in KeysOf(t) <==> j in KeysOf(t.left) || j == t.key || j in KeysOf(t.right)
  {
    StrictSplit(t);
  }

  /** get's descent as a function. */
  function Find<V>(t: Node<V>, k: int): Option<V> {
    if t.Nil? then None
    else if k == t.key then Some(t.val)
    else if k < t.key then Find(t.left, k)
    else Find(t.right, k)
  }

  /** With strictly ascending keys get agrees with the map. */
  lemma {:induction false} FindComplete<V>(t: Node<V>, k: int)
    requires Strict(InOrder(t))
    ensures Find(t, k) == Lookup(InOrder(t), k)
  {
    if t.Node? {
      var l, x, r := InOrder(t.left), Entry(t.key, t.val), InOrder(t.right);
      StrictSplit(t);
      LookupAppend(l, [x] + r, k);
      assert InOrder(t) == l + ([x] + r);
      assert ([x] + r)[1..] == r;
      FindComplete(t.left, k);
      FindComplete(t.right, k);
      if k < t.key {
        LookupMissing(r, k);
      } else {
        LookupMissing(l, k);
      }
    }
  }

  /** A sequence split at a node: where the i-th entry lies. */
  lemma SelectSplit<V>(t: Node<V>, i: int)
    requires t.Node?
    ensures SelectSpec(InOrder(t), i) ==
      if i < |InOrder(t.left)| then SelectSpec(InOrder(t.left), i)
      else if i == |InOrder(t.left)| then Some(t.key)
      else SelectSpec(InOrder(t.right), i - 1 - |InOrder(t.left)|)
  {
    var l, x, r := InOrder(t.left), Entry(t.key, t.val), InOrder(t.right);
    var s := InOrder(t);
    assert s == l + [x] + r;
    if 0 <= i < |l| {
      assert s[i] == l[i];
    } else if i == |l| {
      assert s[i] == x;
    } else if |l| < i < |s| {
      assert s[i] == r[i - 1 - |l|];
    }
  }

  /** The number of keys below `k`, counted at a node. */
  lemma RankSplit<V>(t: Node<V>, k: int)
    requires t.Node? && Strict(InOrder(t))
    ensures |Below(InOrder(t), k)| ==
      if k < t.key then |Below(InOrder(t.left), k)|
      else if k == t.key then |InOrder(t.left)|
      else |InOrder(t.left)| + 1 + |Below(InOrder(t.right), k)|
  {
    var l, x, r := InOrder(t.left), Entry(t.key, t.val), InOrder(t.right);
    StrictSplit(t);
    var bl, h, br := Below(l, k), (if t.key < k then [x] else []), Below(r, k);
    assert |Below(InOrder(t), k)| == |bl| + |h| + |br| by {
      FiltersJoin(l, x, r, k);
    }
    if k <= t.key {
      assert |br| == 0 by { BelowNone(r, t.key, k); }
    }
    if k >= t.key {
      assert bl == l by { BelowAll(l, t.key, k); }
    }
  }

  /** Colour a non-empty root black, as put and the deletions do at the end. */
  function Blacken<V>(t: Node<V>): (r: Node<V>)
    ensures InOrder(r) == InOrder(t) && !IsRed(r)
  {
    if t.Node? then t.(red := false) else t
  }

  /** The root step of the public deletions: a root whose children are both black is
      coloured red first. */
  function Redden<V>(t: Node<V>): (r: Node<V>)
    requires t.Node?
    ensures r.Node? && InOrder(r) == InOrder(t)
  {
    if !IsRed(t.left) && !IsRed(t.right) then t.(red := true) else t
  }

  /** The public delete on a tree with a black root. */
  lemma DeleteRoot<V>(t: Node<V>, k: int)
    requires t.Node? && LLRB(t) && !IsRed(t) && Sized(t) && Strict(InOrder(t)) && Lookup(InOrder(t), k).Some?
    ensures var r := Blacken(Del(Redden(t), k));
      LLRB(r) && Sized(r) && Strict(InOrder(r)) && InOrder(r) == DelSeq(InOrder(t), k)
  {
    var u := Redden(t);
    DelShape(u, k);
    DelContents(u, k);
    DelSized(u, k);
    PutDelStrict(InOrder(t), k, t.val);
  }

  /** The public deleteMinimum on a non-empty tree with a black root. */
  lemma DeleteMinRoot<V>(t: Node<V>)
    requires t.Node? && LLRB(t) && !IsRed(t) && Sized(t) && Strict(InOrder(t))
    ensures var r := Blacken(DelMin(Redden(t)));
      LLRB(r) && Sized(r) && Strict(InOrder(r)) && InOrder(r) == InOrder(t)[1..]
  {
    var u := Redden(t);
    assert LLRB(u) && (IsRed(u) || IsRed(u.left));
    DelMinShape(u);
    DelMinContents(u);
    DelMinSized(u);
    StrictSlice(InOrder(t), 1, |InOrder(t)|);
  }

  /** The public deleteMaximum on a non-empty tree with a black root. */
  lemma DeleteMaxRoot<V>(t: Node<V>)
    requires t.Node? && LLRB(t) && !IsRed(t) && Sized(t) && Strict(InOrder(t))
    ensures var r := Blacken(DelMax(Redden(t)));
      LLRB(r) && Sized(r) && Strict(InOrder(r)) && InOrder(r) == InOrder(t)[..|InOrder(t)| - 1]
  {
    DeleteMaxRootShape(t);
    DeleteMaxRootContents(t);
  }

  lemma DeleteMaxRootShape<V>(t: Node<V>)
    requires t.Node? && LLRB(t) && !IsRed(t) && Sized(t)
    ensures LLRB(Blacken(DelMax(Redden(t)))) && Sized(Blacken(DelMax(Redden(t))))
  {
    var u := Redden(t);
    assert LLRB(u) && (IsRed(u) || IsRed(u.left));
    DelMaxShape(u);
    DelMaxSized(u);
  }

  lemma DeleteMaxRootContents<V>(t: Node<V>)
    requires t.Node? && LLRB(t) && !IsRed(t) && Strict(InOrder(t))
    ensures var s := InOrder(t);
      InOrder(Blacken(DelMax(Redden(t)))) == s[..|s| - 1] && Strict(s[..|s| - 1])
  {
    var s := InOrder(t);
    assert InOrder(DelMax(Redden(t))) == s[..|s| - 1] by {
      ReddenReady(t);
      DelMaxContents(Redden(t));
    }
    assert Strict(s[..|s| - 1]) by {
      StrictSlice(s, 0, |s| - 1);
      assert s[0..|s| - 1] == s[..|s| - 1];
    }
  }

  lemma ReddenReady<V>(t: Node<V>)
    requires t.Node? && LLRB(t) && !IsRed(t)
    ensures DelMaxReady(Redden(t))
  {
    var u := Redden(t);
    assert LLRB(u) && (IsRed(u) || IsRed(u.left));
  }

  // ---------------------------------------------------------------------------
  // The table object

  class SymbolTable<V> {
    var root: Node<V>

    /** A black root over a 2-3 shaped tree with correct sizes and ascending keys. */
    ghost predicate Valid()
      reads this
    {
      LLRB(root) && !IsRed(root) && Sized(root) && Strict(InOrder(root))
    }

    /** The table's contents. */
    ghost function Contents(): seq<Entry<V>>
      reads this
    {
      InOrder(root)
    }

    constructor()
      ensures Valid() && Contents() == []
    {
      root := Nil;
    }

    /** put: insert from the root, then colour the root black. */
    method Put(k: int, val: V)
      modifies this
      requires Valid()
      ensures Valid() && Contents() == PutSeq(old(Contents()), k, val)
    {
      var r := Insert(root, k, val);
      InsertBalance(root, k, val);
      InsertSized(root, k, val);
      InsertStrict(root, k, val);
      InsertContents(root, k, val);
      root := Blacken(r);
    }

    /** get: a loop down from the root; None plays the part of null. */
    method Get(k: int) returns (r: Option<V>)
      requires Valid()
      ensures r == Lookup(Contents(), k)
    {
      FindComplete(root, k);
      var current := root;
      while current.Node?
        invariant Find(current, k) == Find(root, k)
        decreases current
      {
        if k == current.key {
          return Some(current.val);
        }
        current := if k < current.key then current.left else current.right;
      }
      return None;
    }

    method IsEmpty() returns (r: bool)
      ensures r <==> |Contents()| == 0
    {
      r := root.Nil?;
    }

    method Contains(k: int) returns (r: bool)
      requires Valid()
      ensures r <==> Lookup(Contents(), k).Some?
    {
      var v := Get(k);
      r := v.Some?;
    }

    method Size() returns (n: nat)
      requires Valid()
      ensures n == |Contents()|
    {
      SizeCounts(root);
      n := SizeOf(root);
    }

    /** getMinimum: follow left links from the root. */
    method Minimum() returns (r: Option<int>)
      requires Valid()
      ensures r.None? <==> |Contents()| == 0
      ensures r.Some? ==> r.value in KeysOf(root) && forall j :: j in KeysOf(root) ==> r.value <= j
    {
      if root.Nil? {
        return None;
      }
      var current := root;
      while current.left.Node?
        invariant current.Node? && InOrder(current)[0] == InOrder(root)[0]
        decreases current
      {
        current := current.left;
      }
      assert InOrder(current) == [] + [Entry(current.key, current.val)] + InOrder(current.right);
      r := Some(current.key);
    }

    /** getMaximum: follow right links from the root. */
    method Maximum() returns (r: Option<int>)
      requires Valid()
      ensures r.None? <==> |Contents()| == 0
      ensures r.Some? ==> r.value in KeysOf(root) && forall j :: j in KeysOf(root) ==> j <= r.value
    {
      if root.Nil? {
        return None;
      }
      var current := root;
      while current.right.Node?
        invariant current.Node?
        invariant InOrder(current)[|InOrder(current)| - 1] == InOrder(root)[|InOrder(root)| - 1]
        decreases current
      {
        current := current.right;
      }
      assert InOrder(current) == InOrder(current.left) + [Entry(current.key, current.val)] + [];
      r := Some(current.key);
    }

    /** getFloor: the largest key at most `k`, remembered each time the search goes right. */
    method Floor(k: int) returns (r: Option<int>)
      requires Valid()
      ensures r.Some? ==> r.value in KeysOf(root) && r.value <= k
      ensures forall j :: j in KeysOf(root) && j <= k ==> r.Some? && j <= r.value
    {
      var current := root;
      r := None;
      while current.Node?
        invariant Strict(InOrder(current))
        invariant forall j :: j in KeysOf(current) ==> j in KeysOf(root)
        invariant r.Some? ==> r.value in KeysOf(root) && r.value <= k
        invariant r.Some? ==> forall j :: j in KeysOf(current) ==> r.value < j
        invariant forall j :: j in KeysOf(root) && j <= k ==> j in KeysOf(current) || (r.Some? && j <= r.value)
        decreases current
      {
        KeysSplit(current);
        if k == current.key {
          return Some(current.key);
        }
        if k > current.key {
          forall j | j in KeysOf(current) && j <= k ensures j in KeysOf(current.right) || j <= current.key {
          }
          r := Some(current.key);
          current := current.right;
        } else {
          forall j | j in KeysOf(current) && j <= k ensures j in KeysOf(current.left) {
          }
          current := current.left;
        }
      }
    }

    /** getCeiling: the smallest key at least `k`, remembered each time the search goes left. */
    method Ceiling(k: int) returns (r: Option<int>)
      requires Valid()
      ensures r.Some? ==> r.value in KeysOf(root) && r.value >= k
      ensures forall j :: j in KeysOf(root) && j >= k ==> r.Some? && j >= r.value
    {
      var current := root;
      r := None;
      while current.Node?
        invariant Strict(InOrder(current))
        invariant forall j :: j in KeysOf(current) ==> j in KeysOf(root)
        invariant r.Some? ==> r.value in KeysOf(root) && r.value >= k
        invariant r.Some? ==> forall j :: j in KeysOf(current) ==> r.value > j
        invariant forall j :: j in KeysOf(root) && j >= k ==> j in KeysOf(current) || (r.Some? && j >= r.value)
        decreases current
      {
        KeysSplit(current);
        if k == current.key {
          return Some(current.key);
        }
        if k < current.key {
          forall j | j in KeysOf(current) && j >= k ensures j in KeysOf(current.left) || j >= current.key {
          }
          r := Some(current.key);
          current := current.left;
        } else {
          forall j | j in KeysOf(current) && j >= k ensures j in KeysOf(current.right) {
          }
          current := current.right;
        }
      }
    }

    /** rank: the number of keys below `k`, summed on the way down. */
    method Rank(k: int) returns (rank: nat)
      requires Valid()
      ensures rank == |Below(Contents(), k)|
    {
      var current := root;
      rank := 0;
      while current.Node?
        invariant Sized(current) && Strict(InOrder(current))
        invariant rank + |Below(InOrder(current), k)| == |Below(InOrder(root), k)|
        decreases current
      {
        RankSplit(current, k);
        SizeCounts(current.left);
        StrictSplit(current);
        if k == current.key {
          rank := rank + SizeOf(current.left);
          return;
        }
        if k > current.key {
          rank := rank + 1 + SizeOf(current.left);
          current := current.right;
        } else {
          current := current.left;
        }
      }
    }

    /** select: the key of the given rank, found by comparing against left sizes. */
    method Select(rank: int) returns (r: Option<int>)
      requires Valid()
      ensures r == SelectSpec(Contents(), rank)
    {
      var current := root;
      var i := rank;
      while current.Node?
        invariant Sized(current)
        invariant SelectSpec(InOrder(current), i) == SelectSpec(InOrder(root), rank)
        decreases current
      {
        SelectSplit(current, i);
        SizeCounts(current.left);
        var smaller := SizeOf(current.left);
        if smaller == i {
          return Some(current.key);
        }
        if smaller > i {
          current := current.left;
        } else {
          i := i - 1 - smaller;
          current := current.right;
        }
      }
      return None;
    }

    /** delete: when the key is present, redden a root with two black children, delete
        from the root and colour a remaining root black; otherwise change nothing. */
    method Delete(k: int)
      modifies this
      requires Valid()
      ensures Valid()
      ensures Contents() == DelSeq(old(Contents()), k)
    {
      var found := Contains(k);
      if found {
        DeleteRoot(root, k);
        root := Blacken(Del(Redden(root), k));
      } else {
        DelAbsent(InOrder(root), k);
      }
    }

    /** deleteMinimum: the same root handling around deleteMin; no-op when empty. */
    method DeleteMinimum()
      modifies this
      requires Valid()
      ensures Valid()
      ensures Contents() == if old(Contents()) == [] then [] else old(Contents())[1..]
    {
      if root.Node? {
        DeleteMinRoot(root);
        root := Blacken(DelMin(Redden(root)));
      }
    }

    /** deleteMaximum: the same root handling around deleteMax; no-op when empty. */
    method DeleteMaximum()
      modifies this
      requires Valid()
      ensures Valid()
      ensures Contents() == if old(Contents()) == [] then [] else old(Contents())[..|old(Contents())| - 1]
    {
      if root.Node? {
        DeleteMaxRoot(root);
        root := Blacken(DelMax(Redden(root)));
      }
    }

    /** keys: the keys in order. */
    method Keys() returns (ks: seq<int>)
      requires Valid()
      ensures |ks| == |Contents()| && forall i :: 0 <= i < |ks| ==> ks[i] == Contents()[i].key
      ensures forall i, j :: 0 <= i < j < |ks| ==> ks[i] < ks[j]
    {
      ks := KeysOf(root);
      KeysAscending(root);
    }
  }
}
