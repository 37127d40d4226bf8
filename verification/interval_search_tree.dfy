/** The interval search tree of geometry/interval_search_tree.cpp: a left-leaning
    red-black (LLRB) tree of closed intervals [lo, hi] ordered by `lo`, where every
    node also records `treeHi`, the largest `hi` stored in its subtree.

    Nodes are owned by exactly one parent, so the recursive helpers that rewire a
    subtree and return its new root are modelled as functions from the old subtree
    value to the new one. `Nil` stands for the shared black sentinel of size 0. */
module IntervalSearchTree {
  import opened Wrappers
  import SeqFacts

  /** A stored interval with its value: one entry of the in-order sequence. */
  datatype Interval<V> = Interval(lo: int, hi: int, val: V)

  datatype Node<V> =
    | Nil
    | Node(lo: int, hi: int, treeHi: int, val: V, left: Node<V>, right: Node<V>, size: nat, red: bool)

  // ---------------------------------------------------------------------------
  // Abstract view: the in-order sequence of intervals

  function InOrder<V>(t: Node<V>): (s: seq<Interval<V>>)
    ensures |s| == 0 <==> t.Nil?
  {
    if t.Nil? then [] else InOrder(t.left) + [Interval(t.lo, t.hi, t.val)] + InOrder(t.right)
  }

  /** Non-strict order on `lo`: the order every operation keeps. */
  ghost predicate SortedLo<V>(s: seq<Interval<V>>) {
    forall i, j :: 0 <= i < j < |s| ==> s[i].lo <= s[j].lo
  }

  /** Strict order on `lo`: no two stored intervals share their `lo`. */
  ghost predicate StrictLo<V>(s: seq<Interval<V>>) {
    forall i, j :: 0 <= i < j < |s| ==> s[i].lo < s[j].lo
  }

  /** The first stored entry keyed [lo, hi]. */
  function Lookup<V>(s: seq<Interval<V>>, lo: int, hi: int): Option<V> {
    if s == [] then None
    else if s[0].lo == lo && s[0].hi == hi then Some(s[0].val)
    else Lookup(s[1..], lo, hi)
  }

  /** Entries whose `lo` is below, above, or different from `k`. */
  function Below<V>(s: seq<Interval<V>>, k: int): seq<Interval<V>> {
    if s == [] then [] else (if s[0].lo < k then [s[0]] else []) + Below(s[1..], k)
  }

  function Above<V>(s: seq<Interval<V>>, k: int): seq<Interval<V>> {
    if s == [] then [] else (if s[0].lo > k then [s[0]] else []) + Above(s[1..], k)
  }

  /** What `put` does to the in-order sequence when `lo` is new or stored with the same `hi`. */
  function PutSeq<V>(s: seq<Interval<V>>, lo: int, hi: int, val: V): seq<Interval<V>> {
    Below(s, lo) + [Interval(lo, hi, val)] + Above(s, lo)
  }

  /** What deleting the entry keyed on `lo` does to the in-order sequence. */
  function DelSeq<V>(s: seq<Interval<V>>, lo: int): seq<Interval<V>> {
    Below(s, lo) + Above(s, lo)
  }

  /** `put(lo, hi, _)` keeps `lo` values distinct when `lo` is new or stored with the same `hi`. */
  ghost predicate CanPut<V>(s: seq<Interval<V>>, lo: int, hi: int) {
    forall i :: 0 <= i < |s| && s[i].lo == lo ==> s[i].hi == hi
  }

  // ---------------------------------------------------------------------------
  // Augmentation: sizes and subtree maxima

  predicate IsRed<V>(t: Node<V>) {
    t.Node? && t.red
  }

  function SizeOf<V>(t: Node<V>): nat {
    if t.Nil? then 0 else t.size
  }

  /** The `tree_hi` recomputation: own `hi`, raised by each non-sentinel child's `treeHi`. */
  function HiOver<V>(hi: int, left: Node<V>, right: Node<V>): int {
    var h := if left.Node? && left.treeHi > hi then left.treeHi else hi;
    if right.Node? && right.treeHi > h then right.treeHi else h
  }

  /** Every node's `size` counts its subtree and its `treeHi` is recomputed from its children. */
  ghost predicate Augmented<V>(t: Node<V>) {
    t.Nil? ||
    (Augmented(t.left) && Augmented(t.right) &&
     t.size == 1 + SizeOf(t.left) + SizeOf(t.right) &&
     t.treeHi == HiOver(t.hi, t.left, t.right))
  }

  /** Below the root everything is augmented; the root's `treeHi` is, its `size` may be stale. */
  ghost predicate AugmentedBelow<V>(t: Node<V>) {
    t.Node? && Augmented(t.left) && Augmented(t.right) && t.treeHi == HiOver(t.hi, t.left, t.right)
  }

  // ---------------------------------------------------------------------------
  // Red-black shape: a left-leaning red-black tree is a 2-3 tree

  ghost function BlackHeight<V>(t: Node<V>): nat {
    if t.Nil? then 0 else BlackHeight(t.left) + (if t.red then 0 else 1)
  }

  /** Equal black height on both sides of every node, no right-leaning red link and no
      red node with a red left child. */
  ghost predicate LLRB<V>(t: Node<V>) {
    t.Nil? ||
    (LLRB(t.left) && LLRB(t.right) && BlackHeight(t.left) == BlackHeight(t.right) &&
     !IsRed(t.right) && (t.red ==> !IsRed(t.left)))
  }

  /** Like LLRB, except that a red root may have a red left child: the shape `insert`
      returns for a red subtree, which the parent's `fix_up` repairs. */
  ghost predicate RedLeftPair<V>(t: Node<V>) {
    t.Node? && t.red && LLRB(t.left) && LLRB(t.right) &&
    BlackHeight(t.left) == BlackHeight(t.right) && !IsRed(t.right)
  }

  // ---------------------------------------------------------------------------
  // LLRB helpers (rotate_left, rotate_right, flip_colours, fix_up)

  /** rotate_left: the right child becomes the root. The new root's size is computed
      from the old root's size before that is updated, so it is stale until fix_up. */
  function RotateLeft<V>(t: Node<V>): (r: Node<V>)
    requires t.Node? && t.right.Node?
    ensures r.Node? && InOrder(r) == InOrder(t)
  {
    var x := t.right;
    var c := t.(right := x.left, red := true,
                size := 1 + SizeOf(t.left) + SizeOf(x.left), treeHi := HiOver(t.hi, t.left, x.left));
    x.(left := c, red := t.red, size := 1 + t.size + SizeOf(x.right), treeHi := HiOver(x.hi, c, x.right))
  }

  /** rotate_right: the left child becomes the root; same stale size on the new root. */
  function RotateRight<V>(t: Node<V>): (r: Node<V>)
    requires t.Node? && t.left.Node?
    ensures r.Node? && InOrder(r) == InOrder(t)
  {
    var x := t.left;
    var c := t.(left := x.right, red := true,
                size := 1 + SizeOf(x.right) + SizeOf(t.right), treeHi := HiOver(t.hi, x.right, t.right));
    x.(right := c, red := t.red, size := 1 + SizeOf(x.left) + t.size, treeHi := HiOver(x.hi, x.left, c))
  }

  function Toggle<V>(t: Node<V>): Node<V> {
    if t.Node? then t.(red := !t.red) else t
  }

  /** flip_colours: the node and its non-sentinel children change colour. */
  function FlipColours<V>(t: Node<V>): (r: Node<V>)
    requires t.Node?
    ensures r.Node? && InOrder(r) == InOrder(t)
  {
    t.(red := !t.red, left := Toggle(t.left), right := Toggle(t.right))
  }

  /** fix_up: lean a lone right red link left, split a red-red left pair, push a
      double red up, then recompute size and treeHi. */
  function FixUp<V>(t: Node<V>): (r: Node<V>)
    requires t.Node?
    ensures r.Node? && InOrder(r) == InOrder(t)
  {
    var a := if IsRed(t.right) && !IsRed(t.left) then RotateLeft(t) else t;
    var b := if IsRed(a.left) && IsRed(a.left.left) then RotateRight(a) else a;
    var c := if IsRed(b.left) && IsRed(b.right) then FlipColours(b) else b;
    c.(size := 1 + SizeOf(c.left) + SizeOf(c.right), treeHi := HiOver(c.hi, c.left, c.right))
  }

  /** insert: a new red node at the bottom, or the value replaced on an exact [lo, hi]
      match; equal `lo` with a different `hi` goes right. fix_up on the way back. */
  function Insert<V>(t: Node<V>, lo: int, hi: int, val: V): (r: Node<V>)
    ensures r.Node?
  {
    if t.Nil? then Node(lo, hi, hi, val, Nil, Nil, 1, true)
    else if lo == t.lo && hi == t.hi then FixUp(t.(val := val))
    else if lo < t.lo then FixUp(t.(left := Insert(t.left, lo, hi, val)))
    else FixUp(t.(right := Insert(t.right, lo, hi, val)))
  }

  // ---------------------------------------------------------------------------
  // Facts about the in-order sequence

  ghost predicate LoAtMost<V>(s: seq<Interval<V>>, b: int) {
    forall i :: 0 <= i < |s| ==> s[i].lo <= b
  }

  ghost predicate LoAtLeast<V>(s: seq<Interval<V>>, b: int) {
    forall i :: 0 <= i < |s| ==> s[i].lo >= b
  }

  ghost predicate LoBelow<V>(s: seq<Interval<V>>, b: int) {
    forall i :: 0 <= i < |s| ==> s[i].lo < b
  }

  ghost predicate LoAbove<V>(s: seq<Interval<V>>, b: int) {
    forall i :: 0 <= i < |s| ==> s[i].lo > b
  }

  lemma SortedParts<V>(a: seq<Interval<V>>, x: Interval<V>, b: seq<Interval<V>>)
    requires SortedLo(a + [x] + b)
    ensures SortedLo(a) && SortedLo(b) && LoAtMost(a, x.lo) && LoAtLeast(b, x.lo)
  {
    var s := a + [x] + b;
    assert s[|a|] == x;
    forall i, j | 0 <= i < j < |a| ensures a[i].lo <= a[j].lo {
      assert a[i] == s[i] && a[j] == s[j];
    }
    forall i, j | 0 <= i < j < |b| ensures b[i].lo <= b[j].lo {
      assert b[i] == s[|a| + 1 + i] && b[j] == s[|a| + 1 + j];
    }
    forall i | 0 <= i < |a| ensures a[i].lo <= x.lo {
      assert a[i] == s[i];
    }
    forall i | 0 <= i < |b| ensures x.lo <= b[i].lo {
      assert b[i] == s[|a| + 1 + i];
    }
  }

  lemma SortedJoin<V>(a: seq<Interval<V>>, x: Interval<V>, b: seq<Interval<V>>)
    requires SortedLo(a) && SortedLo(b) && LoAtMost(a, x.lo) && LoAtLeast(b, x.lo)
    ensures SortedLo(a + [x] + b)
  {
    var s := a + [x] + b;
    forall i, j | 0 <= i < j < |s| ensures s[i].lo <= s[j].lo {
      if j < |a| {
        assert s[i] == a[i] && s[j] == a[j];
      } else if i > |a| {
        assert s[i] == b[i - |a| - 1] && s[j] == b[j - |a| - 1];
      } else if i == |a| {
        assert s[j] == b[j - |a| - 1];
      } else if j == |a| {
        assert s[i] == a[i];
      } else {
        assert s[i] == a[i] && s[j] == b[j - |a| - 1];
      }
    }
  }

  lemma StrictParts<V>(a: seq<Interval<V>>, x: Interval<V>, b: seq<Interval<V>>)
    requires StrictLo(a + [x] + b)
    ensures StrictLo(a) && StrictLo(b) && LoBelow(a, x.lo) && LoAbove(b, x.lo)
  {
    var s := a + [x] + b;
    assert s[|a|] == x;
    forall i, j | 0 <= i < j < |a| ensures a[i].lo < a[j].lo {
      assert a[i] == s[i] && a[j] == s[j];
    }
    forall i, j | 0 <= i < j < |b| ensures b[i].lo < b[j].lo {
      assert b[i] == s[|a| + 1 + i] && b[j] == s[|a| + 1 + j];
    }
    forall i | 0 <= i < |a| ensures a[i].lo < x.lo {
      assert a[i] == s[i];
    }
    forall i | 0 <= i < |b| ensures x.lo < b[i].lo {
      assert b[i] == s[|a| + 1 + i];
    }
  }

  lemma StrictJoin<V>(a: seq<Interval<V>>, x: Interval<V>, b: seq<Interval<V>>)
    requires StrictLo(a) && StrictLo(b) && LoBelow(a, x.lo) && LoAbove(b, x.lo)
    ensures StrictLo(a + [x] + b)
  {
    var s := a + [x] + b;
    forall i, j | 0 <= i < j < |s| ensures s[i].lo < s[j].lo {
      if j < |a| {
        assert s[i] == a[i] && s[j] == a[j];
      } else if i > |a| {
        assert s[i] == b[i - |a| - 1] && s[j] == b[j - |a| - 1];
      } else if i == |a| {
        assert s[j] == b[j - |a| - 1];
      } else if j == |a| {
        assert s[i] == a[i];
      } else {
        assert s[i] == a[i] && s[j] == b[j - |a| - 1];
      }
    }
  }

  /** A node's in-order sequence is sorted exactly when both sides are and the node's
      `lo` separates them. */
  lemma SortedSplit<V>(t: Node<V>)
    requires t.Node?
    ensures SortedLo(InOrder(t)) <==>
      SortedLo(InOrder(t.left)) && SortedLo(InOrder(t.right)) &&
      LoAtMost(InOrder(t.left), t.lo) && LoAtLeast(InOrder(t.right), t.lo)
  {
    var x := Interval(t.lo, t.hi, t.val);
    if SortedLo(InOrder(t)) {
      SortedParts(InOrder(t.left), x, InOrder(t.right));
    }
    if SortedLo(InOrder(t.left)) && SortedLo(InOrder(t.right)) &&
       LoAtMost(InOrder(t.left), t.lo) && LoAtLeast(InOrder(t.right), t.lo) {
      SortedJoin(InOrder(t.left), x, InOrder(t.right));
    }
  }

  lemma StrictSplit<V>(t: Node<V>)
    requires t.Node?
    ensures StrictLo(InOrder(t)) <==>
      StrictLo(InOrder(t.left)) && StrictLo(InOrder(t.right)) &&
      LoBelow(InOrder(t.left), t.lo) && LoAbove(InOrder(t.right), t.lo)
  {
    var x := Interval(t.lo, t.hi, t.val);
    if StrictLo(InOrder(t)) {
      StrictParts(InOrder(t.left), x, InOrder(t.right));
    }
    if StrictLo(InOrder(t.left)) && StrictLo(InOrder(t.right)) &&
       LoBelow(InOrder(t.left), t.lo) && LoAbove(InOrder(t.right), t.lo) {
      StrictJoin(InOrder(t.left), x, InOrder(t.right));
    }
  }

  lemma BelowAboveAppend<V>(a: seq<Interval<V>>, b: seq<Interval<V>>, k: int)
    ensures Below(a + b, k) == Below(a, k) + Below(b, k)
    ensures Above(a + b, k) == Above(a, k) + Above(b, k)
  {
    BelowAppend(a, b, k);
    AboveAppend(a, b, k);
  }

  lemma BelowCons<V>(x: Interval<V>, s: seq<Interval<V>>, k: int)
    ensures Below([x] + s, k) == (if x.lo < k then [x] else []) + Below(s, k)
  {
    assert ([x] + s)[1..] == s;
  }

  lemma {:induction false} BelowAppend<V>(a: seq<Interval<V>>, b: seq<Interval<V>>, k: int)
    ensures Below(a + b, k) == Below(a, k) + Below(b, k)
  {
    if a == [] {
      assert a + b == b;
    } else {
      var x, rest := a[0], a[1..];
      BelowAppend(rest, b, k);
      SeqFacts.HeadTail(a, b);
      BelowCons(x, rest + b, k);
      BelowCons(x, rest, k);
      SeqFacts.Regroup(if x.lo < k then [x] else [], Below(rest, k), Below(b, k));
    }
  }

  lemma AboveCons<V>(x: Interval<V>, s: seq<Interval<V>>, k: int)
    ensures Above([x] + s, k) == (if x.lo > k then [x] else []) + Above(s, k)
  {
    assert ([x] + s)[1..] == s;
  }

  lemma {:induction false} AboveAppend<V>(a: seq<Interval<V>>, b: seq<Interval<V>>, k: int)
    ensures Above(a + b, k) == Above(a, k) + Above(b, k)
  {
    if a == [] {
      assert a + b == b;
    } else {
      var x, rest := a[0], a[1..];
      AboveAppend(rest, b, k);
      SeqFacts.HeadTail(a, b);
      AboveCons(x, rest + b, k);
      AboveCons(x, rest, k);
      SeqFacts.Regroup(if x.lo > k then [x] else [], Above(rest, k), Above(b, k));
    }
  }

  lemma {:induction false} FiltersOfLarger<V>(s: seq<Interval<V>>, k: int)
    requires LoAbove(s, k)
    ensures Below(s, k) == [] && Above(s, k) == s
  {
    if s != [] {
      FiltersOfLarger(s[1..], k);
    }
  }

  lemma {:induction false} FiltersOfSmaller<V>(s: seq<Interval<V>>, k: int)
    requires LoBelow(s, k)
    ensures Below(s, k) == s && Above(s, k) == []
  {
    if s != [] {
      FiltersOfSmaller(s[1..], k);
    }
  }

  /** The filters of a node's sequence, split at the node. */
  lemma FiltersOfNode<V>(t: Node<V>, k: int)
    requires t.Node?
    ensures Below(InOrder(t), k) ==
      Below(InOrder(t.left), k) + (if t.lo < k then [Interval(t.lo, t.hi, t.val)] else []) + Below(InOrder(t.right), k)
    ensures Above(InOrder(t), k) ==
      Above(InOrder(t.left), k) + (if t.lo > k then [Interval(t.lo, t.hi, t.val)] else []) + Above(InOrder(t.right), k)
  {
    var x := [Interval(t.lo, t.hi, t.val)];
    BelowAboveAppend(InOrder(t.left) + x, InOrder(t.right), k);
    BelowAboveAppend(InOrder(t.left), x, k);
    assert Below(x, k) == (if t.lo < k then x else []) by { assert x[1..] == []; }
    assert Above(x, k) == (if t.lo > k then x else []) by { assert x[1..] == []; }
  }

  lemma {:induction false} LookupAppend<V>(a: seq<Interval<V>>, b: seq<Interval<V>>, lo: int, hi: int)
    ensures Lookup(a + b, lo, hi) == if Lookup(a, lo, hi).Some? then Lookup(a, lo, hi) else Lookup(b, lo, hi)
  {
    if a == [] {
      assert a + b == b;
    } else {
      assert (a + b)[1..] == a[1..] + b;
      LookupAppend(a[1..], b, lo, hi);
    }
  }

  /** No entry of `s` is keyed on `lo` when all of them lie on one side of it. */
  lemma {:induction false} LookupMissing<V>(s: seq<Interval<V>>, lo: int, hi: int)
    requires LoBelow(s, lo) || LoAbove(s, lo)
    ensures Lookup(s, lo, hi) == None
  {
    if s != [] {
      LookupMissing(s[1..], lo, hi);
    }
  }

  /** `Lookup` answers exactly the stored entries with key [lo, hi]. */
  lemma {:induction false} LookupMeaning<V>(s: seq<Interval<V>>, lo: int, hi: int)
    ensures Lookup(s, lo, hi).Some? ==>
      exists i :: 0 <= i < |s| && s[i] == Interval(lo, hi, Lookup(s, lo, hi).value)
    ensures Lookup(s, lo, hi).None? ==>
      forall i :: 0 <= i < |s| ==> !(s[i].lo == lo && s[i].hi == hi)
  {
    if s != [] && !(s[0].lo == lo && s[0].hi == hi) {
      LookupMeaning(s[1..], lo, hi);
      if Lookup(s, lo, hi).Some? {
        var i :| 0 <= i < |s[1..]| && s[1..][i] == Interval(lo, hi, Lookup(s, lo, hi).value);
        assert s[i + 1] == s[1..][i];
      } else {
        forall i | 0 <= i < |s| ensures !(s[i].lo == lo && s[i].hi == hi) {
          if i > 0 { assert s[i] == s[1..][i - 1]; }
        }
      }
    }
  }

  lemma {:induction false} FilterBounds<V>(s: seq<Interval<V>>, k: int, m: int)
    ensures LoAbove(s, m) ==> LoAbove(Below(s, k), m) && LoAbove(Above(s, k), m)
    ensures LoBelow(s, m) ==> LoBelow(Below(s, k), m) && LoBelow(Above(s, k), m)
    ensures LoBelow(Below(s, k), k) && LoAbove(Above(s, k), k)
  {
    if s != [] {
      FilterBounds(s[1..], k, m);
    }
  }

  lemma {:induction false} FilterStrict<V>(s: seq<Interval<V>>, k: int)
    requires StrictLo(s)
    ensures StrictLo(Below(s, k)) && StrictLo(Above(s, k))
  {
    if s != [] {
      StrictParts([], s[0], s[1..]);
      assert [] + [s[0]] + s[1..] == s;
      FilterStrict(s[1..], k);
      FilterBounds(s[1..], k, s[0].lo);
      if s[0].lo < k {
        StrictJoin([], s[0], Below(s[1..], k));
        assert [] + [s[0]] + Below(s[1..], k) == Below(s, k);
      }
      if s[0].lo > k {
        StrictJoin([], s[0], Above(s[1..], k));
        assert [] + [s[0]] + Above(s[1..], k) == Above(s, k);
      }
    }
  }

  lemma CanPutParts<V>(a: seq<Interval<V>>, x: Interval<V>, b: seq<Interval<V>>, lo: int, hi: int)
    requires CanPut(a + [x] + b, lo, hi)
    ensures CanPut(a, lo, hi) && CanPut(b, lo, hi) && (x.lo == lo ==> x.hi == hi)
  {
    var s := a + [x] + b;
    assert forall i :: 0 <= i < |a| ==> a[i] == s[i];
    assert forall i :: 0 <= i < |b| ==> b[i] == s[|a| + 1 + i];
    assert s[|a|] == x;
  }

  // ---------------------------------------------------------------------------
  // insert keeps the order, the augmentation and the 2-3 shape

  lemma BoundsJoin<V>(a: seq<Interval<V>>, x: Interval<V>, b: seq<Interval<V>>, k: int)
    ensures LoAtMost(a + [x] + b, k) <==> LoAtMost(a, k) && x.lo <= k && LoAtMost(b, k)
    ensures LoAtLeast(a + [x] + b, k) <==> LoAtLeast(a, k) && x.lo >= k && LoAtLeast(b, k)
  {
    var s := a + [x] + b;
    assert forall i :: 0 <= i < |a| ==> a[i] == s[i];
    assert forall i :: 0 <= i < |b| ==> b[i] == s[|a| + 1 + i];
    assert s[|a|] == x;
    if LoAtMost(a, k) && x.lo <= k && LoAtMost(b, k) {
      forall i | 0 <= i < |s| ensures s[i].lo <= k {
        if i < |a| { assert s[i] == a[i]; }
        else if i > |a| { assert s[i] == b[i - |a| - 1]; }
      }
    }
    if LoAtLeast(a, k) && x.lo >= k && LoAtLeast(b, k) {
      forall i | 0 <= i < |s| ensures s[i].lo >= k {
        if i < |a| { assert s[i] == a[i]; }
        else if i > |a| { assert s[i] == b[i - |a| - 1]; }
      }
    }
  }

  lemma BoundsOfNode<V>(t: Node<V>, b: int)
    requires t.Node?
    ensures LoAtMost(InOrder(t), b) <==>
      LoAtMost(InOrder(t.left), b) && t.lo <= b && LoAtMost(InOrder(t.right), b)
    ensures LoAtLeast(InOrder(t), b) <==>
      LoAtLeast(InOrder(t.left), b) && t.lo >= b && LoAtLeast(InOrder(t.right), b)
  {
    BoundsJoin(InOrder(t.left), Interval(t.lo, t.hi, t.val), InOrder(t.right), b);
  }

  lemma {:induction false} InsertBounds<V>(t: Node<V>, lo: int, hi: int, val: V, b: int)
    ensures LoAtMost(InOrder(t), b) && lo <= b ==> LoAtMost(InOrder(Insert(t, lo, hi, val)), b)
    ensures LoAtLeast(InOrder(t), b) && lo >= b ==> LoAtLeast(InOrder(Insert(t, lo, hi, val)), b)
  {
    var r := Insert(t, lo, hi, val);
    if t.Nil? {
      assert InOrder(r) == [Interval(lo, hi, val)];
    } else {
      BoundsOfNode(t, b);
      if lo == t.lo && hi == t.hi {
        BoundsOfNode(t.(val := val), b);
      } else if lo < t.lo {
        InsertBounds(t.left, lo, hi, val, b);
        BoundsOfNode(t.(left := Insert(t.left, lo, hi, val)), b);
      } else {
        InsertBounds(t.right, lo, hi, val, b);
        BoundsOfNode(t.(right := Insert(t.right, lo, hi, val)), b);
      }
    }
  }

  /** insert keeps the in-order sequence sorted on `lo`, whatever it is given. */
  lemma {:induction false} InsertSorted<V>(t: Node<V>, lo: int, hi: int, val: V)
    requires SortedLo(InOrder(t))
    ensures SortedLo(InOrder(Insert(t, lo, hi, val)))
  {
    if t.Node? {
      SortedSplit(t);
      if lo == t.lo && hi == t.hi {
        SortedSplit(t.(val := val));
      } else if lo < t.lo {
        InsertSorted(t.left, lo, hi, val);
        InsertBounds(t.left, lo, hi, val, t.lo);
        SortedSplit(t.(left := Insert(t.left, lo, hi, val)));
      } else {
        InsertSorted(t.right, lo, hi, val);
        InsertBounds(t.right, lo, hi, val, t.lo);
        SortedSplit(t.(right := Insert(t.right, lo, hi, val)));
      }
    }
  }

  /** With distinct `lo` values and `lo` new or stored with the same `hi`, insert places
      [lo, hi] between the smaller and the larger `lo` values, replacing the old entry. */
  /** The filters of `l + [x] + r`, piece by piece. */
  lemma FiltersJoin<V>(l: seq<Interval<V>>, x: Interval<V>, r: seq<Interval<V>>, k: int)
    ensures Below(l + [x] + r, k) == Below(l, k) + (if x.lo < k then [x] else []) + Below(r, k)
    ensures Above(l + [x] + r, k) == Above(l, k) + (if x.lo > k then [x] else []) + Above(r, k)
  {
    BelowAboveAppend(l + [x], r, k);
    BelowAboveAppend(l, [x], k);
    SeqFacts.Unit([x]);
    BelowCons(x, [], k);
    AboveCons(x, [], k);
    SeqFacts.Unit(if x.lo < k then [x] else []);
    SeqFacts.Unit(if x.lo > k then [x] else []);
  }

  /** PutSeq on a sequence split at an entry `x`, for the three places `lo` can fall. */
  lemma PutSeqLeft<V>(l: seq<Interval<V>>, x: Interval<V>, r: seq<Interval<V>>, lo: int, hi: int, val: V)
    requires LoAbove(r, x.lo) && lo < x.lo
    ensures PutSeq(l + [x] + r, lo, hi, val) == PutSeq(l, lo, hi, val) + [x] + r
  {
    FiltersJoin(l, x, r, lo);
    FiltersOfLarger(r, lo);
    var bl, al, e := Below(l, lo), Above(l, lo), Interval(lo, hi, val);
    SeqFacts.Unit(bl);
    SeqFacts.Regroup(bl + [e], al + [x], r);
    SeqFacts.Regroup(bl + [e], al, [x]);
  }

  lemma PutSeqRight<V>(l: seq<Interval<V>>, x: Interval<V>, r: seq<Interval<V>>, lo: int, hi: int, val: V)
    requires LoBelow(l, x.lo) && lo > x.lo
    ensures PutSeq(l + [x] + r, lo, hi, val) == l + [x] + PutSeq(r, lo, hi, val)
  {
    FiltersJoin(l, x, r, lo);
    FiltersOfSmaller(l, lo);
    var br, ar, e := Below(r, lo), Above(r, lo), Interval(lo, hi, val);
    SeqFacts.Unit<Interval<V>>([]);
    SeqFacts.Unit(ar);
    SeqFacts.Regroup(l + [x], br + [e], ar);
    SeqFacts.Regroup(l + [x], br, [e]);
  }

  lemma PutSeqHere<V>(l: seq<Interval<V>>, x: Interval<V>, r: seq<Interval<V>>, lo: int, hi: int, val: V)
    requires LoBelow(l, x.lo) && LoAbove(r, x.lo) && lo == x.lo
    ensures PutSeq(l + [x] + r, lo, hi, val) == l + [Interval(lo, hi, val)] + r
  {
    FiltersJoin(l, x, r, lo);
    FiltersOfSmaller(l, lo);
    FiltersOfLarger(r, lo);
    SeqFacts.Unit(l);
    SeqFacts.Unit<Interval<V>>([]);
    SeqFacts.Unit(r);
  }

  lemma {:induction false} InsertContents<V>(t: Node<V>, lo: int, hi: int, val: V)
    requires StrictLo(InOrder(t)) && CanPut(InOrder(t), lo, hi)
    ensures InOrder(Insert(t, lo, hi, val)) == PutSeq(InOrder(t), lo, hi, val)
  {
    if t.Node? {
      var l, r := InOrder(t.left), InOrder(t.right);
      var x := Interval(t.lo, t.hi, t.val);
      StrictSplit(t);
      CanPutParts(l, x, r, lo, hi);
      if lo == t.lo && hi == t.hi {
        PutSeqHere(l, x, r, lo, hi, val);
      } else if lo < t.lo {
        InsertContents(t.left, lo, hi, val);
        PutSeqLeft(l, x, r, lo, hi, val);
      } else {
        InsertContents(t.right, lo, hi, val);
        PutSeqRight(l, x, r, lo, hi, val);
      }
    }
  }

  lemma RotateLeftAugmented<V>(t: Node<V>)
    requires t.Node? && t.right.Node? && Augmented(t.left) && Augmented(t.right)
    ensures AugmentedBelow(RotateLeft(t))
  {
  }

  lemma RotateRightAugmented<V>(t: Node<V>)
    requires t.Node? && t.left.Node? && Augmented(t.left) && Augmented(t.right)
    ensures AugmentedBelow(RotateRight(t))
  {
  }

  lemma FlipAugmented<V>(t: Node<V>)
    requires t.Node? && Augmented(t.left) && Augmented(t.right)
    ensures Augmented(FlipColours(t).left) && Augmented(FlipColours(t).right)
  {
  }

  /** fix_up leaves a fully augmented node whenever the children are. */
  lemma FixUpAugmented<V>(t: Node<V>)
    requires t.Node? && Augmented(t.left) && Augmented(t.right)
    ensures Augmented(FixUp(t))
  {
    var a := if IsRed(t.right) && !IsRed(t.left) then RotateLeft(t) else t;
    if IsRed(t.right) && !IsRed(t.left) { RotateLeftAugmented(t); }
    assert Augmented(a.left) && Augmented(a.right);
    var b := if IsRed(a.left) && IsRed(a.left.left) then RotateRight(a) else a;
    if IsRed(a.left) && IsRed(a.left.left) { RotateRightAugmented(a); }
    assert Augmented(b.left) && Augmented(b.right);
    var c := if IsRed(b.left) && IsRed(b.right) then FlipColours(b) else b;
    FlipAugmented(b);
    assert Augmented(c.left) && Augmented(c.right);
  }

  lemma {:induction false} InsertAugmented<V>(t: Node<V>, lo: int, hi: int, val: V)
    requires Augmented(t)
    ensures Augmented(Insert(t, lo, hi, val))
  {
    if t.Node? {
      if lo == t.lo && hi == t.hi {
        FixUpAugmented(t.(val := val));
      } else if lo < t.lo {
        InsertAugmented(t.left, lo, hi, val);
        FixUpAugmented(t.(left := Insert(t.left, lo, hi, val)));
      } else {
        InsertAugmented(t.right, lo, hi, val);
        FixUpAugmented(t.(right := Insert(t.right, lo, hi, val)));
      }
    }
  }

  /** fix_up on every configuration insert and delete give it: it keeps the black
      height, returns a 2-3 tree for a black node and at worst a red-red left pair for a
      red one, and colours its result red exactly when a red link is passed up. */
  lemma FixUpShape<V>(u: Node<V>)
    requires u.Node? && BlackHeight(u.left) == BlackHeight(u.right) && LLRB(u.right)
    requires LLRB(u.left) || (RedLeftPair(u.left) && !u.red && !IsRed(u.right))
    requires u.red ==> !(IsRed(u.left) && IsRed(u.right))
    ensures BlackHeight(FixUp(u)) == BlackHeight(u)
    ensures if u.red then RedLeftPair(FixUp(u)) else LLRB(FixUp(u))
    ensures FixUp(u).red <==> u.red || (IsRed(u.left) && (IsRed(u.right) || IsRed(u.left.left)))
    ensures !IsRed(u.left) && !IsRed(u.right) ==>
      FixUp(u).red == u.red && FixUp(u).left == u.left && FixUp(u).right == u.right
  {
  }

  /** insert keeps the black height; into a black subtree it returns a 2-3 tree, into a
      red one a red node that may have a red left child. */
  lemma {:induction false} InsertBalance<V>(t: Node<V>, lo: int, hi: int, val: V)
    requires LLRB(t)
    ensures BlackHeight(Insert(t, lo, hi, val)) == BlackHeight(t)
    ensures if IsRed(t) then RedLeftPair(Insert(t, lo, hi, val)) else LLRB(Insert(t, lo, hi, val))
  {
    if t.Node? {
      if lo == t.lo && hi == t.hi {
        FixUpShape(t.(val := val));
      } else if lo < t.lo {
        InsertBalance(t.left, lo, hi, val);
        FixUpShape(t.(left := Insert(t.left, lo, hi, val)));
      } else {
        InsertBalance(t.right, lo, hi, val);
        FixUpShape(t.(right := Insert(t.right, lo, hi, val)));
      }
    }
  }

  // ---------------------------------------------------------------------------
  // Deletion (move_red_left, move_red_right, del_min, del)

  /** The entries from a node onwards: its own interval followed by its right subtree. */
  function FromNode<V>(t: Node<V>): seq<Interval<V>>
    requires t.Node?
  {
    [Interval(t.lo, t.hi, t.val)] + InOrder(t.right)
  }

  predicate LeftLeftRed<V>(t: Node<V>) {
    t.Node? && t.left.Node? && IsRed(t.left.left)
  }

  predicate RightLeftRed<V>(t: Node<V>) {
    t.Node? && t.right.Node? && IsRed(t.right.left)
  }

  /** move_red_left: the node lends to its left child, borrowing back from the right
      sibling when that sibling has a red left link. The old left subtree stays a prefix
      of the new left subtree. */
  function MoveRedLeft<V>(t: Node<V>): (r: Node<V>)
    requires t.Node?
    ensures r.Node? && InOrder(r) == InOrder(t)
    ensures t.left.Node? ==> r.left.Node?
    ensures |InOrder(t.left)| <= |InOrder(r.left)| &&
            InOrder(r.left)[..|InOrder(t.left)|] == InOrder(t.left)
  {
    var f := FlipColours(t);
    if RightLeftRed(f) then FlipColours(RotateLeft(f.(right := RotateRight(f.right))))
    else f
  }

  /** move_red_right: the node lends to its right child, borrowing from the left sibling
      when it has a red left link. The entries from the node onwards stay a suffix of the
      entries from the new root onwards. */
  function MoveRedRight<V>(t: Node<V>): (r: Node<V>)
    requires t.Node?
    ensures r.Node? && InOrder(r) == InOrder(t)
    ensures |FromNode(t)| <= |FromNode(r)| &&
            FromNode(r)[|FromNode(r)| - |FromNode(t)|..] == FromNode(t)
    ensures r.right.Nil? ==> t.right.Nil? && r.lo == t.lo && r.hi == t.hi
  {
    var f := FlipColours(t);
    if LeftLeftRed(f) then
      var r := FlipColours(RotateRight(f));
      assert InOrder(f.right) == InOrder(t.right);
      assert InOrder(r.right) == InOrder(f.left.right) + [Interval(t.lo, t.hi, t.val)] + InOrder(t.right);
      assert FromNode(r) == [Interval(f.left.lo, f.left.hi, f.left.val)] + InOrder(f.left.right) + FromNode(t);
      r
    else f
  }

  /** del_min: removes the leftmost entry (a node without a left child is replaced by
      the sentinel, which in a 2-3 shaped tree has no right child either). */
  function DelMin<V>(t: Node<V>): (r: Node<V>)
    requires t.Node?
    decreases |InOrder(t)|
  {
    if t.left.Nil? then Nil
    else
      var c := if !IsRed(t.left) && !LeftLeftRed(t) then MoveRedLeft(t) else t;
      FixUp(c.(left := DelMin(c.left)))
  }

  /** The successor walk of del: follow left links to the leftmost node. */
  function Leftmost<V>(t: Node<V>): (m: Node<V>)
    requires t.Node?
    ensures m.Node? && Interval(m.lo, m.hi, m.val) == InOrder(t)[0]
  {
    if t.left.Nil? then t else Leftmost(t.left)
  }

  lemma LookupPrefix<V>(a: seq<Interval<V>>, b: seq<Interval<V>>, lo: int, hi: int)
    requires |a| <= |b| && b[..|a|] == a && Lookup(a, lo, hi).Some?
    ensures Lookup(b, lo, hi).Some?
  {
    LookupAppend(a, b[|a|..], lo, hi);
    assert b == a + b[|a|..];
  }

  lemma LookupSuffix<V>(a: seq<Interval<V>>, b: seq<Interval<V>>, lo: int, hi: int)
    requires |a| <= |b| && b[|b| - |a|..] == a && Lookup(a, lo, hi).Some?
    ensures Lookup(b, lo, hi).Some?
  {
    LookupAppend(b[..|b| - |a|], a, lo, hi);
    assert b == b[..|b| - |a|] + a;
  }

  /** Where a stored key sits relative to a node, when `lo` values are distinct. */
  lemma KeyPlace<V>(t: Node<V>, lo: int, hi: int)
    requires t.Node? && StrictLo(InOrder(t)) && Lookup(InOrder(t), lo, hi).Some?
    ensures StrictLo(InOrder(t.left)) && StrictLo(InOrder(t.right))
    ensures lo < t.lo ==> Lookup(InOrder(t.left), lo, hi) == Lookup(InOrder(t), lo, hi)
    ensures lo >= t.lo ==> Lookup(FromNode(t), lo, hi) == Lookup(InOrder(t), lo, hi)
    ensures lo == t.lo ==> hi == t.hi
    ensures lo > t.lo ==> Lookup(InOrder(t.right), lo, hi) == Lookup(InOrder(t), lo, hi)
  {
    KeyPlaceLeft(t, lo, hi);
    KeyPlaceRight(t, lo, hi);
  }

  lemma KeyPlaceLeft<V>(t: Node<V>, lo: int, hi: int)
    requires t.Node? && StrictLo(InOrder(t)) && Lookup(InOrder(t), lo, hi).Some?
    ensures StrictLo(InOrder(t.left)) && StrictLo(InOrder(t.right))
    ensures lo < t.lo ==> Lookup(InOrder(t.left), lo, hi) == Lookup(InOrder(t), lo, hi)
  {
    var l, r := InOrder(t.left), InOrder(t.right);
    StrictSplit(t);
    if lo < t.lo {
      LookupAppend(l, FromNode(t), lo, hi);
      assert InOrder(t) == l + FromNode(t);
      LookupMissing(FromNode(t), lo, hi) by {
        BoundsJoin([], Interval(t.lo, t.hi, t.val), r, lo);
        assert [] + [Interval(t.lo, t.hi, t.val)] + r == FromNode(t);
        assert LoAbove(FromNode(t), lo);
      }
    }
  }

  lemma KeyPlaceRight<V>(t: Node<V>, lo: int, hi: int)
    requires t.Node? && StrictLo(InOrder(t)) && Lookup(InOrder(t), lo, hi).Some?
    ensures lo >= t.lo ==> Lookup(FromNode(t), lo, hi) == Lookup(InOrder(t), lo, hi)
    ensures lo == t.lo ==> hi == t.hi
    ensures lo > t.lo ==> Lookup(InOrder(t.right), lo, hi) == Lookup(InOrder(t), lo, hi)
  {
    if lo >= t.lo {
      var l, r := InOrder(t.left), InOrder(t.right);
      StrictSplit(t);
      LookupAppend(l, FromNode(t), lo, hi);
      assert InOrder(t) == l + FromNode(t);
      assert FromNode(t)[1..] == r;
      LookupMissing(l, lo, hi);
      if lo == t.lo && hi != t.hi {
        LookupMissing(r, lo, hi);
      }
    }
  }

  /** A key found to the right of a node is above the node's own `lo`. */
  lemma KeyRightOf<V>(t: Node<V>, lo: int, hi: int)
    requires t.Node? && StrictLo(InOrder(t)) && Lookup(InOrder(t.right), lo, hi).Some?
    ensures lo > t.lo
  {
    StrictSplit(t);
    LookupMeaning(InOrder(t.right), lo, hi);
  }

  /** del: removes the entry keyed [lo, hi], which must be stored, from a tree whose
      `lo` values are distinct. */
  function Del<V>(t: Node<V>, lo: int, hi: int): (r: Node<V>)
    requires t.Node? && StrictLo(InOrder(t)) && Lookup(InOrder(t), lo, hi).Some?
    decreases |InOrder(t)|, 1
  {
    if lo < t.lo then
      var c := if !IsRed(t.left) && !LeftLeftRed(t) then MoveRedLeft(t) else t;
      DelLeftReady(t, lo, hi);
      FixUp(c.(left := Del(c.left, lo, hi)))
    else
      var c := if IsRed(t.left) then RotateRight(t) else t;
      DelRightReady(t, lo, hi);
      if lo == c.lo && hi == c.hi && c.right.Nil? then Nil
      else
        var d := if !IsRed(c.right) && !RightLeftRed(c) then MoveRedRight(c) else c;
        DelHere(d, lo, hi)
  }

  /** What del needs before it goes left. */
  lemma DelLeftReady<V>(t: Node<V>, lo: int, hi: int)
    requires t.Node? && StrictLo(InOrder(t)) && Lookup(InOrder(t), lo, hi).Some? && lo < t.lo
    ensures var c := if !IsRed(t.left) && !LeftLeftRed(t) then MoveRedLeft(t) else t;
      c.Node? && StrictLo(InOrder(c.left)) && Lookup(InOrder(c.left), lo, hi).Some? &&
      |InOrder(c.left)| < |InOrder(t)|
  {
    KeyPlace(t, lo, hi);
    var c := if !IsRed(t.left) && !LeftLeftRed(t) then MoveRedLeft(t) else t;
    LookupPrefix(InOrder(t.left), InOrder(c.left), lo, hi);
    StrictSplit(c);
  }

  /** What del needs once the key is at or right of the node: after the optional right
      rotation the key is in the node or its right subtree, and after the optional
      move_red_right too unless the matched node has no right child. */
  lemma DelRightReady<V>(t: Node<V>, lo: int, hi: int)
    requires t.Node? && StrictLo(InOrder(t)) && Lookup(InOrder(t), lo, hi).Some? && lo >= t.lo
    ensures var c := if IsRed(t.left) then RotateRight(t) else t;
      c.Node? && StrictLo(InOrder(c)) && Lookup(FromNode(c), lo, hi).Some? &&
      (!(lo == c.lo && hi == c.hi && c.right.Nil?) ==>
        var d := if !IsRed(c.right) && !RightLeftRed(c) then MoveRedRight(c) else c;
        d.Node? && StrictLo(InOrder(d)) && Lookup(FromNode(d), lo, hi).Some? &&
        (lo == d.lo && hi == d.hi ==> d.right.Node?))
  {
    var c := if IsRed(t.left) then RotateRight(t) else t;
    RotatedReady(t, lo, hi);
    if !(lo == c.lo && hi == c.hi && c.right.Nil?) {
      MovedReady(c, lo, hi);
    }
  }

  lemma RotatedReady<V>(t: Node<V>, lo: int, hi: int)
    requires t.Node? && StrictLo(InOrder(t)) && Lookup(InOrder(t), lo, hi).Some? && lo >= t.lo
    ensures var c := if IsRed(t.left) then RotateRight(t) else t;
      c.Node? && StrictLo(InOrder(c)) && Lookup(FromNode(c), lo, hi).Some?
  {
    KeyPlaceRight(t, lo, hi);
    if IsRed(t.left) {
      var c := RotateRight(t);
      var x := t.left;
      assert FromNode(c) == [Interval(x.lo, x.hi, x.val)] + InOrder(x.right) + FromNode(t);
      LookupSuffix(FromNode(t), FromNode(c), lo, hi);
    }
  }

  lemma MovedReady<V>(c: Node<V>, lo: int, hi: int)
    requires c.Node? && StrictLo(InOrder(c)) && Lookup(FromNode(c), lo, hi).Some?
    requires !(lo == c.lo && hi == c.hi && c.right.Nil?)
    ensures var d := if !IsRed(c.right) && !RightLeftRed(c) then MoveRedRight(c) else c;
      d.Node? && StrictLo(InOrder(d)) && Lookup(FromNode(d), lo, hi).Some? &&
      (lo == d.lo && hi == d.hi ==> d.right.Node?)
  {
    var d := if !IsRed(c.right) && !RightLeftRed(c) then MoveRedRight(c) else c;
    LookupSuffix(FromNode(c), FromNode(d), lo, hi);
  }

  /** The last step of del, once the key is at or to the right of `d`: a matched node
      takes over its successor's interval and value, and the successor is removed from
      the right subtree with del_min; otherwise del continues to the right. */
  function DelHere<V>(d: Node<V>, lo: int, hi: int): (r: Node<V>)
    requires d.Node? && StrictLo(InOrder(d)) && Lookup(FromNode(d), lo, hi).Some?
    requires lo == d.lo && hi == d.hi ==> d.right.Node?
    decreases |InOrder(d)|, 0
  {
    assert FromNode(d)[1..] == InOrder(d.right);
    StrictSplit(d);
    if lo == d.lo && hi == d.hi then
      var m := Leftmost(d.right);
      FixUp(d.(lo := m.lo, hi := m.hi, val := m.val, right := DelMin(d.right)))
    else
      assert Lookup(InOrder(d.right), lo, hi).Some?;
      FixUp(d.(right := Del(d.right, lo, hi)))
  }

  // ---------------------------------------------------------------------------
  // Deletion keeps the 2-3 shape

  /** fix_up as deletion uses it: both sides are 2-3 trees of the same black height and a
      red node has no red child. The result is a 2-3 tree and is red only if the node was
      or a double red was pushed up. */
  lemma FixUpDel<V>(u: Node<V>)
    requires u.Node? && LLRB(u.left) && LLRB(u.right) && BlackHeight(u.left) == BlackHeight(u.right)
    requires u.red ==> !IsRed(u.left) && !IsRed(u.right)
    ensures LLRB(FixUp(u)) && BlackHeight(FixUp(u)) == BlackHeight(u)
    ensures FixUp(u).red <==> u.red || (IsRed(u.left) && IsRed(u.right))
  {
    FixUpShape(u);
  }

  /** What move_red_left hands to del_min and del: a left child that is red or has a red
      left child, 2-3 subtrees of equal black height, and no red child under a red root. */
  lemma MoveRedLeftShape<V>(t: Node<V>)
    requires t.Node? && t.red && LLRB(t) && t.left.Node? && !IsRed(t.left) && !LeftLeftRed(t)
    ensures var c := MoveRedLeft(t);
      c.left.Node? && LLRB(c.left) && (IsRed(c.left) || LeftLeftRed(c)) &&
      LLRB(c.right) && BlackHeight(c.left) == BlackHeight(c.right) &&
      BlackHeight(c) == BlackHeight(t) &&
      (c.red ==> !IsRed(c.left) && !IsRed(c.right))
  {
    var hl, hr := t.left, t.right;
    assert hr.Node? && !hr.red;
    var f := FlipColours(t);
    var hl' := f.left;
    assert LLRB(hl') && hl'.red && BlackHeight(hl') + 1 == BlackHeight(hl);
    if RightLeftRed(f) {
      var x := hr.left;
      assert LLRB(hr) && LLRB(x);
      assert x.red && LLRB(x.left) && LLRB(x.right) && !IsRed(x.left) && !IsRed(x.right);
      var c1 := hr.(left := x.right, red := true,
                    size := 1 + SizeOf(x.right) + SizeOf(hr.right), treeHi := HiOver(hr.hi, x.right, hr.right));
      assert RotateRight(f.right).right == c1;
      var c2 := RotateLeft(f.(right := RotateRight(f.right))).left;
      assert c2.left == hl' && c2.right == x.left && c2.red;
      var c := MoveRedLeft(t);
      assert c.left == Toggle(c2) && c.right == Toggle(c1) && c.red;
      assert LLRB(c.left) && LLRB(c.right);
    } else {
      assert f.right == Toggle(hr) && LLRB(f.right);
    }
  }

  /** del_min on a 2-3 tree whose root or left child is red: the result is a 2-3 tree of
      the same black height, black when the root was black. */
  lemma {:induction false} DelMinShape<V>(t: Node<V>)
    requires t.Node? && LLRB(t) && (IsRed(t) || IsRed(t.left))
    ensures LLRB(DelMin(t)) && BlackHeight(DelMin(t)) == BlackHeight(t)
    ensures !IsRed(t) ==> !IsRed(DelMin(t))
    decreases |InOrder(t)|
  {
    if t.left.Node? {
      var c := if !IsRed(t.left) && !LeftLeftRed(t) then MoveRedLeft(t) else t;
      if !IsRed(t.left) && !LeftLeftRed(t) {
        MoveRedLeftShape(t);
      }
      DelMinShape(c.left);
      FixUpDel(c.(left := DelMin(c.left)));
    }
  }

  /** del_min's step: fix_up over a node whose left subtree lost its first entry. */
  lemma DelMinStep<V>(c: Node<V>)
    requires c.Node? && c.left.Node? && InOrder(DelMin(c.left)) == InOrder(c.left)[1..]
    ensures InOrder(FixUp(c.(left := DelMin(c.left)))) == InOrder(c)[1..]
  {
    var u := c.(left := DelMin(c.left));
    var a, x, b := InOrder(c.left), [Interval(c.lo, c.hi, c.val)], InOrder(c.right);
    assert InOrder(FixUp(u)) == InOrder(u) == a[1..] + x + b;
    assert |a| > 0;
    TailOfJoin(a, x, b);
  }

  lemma TailOfJoin<T>(a: seq<T>, x: seq<T>, b: seq<T>)
    requires |a| > 0
    ensures (a + x + b)[1..] == a[1..] + x + b
  {
  }

  /** On the same trees, del_min removes exactly the first entry in order. */
  lemma {:induction false} DelMinContents<V>(t: Node<V>)
    requires t.Node? && LLRB(t) && (IsRed(t) || IsRed(t.left))
    ensures InOrder(DelMin(t)) == InOrder(t)[1..]
    decreases |InOrder(t)|
  {
    if t.left.Nil? {
      assert t.right.Nil?;
    } else if !IsRed(t.left) && !LeftLeftRed(t) {
      var c := MoveRedLeft(t);
      MoveRedLeftShape(t);
      DelMinContents(c.left);
      DelMinStep(c);
    } else {
      DelMinContents(t.left);
      DelMinStep(t);
    }
  }

  /** A black node with a black left child and a red right child: the state move_red_right
      can hand to del for its right subtree. */
  ghost predicate RightRedPair<V>(t: Node<V>) {
    t.Node? && !t.red && LLRB(t.left) && !IsRed(t.left) && LLRB(t.right) && IsRed(t.right) &&
    BlackHeight(t.left) == BlackHeight(t.right)
  }

  /** The shapes del accepts: a 2-3 tree whose root or left child is red, or a
      RightRedPair when the key lies at or to the right of the root. */
  ghost predicate DelReady<V>(t: Node<V>, lo: int) {
    t.Node? && ((LLRB(t) && (IsRed(t) || IsRed(t.left))) || (RightRedPair(t) && lo >= t.lo))
  }

  lemma MoveRedRightShape<V>(t: Node<V>)
    requires t.Node? && t.red && LLRB(t) && t.left.Node? && t.right.Node? && !RightLeftRed(t)
    ensures var d := MoveRedRight(t);
      LLRB(d.left) && BlackHeight(d.left) == BlackHeight(d.right) && BlackHeight(d) == BlackHeight(t) &&
      (LeftLeftRed(t) ==>
        d.red && !IsRed(d.left) && RightRedPair(d.right) && d.right.lo == t.lo &&
        |FromNode(t)| <= |InOrder(d.right)| &&
        InOrder(d.right)[|InOrder(d.right)| - |FromNode(t)|..] == FromNode(t)) &&
      (!LeftLeftRed(t) ==>
        !d.red && IsRed(d.left) && IsRed(d.right) && LLRB(d.right) && d.lo == t.lo && d.hi == t.hi)
  {
    if LeftLeftRed(t) {
      MoveRedRightRotated(t);
    } else {
      var f := FlipColours(t);
      assert LLRB(t.left) && LLRB(t.right);
      assert f.right == Toggle(t.right);
    }
  }

  lemma MoveRedRightRotated<V>(t: Node<V>)
    requires t.Node? && t.red && LLRB(t) && t.left.Node? && t.right.Node? && !RightLeftRed(t)
    requires LeftLeftRed(t)
    ensures var d := MoveRedRight(t);
      LLRB(d.left) && BlackHeight(d.left) == BlackHeight(d.right) && BlackHeight(d) == BlackHeight(t) &&
      d.red && !IsRed(d.left) && RightRedPair(d.right) && d.right.lo == t.lo &&
      |FromNode(t)| <= |InOrder(d.right)| &&
      InOrder(d.right)[|InOrder(d.right)| - |FromNode(t)|..] == FromNode(t)
  {
    var f := FlipColours(t);
    assert LLRB(t.left) && LLRB(t.right);
    var hl := f.left;
    assert LLRB(t.left.left);
    var c := MoveRedRight(t).right;
    assert c.left == hl.right && c.right == f.right && !c.red;
    assert InOrder(c) == InOrder(hl.right) + FromNode(t);
  }

  lemma KeyLeftOf<V>(t: Node<V>, lo: int, hi: int)
    requires t.Node? && StrictLo(InOrder(t)) && Lookup(InOrder(t.left), lo, hi).Some?
    ensures lo < t.lo
  {
    StrictSplit(t);
    LookupMeaning(InOrder(t.left), lo, hi);
  }

  lemma {:induction false} DelShape<V>(t: Node<V>, lo: int, hi: int)
    requires t.Node? && StrictLo(InOrder(t)) && Lookup(InOrder(t), lo, hi).Some? && DelReady(t, lo)
    ensures LLRB(Del(t, lo, hi)) && BlackHeight(Del(t, lo, hi)) == BlackHeight(t)
    ensures !IsRed(t) ==> !IsRed(Del(t, lo, hi))
    decreases |InOrder(t)|, 4
  {
    KeyPlace(t, lo, hi);
    if lo < t.lo {
      var c := if !IsRed(t.left) && !LeftLeftRed(t) then MoveRedLeft(t) else t;
      if !IsRed(t.left) && !LeftLeftRed(t) {
        MoveRedLeftShape(t);
      }
      LookupPrefix(InOrder(t.left), InOrder(c.left), lo, hi);
      StrictSplit(c);
      DelShape(c.left, lo, hi);
      FixUpDel(c.(left := Del(c.left, lo, hi)));
    } else {
      DelShapeRight(t, lo, hi);
    }
  }

  lemma {:induction false} DelShapeRight<V>(t: Node<V>, lo: int, hi: int)
    requires t.Node? && StrictLo(InOrder(t)) && Lookup(InOrder(t), lo, hi).Some? && DelReady(t, lo)
    requires lo >= t.lo
    ensures LLRB(Del(t, lo, hi)) && BlackHeight(Del(t, lo, hi)) == BlackHeight(t)
    ensures !IsRed(t) ==> !IsRed(Del(t, lo, hi))
    decreases |InOrder(t)|, 3
  {
    KeyPlace(t, lo, hi);
    if IsRed(t.left) {
      var c := RotateRight(t);
      assert |FromNode(t)| <= |FromNode(c)| && FromNode(c)[|FromNode(c)| - |FromNode(t)|..] == FromNode(t);
      LookupSuffix(FromNode(t), FromNode(c), lo, hi);
      assert LLRB(t.left);
      assert LLRB(c.left) && !IsRed(c.left) && IsRed(c.right) && LLRB(c.right) && !c.red;
      assert Del(t, lo, hi) == DelHere(c, lo, hi);
      DelHereShape(c, lo, hi);
    } else {
      DelShapeRightUnrotated(t, lo, hi);
    }
  }

  lemma {:induction false} DelShapeRightUnrotated<V>(t: Node<V>, lo: int, hi: int)
    requires t.Node? && StrictLo(InOrder(t)) && Lookup(InOrder(t), lo, hi).Some? && DelReady(t, lo)
    requires lo >= t.lo && !IsRed(t.left)
    ensures LLRB(Del(t, lo, hi)) && BlackHeight(Del(t, lo, hi)) == BlackHeight(t)
    ensures !IsRed(t) ==> !IsRed(Del(t, lo, hi))
    decreases |InOrder(t)|, 2
  {
    KeyPlace(t, lo, hi);
    if !(lo == t.lo && hi == t.hi && t.right.Nil?) {
      if !IsRed(t.right) && !RightLeftRed(t) {
        DelShapeMovedRight(t, lo, hi);
      } else {
        assert Del(t, lo, hi) == DelHere(t, lo, hi);
        DelHereShape(t, lo, hi);
      }
    }
  }

  lemma {:induction false} DelShapeMovedRight<V>(t: Node<V>, lo: int, hi: int)
    requires t.Node? && StrictLo(InOrder(t)) && Lookup(InOrder(t), lo, hi).Some? && DelReady(t, lo)
    requires lo >= t.lo && !IsRed(t.left) && t.right.Node? && !IsRed(t.right) && !RightLeftRed(t)
    ensures LLRB(Del(t, lo, hi)) && BlackHeight(Del(t, lo, hi)) == BlackHeight(t)
    decreases |InOrder(t)|, 1
  {
    var d := MoveRedRight(t);
    DelMovedRight(t, lo, hi);
    MovedRightReady(t, lo, hi);
    DelHereShape(d, lo, hi);
  }

  /** With a black left child and a right child that is neither red nor has a red left
      child, del moves red right and finishes in DelHere. */
  lemma DelMovedRight<V>(t: Node<V>, lo: int, hi: int)
    requires t.Node? && StrictLo(InOrder(t)) && Lookup(InOrder(t), lo, hi).Some?
    requires lo >= t.lo && !IsRed(t.left) && t.right.Node? && !IsRed(t.right) && !RightLeftRed(t)
    ensures var d := MoveRedRight(t);
      StrictLo(InOrder(d)) && Lookup(FromNode(d), lo, hi).Some? && (lo == d.lo && hi == d.hi ==> d.right.Node?) &&
      Del(t, lo, hi) == DelHere(d, lo, hi)
  {
    DelUnrotated(t, lo, hi);
  }

  /** The shapes DelHere meets: 2-3 on the left, equal black heights, and on the right a
      red child, a black one with a red left child under a red node, or (below a red node,
      when the key is further right) a RightRedPair. */
  ghost predicate DelHereReady<V>(d: Node<V>, lo: int, hi: int) {
    d.Node? && LLRB(d.left) && BlackHeight(d.left) == BlackHeight(d.right) &&
    ((!d.red && IsRed(d.right) && LLRB(d.right)) ||
     (d.red && !IsRed(d.left) && LLRB(d.right) && d.right.Node? && !IsRed(d.right) && IsRed(d.right.left)) ||
     (d.red && !IsRed(d.left) && RightRedPair(d.right) && lo > d.lo && lo >= d.right.lo))
  }

  lemma {:induction false} DelHereShape<V>(d: Node<V>, lo: int, hi: int)
    requires d.Node? && StrictLo(InOrder(d)) && Lookup(FromNode(d), lo, hi).Some?
    requires lo == d.lo && hi == d.hi ==> d.right.Node?
    requires DelHereReady(d, lo, hi)
    ensures LLRB(DelHere(d, lo, hi)) && BlackHeight(DelHere(d, lo, hi)) == BlackHeight(d)
    ensures !d.red && !IsRed(d.left) ==> !IsRed(DelHere(d, lo, hi))
    decreases |InOrder(d)|, 0
  {
    assert FromNode(d)[1..] == InOrder(d.right);
    StrictSplit(d);
    if lo == d.lo && hi == d.hi {
      var m := Leftmost(d.right);
      DelMinShape(d.right);
      FixUpDel(d.(lo := m.lo, hi := m.hi, val := m.val, right := DelMin(d.right)));
    } else {
      DelShape(d.right, lo, hi);
      FixUpDel(d.(right := Del(d.right, lo, hi)));
    }
  }

  /** The part of del after the key is found to be at or right of a node whose left
      link is black. */
  lemma DelUnrotatedReady<V>(t: Node<V>, lo: int, hi: int)
    requires t.Node? && StrictLo(InOrder(t)) && Lookup(InOrder(t), lo, hi).Some?
    requires lo >= t.lo && t.right.Node?
    ensures var d := if !IsRed(t.right) && !RightLeftRed(t) then MoveRedRight(t) else t;
      Lookup(FromNode(d), lo, hi).Some? && (lo == d.lo && hi == d.hi ==> d.right.Node?) &&
      StrictLo(InOrder(d))
  {
    KeyPlaceRight(t, lo, hi);
    MovedReady(t, lo, hi);
  }

  lemma DelUnrotated<V>(t: Node<V>, lo: int, hi: int)
    requires t.Node? && StrictLo(InOrder(t)) && Lookup(InOrder(t), lo, hi).Some?
    requires lo >= t.lo && !IsRed(t.left) && t.right.Node?
    ensures var d := if !IsRed(t.right) && !RightLeftRed(t) then MoveRedRight(t) else t;
      Lookup(FromNode(d), lo, hi).Some? && (lo == d.lo && hi == d.hi ==> d.right.Node?) &&
      StrictLo(InOrder(d)) && Del(t, lo, hi) == DelHere(d, lo, hi)
  {
    DelUnrotatedReady(t, lo, hi);
  }

  lemma SuccessorJoin<T>(l: seq<T>, r: seq<T>)
    requires |r| > 0
    ensures l + [r[0]] + r[1..] == l + r
  {
    assert [r[0]] + r[1..] == r;
  }

  // ---------------------------------------------------------------------------
  // Deletion removes exactly the key and keeps the augmentation

  lemma DelSeqLeft<V>(l: seq<Interval<V>>, x: Interval<V>, r: seq<Interval<V>>, lo: int)
    requires LoAbove(r, x.lo) && lo < x.lo
    ensures DelSeq(l + [x] + r, lo) == DelSeq(l, lo) + [x] + r
  {
    FiltersJoin(l, x, r, lo);
    FiltersOfLarger(r, lo);
    var bl, al := Below(l, lo), Above(l, lo);
    SeqFacts.Unit(bl);
    SeqFacts.Regroup(bl, al + [x], r);
    SeqFacts.Regroup(bl, al, [x]);
  }

  lemma DelSeqRight<V>(l: seq<Interval<V>>, x: Interval<V>, r: seq<Interval<V>>, lo: int)
    requires LoBelow(l, x.lo) && lo > x.lo
    ensures DelSeq(l + [x] + r, lo) == l + [x] + DelSeq(r, lo)
  {
    FiltersJoin(l, x, r, lo);
    FiltersOfSmaller(l, lo);
    var br, ar := Below(r, lo), Above(r, lo);
    SeqFacts.Unit<Interval<V>>([]);
    SeqFacts.Unit(ar);
    SeqFacts.Regroup(l + [x], br, ar);
  }

  lemma DelSeqHere<V>(l: seq<Interval<V>>, x: Interval<V>, r: seq<Interval<V>>)
    requires LoBelow(l, x.lo) && LoAbove(r, x.lo)
    ensures DelSeq(l + [x] + r, x.lo) == l + r
  {
    FiltersJoin(l, x, r, x.lo);
    FiltersOfSmaller(l, x.lo);
    FiltersOfLarger(r, x.lo);
    SeqFacts.Unit(l);
    SeqFacts.Unit<Interval<V>>([]);
    SeqFacts.Unit(r);
  }

  /** del on a tree it accepts removes exactly the entries keyed on `lo`: the one
      stored interval [lo, hi]. */
  lemma {:induction false} DelContents<V>(t: Node<V>, lo: int, hi: int)
    requires t.Node? && StrictLo(InOrder(t)) && Lookup(InOrder(t), lo, hi).Some? && DelReady(t, lo)
    ensures InOrder(Del(t, lo, hi)) == DelSeq(InOrder(t), lo)
    decreases |InOrder(t)|, 4
  {
    KeyPlace(t, lo, hi);
    if lo < t.lo {
      var c := if !IsRed(t.left) && !LeftLeftRed(t) then MoveRedLeft(t) else t;
      if !IsRed(t.left) && !LeftLeftRed(t) {
        MoveRedLeftShape(t);
      }
      LookupPrefix(InOrder(t.left), InOrder(c.left), lo, hi);
      StrictSplit(c);
      KeyLeftOf(c, lo, hi);
      DelContents(c.left, lo, hi);
      DelSeqLeft(InOrder(c.left), Interval(c.lo, c.hi, c.val), InOrder(c.right), lo);
    } else {
      DelContentsRight(t, lo, hi);
    }
  }

  lemma {:induction false} DelContentsRight<V>(t: Node<V>, lo: int, hi: int)
    requires t.Node? && StrictLo(InOrder(t)) && Lookup(InOrder(t), lo, hi).Some? && DelReady(t, lo)
    requires lo >= t.lo
    ensures InOrder(Del(t, lo, hi)) == DelSeq(InOrder(t), lo)
    decreases |InOrder(t)|, 3
  {
    if IsRed(t.left) {
      DelContentsRotated(t, lo, hi);
    } else if lo == t.lo && hi == t.hi && t.right.Nil? {
      KeyPlace(t, lo, hi);
      assert t.left.Nil?;
      DelSeqHere([], Interval(t.lo, t.hi, t.val), []);
      assert InOrder(t) == [] + [Interval(t.lo, t.hi, t.val)] + [];
    } else if !IsRed(t.right) && !RightLeftRed(t) {
      DelContentsMovedRight(t, lo, hi);
    } else {
      KeyPlace(t, lo, hi);
      assert Del(t, lo, hi) == DelHere(t, lo, hi);
      DelHereContents(t, lo, hi);
    }
  }

  lemma {:induction false} DelContentsRotated<V>(t: Node<V>, lo: int, hi: int)
    requires t.Node? && StrictLo(InOrder(t)) && Lookup(InOrder(t), lo, hi).Some? && DelReady(t, lo)
    requires lo >= t.lo && IsRed(t.left)
    ensures InOrder(Del(t, lo, hi)) == DelSeq(InOrder(t), lo)
    decreases |InOrder(t)|, 2
  {
    KeyPlace(t, lo, hi);
    var c := RotateRight(t);
    assert |FromNode(t)| <= |FromNode(c)| && FromNode(c)[|FromNode(c)| - |FromNode(t)|..] == FromNode(t);
    LookupSuffix(FromNode(t), FromNode(c), lo, hi);
    assert LLRB(t.left);
    assert LLRB(c.left) && !IsRed(c.left) && IsRed(c.right) && LLRB(c.right) && !c.red;
    assert Del(t, lo, hi) == DelHere(c, lo, hi);
    DelHereContents(c, lo, hi);
  }

  lemma {:induction false} DelContentsMovedRight<V>(t: Node<V>, lo: int, hi: int)
    requires t.Node? && StrictLo(InOrder(t)) && Lookup(InOrder(t), lo, hi).Some? && DelReady(t, lo)
    requires lo >= t.lo && !IsRed(t.left) && t.right.Node? && !IsRed(t.right) && !RightLeftRed(t)
    ensures InOrder(Del(t, lo, hi)) == DelSeq(InOrder(t), lo)
    decreases |InOrder(t)|, 1
  {
    var d := MoveRedRight(t);
    DelUnrotated(t, lo, hi);
    MovedRightReady(t, lo, hi);
    DelHereContents(d, lo, hi);
  }

  /** After move_red_right the node meets DelHere's shape requirement. */
  lemma MovedRightReady<V>(t: Node<V>, lo: int, hi: int)
    requires t.Node? && StrictLo(InOrder(t)) && Lookup(InOrder(t), lo, hi).Some? && DelReady(t, lo)
    requires lo >= t.lo && !IsRed(t.left) && t.right.Node? && !IsRed(t.right) && !RightLeftRed(t)
    ensures DelHereReady(MoveRedRight(t), lo, hi)
  {
    MoveRedRightShape(t);
    if LeftLeftRed(t) {
      MovedRightKey(t, lo, hi);
    }
  }

  /** When move_red_right rotates, the key ends up right of the new node. */
  lemma MovedRightKey<V>(t: Node<V>, lo: int, hi: int)
    requires t.Node? && StrictLo(InOrder(t)) && lo >= t.lo && LeftLeftRed(t)
    ensures lo > MoveRedRight(t).lo
  {
    StrictSplit(t);
    var l := t.left;
    assert InOrder(l)[|InOrder(l.left)|] == Interval(l.lo, l.hi, l.val);
    assert MoveRedRight(t).lo == l.lo;
  }

  lemma {:induction false} DelHereContents<V>(d: Node<V>, lo: int, hi: int)
    requires d.Node? && StrictLo(InOrder(d)) && Lookup(FromNode(d), lo, hi).Some?
    requires lo == d.lo && hi == d.hi ==> d.right.Node?
    requires DelHereReady(d, lo, hi)
    ensures InOrder(DelHere(d, lo, hi)) == DelSeq(InOrder(d), lo)
    decreases |InOrder(d)|, 0
  {
    if lo == d.lo && hi == d.hi {
      DelHereSuccessor(d);
    } else {
      assert FromNode(d)[1..] == InOrder(d.right);
      StrictSplit(d);
      var l, x, r := InOrder(d.left), Interval(d.lo, d.hi, d.val), InOrder(d.right);
      assert Lookup(r, lo, hi).Some?;
      KeyRightOf(d, lo, hi);
      assert DelReady(d.right, lo);
      DelContents(d.right, lo, hi);
      var e := d.(right := Del(d.right, lo, hi));
      assert InOrder(DelHere(d, lo, hi)) == InOrder(e) == l + [x] + DelSeq(r, lo);
      DelSeqRight(l, x, r, lo);
    }
  }

  /** The node holding the key is replaced by its successor, which del_min removes
      from the right subtree. */
  lemma DelHereSuccessor<V>(d: Node<V>)
    requires d.Node? && StrictLo(InOrder(d)) && d.right.Node?
    requires LLRB(d.right) && (IsRed(d.right) || IsRed(d.right.left))
    ensures InOrder(DelHere(d, d.lo, d.hi)) == DelSeq(InOrder(d), d.lo)
  {
    var l, x, r := InOrder(d.left), Interval(d.lo, d.hi, d.val), InOrder(d.right);
    var m := Leftmost(d.right);
    var e := d.(lo := m.lo, hi := m.hi, val := m.val, right := DelMin(d.right));
    assert DelHere(d, d.lo, d.hi) == FixUp(e);
    DelMinContents(d.right);
    assert InOrder(e) == l + [Interval(m.lo, m.hi, m.val)] + r[1..];
    SuccessorJoin(l, r);
    StrictSplit(d);
    DelSeqHere(l, x, r);
  }

  lemma MoveRedLeftAugmented<V>(t: Node<V>)
    requires t.Node? && Augmented(t.left) && Augmented(t.right)
    ensures Augmented(MoveRedLeft(t).left) && Augmented(MoveRedLeft(t).right)
  {
    var f := FlipColours(t);
    if RightLeftRed(f) {
      var g := f.(right := RotateRight(f.right));
      assert Augmented(g.left) && Augmented(g.right.left) && Augmented(g.right.right);
      var r := RotateLeft(g);
      assert Augmented(r.left) && Augmented(r.right);
    }
  }

  lemma MoveRedRightAugmented<V>(t: Node<V>)
    requires t.Node? && Augmented(t.left) && Augmented(t.right)
    ensures Augmented(MoveRedRight(t).left) && Augmented(MoveRedRight(t).right)
  {
    var f := FlipColours(t);
    ToggleAugmented(t.left);
    ToggleAugmented(t.right);
    if LeftLeftRed(f) {
      var g := RotateRight(f);
      RotateRightAugmented(f);
      ToggleAugmented(g.left);
      ToggleAugmented(g.right);
      assert MoveRedRight(t) == FlipColours(g);
    } else {
      assert MoveRedRight(t) == f;
    }
  }

  /** A colour change keeps the augmentation. */
  lemma ToggleAugmented<V>(t: Node<V>)
    ensures Augmented(Toggle(t)) == Augmented(t)
  {
  }

  lemma {:induction false} DelMinAugmented<V>(t: Node<V>)
    requires t.Node? && Augmented(t.left) && Augmented(t.right)
    ensures Augmented(DelMin(t))
    decreases |InOrder(t)|
  {
    if t.left.Node? {
      var c := if !IsRed(t.left) && !LeftLeftRed(t) then MoveRedLeft(t) else t;
      MoveRedLeftAugmented(t);
      DelMinAugmented(c.left);
      FixUpAugmented(c.(left := DelMin(c.left)));
    }
  }

  lemma {:induction false} DelAugmented<V>(t: Node<V>, lo: int, hi: int)
    requires t.Node? && StrictLo(InOrder(t)) && Lookup(InOrder(t), lo, hi).Some?
    requires Augmented(t.left) && Augmented(t.right)
    ensures Augmented(Del(t, lo, hi))
    decreases |InOrder(t)|, 3
  {
    KeyPlace(t, lo, hi);
    if lo < t.lo {
      var c := if !IsRed(t.left) && !LeftLeftRed(t) then MoveRedLeft(t) else t;
      MoveRedLeftAugmented(t);
      LookupPrefix(InOrder(t.left), InOrder(c.left), lo, hi);
      StrictSplit(c);
      DelAugmented(c.left, lo, hi);
      FixUpAugmented(c.(left := Del(c.left, lo, hi)));
    } else {
      DelAugmentedRight(t, lo, hi);
    }
  }

  lemma {:induction false} DelAugmentedRight<V>(t: Node<V>, lo: int, hi: int)
    requires t.Node? && StrictLo(InOrder(t)) && Lookup(InOrder(t), lo, hi).Some? && lo >= t.lo
    requires Augmented(t.left) && Augmented(t.right)
    ensures Augmented(Del(t, lo, hi))
    decreases |InOrder(t)|, 2
  {
    if IsRed(t.left) {
      DelAugmentedRotated(t, lo, hi);
    } else if t.right.Node? {
      DelAugmentedMoved(t, lo, hi);
    } else {
      KeyPlaceRight(t, lo, hi);
    }
  }

  lemma {:induction false} DelAugmentedRotated<V>(t: Node<V>, lo: int, hi: int)
    requires t.Node? && StrictLo(InOrder(t)) && Lookup(InOrder(t), lo, hi).Some? && lo >= t.lo
    requires Augmented(t.left) && Augmented(t.right) && IsRed(t.left)
    ensures Augmented(Del(t, lo, hi))
    decreases |InOrder(t)|, 1
  {
    var c := RotateRight(t);
    RotatedReady(t, lo, hi);
    RotateRightAugmented(t);
    assert Del(t, lo, hi) == DelHere(c, lo, hi);
    DelHereAugmented(c, lo, hi);
  }

  lemma {:induction false} DelAugmentedMoved<V>(t: Node<V>, lo: int, hi: int)
    requires t.Node? && StrictLo(InOrder(t)) && Lookup(InOrder(t), lo, hi).Some? && lo >= t.lo
    requires Augmented(t.left) && Augmented(t.right) && !IsRed(t.left) && t.right.Node?
    ensures Augmented(Del(t, lo, hi))
    decreases |InOrder(t)|, 1
  {
    var d := if !IsRed(t.right) && !RightLeftRed(t) then MoveRedRight(t) else t;
    KeyPlaceRight(t, lo, hi);
    MoveRedRightAugmented(t);
    DelUnrotated(t, lo, hi);
    DelHereAugmented(d, lo, hi);
  }

  lemma {:induction false} DelHereAugmented<V>(d: Node<V>, lo: int, hi: int)
    requires d.Node? && StrictLo(InOrder(d)) && Lookup(FromNode(d), lo, hi).Some?
    requires lo == d.lo && hi == d.hi ==> d.right.Node?
    requires Augmented(d.left) && Augmented(d.right)
    ensures Augmented(DelHere(d, lo, hi))
    decreases |InOrder(d)|, 0
  {
    assert FromNode(d)[1..] == InOrder(d.right);
    StrictSplit(d);
    if lo == d.lo && hi == d.hi {
      var m := Leftmost(d.right);
      DelMinAugmented(d.right);
      FixUpAugmented(d.(lo := m.lo, hi := m.hi, val := m.val, right := DelMin(d.right)));
    } else {
      assert Lookup(InOrder(d.right), lo, hi).Some?;
      DelAugmented(d.right, lo, hi);
      FixUpAugmented(d.(right := Del(d.right, lo, hi)));
    }
  }

  // ---------------------------------------------------------------------------
  // The map behind the tree: put and delete on the in-order sequence

  lemma {:induction false} LookupFilters<V>(s: seq<Interval<V>>, k: int, lo: int, hi: int)
    ensures Lookup(Below(s, k), lo, hi) == if lo < k then Lookup(s, lo, hi) else None
    ensures Lookup(Above(s, k), lo, hi) == if lo > k then Lookup(s, lo, hi) else None
  {
    if s != [] {
      LookupFilters(s[1..], k, lo, hi);
      var x := [s[0]];
      assert x[1..] == [];
      LookupAppend(if s[0].lo < k then x else [], Below(s[1..], k), lo, hi);
      LookupAppend(if s[0].lo > k then x else [], Above(s[1..], k), lo, hi);
    }
  }

  /** After put(lo, hi, val) the key [lo, hi] maps to val, no other interval starting at
      `lo` is stored, and every other key keeps its value. */
  lemma PutLookup<V>(s: seq<Interval<V>>, lo: int, hi: int, val: V, lo': int, hi': int)
    ensures Lookup(PutSeq(s, lo, hi, val), lo', hi') ==
      if lo' == lo then (if hi' == hi then Some(val) else None) else Lookup(s, lo', hi')
  {
    var e := [Interval(lo, hi, val)];
    assert e[1..] == [];
    LookupFilters(s, lo, lo', hi');
    LookupAppend(Below(s, lo) + e, Above(s, lo), lo', hi');
    LookupAppend(Below(s, lo), e, lo', hi');
  }

  /** After deleting the key on `lo`, nothing starting at `lo` is stored and every other
      key keeps its value. */
  lemma DelLookup<V>(s: seq<Interval<V>>, lo: int, lo': int, hi': int)
    ensures Lookup(DelSeq(s, lo), lo', hi') == if lo' == lo then None else Lookup(s, lo', hi')
  {
    LookupFilters(s, lo, lo', hi');
    LookupAppend(Below(s, lo), Above(s, lo), lo', hi');
  }

  /** put and delete keep the `lo` values distinct. */
  lemma PutDelStrict<V>(s: seq<Interval<V>>, lo: int, hi: int, val: V)
    requires StrictLo(s)
    ensures StrictLo(PutSeq(s, lo, hi, val)) && StrictLo(DelSeq(s, lo))
  {
    FilterStrict(s, lo);
    FilterBounds(s, lo, lo);
    StrictJoin(Below(s, lo), Interval(lo, hi, val), Above(s, lo));
    var b: seq<Interval<V>>, a: seq<Interval<V>> := Below(s, lo), Above(s, lo);
    forall i, j | 0 <= i < j < |b + a| ensures (b + a)[i].lo < (b + a)[j].lo {
      if j < |b| {
        assert (b + a)[i] == b[i] && (b + a)[j] == b[j];
      } else if i >= |b| {
        assert (b + a)[i] == a[i - |b|] && (b + a)[j] == a[j - |b|];
      } else {
        assert (b + a)[i] == b[i] && (b + a)[j] == a[j - |b|];
      }
    }
  }

  lemma {:induction false} FiltersKeep<V>(s: seq<Interval<V>>, k: int)
    ensures forall e :: e in Below(s, k) <==> e in s && e.lo < k
    ensures forall e :: e in Above(s, k) <==> e in s && e.lo > k
  {
    if s != [] {
      FiltersKeep(s[1..], k);
      assert s == [s[0]] + s[1..];
    }
  }

  /** put stores the new interval in place of every entry starting at `lo` and keeps the
      rest; delete keeps exactly the entries not starting at `lo`. */
  lemma PutDelEntries<V>(s: seq<Interval<V>>, lo: int, hi: int, val: V)
    ensures forall e :: e in PutSeq(s, lo, hi, val) <==> e == Interval(lo, hi, val) || (e in s && e.lo != lo)
    ensures forall e :: e in DelSeq(s, lo) <==> e in s && e.lo != lo
  {
    FiltersKeep(s, lo);
  }

  /** Re-putting a stored key only overwrites its value, in place. */
  lemma PutOverwrites<V>(s: seq<Interval<V>>, i: int, val: V)
    requires StrictLo(s) && 0 <= i < |s|
    ensures PutSeq(s, s[i].lo, s[i].hi, val) == s[i := Interval(s[i].lo, s[i].hi, val)]
  {
    var a, x, b := s[..i], s[i], s[i + 1..];
    assert s == a + [x] + b;
    StrictParts(a, x, b);
    PutSeqHere(a, x, b, x.lo, x.hi, val);
    assert a + [Interval(x.lo, x.hi, val)] + b == s[i := Interval(x.lo, x.hi, val)];
  }

  // ---------------------------------------------------------------------------
  // What the augmentation means

  /** With sizes maintained, `size` is the number of stored intervals. */
  lemma {:induction false} SizeCounts<V>(t: Node<V>)
    requires Augmented(t)
    ensures SizeOf(t) == |InOrder(t)|
  {
    if t.Node? {
      SizeCounts(t.left);
      SizeCounts(t.right);
    }
  }

  /** With tree_hi maintained, a node's `treeHi` is the largest `hi` stored below it. */
  lemma {:induction false} TreeHiIsMax<V>(t: Node<V>)
    requires t.Node? && Augmented(t)
    ensures forall i :: 0 <= i < |InOrder(t)| ==> InOrder(t)[i].hi <= t.treeHi
    ensures exists i :: 0 <= i < |InOrder(t)| && InOrder(t)[i].hi == t.treeHi
  {
    var l, x, r := InOrder(t.left), Interval(t.lo, t.hi, t.val), InOrder(t.right);
    var s := InOrder(t);
    assert s == l + [x] + r;
    if t.left.Node? { TreeHiIsMax(t.left); }
    if t.right.Node? { TreeHiIsMax(t.right); }
    forall i | 0 <= i < |s| ensures s[i].hi <= t.treeHi {
      if i < |l| { assert s[i] == l[i]; }
      else if i > |l| { assert s[i] == r[i - |l| - 1]; }
    }
    if t.treeHi == t.hi {
      assert s[|l|] == x;
    } else if t.right.Node? && t.treeHi == t.right.treeHi {
      var j :| 0 <= j < |r| && r[j].hi == t.right.treeHi;
      assert s[|l| + 1 + j] == r[j];
    } else {
      var j :| 0 <= j < |l| && l[j].hi == t.left.treeHi;
      assert s[j] == l[j];
    }
  }

  /** rotate_left gives the new root a size larger than its subtree by the size of the
      old right child's right subtree plus one; fix_up, which follows every rotation
      that reaches the caller, recomputes it (FixUpAugmented). */
  lemma RotateLeftStaleSize<V>(t: Node<V>)
    requires t.Node? && t.right.Node? && Augmented(t)
    ensures RotateLeft(t).size == |InOrder(t)| + 1 + |InOrder(t.right.right)|
  {
    SizeCounts(t);
    SizeCounts(t.right.right);
  }

  // ---------------------------------------------------------------------------
  // Queries: get, find_intersections, find_intersection

  /** get's descent as a function: stop on an exact [lo, hi] match, otherwise go left
      when `lo` is below the node's `lo` and right when it is not. */
  function Find<V>(t: Node<V>, lo: int, hi: int): Option<V> {
    if t.Nil? then None
    else if lo == t.lo && hi == t.hi then Some(t.val)
    else if lo < t.lo then Find(t.left, lo, hi)
    else Find(t.right, lo, hi)
  }

  /** Whatever get returns is stored under [lo, hi]. */
  lemma {:induction false} FindSound<V>(t: Node<V>, lo: int, hi: int)
    ensures Find(t, lo, hi).Some? ==> Interval(lo, hi, Find(t, lo, hi).value) in InOrder(t)
  {
    if t.Node? && !(lo == t.lo && hi == t.hi) {
      FindSound(t.left, lo, hi);
      FindSound(t.right, lo, hi);
    }
  }

  /** With distinct `lo` values get finds every stored key: it agrees with the map. */
  lemma {:induction false} FindComplete<V>(t: Node<V>, lo: int, hi: int)
    requires StrictLo(InOrder(t))
    ensures Find(t, lo, hi) == Lookup(InOrder(t), lo, hi)
  {
    if t.Node? {
      var l, x, r := InOrder(t.left), Interval(t.lo, t.hi, t.val), InOrder(t.right);
      StrictSplit(t);
      LookupAppend(l, [x] + r, lo, hi);
      assert InOrder(t) == l + ([x] + r);
      assert ([x] + r)[1..] == r;
      FindComplete(t.left, lo, hi);
      FindComplete(t.right, lo, hi);
      if lo < t.lo {
        LookupMissing(r, lo, hi);
      } else {
        LookupMissing(l, lo, hi);
      }
    }
  }

  /** Colour a non-sentinel root black, as put and del do after the recursive call. */
  function Blacken<V>(t: Node<V>): (r: Node<V>)
    ensures InOrder(r) == InOrder(t) && !IsRed(r)
  {
    if t.Node? then t.(red := false) else t
  }

  /** Without distinct `lo` values get can miss a stored key: put(5, 6) then put(5, 7)
      rotates [5, 6] into the left child of the new root [5, 7], but get(5, 6) goes right. */
  lemma EqualLoMissed()
    ensures var t1 := Blacken(Insert(Nil, 5, 6, 1));
      var t2 := Blacken(Insert(t1, 5, 7, 2));
      SortedLo(InOrder(t2)) && Lookup(InOrder(t2), 5, 6) == Some(1) && Find(t2, 5, 6) == None
  {
    var t1 := Blacken(Insert(Nil, 5, 6, 1));
    assert t1 == Node(5, 6, 6, 1, Nil, Nil, 1, false);
    var t2 := Blacken(Insert(t1, 5, 7, 2));
    assert t2.lo == 5 && t2.hi == 7 && t2.left.lo == 5 && t2.left.hi == 6 && t2.right.Nil?;
    assert InOrder(t2) == [Interval(5, 6, 1), Interval(5, 7, 2)];
  }

  /** Closed intervals overlap when each starts no later than the other ends. */
  predicate Overlaps<V>(e: Interval<V>, lo: int, hi: int) {
    e.lo <= hi && e.hi >= lo
  }

  /** The values of the entries of `s` that overlap [lo, hi], in the order of `s`. */
  function OverlapValues<V>(s: seq<Interval<V>>, lo: int, hi: int): seq<V> {
    if s == [] then []
    else (if Overlaps(s[0], lo, hi) then [s[0].val] else []) + OverlapValues(s[1..], lo, hi)
  }

  /** Node, then left subtree, then right subtree: the order find_intersections visits. */
  function PreOrder<V>(t: Node<V>): seq<Interval<V>> {
    if t.Nil? then [] else [Interval(t.lo, t.hi, t.val)] + PreOrder(t.left) + PreOrder(t.right)
  }

  /** Pre-order visits the same entries as in-order. */
  lemma {:induction false} PreOrderPermutes<V>(t: Node<V>)
    ensures multiset(PreOrder(t)) == multiset(InOrder(t))
  {
    if t.Node? {
      PreOrderPermutes(t.left);
      PreOrderPermutes(t.right);
    }
  }

  /** find_intersections: report the node if it overlaps; search the left subtree unless
      its treeHi is below `lo`; stop if the node starts after `hi`; otherwise search the
      right subtree unless its treeHi is below `lo`. */
  function Intersections<V>(t: Node<V>, lo: int, hi: int): seq<V>
    decreases t, 0
  {
    if t.Nil? then []
    else
      (if t.lo <= hi && t.hi >= lo then [t.val] else []) +
      Visit(t.left, lo, hi) +
      (if t.lo > hi then [] else Visit(t.right, lo, hi))
  }

  /** The guard on each recursive call: a child is searched only when it is not the
      sentinel and its treeHi reaches `lo`. */
  function Visit<V>(c: Node<V>, lo: int, hi: int): seq<V>
    decreases c, 1
  {
    if c.Node? && c.treeHi >= lo then Intersections(c, lo, hi) else []
  }

  lemma OverlapValuesCons<V>(x: Interval<V>, s: seq<Interval<V>>, lo: int, hi: int)
    ensures OverlapValues([x] + s, lo, hi) == (if Overlaps(x, lo, hi) then [x.val] else []) + OverlapValues(s, lo, hi)
  {
    assert ([x] + s)[1..] == s;
  }

  lemma {:induction false} OverlapValuesAppend<V>(a: seq<Interval<V>>, b: seq<Interval<V>>, lo: int, hi: int)
    ensures OverlapValues(a + b, lo, hi) == OverlapValues(a, lo, hi) + OverlapValues(b, lo, hi)
  {
    if a == [] {
      assert a + b == b;
    } else {
      var x, rest := a[0], a[1..];
      OverlapValuesAppend(rest, b, lo, hi);
      SeqFacts.HeadTail(a, b);
      OverlapValuesCons(x, rest + b, lo, hi);
      OverlapValuesCons(x, rest, lo, hi);
      SeqFacts.Regroup(if Overlaps(x, lo, hi) then [x.val] else [], OverlapValues(rest, lo, hi), OverlapValues(b, lo, hi));
    }
  }

  /** `v` is reported exactly when some entry holding `v` overlaps [lo, hi]. */
  lemma {:induction false} OverlapValuesMeaning<V>(s: seq<Interval<V>>, lo: int, hi: int, v: V)
    ensures v in OverlapValues(s, lo, hi) <==>
      exists i :: 0 <= i < |s| && Overlaps(s[i], lo, hi) && s[i].val == v
  {
    if s != [] {
      OverlapValuesMeaning(s[1..], lo, hi, v);
      if exists i :: 0 <= i < |s| && Overlaps(s[i], lo, hi) && s[i].val == v {
        var i :| 0 <= i < |s| && Overlaps(s[i], lo, hi) && s[i].val == v;
        if i > 0 { assert s[1..][i - 1] == s[i]; }
      }
      if exists i :: 0 <= i < |s[1..]| && Overlaps(s[1..][i], lo, hi) && s[1..][i].val == v {
        var i :| 0 <= i < |s[1..]| && Overlaps(s[1..][i], lo, hi) && s[1..][i].val == v;
        assert s[i + 1] == s[1..][i];
      }
    }
  }

  /** Reordering the entries reorders the reported values: pre-order and in-order report
      the same multiset. */
  lemma {:induction false} PreOrderReportsSame<V>(t: Node<V>, lo: int, hi: int)
    ensures multiset(OverlapValues(PreOrder(t), lo, hi)) == multiset(OverlapValues(InOrder(t), lo, hi))
  {
    if t.Node? {
      var x := [Interval(t.lo, t.hi, t.val)];
      PreOrderReportsSame(t.left, lo, hi);
      PreOrderReportsSame(t.right, lo, hi);
      OverlapValuesAppend(x + PreOrder(t.left), PreOrder(t.right), lo, hi);
      OverlapValuesAppend(x, PreOrder(t.left), lo, hi);
      OverlapValuesAppend(InOrder(t.left) + x, InOrder(t.right), lo, hi);
      OverlapValuesAppend(InOrder(t.left), x, lo, hi);
    }
  }

  /** A subtree whose treeHi is below `lo` holds nothing overlapping [lo, hi]. */
  lemma {:induction false} PrunedByTreeHi<V>(t: Node<V>, lo: int, hi: int)
    requires Augmented(t) && (t.Node? ==> t.treeHi < lo)
    ensures OverlapValues(PreOrder(t), lo, hi) == []
  {
    if t.Node? {
      var x := [Interval(t.lo, t.hi, t.val)];
      PrunedByTreeHi(t.left, lo, hi);
      PrunedByTreeHi(t.right, lo, hi);
      OverlapValuesAppend(x + PreOrder(t.left), PreOrder(t.right), lo, hi);
      OverlapValuesAppend(x, PreOrder(t.left), lo, hi);
      assert x[1..] == [];
    }
  }

  /** A subtree whose entries all start after `hi` holds nothing overlapping [lo, hi]. */
  lemma {:induction false} PrunedByLo<V>(t: Node<V>, b: int, lo: int, hi: int)
    requires LoAtLeast(InOrder(t), b) && b > hi
    ensures OverlapValues(PreOrder(t), lo, hi) == []
  {
    if t.Node? {
      var x := [Interval(t.lo, t.hi, t.val)];
      BoundsOfNode(t, b);
      PrunedByLo(t.left, b, lo, hi);
      PrunedByLo(t.right, b, lo, hi);
      OverlapValuesAppend(x + PreOrder(t.left), PreOrder(t.right), lo, hi);
      OverlapValuesAppend(x, PreOrder(t.left), lo, hi);
      assert x[1..] == [];
    }
  }

  /** The pruning of find_intersections loses nothing: it reports, in pre-order, the value
      of every stored interval that overlaps [lo, hi]. */
  lemma {:induction false} IntersectionsExact<V>(t: Node<V>, lo: int, hi: int)
    requires Augmented(t) && SortedLo(InOrder(t))
    ensures Intersections(t, lo, hi) == OverlapValues(PreOrder(t), lo, hi)
    decreases t, 0
  {
    if t.Node? {
      var x := [Interval(t.lo, t.hi, t.val)];
      assert x[1..] == [];
      SortedSplit(t);
      OverlapValuesAppend(x + PreOrder(t.left), PreOrder(t.right), lo, hi);
      OverlapValuesAppend(x, PreOrder(t.left), lo, hi);
      VisitExact(t.left, lo, hi);
      if t.lo > hi {
        PrunedByLo(t.right, t.lo, lo, hi);
      } else {
        VisitExact(t.right, lo, hi);
      }
    }
  }

  lemma {:induction false} VisitExact<V>(c: Node<V>, lo: int, hi: int)
    requires Augmented(c) && SortedLo(InOrder(c))
    ensures Visit(c, lo, hi) == OverlapValues(PreOrder(c), lo, hi)
    decreases c, 1
  {
    if c.Node? && c.treeHi >= lo {
      IntersectionsExact(c, lo, hi);
    } else {
      PrunedByTreeHi(c, lo, hi);
    }
  }

  ghost predicate AnyOverlap<V>(s: seq<Interval<V>>, lo: int, hi: int) {
    exists i :: 0 <= i < |s| && Overlaps(s[i], lo, hi)
  }

  /** find_intersection's step: when the node does not overlap, the subtree it moves to
      holds an overlapping interval whenever the node's subtree does. Going left past a
      left subtree whose treeHi reaches `lo` is safe because the interval attaining that
      treeHi, if it does not overlap, starts after `hi`, and so does everything to its right. */
  lemma FindIntersectionStep<V>(t: Node<V>, lo: int, hi: int)
    requires t.Node? && Augmented(t) && SortedLo(InOrder(t)) && !Overlaps(Interval(t.lo, t.hi, t.val), lo, hi)
    requires AnyOverlap(InOrder(t), lo, hi)
    ensures AnyOverlap(InOrder(if t.left.Nil? || t.left.treeHi < lo then t.right else t.left), lo, hi)
  {
    if t.left.Nil? || t.left.treeHi < lo {
      FindGoesRight(t, lo, hi);
    } else {
      FindGoesLeft(t, lo, hi);
    }
  }

  lemma FindGoesRight<V>(t: Node<V>, lo: int, hi: int)
    requires t.Node? && Augmented(t) && !Overlaps(Interval(t.lo, t.hi, t.val), lo, hi)
    requires AnyOverlap(InOrder(t), lo, hi) && (t.left.Nil? || t.left.treeHi < lo)
    ensures AnyOverlap(InOrder(t.right), lo, hi)
  {
    var l, x, r := InOrder(t.left), Interval(t.lo, t.hi, t.val), InOrder(t.right);
    var s := InOrder(t);
    assert s == l + [x] + r;
    var i :| 0 <= i < |s| && Overlaps(s[i], lo, hi);
    if t.left.Node? { TreeHiIsMax(t.left); }
    forall k | 0 <= k <= |l| ensures !Overlaps(s[k], lo, hi) {
      if k < |l| { assert s[k] == l[k]; } else { assert s[k] == x; }
    }
    assert s[i] == r[i - |l| - 1];
  }

  lemma FindGoesLeft<V>(t: Node<V>, lo: int, hi: int)
    requires t.Node? && Augmented(t) && SortedLo(InOrder(t)) && !Overlaps(Interval(t.lo, t.hi, t.val), lo, hi)
    requires AnyOverlap(InOrder(t), lo, hi) && t.left.Node? && t.left.treeHi >= lo
    ensures AnyOverlap(InOrder(t.left), lo, hi)
  {
    var l, x, r := InOrder(t.left), Interval(t.lo, t.hi, t.val), InOrder(t.right);
    var s := InOrder(t);
    assert s == l + [x] + r;
    SortedSplit(t);
    var i :| 0 <= i < |s| && Overlaps(s[i], lo, hi);
    TreeHiIsMax(t.left);
    var j :| 0 <= j < |l| && l[j].hi == t.left.treeHi;
    if !Overlaps(l[j], lo, hi) {
      forall k | |l| <= k < |s| ensures !Overlaps(s[k], lo, hi) {
        if k == |l| { assert s[k] == x; } else { assert s[k] == r[k - |l| - 1]; }
      }
      assert s[i] == l[i];
    }
  }

  lemma StrictIsSorted<V>(s: seq<Interval<V>>)
    requires StrictLo(s)
    ensures SortedLo(s)
  {
  }

  // ---------------------------------------------------------------------------
  // The tree object: a root that put and del replace

  class Tree<V> {
    var root: Node<V>

    /** A black root over a 2-3 shaped, augmented tree sorted on `lo`. */
    ghost predicate Valid()
      reads this
    {
      LLRB(root) && !IsRed(root) && Augmented(root) && SortedLo(InOrder(root))
    }

    /** An empty tree: the root is the sentinel. */
    constructor()
      ensures Valid() && InOrder(root) == []
    {
      root := Nil;
    }

    /** put: insert from the root, then colour the root black. With distinct `lo` values
        and `lo` new or stored with the same `hi`, the map gains or updates [lo, hi]. */
    method Put(lo: int, hi: int, val: V)
      modifies this
      requires Valid()
      ensures Valid() && root.Node? && !root.red
      ensures StrictLo(old(InOrder(root))) && CanPut(old(InOrder(root)), lo, hi) ==>
        InOrder(root) == PutSeq(old(InOrder(root)), lo, hi, val) && StrictLo(InOrder(root))
    {
      var r := Insert(root, lo, hi, val);
      InsertBalance(root, lo, hi, val);
      InsertAugmented(root, lo, hi, val);
      InsertSorted(root, lo, hi, val);
      if StrictLo(InOrder(root)) && CanPut(InOrder(root), lo, hi) {
        InsertContents(root, lo, hi, val);
        PutDelStrict(InOrder(root), lo, hi, val);
      }
      root := Blacken(r);
    }

    /** get: a loop down from the root. */
    method Get(lo: int, hi: int) returns (r: Option<V>)
      ensures r == Find(root, lo, hi)
      ensures r.Some? ==> Interval(lo, hi, r.value) in InOrder(root)
      ensures StrictLo(InOrder(root)) ==> r == Lookup(InOrder(root), lo, hi)
    {
      FindSound(root, lo, hi);
      if StrictLo(InOrder(root)) {
        FindComplete(root, lo, hi);
      }
      var current := root;
      while current.Node?
        invariant Find(current, lo, hi) == Find(root, lo, hi)
        decreases current
      {
        if lo == current.lo && hi == current.hi {
          return Some(current.val);
        }
        current := if lo < current.lo then current.left else current.right;
      }
      return None;
    }

    /** del (public): when get finds the key, redden a root with two black children, delete from
        the root and colour a remaining root black; otherwise change nothing. */
    method Delete(lo: int, hi: int)
      modifies this
      requires Valid() && StrictLo(InOrder(root))
      ensures Valid() && StrictLo(InOrder(root)) && (root.Node? ==> !root.red)
      ensures InOrder(root) ==
        if Lookup(old(InOrder(root)), lo, hi).Some? then DelSeq(old(InOrder(root)), lo) else old(InOrder(root))
    {
      var found := Get(lo, hi);
      if found.Some? {
        var t := root;
        if !IsRed(t.left) && !IsRed(t.right) {
          t := t.(red := true);
        }
        assert InOrder(t) == InOrder(root);
        DelShape(t, lo, hi);
        DelContents(t, lo, hi);
        DelAugmented(t, lo, hi);
        PutDelStrict(InOrder(t), lo, hi, found.value);
        var r := Del(t, lo, hi);
        StrictIsSorted(InOrder(r));
        root := Blacken(r);
      }
    }

    /** find_intersections from the root. */
    method FindIntersections(lo: int, hi: int) returns (r: seq<V>)
      requires Valid()
      ensures r == OverlapValues(PreOrder(root), lo, hi)
      ensures multiset(r) == multiset(OverlapValues(InOrder(root), lo, hi))
    {
      r := Intersections(root, lo, hi);
      IntersectionsExact(root, lo, hi);
      PreOrderReportsSame(root, lo, hi);
    }

    /** find_intersection: a loop down from the root that returns the first overlapping
        node it meets, going left whenever the left subtree's treeHi reaches `lo`. */
    method FindIntersection(lo: int, hi: int) returns (r: Option<V>)
      requires Valid()
      ensures r.None? <==> !AnyOverlap(InOrder(root), lo, hi)
      ensures r.Some? ==>
        exists i :: 0 <= i < |InOrder(root)| && Overlaps(InOrder(root)[i], lo, hi) && InOrder(root)[i].val == r.value
    {
      var current := root;
      while current.Node?
        invariant Augmented(current) && SortedLo(InOrder(current))
        invariant forall e :: e in InOrder(current) ==> e in InOrder(root)
        invariant AnyOverlap(InOrder(root), lo, hi) ==> AnyOverlap(InOrder(current), lo, hi)
        decreases current
      {
        var e := Interval(current.lo, current.hi, current.val);
        assert InOrder(current) == InOrder(current.left) + [e] + InOrder(current.right);
        if current.lo <= hi && current.hi >= lo {
          assert e in InOrder(root);
          ghost var i :| 0 <= i < |InOrder(root)| && InOrder(root)[i] == e;
          return Some(current.val);
        }
        SortedSplit(current);
        if AnyOverlap(InOrder(root), lo, hi) {
          FindIntersectionStep(current, lo, hi);
        }
        if current.left.Nil? {
          current := current.right;
        } else if current.left.treeHi < lo {
          current := current.right;
        } else {
          current := current.left;
        }
      }
      return None;
    }
  }
}