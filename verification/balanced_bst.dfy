/** The height-balanced search tree of
    divide_and_conquer/sorted_array_to_balanced_BST.cpp: the middle cell of a
    range becomes the root, the cells before and after it the two subtrees. */
module SortedArrayToBst {
  import opened SortSpec

  /** A tree node with its value and two subtrees; Null is the null pointer. */
  datatype Tree = Null | Node(val: int, left: Tree, right: Tree)

  /** The values of a tree, left subtree first, then the root, then the right
      subtree. */
  function InOrder(t: Tree): seq<int> {
    match t
    case Null => []
    case Node(v, l, r) => InOrder(l) + [v] + InOrder(r)
  }

  function Size(t: Tree): nat {
    match t
    case Null => 0
    case Node(_, l, r) => Size(l) + 1 + Size(r)
  }

  function Height(t: Tree): nat {
    match t
    case Null => 0
    case Node(_, l, r) => 1 + (if Height(l) >= Height(r) then Height(l) else Height(r))
  }

  /** At every node the two subtrees' sizes differ by at most one. */
  ghost predicate SizeBalanced(t: Tree) {
    match t
    case Null => true
    case Node(_, l, r) => -1 <= Size(l) - Size(r) <= 1 && SizeBalanced(l) && SizeBalanced(r)
  }

  /** At every node the two subtrees' heights differ by at most one. */
  ghost predicate HeightBalanced(t: Tree) {
    match t
    case Null => true
    case Node(_, l, r) => -1 <= Height(l) - Height(r) <= 1 && HeightBalanced(l) && HeightBalanced(r)
  }

  /** At every node the values of the left subtree are at most the node's value
      and those of the right subtree at least it. */
  ghost predicate SearchTree(t: Tree) {
    match t
    case Null => true
    case Node(v, l, r) =>
      (forall i :: 0 <= i < |InOrder(l)| ==> InOrder(l)[i] <= v) &&
      (forall i :: 0 <= i < |InOrder(r)| ==> v <= InOrder(r)[i]) &&
      SearchTree(l) && SearchTree(r)
  }

  /** daq: null for an empty range (`low > high`), a leaf for a single cell,
      otherwise the middle cell with the trees of the cells before and after it.
      The tree's in-order values are the range's cells, in order, and it is
      balanced by size. */
  function Daq(a: seq<int>, low: int, high: int): (t: Tree)
    requires 0 <= low && high < |a|
    ensures InOrder(t) == if low <= high then a[low..high + 1] else []
    ensures Size(t) == if low <= high then high - low + 1 else 0
    ensures SizeBalanced(t)
    decreases high - low
  {
    if low > high then Null
    else if low == high then Node(a[low], Null, Null)
    else
      var mid := (low + high) / 2;
      MiddleSplit(a, low, mid, high);
      Node(a[mid], Daq(a, low, mid - 1), Daq(a, mid + 1, high))
  }

  /** The middle of a range of two cells or more splits it into the cells before
      it, itself and the cells after it, and the two sides differ in length by at
      most one. */
  lemma MiddleSplit(a: seq<int>, low: int, mid: int, high: int)
    requires 0 <= low < high < |a| && mid == (low + high) / 2
    ensures low <= mid < high && -1 <= (mid - low) - (high - mid) <= 1
    ensures a[low..high + 1] == a[low..mid] + [a[mid]] + a[mid + 1..high + 1]
  {
  }

  /** A tree is a search tree exactly when its in-order values are sorted. */
  lemma {:induction false} SearchTreeIffSorted(t: Tree)
    ensures SearchTree(t) <==> Sorted(InOrder(t))
  {
    match t
    case Null =>
    case Node(v, l, r) =>
      SearchTreeIffSorted(l);
      SearchTreeIffSorted(r);
      if SearchTree(t) {
        JoinSorted3(InOrder(l), v, InOrder(r));
      }
      if Sorted(InOrder(t)) {
        SplitSorted3(InOrder(l), v, InOrder(r));
      }
  }

  /** Two sorted runs on either side of a value they are below and above make a
      sorted sequence. */
  lemma JoinSorted3(x: seq<int>, v: int, y: seq<int>)
    requires Sorted(x) && Sorted(y)
    requires forall i :: 0 <= i < |x| ==> x[i] <= v
    requires forall i :: 0 <= i < |y| ==> v <= y[i]
    ensures Sorted(x + [v] + y)
  {
    var s := x + [v] + y;
    forall i, j | 0 <= i < j < |s| ensures s[i] <= s[j] {
      if j < |x| {
        assert s[i] == x[i] && s[j] == x[j];
      } else if i > |x| {
        assert s[i] == y[i - |x| - 1] && s[j] == y[j - |x| - 1];
      } else if i < |x| {
        assert s[i] == x[i];
        assert j == |x| || s[j] == y[j - |x| - 1];
      } else {
        assert s[j] == y[j - |x| - 1];
      }
    }
  }

  /** A sorted sequence around a value has sorted sides below and above it. */
  lemma SplitSorted3(x: seq<int>, v: int, y: seq<int>)
    requires Sorted(x + [v] + y)
    ensures Sorted(x) && Sorted(y)
    ensures forall i :: 0 <= i < |x| ==> x[i] <= v
    ensures forall i :: 0 <= i < |y| ==> v <= y[i]
  {
    var s := x + [v] + y;
    forall i | 0 <= i < |x| ensures x[i] <= v {
      assert x[i] == s[i] && v == s[|x|];
    }
    forall i | 0 <= i < |y| ensures v <= y[i] {
      assert y[i] == s[|x| + 1 + i] && v == s[|x|];
    }
    forall i, j | 0 <= i < j < |x| ensures x[i] <= x[j] {
      assert x[i] == s[i] && x[j] == s[j];
    }
    forall i, j | 0 <= i < j < |y| ensures y[i] <= y[j] {
      assert y[i] == s[|x| + 1 + i] && y[j] == s[|x| + 1 + j];
    }
  }

  /** On a sorted range daq builds a search tree. */
  lemma DaqOfSorted(a: seq<int>, low: int, high: int)
    requires 0 <= low <= high < |a| && SortedRange(a, low, high + 1)
    ensures SearchTree(Daq(a, low, high))
  {
    SortedSlice(a, low, high + 1);
    SearchTreeIffSorted(Daq(a, low, high));
  }

  /** The number of binary digits of `n`. */
  function Bits(n: nat): nat {
    if n == 0 then 0 else 1 + Bits(n / 2)
  }

  lemma {:induction false} BitsMonotone(m: nat, n: nat)
    requires m <= n
    ensures Bits(m) <= Bits(n)
    decreases n
  {
    if m > 0 {
      BitsMonotone(m / 2, n / 2);
    }
  }

  lemma {:induction false} BitsStep(n: nat)
    ensures Bits(n + 1) <= Bits(n) + 1
    decreases n
  {
    if n > 0 {
      if (n + 1) / 2 > n / 2 {
        BitsStep(n / 2);
      }
    }
  }

  /** A tree balanced by size has the height of a complete tree of its size, and
      is balanced by height. */
  lemma {:induction false} SizeBalancedHeight(t: Tree)
    requires SizeBalanced(t)
    ensures Height(t) == Bits(Size(t)) && HeightBalanced(t)
  {
    match t
    case Null =>
    case Node(_, l, r) =>
      SizeBalancedHeight(l);
      SizeBalancedHeight(r);
      NearSizes(Size(l), Size(r), Size(t));
  }

  /** Sizes that differ by at most one have bit counts that differ by at most one,
      and one more than the larger bit count is the bit count of their sum plus
      one. */
  lemma NearSizes(m: nat, n: nat, total: nat)
    requires -1 <= m - n <= 1 && total == m + 1 + n
    ensures -1 <= Bits(m) - Bits(n) <= 1
    ensures Bits(total) == 1 + (if Bits(m) >= Bits(n) then Bits(m) else Bits(n))
  {
    var big := if m >= n then m else n;
    var small := if m >= n then n else m;
    assert total / 2 == big;
    assert Bits(total) == 1 + Bits(big);
    BitsMonotone(small, big);
    BitsStep(small);
    assert big == small || big == small + 1;
  }

  /** The tree daq builds is balanced by height. */
  lemma DaqHeightBalanced(a: seq<int>, low: int, high: int)
    requires 0 <= low && high < |a|
    ensures HeightBalanced(Daq(a, low, high))
  {
    SizeBalancedHeight(Daq(a, low, high));
  }
}
