/** The union-find structure of data_structures/disjoint_set.cpp: a forest stored as a
    parent vector `root`, with `child_count` holding the size of the tree under each
    root. get_root follows parent links to the root and halves the path on the way;
    join hangs the root of the smaller tree under the root of the larger one.

    The two vectors are sequence fields that the methods reassign. Termination and correctness rest on
    a ghost level per element that strictly increases along every parent link. */
module DisjointSet {

  /** The parent link of `i` climbs strictly in `level`. */
  ghost predicate Climbs(p: seq<int>, level: seq<nat>, i: int)
    requires |level| == |p| && 0 <= i < |p| && 0 <= p[i] < |p|
  {
    p[i] != i ==> level[i] < level[p[i]]
  }

  /** `p` is a forest of parent links inside the vector that climb strictly in
      `level`, bounded by `height`. */
  ghost predicate Forest(p: seq<int>, level: seq<nat>, height: nat) {
    |level| == |p| &&
    (forall i :: 0 <= i < |p| ==> 0 <= p[i] < |p| && level[i] <= height) &&
    (forall i {:trigger Climbs(p, level, i)} :: 0 <= i < |p| ==> Climbs(p, level, i))
  }

  /** The root of the tree holding `i`. */
  ghost function FindIn(p: seq<int>, level: seq<nat>, height: nat, i: int): (r: int)
    requires Forest(p, level, height) && 0 <= i < |p|
    ensures 0 <= r < |p| && p[r] == r
    decreases height - level[i]
  {
    assert Climbs(p, level, i);
    if p[i] == i then i else FindIn(p, level, height, p[i])
  }

  /** The representative of every element. */
  ghost function RepsIn(p: seq<int>, level: seq<nat>, height: nat): (reps: seq<int>)
    requires Forest(p, level, height)
    ensures |reps| == |p|
    ensures forall k :: 0 <= k < |p| ==> 0 <= reps[k] < |p|
  {
    seq(|p|, k requires 0 <= k < |p| => FindIn(p, level, height, k))
  }

  /** The elements whose representative is `r`. */
  ghost function ClassOf(reps: seq<int>, r: int): set<int> {
    set k | 0 <= k < |reps| && reps[k] == r
  }

  /** The representatives after the classes of `a` and `b` merge under `w`. */
  function Merged(reps: seq<int>, a: int, b: int, w: int): (m: seq<int>)
    ensures |m| == |reps|
  {
    seq(|reps|, k requires 0 <= k < |reps| => if reps[k] == a || reps[k] == b then w else reps[k])
  }

  /** The order of the two merged classes does not matter. */
  lemma MergedSymmetric(reps: seq<int>, a: int, b: int, w: int)
    ensures Merged(reps, a, b, w) == Merged(reps, b, a, w)
  {
  }

  /** Merging the classes of two elements relates exactly the pairs that were related
      already, and the pairs with one element in each of the two classes. */
  lemma MergedJoint(reps: seq<int>, i: int, j: int, w: int, x: int, y: int)
    requires 0 <= i < |reps| && 0 <= j < |reps| && 0 <= x < |reps| && 0 <= y < |reps|
    requires w == reps[i] || w == reps[j]
    ensures var m := Merged(reps, reps[i], reps[j], w);
            m[x] == m[y] <==>
              reps[x] == reps[y] ||
              (reps[x] == reps[i] && reps[y] == reps[j]) ||
              (reps[x] == reps[j] && reps[y] == reps[i])
  {
  }

  /** The class of the winner after a merge is the union of the two classes, and every
      other class is unchanged. */
  lemma MergedClasses(reps: seq<int>, a: int, b: int, w: int, r: int)
    requires a != b && (w == a || w == b)
    ensures r == w ==> |ClassOf(Merged(reps, a, b, w), r)| == |ClassOf(reps, a)| + |ClassOf(reps, b)|
    ensures r != a && r != b ==> ClassOf(Merged(reps, a, b, w), r) == ClassOf(reps, r)
  {
    var m := Merged(reps, a, b, w);
    if r == w {
      assert ClassOf(m, r) == ClassOf(reps, a) + ClassOf(reps, b);
      assert ClassOf(reps, a) * ClassOf(reps, b) == {};
    }
  }

  /** Path halving at `i` keeps a forest and every element's root. */
  lemma {:induction false} HalveFind(p: seq<int>, lv: seq<nat>, h: nat, i: int, k: int)
    requires Forest(p, lv, h) && 0 <= i < |p| && 0 <= k < |p|
    ensures Forest(p[i := p[p[i]]], lv, h)
    ensures FindIn(p[i := p[p[i]]], lv, h, k) == FindIn(p, lv, h, k)
    decreases h - lv[k]
  {
    var q := p[i := p[p[i]]];
    assert Climbs(p, lv, i) && Climbs(p, lv, p[i]) && Climbs(p, lv, k);
    assert Forest(q, lv, h) by {
      forall m | 0 <= m < |q| ensures Climbs(q, lv, m) {
        assert Climbs(p, lv, m);
      }
    }
    if q[k] != k {
      if k == i {
        if p[i] != i && p[p[i]] != p[i] {
          HalveFind(p, lv, h, i, p[p[i]]);
        }
      } else {
        HalveFind(p, lv, h, i, p[k]);
      }
    }
  }

  /** Hanging root `b` under root `a`, with `a` raised above `b`, keeps a forest and
      sends exactly the elements of `b`'s tree to `a`. */
  lemma {:induction false} LinkFind(p: seq<int>, lv: seq<nat>, h: nat, a: int, b: int, k: int)
    requires Forest(p, lv, h) && 0 <= a < |p| && 0 <= b < |p| && p[a] == a && p[b] == b && a != b
    requires 0 <= k < |p|
    ensures var lv2 := lv[a := if lv[a] > lv[b] then lv[a] else lv[b] + 1];
            var h2 := if h > lv[b] then h else lv[b] + 1;
            Forest(p[b := a], lv2, h2) &&
            FindIn(p[b := a], lv2, h2, k) == if FindIn(p, lv, h, k) == b then a else FindIn(p, lv, h, k)
    decreases h - lv[k]
  {
    var lv2 := lv[a := if lv[a] > lv[b] then lv[a] else lv[b] + 1];
    var h2 := if h > lv[b] then h else lv[b] + 1;
    var q := p[b := a];
    assert Forest(q, lv2, h2) by {
      forall m | 0 <= m < |q| ensures Climbs(q, lv2, m) {
        assert Climbs(p, lv, m);
      }
    }
    assert Climbs(p, lv, k);
    if k != b && p[k] != k {
      LinkFind(p, lv, h, a, b, p[k]);
    }
  }

  /** Path halving at `i` keeps a forest and every representative. */
  lemma HalveReps(p: seq<int>, lv: seq<nat>, h: nat, i: int)
    requires Forest(p, lv, h) && 0 <= i < |p|
    ensures Forest(p[i := p[p[i]]], lv, h) && RepsIn(p[i := p[p[i]]], lv, h) == RepsIn(p, lv, h)
  {
    HalveFind(p, lv, h, i, i);
    forall k | 0 <= k < |p| ensures FindIn(p[i := p[p[i]]], lv, h, k) == FindIn(p, lv, h, k) {
      HalveFind(p, lv, h, i, k);
    }
  }

  /** Hanging root `b` under root `a` merges `b`'s class into `a`'s. */
  lemma LinkReps(p: seq<int>, lv: seq<nat>, h: nat, a: int, b: int)
    requires Forest(p, lv, h) && 0 <= a < |p| && 0 <= b < |p| && p[a] == a && p[b] == b && a != b
    ensures var lv2 := lv[a := if lv[a] > lv[b] then lv[a] else lv[b] + 1];
            var h2 := if h > lv[b] then h else lv[b] + 1;
            Forest(p[b := a], lv2, h2) &&
            RepsIn(p[b := a], lv2, h2) == Merged(RepsIn(p, lv, h), a, b, a)
  {
    var lv2 := lv[a := if lv[a] > lv[b] then lv[a] else lv[b] + 1];
    var h2 := if h > lv[b] then h else lv[b] + 1;
    LinkFind(p, lv, h, a, b, a);
    forall k | 0 <= k < |p|
      ensures FindIn(p[b := a], lv2, h2, k) == if FindIn(p, lv, h, k) == b then a else FindIn(p, lv, h, k)
    {
      LinkFind(p, lv, h, a, b, k);
    }
  }

  /** Every representative's count is the size of its class. */
  ghost predicate ExactCounts(reps: seq<int>, counts: seq<int>) {
    |counts| == |reps| && forall r :: 0 <= r < |reps| && reps[r] == r ==> counts[r] == |ClassOf(reps, r)|
  }

  /** Counts that match class sizes before a link still match them after it. */
  lemma ExactAfterLink(reps: seq<int>, counts: seq<int>, w: int, l: int)
    requires |reps| == |counts| && 0 <= w < |reps| && 0 <= l < |reps| && w != l
    requires reps[w] == w && reps[l] == l
    requires ExactCounts(reps, counts)
    ensures ExactCounts(Merged(reps, w, l, w), counts[w := counts[w] + counts[l]])
  {
    var reps2, counts2 := Merged(reps, w, l, w), counts[w := counts[w] + counts[l]];
    forall r | 0 <= r < |reps2| && reps2[r] == r ensures counts2[r] == |ClassOf(reps2, r)| {
      MergedClasses(reps, w, l, w, r);
      if r != w {
        assert r != l;
        assert reps[r] == r;
      }
    }
  }

  class DisjointSet {
    var root: seq<int>
    var childCount: seq<int>
    ghost var level: seq<nat>
    ghost var height: nat

    ghost predicate Valid()
      reads this
    {
      |childCount| == |root| && Forest(root, level, height)
    }

    /** The representative of every element, as get_root would report it. */
    ghost function Reps(): seq<int>
      reads this
      requires Valid()
    {
      RepsIn(root, level, height)
    }

    /** child_count of every root is the number of elements in its class. */
    ghost predicate CountsExact()
      reads this
      requires Valid()
    {
      ExactCounts(Reps(), childCount)
    }

    /** The constructor: `n` singleton classes, each with a count of one. */
    constructor(n: nat)
      ensures Valid() && CountsExact() && |root| == n
      ensures forall m :: 0 <= m < n ==> root[m] == m && childCount[m] == 1
      ensures forall i, j :: 0 <= i < n && 0 <= j < n ==> (Reps()[i] == Reps()[j] <==> i == j)
    {
      var r := seq(n, _ => 1);
      childCount := r;
      for k := 0 to n
        invariant |r| == n && forall m :: 0 <= m < n ==> r[m] == if m < k then m else 1
      {
        r := r[k := k];
      }
      root := r;
      level := seq(n, _ => 0);
      height := 0;
      new;
      assert forall k :: 0 <= k < n ==> Reps()[k] == k;
      forall m | 0 <= m < n ensures ClassOf(Reps(), m) == {m} {
      }
    }

    /** get_root: follow parent links to the root, pointing each visited element at its
        grandparent. No element's root changes. */
    method GetRoot(i: int) returns (r: int)
      modifies this
      requires Valid() && 0 <= i < |root|
      ensures Valid() && level == old(level) && height == old(height) && childCount == old(childCount)
      ensures Reps() == old(Reps()) && r == Reps()[i] && root[r] == r
    {
      var k := i;
      while k != root[k]
        invariant Valid() && 0 <= k < |root| && level == old(level) && height == old(height)
        invariant childCount == old(childCount)
        invariant Reps() == old(Reps()) && Reps()[k] == old(Reps())[i]
        decreases height - level[k]
      {
        HalveReps(root, level, height, k);
        assert Climbs(root, level, k) && Climbs(root, level, root[k]);
        root := root[k := root[root[k]]];
        k := root[k];
      }
      r := k;
    }

    /** are_joint: whether two elements share a root. The path halving done by the two
        get_root calls leaves every root where it was. */
    method AreJoint(i: int, j: int) returns (b: bool)
      modifies this
      requires Valid() && 0 <= i < |root| && 0 <= j < |root|
      ensures Valid() && level == old(level) && height == old(height) && childCount == old(childCount)
      ensures Reps() == old(Reps()) && (b <==> Reps()[i] == Reps()[j])
    {
      var ri := GetRoot(i);
      var rj := GetRoot(j);
      b := ri == rj;
    }

    /** Hang root `b` under root `a` and add `b`'s count to `a`'s. */
    method Link(a: int, b: int)
      modifies this
      requires Valid() && 0 <= a < |root| && 0 <= b < |root| && root[a] == a && root[b] == b
      ensures Valid() && Reps() == Merged(old(Reps()), a, b, a)
      ensures childCount == old(childCount)[a := old(childCount)[a] + old(childCount)[b]]
    {
      ghost var p, lv, h := root, level, height;
      if a != b {
        ghost var lv2 := lv[a := if lv[a] > lv[b] then lv[a] else lv[b] + 1];
        ghost var h2 := if h > lv[b] then h else lv[b] + 1;
        LinkReps(p, lv, h, a, b);
        root := root[b := a];
        level, height := lv2, h2;
        assert RepsIn(root, level, height) == Merged(RepsIn(p, lv, h), a, b, a);
      } else {
        assert Merged(RepsIn(p, lv, h), a, b, a) == RepsIn(p, lv, h);
        root := root[b := a];
        assert root == p;
      }
      childCount := childCount[a := childCount[a] + childCount[b]];
    }

    /** join as written: the root with the larger count, or `i`'s root on a tie, becomes
        the root of both classes, and its count grows by the other root's count, even
        when both elements already share a root. */
    method JoinAsWritten(i: int, j: int)
      modifies this
      requires Valid() && 0 <= i < |root| && 0 <= j < |root|
      ensures Valid()
      ensures var ri, rj := old(Reps()[i]), old(Reps()[j]);
              var w := if old(childCount[ri]) >= old(childCount[rj]) then ri else rj;
              Reps() == Merged(old(Reps()), ri, rj, w) &&
              childCount == old(childCount)[w := old(childCount[ri]) + old(childCount[rj])]
    {
      ghost var reps, counts := Reps(), childCount;
      var iRoot := GetRoot(i);
      var jRoot := GetRoot(j);
      assert Reps() == reps && childCount == counts && iRoot == reps[i] && jRoot == reps[j];
      if childCount[iRoot] >= childCount[jRoot] {
        Link(iRoot, jRoot);
        assert Reps() == Merged(reps, iRoot, jRoot, iRoot);
        assert childCount == counts[iRoot := counts[iRoot] + counts[jRoot]];
      } else {
        Link(jRoot, iRoot);
        MergedSymmetric(reps, jRoot, iRoot, jRoot);
        assert Reps() == Merged(reps, iRoot, jRoot, jRoot);
        assert childCount == counts[jRoot := counts[iRoot] + counts[jRoot]];
      }
    }

    /** join as intended: elements that already share a root are left alone, so the
        count of every root stays the size of its class. */
    method Join(i: int, j: int)
      modifies this
      requires Valid() && CountsExact() && 0 <= i < |root| && 0 <= j < |root|
      ensures Valid() && CountsExact()
      ensures var ri, rj := old(Reps()[i]), old(Reps()[j]);
              var w := if old(childCount[ri]) >= old(childCount[rj]) then ri else rj;
              Reps() == Merged(old(Reps()), ri, rj, w)
    {
      ghost var reps := Reps();
      var iRoot := GetRoot(i);
      var jRoot := GetRoot(j);
      if iRoot == jRoot {
        assert Merged(reps, iRoot, jRoot, iRoot) == reps;
        return;
      }
      if childCount[iRoot] >= childCount[jRoot] {
        ExactAfterLink(reps, childCount, iRoot, jRoot);
        Link(iRoot, jRoot);
      } else {
        ExactAfterLink(reps, childCount, jRoot, iRoot);
        Link(jRoot, iRoot);
        MergedSymmetric(reps, jRoot, iRoot, jRoot);
      }
    }
  }

  /** Joining an element with itself in a one-element set doubles the root's count
      while its class still holds one element. */
  method JoinWithinClass() returns (d: DisjointSet)
    ensures d.Valid() && |d.root| == 1
    ensures d.childCount[0] == 2 && |ClassOf(d.Reps(), 0)| == 1
  {
    d := new DisjointSet(1);
    ghost var reps := d.Reps();
    assert reps == [0];
    d.JoinAsWritten(0, 0);
    assert d.Reps() == Merged(reps, 0, 0, 0) == [0];
    assert 0 in ClassOf(d.Reps(), 0);
    assert ClassOf(d.Reps(), 0) == {0};
  }
}
