/** The static k-d tree of geometry/kd_tree.py: built once from a list of points of
    one dimensionality, each node splitting its points at the median of one axis, the
    axis cycling with the depth; it answers nearest-neighbour and orthotope (box)
    queries.

    Coordinates are integers here (the source accepts any numbers). A point is a
    sequence of coordinates. */
module KDTree {
  import opened Wrappers

  type Point = seq<int>

  /** The exceptions the source raises: its own ValueError, and the ZeroDivisionError
      of `depth % k` when the points have no coordinates at all. */
  datatype KDError = ValueError | ZeroDivisionError

  /** _KDTreeNode: the point, the axis it splits on and its coordinate on that
      axis. */
  datatype KDNode = Nil | Node(point: Point, axis: nat, coordOnAxis: int, left: KDNode, right: KDNode)

  /** The points of a tree, node before left subtree before right subtree. */
  function Points(t: KDNode): seq<Point> {
    match t
    case Nil => []
    case Node(point, _, _, left, right) => [point] + Points(left) + Points(right)
  }

  /** Every point has `k` coordinates, every axis is below `k`, each node stores its
      own coordinate on its axis, and the points of the left subtree lie at or below
      that coordinate on that axis, those of the right subtree at or above it. */
  ghost predicate Ordered(t: KDNode, k: nat) {
    match t
    case Nil => true
    case Node(point, axis, coord, left, right) =>
      axis < k && |point| == k && coord == point[axis] &&
      Ordered(left, k) && Ordered(right, k) &&
      (forall p :: p in Points(left) ==> |p| == k && p[axis] <= coord) &&
      (forall p :: p in Points(right) ==> |p| == k && p[axis] >= coord)
  }

  /** Every node's axis is below `k`. */
  ghost predicate AxesBelow(t: KDNode, k: nat) {
    t.Node? ==> t.axis < k && AxesBelow(t.left, k) && AxesBelow(t.right, k)
  }

  lemma {:induction false} OrderedAxesBelow(t: KDNode, k: nat)
    requires Ordered(t, k)
    ensures AxesBelow(t, k)
  {
    if t.Node? {
      OrderedAxesBelow(t.left, k);
      OrderedAxesBelow(t.right, k);
    }
  }

  /** The node at depth `depth` splits on axis `depth % k`. */
  ghost predicate Axes(t: KDNode, k: nat, depth: nat)
    requires k > 0
  {
    match t
    case Nil => true
    case Node(_, axis, _, left, right) => axis == depth % k && Axes(left, k, depth + 1) && Axes(right, k, depth + 1)
  }

  /** Every point of an ordered tree has `k` coordinates. */
  lemma {:induction false} OrderedDims(t: KDNode, k: nat)
    requires Ordered(t, k)
    ensures forall p :: p in Points(t) ==> |p| == k
  {
  }

  /** Every point of `ps` has `k` coordinates. */
  ghost predicate Dims(ps: seq<Point>, k: nat) {
    forall i :: 0 <= i < |ps| ==> |ps[i]| == k
  }

  /** A rearrangement of points with `k` coordinates has `k` coordinates too. */
  lemma PermDims(xs: seq<Point>, ys: seq<Point>, k: nat)
    requires multiset(xs) == multiset(ys) && Dims(ys, k)
    ensures Dims(xs, k)
  {
    forall i | 0 <= i < |xs| ensures |xs[i]| == k {
      assert xs[i] in multiset(ys);
      var j :| 0 <= j < |ys| && ys[j] == xs[i];
    }
  }

  ghost predicate SortedOn(ps: seq<Point>, axis: nat, k: nat)
    requires Dims(ps, k) && axis < k
  {
    forall i, j :: 0 <= i < j < |ps| ==> ps[i][axis] <= ps[j][axis]
  }

  /** Sequences with the same elements contain the same points. */
  lemma SameMembers(xs: seq<Point>, ys: seq<Point>)
    requires multiset(xs) == multiset(ys)
    ensures forall p :: p in xs <==> p in ys
  {
    forall p ensures p in xs <==> p in ys {
      assert p in xs <==> p in multiset(xs);
      assert p in ys <==> p in multiset(ys);
    }
  }

  /** `x` inserted before the first point of `s` whose coordinate on `axis` is at
      least its own. */
  function InsertOn(x: Point, s: seq<Point>, axis: nat, k: nat): (r: seq<Point>)
    requires |x| == k && Dims(s, k) && axis < k
    ensures multiset(r) == multiset(s) + multiset{x} && |r| == |s| + 1 && Dims(r, k)
  {
    if s == [] || x[axis] <= s[0][axis] then [x] + s
    else
      assert s == [s[0]] + s[1..];
      [s[0]] + InsertOn(x, s[1..], axis, k)
  }

  /** Inserting into a sorted sequence keeps it sorted. */
  lemma {:induction false} InsertOnSorted(x: Point, s: seq<Point>, axis: nat, k: nat)
    requires |x| == k && Dims(s, k) && axis < k && SortedOn(s, axis, k)
    ensures SortedOn(InsertOn(x, s, axis, k), axis, k)
  {
    if s != [] && x[axis] > s[0][axis] {
      var rest := InsertOn(x, s[1..], axis, k);
      InsertOnSorted(x, s[1..], axis, k);
      forall i | 0 <= i < |rest| ensures s[0][axis] <= rest[i][axis] {
        assert rest[i] in multiset(s[1..]) + multiset{x};
        if rest[i] != x {
          var j :| 0 <= j < |s[1..]| && s[1..][j] == rest[i];
          assert s[j + 1] == rest[i];
        }
      }
      assert InsertOn(x, s, axis, k) == [s[0]] + rest;
    }
  }

  /** Python's `sorted` with the key `p[axis]`: a stable sort, so points with equal
      coordinates keep their order (the earlier point is inserted in front of the
      later ones). */
  function SortOn(ps: seq<Point>, axis: nat, k: nat): (r: seq<Point>)
    requires Dims(ps, k) && axis < k
    ensures multiset(r) == multiset(ps) && |r| == |ps| && Dims(r, k)
  {
    if ps == [] then []
    else
      assert ps == [ps[0]] + ps[1..];
      InsertOn(ps[0], SortOn(ps[1..], axis, k), axis, k)
  }

  /** The sort orders the points by their coordinate on `axis`. */
  lemma {:induction false} SortOnSorted(ps: seq<Point>, axis: nat, k: nat)
    requires Dims(ps, k) && axis < k
    ensures SortedOn(SortOn(ps, axis, k), axis, k)
  {
    if ps != [] {
      SortOnSorted(ps[1..], axis, k);
      InsertOnSorted(ps[0], SortOn(ps[1..], axis, k), axis, k);
    }
  }

  /** In a sorted sequence the points before index `m` lie at or below point `m` on
      the axis and those after it at or above. */
  lemma MedianSplits(sorted: seq<Point>, m: int, axis: nat, k: nat)
    requires Dims(sorted, k) && axis < k && SortedOn(sorted, axis, k) && 0 <= m < |sorted|
    ensures forall p :: p in sorted[..m] ==> |p| == k && p[axis] <= sorted[m][axis]
    ensures forall p :: p in sorted[m + 1..] ==> |p| == k && p[axis] >= sorted[m][axis]
  {
    forall p | p in sorted[..m] ensures |p| == k && p[axis] <= sorted[m][axis] {
      var j :| 0 <= j < m && sorted[..m][j] == p;
      assert sorted[j] == p;
    }
    forall p | p in sorted[m + 1..] ensures |p| == k && p[axis] >= sorted[m][axis] {
      var j :| 0 <= j < |sorted| - m - 1 && sorted[m + 1..][j] == p;
      assert sorted[m + 1 + j] == p;
    }
  }

  /** The median step of _build_kd_tree: the points sorted on `axis`, split into the
      median point (index `len // 2`), the points before it and the points after it.
      The median's coordinate on `axis` bounds the first part from above and the
      second from below. */
  function Split(points: seq<Point>, axis: nat, k: nat): (r: (Point, seq<Point>, seq<Point>))
    requires Dims(points, k) && axis < k && points != []
    ensures |r.0| == k && Dims(r.1, k) && Dims(r.2, k)
    ensures multiset(points) == multiset(r.1 + [r.0] + r.2)
    ensures |r.1| == |points| / 2 && |r.2| == |points| - |points| / 2 - 1
    ensures forall p :: p in r.1 ==> |p| == k && p[axis] <= r.0[axis]
    ensures forall p :: p in r.2 ==> |p| == k && p[axis] >= r.0[axis]
  {
    var sorted := SortOn(points, axis, k);
    var m := |sorted| / 2;
    SortOnSorted(points, axis, k);
    MedianSplits(sorted, m, axis, k);
    AroundMedian(sorted, m);
    (sorted[m], sorted[..m], sorted[m + 1..])
  }

  /** A sequence is the part before index `m`, element `m` and the part after. */
  lemma AroundMedian<T>(s: seq<T>, m: int)
    requires 0 <= m < |s|
    ensures s == s[..m] + [s[m]] + s[m + 1..]
  {
  }

  /** _build_kd_tree: keep the median point on the depth's axis here and build the
      two halves one level deeper. */
  function Build(points: seq<Point>, k: nat, depth: nat): (t: KDNode)
    requires k > 0 && Dims(points, k)
    ensures t.Nil? <==> points == []
    decreases |points|
  {
    if points == [] then Nil
    else
      var axis := depth % k;
      var s := Split(points, axis, k);
      Node(s.0, axis, s.0[axis], Build(s.1, k, depth + 1), Build(s.2, k, depth + 1))
  }

  /** The tree holds exactly the given points, the left subtree of the root the lower
      half of them and the right subtree the rest. */
  lemma {:induction false} BuildPoints(points: seq<Point>, k: nat, depth: nat)
    requires k > 0 && Dims(points, k)
    ensures var t := Build(points, k, depth);
            multiset(Points(t)) == multiset(points) &&
            (t.Node? ==> |Points(t.left)| == |points| / 2 && |Points(t.right)| == |points| - |points| / 2 - 1)
    decreases |points|
  {
    if points != [] {
      var s := Split(points, depth % k, k);
      BuildPoints(s.1, k, depth + 1);
      BuildPoints(s.2, k, depth + 1);
      JoinPoints(Build(points, k, depth), s.1, s.2);
    }
  }

  /** A node whose subtrees hold `lo` and `hi` holds `lo`, its own point and `hi`. */
  lemma JoinPoints(t: KDNode, lo: seq<Point>, hi: seq<Point>)
    requires t.Node? && multiset(Points(t.left)) == multiset(lo) && multiset(Points(t.right)) == multiset(hi)
    ensures multiset(Points(t)) == multiset(lo + [t.point] + hi)
    ensures |Points(t.left)| == |lo| && |Points(t.right)| == |hi|
  {
    assert |Points(t.left)| == |multiset(Points(t.left))|;
    assert |Points(t.right)| == |multiset(Points(t.right))|;
  }

  /** The built tree is a k-d tree whose node at depth `d` splits on axis `d % k`. */
  lemma {:induction false} BuildOrdered(points: seq<Point>, k: nat, depth: nat)
    requires k > 0 && Dims(points, k)
    ensures Ordered(Build(points, k, depth), k) && Axes(Build(points, k, depth), k, depth)
    decreases |points|
  {
    if points != [] {
      var s := Split(points, depth % k, k);
      var left, right := Build(s.1, k, depth + 1), Build(s.2, k, depth + 1);
      BuildOrdered(s.1, k, depth + 1);
      BuildOrdered(s.2, k, depth + 1);
      BuildPoints(s.1, k, depth + 1);
      BuildPoints(s.2, k, depth + 1);
      SameMembers(Points(left), s.1);
      SameMembers(Points(right), s.2);
    }
  }

  /** _dist_sq: the squared Euclidean distance, over the coordinates the two points
      share (zip stops at the shorter one). */
  function DistSq(a: Point, b: Point): (d: int)
    ensures d >= 0
    decreases |a|
  {
    if a == [] || b == [] then 0 else Sq(a[0] - b[0]) + DistSq(a[1..], b[1..])
  }

  /** The square of `x`, built up by odd numbers so that no product appears in the
      proofs about distances; SqIsProduct ties it to `x * x`. */
  function Sq(x: int): (s: nat) {
    SqNat(Abs(x))
  }

  function SqNat(n: nat): nat {
    if n == 0 then 0 else SqNat(n - 1) + 2 * n - 1
  }

  lemma {:induction false} SqNatIsProduct(n: nat)
    ensures SqNat(n) == n * n
  {
    if n > 0 {
      SqNatIsProduct(n - 1);
      assert (n - 1) * (n - 1) == n * n - 2 * n + 1;
    }
  }

  lemma SqIsProduct(x: int)
    ensures Sq(x) == x * x
  {
    SqNatIsProduct(Abs(x));
    if x < 0 {
      assert (-x) * (-x) == x * x;
    }
  }

  /** The squared distance is at least the square of the gap on any one axis. */
  lemma {:induction false} DistSqAtLeastAxis(a: Point, b: Point, i: nat)
    requires i < |a| && i < |b|
    ensures DistSq(a, b) >= Sq(a[i] - b[i])
    decreases i
  {
    if i > 0 {
      DistSqAtLeastAxis(a[1..], b[1..], i - 1);
      assert a[1..][i - 1] == a[i] && b[1..][i - 1] == b[i];
    }
  }

  function Abs(x: int): int {
    if x < 0 then -x else x
  }

  lemma {:induction false} SquareMono(x: int, y: int)
    requires 0 <= y <= x
    ensures Sq(y) <= Sq(x)
    decreases x
  {
    if y < x {
      SquareMono(x - 1, y);
    }
  }

  /** _nearest_neighbour: the better of `best` and this node (ties keep `best`), then
      the side of the splitting plane the query lies on, then the other side only
      when the best distance so far exceeds the squared distance to the plane. */
  function Nearest(q: Point, best: Option<Point>, current: KDNode): (r: Option<Point>)
    requires AxesBelow(current, |q|)
    ensures r.Some? <==> best.Some? || current.Node?
    decreases current
  {
    match current
    case Nil => best
    case Node(point, axis, coord, _, _) =>
      var b := Nearest(q, Closer(q, best, point), NearSide(q, current));
      if Farther(q, b.value, current) then Nearest(q, b, FarSide(q, current)) else b
  }

  /** `x` is farther from the query than the node's splitting plane is (squared
      distances), so the far side may hold a closer point. */
  predicate Farther(q: Point, x: Point, t: KDNode)
    requires t.Node? && t.axis < |q|
  {
    DistSq(q, x) > Sq(Abs(q[t.axis] - t.coordOnAxis))
  }

  /** `point` when there is no best yet or it is strictly closer, otherwise `best`. */
  function Closer(q: Point, best: Option<Point>, point: Point): (r: Option<Point>)
    ensures r.Some?
  {
    if best.None? || DistSq(q, point) < DistSq(q, best.value) then Some(point) else best
  }

  /** The subtree on the query's side of the node's splitting plane (the right one
      when the query lies on the plane). */
  function NearSide(q: Point, t: KDNode): KDNode
    requires t.Node? && t.axis < |q|
  {
    if q[t.axis] < t.coordOnAxis then t.left else t.right
  }

  /** The other subtree. */
  function FarSide(q: Point, t: KDNode): KDNode
    requires t.Node? && t.axis < |q|
  {
    if q[t.axis] < t.coordOnAxis then t.right else t.left
  }

  /** No point of `ps` is closer to `q` than `r`. */
  ghost predicate NoCloser(q: Point, r: Point, ps: seq<Point>) {
    forall p :: p in ps ==> DistSq(q, r) <= DistSq(q, p)
  }

  lemma NoCloserJoin(q: Point, r: Point, x: Point, xs: seq<Point>, ys: seq<Point>)
    requires DistSq(q, r) <= DistSq(q, x) && NoCloser(q, r, xs) && NoCloser(q, r, ys)
    ensures NoCloser(q, r, [x] + xs + ys)
  {
  }

  lemma NoCloserCloser(q: Point, r: Point, b: Point, ps: seq<Point>)
    requires DistSq(q, r) <= DistSq(q, b) && NoCloser(q, b, ps)
    ensures NoCloser(q, r, ps)
  {
  }

  /** The answer is `best` or a point of the tree. */
  lemma {:induction false} NearestFrom(q: Point, best: Option<Point>, current: KDNode)
    requires AxesBelow(current, |q|)
    ensures var r := Nearest(q, best, current);
            r.Some? ==> Some(r.value) == best || r.value in Points(current)
    decreases current
  {
    if current.Node? {
      var nextBest := Closer(q, best, current.point);
      var near, far := NearSide(q, current), FarSide(q, current);
      NearestFrom(q, nextBest, near);
      var b := Nearest(q, nextBest, near);
      if Farther(q, b.value, current) {
        NearestFrom(q, b, far);
      }
    }
  }

  /** No stored point and not `best` either is closer to the query than the point
      _nearest_neighbour returns. */
  lemma {:induction false} NearestIsNearest(q: Point, best: Option<Point>, current: KDNode)
    requires Ordered(current, |q|) && AxesBelow(current, |q|) && (best.Some? ==> |best.value| == |q|)
    ensures NearestWins(q, best, current)
    decreases current, 1
  {
    if current.Node? {
      var b := Nearest(q, Closer(q, best, current.point), NearSide(q, current));
      if Farther(q, b.value, current) {
        NearestExplored(q, best, current);
      } else {
        NearestPruned(q, best, current);
      }
    }
  }

  /** What NearestIsNearest promises of the search from `current` with `best`. */
  ghost predicate NearestWins(q: Point, best: Option<Point>, current: KDNode)
    requires AxesBelow(current, |q|)
  {
    var r := Nearest(q, best, current);
    r.Some? ==> |r.value| == |q| &&
                (best.Some? ==> DistSq(q, r.value) <= DistSq(q, best.value)) &&
                NoCloser(q, r.value, Points(current))
  }

  /** NearestIsNearest at a node whose far side is searched too. */
  lemma {:induction false} NearestExplored(q: Point, best: Option<Point>, current: KDNode)
    requires Ordered(current, |q|) && AxesBelow(current, |q|) && (best.Some? ==> |best.value| == |q|)
    requires current.Node?
    requires Farther(q, Nearest(q, Closer(q, best, current.point), NearSide(q, current)).value, current)
    ensures NearestWins(q, best, current)
    decreases current, 0
  {
    OrderedAxesBelow(current, |q|);
    var nextBest := Closer(q, best, current.point);
    assert |nextBest.value| == |q|;
    var near, far := NearSide(q, current), FarSide(q, current);
    NearestIsNearest(q, nextBest, near);
    var b := Nearest(q, nextBest, near);
    NearestIsNearest(q, b, far);
    var r := Nearest(q, b, far);
    assert r == Nearest(q, best, current);
    NearestCombine(q, best, current, nextBest.value, b.value, r.value);
  }

  /** NearestIsNearest at a node whose far side is pruned. */
  lemma {:induction false} NearestPruned(q: Point, best: Option<Point>, current: KDNode)
    requires Ordered(current, |q|) && AxesBelow(current, |q|) && (best.Some? ==> |best.value| == |q|)
    requires current.Node?
    requires !Farther(q, Nearest(q, Closer(q, best, current.point), NearSide(q, current)).value, current)
    ensures NearestWins(q, best, current)
    decreases current, 0
  {
    OrderedAxesBelow(current, |q|);
    var nextBest := Closer(q, best, current.point);
    assert |nextBest.value| == |q|;
    var near := NearSide(q, current);
    NearestIsNearest(q, nextBest, near);
    var b := Nearest(q, nextBest, near);
    assert b == Nearest(q, best, current);
    FarIsFar(q, current, b.value);
    NearestCombine(q, best, current, nextBest.value, b.value, b.value);
  }

  /** One node of _nearest_neighbour: when the near side's answer `b` is no farther
      than the node's point and `best`, and `r` is no farther than `b` and than every
      point of the far side, then no point of the node's tree is closer than `r`. */
  lemma NearestCombine(q: Point, best: Option<Point>, t: KDNode, nextBest: Point, b: Point, r: Point)
    requires t.Node? && t.axis < |q| && Some(nextBest) == Closer(q, best, t.point)
    requires DistSq(q, b) <= DistSq(q, nextBest) && NoCloser(q, b, Points(NearSide(q, t)))
    requires DistSq(q, r) <= DistSq(q, b) && NoCloser(q, r, Points(FarSide(q, t)))
    ensures best.Some? ==> DistSq(q, r) <= DistSq(q, best.value)
    ensures NoCloser(q, r, Points(t))
  {
    NoCloserCloser(q, r, b, Points(NearSide(q, t)));
    NoCloserJoin(q, r, t.point, Points(t.left), Points(t.right));
  }

  /** Every point on the far side of a node's splitting plane from the query is at
      least the squared distance to the plane away, so a point `r` no farther than
      that is no farther than any of them. */
  lemma FarIsFar(q: Point, t: KDNode, r: Point)
    requires Ordered(t, |q|) && t.Node?
    requires !Farther(q, r, t)
    ensures NoCloser(q, r, Points(FarSide(q, t)))
  {
    var gap := Abs(q[t.axis] - t.coordOnAxis);
    forall p | p in Points(FarSide(q, t))
      ensures DistSq(q, r) <= DistSq(q, p)
    {
      if q[t.axis] < t.coordOnAxis {
        assert p in Points(t.right) && p[t.axis] >= t.coordOnAxis;
      } else {
        assert p in Points(t.left) && p[t.axis] <= t.coordOnAxis;
      }
      BeyondPlane(q, p, t.axis, gap);
    }
  }

  /** A point whose gap to the query on one axis is at least `gap` is at least
      `gap` squared away. */
  lemma BeyondPlane(q: Point, p: Point, axis: nat, gap: int)
    requires axis < |q| && axis < |p| && 0 <= gap <= Abs(q[axis] - p[axis])
    ensures Sq(gap) <= DistSq(q, p)
  {
    DistSqAtLeastAxis(q, p, axis);
    SquareMono(Abs(q[axis] - p[axis]), gap);
  }

  /** The point lies in the box on each of the first `k` axes, bounds included. */
  ghost predicate InBox(p: Point, lower: Point, upper: Point, k: nat) {
    |p| >= k && |lower| >= k && |upper| >= k &&
    forall i :: 0 <= i < k ==> lower[i] <= p[i] <= upper[i]
  }

  /** The points of `ps` that lie in the box, in order. */
  ghost function InBoxPoints(ps: seq<Point>, lower: Point, upper: Point, k: nat): seq<Point> {
    if ps == [] then []
    else (if InBox(ps[0], lower, upper, k) then [ps[0]] else []) + InBoxPoints(ps[1..], lower, upper, k)
  }

  lemma {:induction false} InBoxPointsAppend(xs: seq<Point>, ys: seq<Point>, lower: Point, upper: Point, k: nat)
    ensures InBoxPoints(xs + ys, lower, upper, k) == InBoxPoints(xs, lower, upper, k) + InBoxPoints(ys, lower, upper, k)
  {
    if xs != [] {
      assert xs == [xs[0]] + xs[1..];
      assert (xs + ys)[0] == xs[0] && (xs + ys)[1..] == xs[1..] + ys;
      InBoxPointsAppend(xs[1..], ys, lower, upper, k);
    } else {
      assert xs + ys == ys;
    }
  }

  lemma InBoxPointsSingle(p: Point, lower: Point, upper: Point, k: nat)
    ensures InBoxPoints([p], lower, upper, k) == if InBox(p, lower, upper, k) then [p] else []
  {
    assert [p][1..] == [];
  }

  /** Points all lying outside the box on one axis contribute nothing. */
  lemma {:induction false} InBoxPointsNone(ps: seq<Point>, lower: Point, upper: Point, k: nat, axis: nat)
    requires |lower| == k && |upper| == k && axis < k
    requires forall p :: p in ps ==> |p| == k && (p[axis] < lower[axis] || p[axis] > upper[axis])
    ensures InBoxPoints(ps, lower, upper, k) == []
  {
    if ps != [] {
      assert ps[0] in ps;
      assert !InBox(ps[0], lower, upper, k);
      InBoxPointsNone(ps[1..], lower, upper, k, axis);
    }
  }

  /** The within_orth loop: each axis in turn, stopping at the first one on which the
      point falls outside the box. */
  method WithinOrth(p: Point, lower: Point, upper: Point, k: nat) returns (within: bool)
    requires |p| == k && |lower| == k && |upper| == k
    ensures within <==> InBox(p, lower, upper, k)
  {
    within := true;
    for i := 0 to k
      invariant forall a :: 0 <= a < i ==> lower[a] <= p[a] <= upper[a]
    {
      if p[i] < lower[i] || p[i] > upper[i] {
        within := false;
        break;
      }
    }
  }

  /** _points_in_orthotope: the points of `current` inside the box appended to
      `result`, node first, then the left subtree when the box reaches down to the
      node's coordinate, then the right one when it reaches up to it. The pruning
      loses nothing: the appended points are exactly the tree's points in the box. */
  method PointsInOrthotopeFrom(lower: Point, upper: Point, current: KDNode, result: seq<Point>, k: nat)
    returns (r: seq<Point>)
    requires Ordered(current, k) && |lower| == k && |upper| == k
    ensures r == result + InBoxPoints(Points(current), lower, upper, k)
    decreases current, 0
  {
    if current.Nil? {
      return result;
    }
    var within := WithinOrth(current.point, lower, upper, k);
    InBoxPointsSplit(current, lower, upper, k);
    ghost var here := InBoxPoints([current.point], lower, upper, k);
    r := result;
    if within {
      r := r + [current.point];
    }
    assert r == result + here;
    r := SubtreeFrom(lower, upper, current.left, lower[current.axis] <= current.coordOnAxis, r, k);
    r := SubtreeFrom(lower, upper, current.right, upper[current.axis] >= current.coordOnAxis, r, k);
    Assoc3(result, here, InBoxPoints(Points(current.left), lower, upper, k), InBoxPoints(Points(current.right), lower, upper, k));
  }

  /** The descent into one subtree, made only when the box reaches it; a subtree the
      box does not reach holds no point in the box. */
  method SubtreeFrom(lower: Point, upper: Point, side: KDNode, reach: bool, result: seq<Point>, k: nat)
    returns (r: seq<Point>)
    requires Ordered(side, k) && |lower| == k && |upper| == k
    requires !reach ==> InBoxPoints(Points(side), lower, upper, k) == []
    ensures r == result + InBoxPoints(Points(side), lower, upper, k)
    decreases side, 1
  {
    if reach {
      r := PointsInOrthotopeFrom(lower, upper, side, result, k);
    } else {
      r := result;
      assert r + [] == r;
    }
  }

  /** The points of a node in the box: the node's own point when it is inside, then
      those of the left subtree, then those of the right; a subtree lying wholly
      beyond the box on the node's axis contributes nothing. */
  lemma InBoxPointsSplit(t: KDNode, lower: Point, upper: Point, k: nat)
    requires Ordered(t, k) && t.Node? && |lower| == k && |upper| == k
    ensures forall p :: p in Points(t) ==> |p| == k
    ensures InBoxPoints(Points(t), lower, upper, k) ==
            InBoxPoints([t.point], lower, upper, k) + InBoxPoints(Points(t.left), lower, upper, k) +
            InBoxPoints(Points(t.right), lower, upper, k)
    ensures InBoxPoints([t.point], lower, upper, k) == if InBox(t.point, lower, upper, k) then [t.point] else []
    ensures lower[t.axis] > t.coordOnAxis ==> InBoxPoints(Points(t.left), lower, upper, k) == []
    ensures upper[t.axis] < t.coordOnAxis ==> InBoxPoints(Points(t.right), lower, upper, k) == []
  {
    OrderedDims(t, k);
    var below, above := Points(t.left), Points(t.right);
    assert Points(t) == [t.point] + below + above;
    InBoxPointsAppend([t.point] + below, above, lower, upper, k);
    InBoxPointsAppend([t.point], below, lower, upper, k);
    InBoxPointsSingle(t.point, lower, upper, k);
    if lower[t.axis] > t.coordOnAxis {
      InBoxPointsNone(below, lower, upper, k, t.axis);
    }
    if upper[t.axis] < t.coordOnAxis {
      InBoxPointsNone(above, lower, upper, k, t.axis);
    }
  }

  lemma Assoc3<T>(a: seq<T>, b: seq<T>, c: seq<T>, d: seq<T>)
    ensures a + b + c + d == a + (b + c + d)
  {
  }

  class KDTree {
    const k: nat
    const root: KDNode

    /** Built from at least one point, the tree is a valid k-d tree. */
    ghost predicate Valid() {
      k > 0 && Ordered(root, k) && Axes(root, k, 0) && root.Node?
    }

    /** The body of __init__ once the input has been validated. */
    constructor(points: seq<Point>)
      requires points != [] && Dims(points, |points[0]|)
      requires |points[0]| > 0
      ensures Valid() && k == |points[0]| && multiset(Points(root)) == multiset(points)
    {
      k := |points[0]|;
      root := Build(points, |points[0]|, 0);
      BuildOrdered(points, |points[0]|, 0);
      BuildPoints(points, |points[0]|, 0);
    }

    /** nearest_neighbour: ValueError for a query of another dimension, otherwise a
        stored point no farther from the query than any other. */
    method NearestNeighbour(q: Point) returns (r: Result<Point, KDError>)
      requires Valid()
      ensures |q| != k <==> r == Failure(ValueError)
      ensures r.Success? ==> r.value in Points(root) &&
                             forall p :: p in Points(root) ==> DistSq(q, r.value) <= DistSq(q, p)
    {
      if |q| != k {
        return Failure(ValueError);
      }
      OrderedAxesBelow(root, k);
      var best := Nearest(q, None, root);
      NearestIsNearest(q, None, root);
      NearestFrom(q, None, root);
      return Success(best.value);
    }

    /** points_in_orthotope: ValueError when either bound has another dimension,
        otherwise exactly the stored points inside the box, bounds included. */
    method PointsInOrthotope(lower: Point, upper: Point) returns (r: Result<seq<Point>, KDError>)
      requires Valid()
      ensures |lower| != k || |upper| != k <==> r == Failure(ValueError)
      ensures r.Success? ==> r.value == InBoxPoints(Points(root), lower, upper, k)
    {
      if |lower| != k {
        return Failure(ValueError);
      }
      if |upper| != k {
        return Failure(ValueError);
      }
      var result := PointsInOrthotopeFrom(lower, upper, root, [], k);
      return Success(result);
    }
  }

  /** KDTree(points): ValueError for no points or for points of differing
      dimensionality, otherwise a tree holding exactly those points. */
  method NewKDTree(points: seq<Point>) returns (r: Result<KDTree, KDError>)
    ensures r == Failure(ValueError) <==> points == [] || exists p :: p in points && |p| != |points[0]|
    ensures r == Failure(ZeroDivisionError) <==> points != [] && forall p :: p in points ==> |p| == 0
    ensures r.Success? ==> fresh(r.value) && r.value.Valid() && r.value.k == |points[0]|
    ensures r.Success? ==> multiset(Points(r.value.root)) == multiset(points)
  {
    if points == [] {
      return Failure(ValueError);
    }
    var k := |points[0]|;
    for i := 0 to |points|
      invariant forall j :: 0 <= j < i ==> |points[j]| == k
    {
      if |points[i]| != k {
        return Failure(ValueError);
      }
    }
    if k == 0 {
      return Failure(ZeroDivisionError);
    }
    var t := new KDTree(points);
    return Success(t);
  }
}
