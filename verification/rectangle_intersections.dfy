/** Rectangle intersection counting from geometry/rectangle_intersections.cpp: a sweep
    over the x axis whose "active" rectangles are kept, by their y-range, in an `int`
    copy of the interval search tree.

    The int tree shares every helper with IntervalSearchTree except `insert`, which on
    an exact [lo, hi] match overwrites the value and returns the node without calling
    fix_up. */
module RectangleIntersections {
  import opened Wrappers
  import opened IntervalSearchTree

  // ---------------------------------------------------------------------------
  // The int copy's insert

  /** insert of the int tree: an exact match keeps the node as it is apart from its value. */
  function RectInsert(t: Node<int>, lo: int, hi: int, val: int): (r: Node<int>)
    ensures r.Node?
  {
    if t.Nil? then Node(lo, hi, hi, val, Nil, Nil, 1, true)
    else if lo == t.lo && hi == t.hi then t.(val := val)
    else if lo < t.lo then FixUp(t.(left := RectInsert(t.left, lo, hi, val)))
    else FixUp(t.(right := RectInsert(t.right, lo, hi, val)))
  }

  lemma {:induction false} RectInsertBounds(t: Node<int>, lo: int, hi: int, val: int, b: int)
    ensures LoAtMost(InOrder(t), b) && lo <= b ==> LoAtMost(InOrder(RectInsert(t, lo, hi, val)), b)
    ensures LoAtLeast(InOrder(t), b) && lo >= b ==> LoAtLeast(InOrder(RectInsert(t, lo, hi, val)), b)
  {
    var r := RectInsert(t, lo, hi, val);
    if t.Nil? {
      assert InOrder(r) == [Interval(lo, hi, val)];
    } else {
      BoundsOfNode(t, b);
      if lo == t.lo && hi == t.hi {
        BoundsOfNode(t.(val := val), b);
      } else if lo < t.lo {
        RectInsertBounds(t.left, lo, hi, val, b);
        BoundsOfNode(t.(left := RectInsert(t.left, lo, hi, val)), b);
      } else {
        RectInsertBounds(t.right, lo, hi, val, b);
        BoundsOfNode(t.(right := RectInsert(t.right, lo, hi, val)), b);
      }
    }
  }

  /** The int insert keeps the in-order sequence sorted on `lo`. */
  lemma {:induction false} RectInsertSorted(t: Node<int>, lo: int, hi: int, val: int)
    requires SortedLo(InOrder(t))
    ensures SortedLo(InOrder(RectInsert(t, lo, hi, val)))
  {
    if t.Node? {
      SortedSplit(t);
      if lo == t.lo && hi == t.hi {
        SortedSplit(t.(val := val));
      } else if lo < t.lo {
        RectInsertSorted(t.left, lo, hi, val);
        RectInsertBounds(t.left, lo, hi, val, t.lo);
        SortedSplit(t.(left := RectInsert(t.left, lo, hi, val)));
      } else {
        RectInsertSorted(t.right, lo, hi, val);
        RectInsertBounds(t.right, lo, hi, val, t.lo);
        SortedSplit(t.(right := RectInsert(t.right, lo, hi, val)));
      }
    }
  }

  /** With distinct `lo` values the int insert performs the same map update as put. */
  lemma {:induction false} RectInsertContents(t: Node<int>, lo: int, hi: int, val: int)
    requires StrictLo(InOrder(t)) && CanPut(InOrder(t), lo, hi)
    ensures InOrder(RectInsert(t, lo, hi, val)) == PutSeq(InOrder(t), lo, hi, val)
  {
    if t.Node? {
      var l, r := InOrder(t.left), InOrder(t.right);
      var x := Interval(t.lo, t.hi, t.val);
      StrictSplit(t);
      CanPutParts(l, x, r, lo, hi);
      if lo == t.lo && hi == t.hi {
        PutSeqHere(l, x, r, lo, hi, val);
      } else if lo < t.lo {
        RectInsertContents(t.left, lo, hi, val);
        PutSeqLeft(l, x, r, lo, hi, val);
      } else {
        RectInsertContents(t.right, lo, hi, val);
        PutSeqRight(l, x, r, lo, hi, val);
      }
    }
  }

  /** Skipping fix_up on a match is harmless: the node was already augmented. */
  lemma {:induction false} RectInsertAugmented(t: Node<int>, lo: int, hi: int, val: int)
    requires Augmented(t)
    ensures Augmented(RectInsert(t, lo, hi, val))
  {
    if t.Nil? || (lo == t.lo && hi == t.hi) {
    } else if lo < t.lo {
      RectInsertAugmented(t.left, lo, hi, val);
      FixUpAugmented(t.(left := RectInsert(t.left, lo, hi, val)));
    } else {
      RectInsertAugmented(t.right, lo, hi, val);
      FixUpAugmented(t.(right := RectInsert(t.right, lo, hi, val)));
    }
  }

  /** ...and the shape was already balanced: the same guarantee as the generic insert. */
  lemma {:induction false} RectInsertBalance(t: Node<int>, lo: int, hi: int, val: int)
    requires LLRB(t)
    ensures BlackHeight(RectInsert(t, lo, hi, val)) == BlackHeight(t)
    ensures if IsRed(t) then RedLeftPair(RectInsert(t, lo, hi, val)) else LLRB(RectInsert(t, lo, hi, val))
  {
    if t.Node? {
      if lo == t.lo && hi == t.hi {
      } else if lo < t.lo {
        RectInsertBalance(t.left, lo, hi, val);
        FixUpShape(t.(left := RectInsert(t.left, lo, hi, val)));
      } else {
        RectInsertBalance(t.right, lo, hi, val);
        FixUpShape(t.(right := RectInsert(t.right, lo, hi, val)));
      }
    }
  }

  // ---------------------------------------------------------------------------
  // The int tree object

  class RectTree {
    var root: Node<int>

    ghost predicate Valid()
      reads this
    {
      LLRB(root) && !IsRed(root) && Augmented(root) && SortedLo(InOrder(root))
    }

    constructor()
      ensures Valid() && InOrder(root) == []
    {
      root := Nil;
    }

    /** Move construction takes the other tree's root and leaves the other tree empty. */
    constructor MoveFrom(other: RectTree)
      modifies other
      requires other.Valid()
      ensures Valid() && other.Valid()
      ensures root == old(other.root) && other.root == Nil
    {
      root := other.root;
      other.root := Nil;
    }

    /** Move assignment: unless both are the same tree, take the other tree's root and
        leave the other tree empty (the old nodes are freed). */
    method MoveAssign(other: RectTree)
      modifies this, other
      requires Valid() && other.Valid()
      ensures Valid() && other.Valid()
      ensures other != this ==> root == old(other.root) && other.root == Nil
      ensures other == this ==> root == old(root)
    {
      if other != this {
        root := other.root;
        other.root := Nil;
      }
    }

    /** put with the int insert, then colour the root black. */
    method Put(lo: int, hi: int, val: int)
      modifies this
      requires Valid()
      ensures Valid() && root.Node? && !root.red
      ensures StrictLo(old(InOrder(root))) && CanPut(old(InOrder(root)), lo, hi) ==>
        InOrder(root) == PutSeq(old(InOrder(root)), lo, hi, val) && StrictLo(InOrder(root))
    {
      var r := RectInsert(root, lo, hi, val);
      RectInsertBalance(root, lo, hi, val);
      RectInsertAugmented(root, lo, hi, val);
      RectInsertSorted(root, lo, hi, val);
      if StrictLo(InOrder(root)) && CanPut(InOrder(root), lo, hi) {
        RectInsertContents(root, lo, hi, val);
        PutDelStrict(InOrder(root), lo, hi, val);
      }
      root := Blacken(r);
    }

    /** get: the same loop as the generic tree. */
    method Get(lo: int, hi: int) returns (r: Option<int>)
      ensures r == Find(root, lo, hi)
      ensures r.Some? ==> Interval(lo, hi, r.value) in InOrder(root)
      ensures StrictLo(InOrder(root)) ==> r == Lookup(InOrder(root), lo, hi)
    {
      FindSound(root, lo, hi);
      if StrictLo(InOrder(root)) {
        FindComplete(root, lo, hi);
      }
      var current := root;
      while current.Node?
        invariant Find(current, lo, hi) == Find(root, lo, hi)
        decreases current
      {
        if lo == current.lo && hi == current.hi {
          return Some(current.val);
        }
        current := if lo < current.lo then current.left else current.right;
      }
      return None;
    }

    /** del: a no-op unless get finds the key. */
    method Delete(lo: int, hi: int)
      modifies this
      requires Valid() && StrictLo(InOrder(root))
      ensures Valid() && StrictLo(InOrder(root)) && (root.Node? ==> !root.red)
      ensures InOrder(root) ==
        if Lookup(old(InOrder(root)), lo, hi).Some? then DelSeq(old(InOrder(root)), lo) else old(InOrder(root))
    {
      var found := Get(lo, hi);
      if found.Some? {
        var t := root;
        if !IsRed(t.left) && !IsRed(t.right) {
          t := t.(red := true);
        }
        assert InOrder(t) == InOrder(root);
        DelShape(t, lo, hi);
        DelContents(t, lo, hi);
        DelAugmented(t, lo, hi);
        PutDelStrict(InOrder(t), lo, hi, found.value);
        var r := Del(t, lo, hi);
        StrictIsSorted(InOrder(r));
        root := Blacken(r);
      }
    }

    /** find_intersections from the root. */
    method FindIntersections(lo: int, hi: int) returns (r: seq<int>)
      requires Valid()
      ensures r == OverlapValues(PreOrder(root), lo, hi)
      ensures multiset(r) == multiset(OverlapValues(InOrder(root), lo, hi))
    {
      r := Intersections(root, lo, hi);
      IntersectionsExact(root, lo, hi);
      PreOrderReportsSame(root, lo, hi);
    }
  }

  // ---------------------------------------------------------------------------
  // Events of the sweep

  datatype Point = Point(x: int, y: int)

  datatype Rectangle = Rectangle(id: int, bottomLeft: Point, topRight: Point)

  /** Declared in priority order: a start sorts before an end at the same x. */
  datatype EventType = RectangleStart | RectangleEnd

  function Rank(k: EventType): int {
    if k.RectangleStart? then 0 else 1
  }

  datatype Event = Event(xCoord: int, rect: Rectangle, kind: EventType)

  /** The event constructor: an end event sits at the right edge, a start event at the left. */
  function MakeEvent(rect: Rectangle, kind: EventType): (e: Event)
    ensures e.rect == rect && e.kind == kind
    ensures e.xCoord == (if kind == RectangleEnd then rect.topRight.x else rect.bottomLeft.x)
  {
    Event(if kind == RectangleEnd then rect.topRight.x else rect.bottomLeft.x, rect, kind)
  }

  /** event::operator>: by x, and by type when the x coordinates are equal. */
  predicate Greater(a: Event, b: Event) {
    if a.xCoord == b.xCoord then Rank(a.kind) > Rank(b.kind) else a.xCoord > b.xCoord
  }

  /** operator> is the strict lexicographic order on (x, type): irreflexive, transitive,
      and total up to ties on both coordinates; a start precedes an end at equal x. */
  lemma GreaterIsLexicographic(a: Event, b: Event, c: Event)
    ensures Greater(a, b) <==> a.xCoord > b.xCoord || (a.xCoord == b.xCoord && Rank(a.kind) > Rank(b.kind))
    ensures !Greater(a, a)
    ensures Greater(a, b) && Greater(b, c) ==> Greater(a, c)
    ensures !Greater(a, b) && !Greater(b, a) <==> a.xCoord == b.xCoord && a.kind == b.kind
    ensures a.xCoord == b.xCoord && a.kind == RectangleEnd && b.kind == RectangleStart ==> Greater(a, b)
  {
  }

  /** `e` is pending and no pending event precedes it: the top of the min-priority queue. */
  predicate IsFirst(e: Event, m: multiset<Event>) {
    e in m && forall f :: f in m ==> !Greater(e, f)
  }

  /** A non-empty set of pending events has a first event. */
  lemma {:induction false} HasFirst(m: multiset<Event>)
    requires m != multiset{}
    ensures exists e :: IsFirst(e, m)
    decreases |m|
  {
    var x :| x in m;
    var rest := m - multiset{x};
    assert m == rest + multiset{x};
    if rest == multiset{} {
      forall f | f in m ensures !Greater(x, f) {
        assert f == x;
      }
      assert IsFirst(x, m);
    } else {
      HasFirst(rest);
      var e :| IsFirst(e, rest);
      if Greater(e, x) {
        forall f | f in m ensures !Greater(x, f) {
          if f != x {
            assert f in rest;
            if Greater(x, f) { GreaterIsLexicographic(e, x, f); }
          }
        }
        assert IsFirst(x, m);
      } else {
        forall f | f in m ensures !Greater(e, f) {
          if f != x { assert f in rest; }
        }
        assert IsFirst(e, m);
      }
    }
  }

  /** The start and end events of every rectangle. */
  function AllEvents(rects: seq<Rectangle>): (m: multiset<Event>)
    ensures |m| == 2 * |rects|
  {
    if rects == [] then multiset{}
    else
      var r := rects[|rects| - 1];
      AllEvents(rects[..|rects| - 1]) + multiset{MakeEvent(r, RectangleStart), MakeEvent(r, RectangleEnd)}
  }

  /** A stored interval is the y-range of some rectangle, keyed by its id. */
  ghost predicate FromRects(s: seq<Interval<int>>, rects: seq<Rectangle>) {
    forall e :: e in s ==> exists r :: r in rects && e.lo == r.bottomLeft.y && e.hi == r.topRight.y
  }

  /** Rectangles that share a bottom edge height share their top edge height too, so
      the y-ranges put into the tree never differ in `hi` alone. */
  ghost predicate BottomDeterminesTop(rects: seq<Rectangle>) {
    forall r, q :: r in rects && q in rects && r.bottomLeft.y == q.bottomLeft.y ==> r.topRight.y == q.topRight.y
  }

  lemma AllEventsFrom(rects: seq<Rectangle>, e: Event)
    requires e in AllEvents(rects)
    ensures e.rect in rects && e == MakeEvent(e.rect, e.kind)
  {
    if rects != [] {
      var init := rects[..|rects| - 1];
      if e in AllEvents(init) {
        AllEventsFrom(init, e);
        assert e.rect in init;
      }
    }
  }

  lemma FromRectsCanPut(s: seq<Interval<int>>, rects: seq<Rectangle>, r: Rectangle)
    requires FromRects(s, rects) && BottomDeterminesTop(rects) && r in rects
    ensures CanPut(s, r.bottomLeft.y, r.topRight.y)
  {
    forall i | 0 <= i < |s| && s[i].lo == r.bottomLeft.y ensures s[i].hi == r.topRight.y {
      assert s[i] in s;
    }
  }

  lemma FromRectsUpdate(s: seq<Interval<int>>, rects: seq<Rectangle>, r: Rectangle, val: int)
    requires FromRects(s, rects) && r in rects
    ensures FromRects(PutSeq(s, r.bottomLeft.y, r.topRight.y, val), rects)
    ensures FromRects(DelSeq(s, r.bottomLeft.y), rects)
  {
    PutDelEntries(s, r.bottomLeft.y, r.topRight.y, val);
  }

  /** The interval a rectangle's y-range is stored as, under its id. */
  function Entry(r: Rectangle): Interval<int> {
    Interval(r.bottomLeft.y, r.topRight.y, r.id)
  }

  /** What handling one event does to the active y-ranges: a start puts its y-range,
      an end deletes it when get finds it. */
  function Step(s: seq<Interval<int>>, e: Event): seq<Interval<int>> {
    var lo, hi := e.rect.bottomLeft.y, e.rect.topRight.y;
    if e.kind == RectangleStart then PutSeq(s, lo, hi, e.rect.id)
    else if Lookup(s, lo, hi).Some? then DelSeq(s, lo)
    else s
  }

  /** What handling one event adds to the count: the number of active y-ranges a
      start event's y-range overlaps. */
  function Found(s: seq<Interval<int>>, e: Event): nat {
    if e.kind == RectangleStart then |OverlapValues(s, e.rect.bottomLeft.y, e.rect.topRight.y)| else 0
  }

  /** The active y-ranges once the events of `order` have been handled in turn. */
  function Active(order: seq<Event>): seq<Interval<int>> {
    if order == [] then [] else Step(Active(order[..|order| - 1]), order[|order| - 1])
  }

  /** The count once the events of `order` have been handled in turn. */
  function SweepCount(order: seq<Event>): nat {
    if order == [] then 0
    else SweepCount(order[..|order| - 1]) + Found(Active(order[..|order| - 1]), order[|order| - 1])
  }

  /** Handling one more event: its step applies to the active entries, and what it
      finds is added to the count. */
  lemma SweepExtend(order: seq<Event>, e: Event)
    ensures Active(order + [e]) == Step(Active(order), e)
    ensures SweepCount(order + [e]) == SweepCount(order) + Found(Active(order), e)
  {
    assert (order + [e])[..|order|] == order;
  }

  /** One step of the sweep: a start adds the number of active intervals overlapping
      its y-range to the count and then puts its own y-range; an end deletes its y-range. */
  method HandleEvent(ist: RectTree, e: Event, count: nat, ghost rects: seq<Rectangle>) returns (count': nat)
    modifies ist
    requires ist.Valid() && StrictLo(InOrder(ist.root)) && FromRects(InOrder(ist.root), rects)
    requires BottomDeterminesTop(rects) && e.rect in rects
    ensures ist.Valid() && StrictLo(InOrder(ist.root)) && FromRects(InOrder(ist.root), rects)
    ensures count' == count + Found(old(InOrder(ist.root)), e)
    ensures InOrder(ist.root) == Step(old(InOrder(ist.root)), e)
  {
    var lo, hi := e.rect.bottomLeft.y, e.rect.topRight.y;
    ghost var before := InOrder(ist.root);
    FromRectsUpdate(before, rects, e.rect, e.rect.id);
    if e.kind == RectangleStart {
      var i := ist.FindIntersections(lo, hi);
      assert |i| == |multiset(i)|;
      count' := count + |i|;
      FromRectsCanPut(before, rects, e.rect);
      ist.Put(lo, hi, e.rect.id);
    } else {
      count' := count;
      ist.Delete(lo, hi);
    }
  }

  /** The sweep of main: pop the events in priority order and handle each. Every event
      is handled once, in an order where no handled event is greater than a later one,
      and the count is what handling them in that order adds up to. */
  method CountIntersections(rects: seq<Rectangle>) returns (count: nat, ghost order: seq<Event>)
    requires BottomDeterminesTop(rects)
    ensures multiset(order) == AllEvents(rects)
    ensures forall i, j :: 0 <= i < j < |order| ==> !Greater(order[i], order[j])
    ensures count == SweepCount(order)
  {
    var events := AllEvents(rects);
    count := 0;
    order := [];
    var ist := new RectTree();
    while events != multiset{}
      invariant ist.Valid() && StrictLo(InOrder(ist.root)) && FromRects(InOrder(ist.root), rects)
      invariant multiset(order) + events == AllEvents(rects)
      invariant forall i, j :: 0 <= i < j < |order| ==> !Greater(order[i], order[j])
      invariant forall i, f :: 0 <= i < |order| && f in events ==> !Greater(order[i], f)
      invariant InOrder(ist.root) == Active(order) && count == SweepCount(order)
      decreases |events|
    {
      HasFirst(events);
      var e :| IsFirst(e, events);
      AllEventsFrom(rects, e);
      count := HandleEvent(ist, e, count, rects);
      SweepStep(order, events, e);
      events := events - multiset{e};
      SweepExtend(order, e);
      order := order + [e];
    }
  }

  /** Every rectangle's left edge is no further right than its right edge. */
  ghost predicate WellFormed(rects: seq<Rectangle>) {
    forall r :: r in rects ==> r.bottomLeft.x <= r.topRight.x
  }

  /** No two different rectangles share the height of their bottom edge. */
  ghost predicate DistinctBottoms(rects: seq<Rectangle>) {
    forall r, q :: r in rects && q in rects && r.bottomLeft.y == q.bottomLeft.y ==> r == q
  }

  /** The first k events hold the start of `q` but not its end: `q` is active there. */
  ghost predicate Open(order: seq<Event>, k: nat, q: Rectangle)
    requires k <= |order|
  {
    MakeEvent(q, RectangleStart) in order[..k] && MakeEvent(q, RectangleEnd) !in order[..k]
  }

  /** In a sweep order a rectangle's end never comes before its start. */
  lemma EndAfterStart(rects: seq<Rectangle>, order: seq<Event>, k: nat)
    requires WellFormed(rects)
    requires forall i, j :: 0 <= i < j < |order| ==> !Greater(order[i], order[j])
    requires k < |order| && order[k].rect in rects && order[k] == MakeEvent(order[k].rect, RectangleStart)
    ensures MakeEvent(order[k].rect, RectangleEnd) !in order[..k]
  {
    var r := order[k].rect;
    forall i | 0 <= i < k ensures order[..k][i] != MakeEvent(r, RectangleEnd) {
      assert !Greater(order[i], order[k]);
    }
  }

  /** With well-formed rectangles whose bottom edges are distinct, the active y-ranges
      after the first k events of the sweep are exactly those of the rectangles whose
      start is among those events and whose end is not, and no two share a `lo`. */
  lemma {:induction false} ActiveExact(rects: seq<Rectangle>, order: seq<Event>, k: nat)
    requires WellFormed(rects) && DistinctBottoms(rects)
    requires multiset(order) == AllEvents(rects)
    requires forall i, j :: 0 <= i < j < |order| ==> !Greater(order[i], order[j])
    requires k <= |order|
    ensures StrictLo(Active(order[..k]))
    ensures forall q :: q in rects ==> (Entry(q) in Active(order[..k]) <==> Open(order, k, q))
    ensures forall e :: e in Active(order[..k]) ==> exists q :: q in rects && e == Entry(q)
  {
    if k > 0 {
      ActiveExact(rects, order, k - 1);
      assert order[..k] == order[..k - 1] + [order[k - 1]];
      SweepExtend(order[..k - 1], order[k - 1]);
      ActiveStep(rects, order, k, Active(order[..k - 1]));
    }
  }

  /** ActiveExact across the k-th event, from the active entries `s` before it. */
  lemma ActiveStep(rects: seq<Rectangle>, order: seq<Event>, k: nat, s: seq<Interval<int>>)
    requires WellFormed(rects) && DistinctBottoms(rects)
    requires multiset(order) == AllEvents(rects)
    requires forall i, j :: 0 <= i < j < |order| ==> !Greater(order[i], order[j])
    requires 0 < k <= |order|
    requires StrictLo(s)
    requires forall q :: q in rects ==> (Entry(q) in s <==> Open(order, k - 1, q))
    requires forall x :: x in s ==> exists q :: q in rects && x == Entry(q)
    ensures var s' := Step(s, order[k - 1]);
      StrictLo(s') &&
      (forall q :: q in rects ==> (Entry(q) in s' <==> Open(order, k, q))) &&
      (forall x :: x in s' ==> exists q :: q in rects && x == Entry(q))
  {
    var e := order[k - 1];
    assert e in multiset(order);
    AllEventsFrom(rects, e);
    var r := e.rect;
    PutDelStrict(s, r.bottomLeft.y, r.topRight.y, r.id);
    PutDelEntries(s, r.bottomLeft.y, r.topRight.y, r.id);
    if e.kind == RectangleStart {
      EndAfterStart(rects, order, k - 1);
      StartStep(rects, order, k, s, Step(s, e));
    } else {
      LookupMeaning(s, r.bottomLeft.y, r.topRight.y);
      if Lookup(s, r.bottomLeft.y, r.topRight.y).Some? {
        var i :| 0 <= i < |s| && s[i] == Interval(r.bottomLeft.y, r.topRight.y, Lookup(s, r.bottomLeft.y, r.topRight.y).value);
        assert s[i] in s;
        var q :| q in rects && s[i] == Entry(q);
        assert q == r;
      }
      EndStep(rects, order, k, s, Step(s, e));
    }
  }

  /** The distinct stored entries that overlap [lo, hi]. */
  ghost function Hits(s: seq<Interval<int>>, lo: int, hi: int): set<Interval<int>> {
    set x | x in s && Overlaps(x, lo, hi)
  }

  lemma StrictTail(s: seq<Interval<int>>)
    requires StrictLo(s) && s != []
    ensures StrictLo(s[1..]) && s[0] !in s[1..]
  {
    var rest := s[1..];
    forall i, j | 0 <= i < j < |rest| ensures rest[i].lo < rest[j].lo {
      assert rest[i] == s[i + 1] && rest[j] == s[j + 1];
    }
    forall i | 0 <= i < |rest| ensures rest[i] != s[0] {
      assert rest[i] == s[i + 1];
    }
  }

  lemma HitsCons(s: seq<Interval<int>>, lo: int, hi: int)
    requires s != []
    ensures Hits(s, lo, hi) == (if Overlaps(s[0], lo, hi) then {s[0]} else {}) + Hits(s[1..], lo, hi)
  {
    assert s == [s[0]] + s[1..];
  }

  /** With distinct `lo` values, the number of values reported for [lo, hi] is the
      number of distinct stored entries overlapping it. */
  lemma {:induction false} OverlapCount(s: seq<Interval<int>>, lo: int, hi: int)
    requires StrictLo(s)
    ensures |OverlapValues(s, lo, hi)| == |Hits(s, lo, hi)|
  {
    if s != [] {
      StrictTail(s);
      OverlapCount(s[1..], lo, hi);
      HitsCons(s, lo, hi);
      assert s[0] !in Hits(s[1..], lo, hi);
    }
  }

  /** Distinct bottom edges make the entries of distinct rectangles distinct, so a set
      of rectangles has as many entries as members. */
  lemma {:induction false} EntryCount(rects: seq<Rectangle>, qs: set<Rectangle>)
    requires DistinctBottoms(rects) && forall q :: q in qs ==> q in rects
    ensures |set q | q in qs :: Entry(q)| == |qs|
    decreases |qs|
  {
    if qs != {} {
      var q :| q in qs;
      var rest := qs - {q};
      EntryCount(rects, rest);
      var img := set x | x in qs :: Entry(x);
      var restImg := set x | x in rest :: Entry(x);
      assert Entry(q) !in restImg;
      assert img == restImg + {Entry(q)};
    }
  }

  /** The rectangles open after the first k events whose y-range overlaps [lo, hi]. */
  ghost function OpenOverlapping(rects: seq<Rectangle>, order: seq<Event>, k: nat, lo: int, hi: int): set<Rectangle>
    requires k <= |order|
  {
    set q | q in rects && Open(order, k, q) && q.bottomLeft.y <= hi && q.topRight.y >= lo
  }

  /** What a start event adds to the count, in terms of rectangles: the number of
      rectangles open at that point of the sweep whose y-range overlaps its own. */
  lemma FoundCounts(rects: seq<Rectangle>, order: seq<Event>, k: nat)
    requires WellFormed(rects) && DistinctBottoms(rects)
    requires multiset(order) == AllEvents(rects)
    requires forall i, j :: 0 <= i < j < |order| ==> !Greater(order[i], order[j])
    requires 0 < k <= |order| && order[k - 1].kind == RectangleStart
    ensures var r := order[k - 1].rect;
      Found(Active(order[..k - 1]), order[k - 1]) ==
        |OpenOverlapping(rects, order, k - 1, r.bottomLeft.y, r.topRight.y)|
  {
    var r := order[k - 1].rect;
    var lo, hi := r.bottomLeft.y, r.topRight.y;
    var s := Active(order[..k - 1]);
    ActiveExact(rects, order, k - 1);
    OverlapCount(s, lo, hi);
    var qs := OpenOverlapping(rects, order, k - 1, lo, hi);
    EntryCount(rects, qs);
    HitsAreOpen(rects, order, k - 1, s, lo, hi);
  }

  /** The overlapping active entries are the entries of the open overlapping rectangles. */
  lemma HitsAreOpen(rects: seq<Rectangle>, order: seq<Event>, k: nat, s: seq<Interval<int>>, lo: int, hi: int)
    requires k <= |order|
    requires forall q :: q in rects ==> (Entry(q) in s <==> Open(order, k, q))
    requires forall x :: x in s ==> exists q :: q in rects && x == Entry(q)
    ensures Hits(s, lo, hi) == set q | q in OpenOverlapping(rects, order, k, lo, hi) :: Entry(q)
  {
    var qs := OpenOverlapping(rects, order, k, lo, hi);
    forall x | x in Hits(s, lo, hi) ensures x in set q | q in qs :: Entry(q) {
      var q :| q in rects && x == Entry(q);
      assert q in qs;
    }
  }

  /** ActiveExact across a start event of `r`, from the active entries `s` to `s'`. */
  lemma StartStep(rects: seq<Rectangle>, order: seq<Event>, k: nat, s: seq<Interval<int>>, s': seq<Interval<int>>)
    requires DistinctBottoms(rects)
    requires 0 < k <= |order| && order[k - 1].rect in rects
    requires order[k - 1] == MakeEvent(order[k - 1].rect, RectangleStart)
    requires MakeEvent(order[k - 1].rect, RectangleEnd) !in order[..k - 1]
    requires forall q :: q in rects ==> (Entry(q) in s <==> Open(order, k - 1, q))
    requires forall x :: x in s ==> exists q :: q in rects && x == Entry(q)
    requires forall x :: x in s' <==> x == Entry(order[k - 1].rect) || (x in s && x.lo != order[k - 1].rect.bottomLeft.y)
    ensures forall q :: q in rects ==> (Entry(q) in s' <==> Open(order, k, q))
    ensures forall x :: x in s' ==> exists q :: q in rects && x == Entry(q)
  {
    var p, e, r := order[..k - 1], order[k - 1], order[k - 1].rect;
    assert order[..k] == p + [e];
    forall q | q in rects ensures Entry(q) in s' <==> Open(order, k, q) {
      if q == r {
        assert MakeEvent(q, RectangleStart) in order[..k];
      } else {
        assert MakeEvent(q, RectangleStart) != e && MakeEvent(q, RectangleEnd) != e;
        assert MakeEvent(q, RectangleStart) in order[..k] <==> MakeEvent(q, RectangleStart) in p;
        assert MakeEvent(q, RectangleEnd) in order[..k] <==> MakeEvent(q, RectangleEnd) in p;
      }
    }
  }

  /** ActiveExact across an end event of `r`, from the active entries `s` to `s'`. */
  lemma EndStep(rects: seq<Rectangle>, order: seq<Event>, k: nat, s: seq<Interval<int>>, s': seq<Interval<int>>)
    requires DistinctBottoms(rects)
    requires 0 < k <= |order| && order[k - 1].rect in rects
    requires order[k - 1] == MakeEvent(order[k - 1].rect, RectangleEnd)
    requires forall q :: q in rects ==> (Entry(q) in s <==> Open(order, k - 1, q))
    requires forall x :: x in s ==> exists q :: q in rects && x == Entry(q)
    requires Entry(order[k - 1].rect) in s ==>
      forall x :: x in s' <==> x in s && x.lo != order[k - 1].rect.bottomLeft.y
    requires Entry(order[k - 1].rect) !in s ==> s' == s
    ensures forall q :: q in rects ==> (Entry(q) in s' <==> Open(order, k, q))
    ensures forall x :: x in s' ==> exists q :: q in rects && x == Entry(q)
  {
    var p, e, r := order[..k - 1], order[k - 1], order[k - 1].rect;
    assert order[..k] == p + [e];
    forall q | q in rects ensures Entry(q) in s' <==> Open(order, k, q) {
      if q == r {
        assert MakeEvent(q, RectangleEnd) in order[..k];
      } else {
        assert MakeEvent(q, RectangleStart) != e && MakeEvent(q, RectangleEnd) != e;
        assert MakeEvent(q, RectangleStart) in order[..k] <==> MakeEvent(q, RectangleStart) in p;
        assert MakeEvent(q, RectangleEnd) in order[..k] <==> MakeEvent(q, RectangleEnd) in p;
      }
    }
  }

  /** Three rectangles with the same y-range: A = (0, 0)-(10, 1) meets both
      B = (1, 0)-(2, 1) and C = (5, 0)-(6, 1), which do not meet each other. */
  const SharedA := Rectangle(0, Point(0, 0), Point(10, 1))
  const SharedB := Rectangle(1, Point(1, 0), Point(2, 1))
  const SharedC := Rectangle(2, Point(5, 0), Point(6, 1))

  /** The order the priority queue hands their events out in. */
  function SharedOrder(): seq<Event> {
    [MakeEvent(SharedA, RectangleStart), MakeEvent(SharedB, RectangleStart), MakeEvent(SharedB, RectangleEnd),
     MakeEvent(SharedC, RectangleStart), MakeEvent(SharedC, RectangleEnd), MakeEvent(SharedA, RectangleEnd)]
  }

  lemma SharedOrderSorted()
    ensures forall i, j :: 0 <= i < j < |SharedOrder()| ==> !Greater(SharedOrder()[i], SharedOrder()[j])
  {
  }

  lemma SharedOrderEvents()
    ensures multiset(SharedOrder()) == AllEvents([SharedA, SharedB, SharedC])
  {
    var sa, ea := MakeEvent(SharedA, RectangleStart), MakeEvent(SharedA, RectangleEnd);
    var sb, eb := MakeEvent(SharedB, RectangleStart), MakeEvent(SharedB, RectangleEnd);
    var sc, ec := MakeEvent(SharedC, RectangleStart), MakeEvent(SharedC, RectangleEnd);
    assert [SharedA, SharedB, SharedC][..2] == [SharedA, SharedB];
    assert [SharedA, SharedB][..1] == [SharedA];
    assert [SharedA][..0] == [];
    assert AllEvents([SharedA]) == multiset{sa, ea};
    assert AllEvents([SharedA, SharedB]) == multiset{sa, ea} + multiset{sb, eb};
    assert AllEvents([SharedA, SharedB, SharedC]) == multiset{sa, ea} + multiset{sb, eb} + multiset{sc, ec};
    assert SharedOrder() == [sa] + [sb, eb] + [sc, ec] + [ea];
    assert multiset(SharedOrder()) == multiset{sa} + multiset{sb, eb} + multiset{sc, ec} + multiset{ea};
  }

  /** Rectangles that share their y-range share one entry: B's start overwrites the
      entry A left open and B's end deletes it, so when C starts nothing is active and
      the sweep counts one intersection where there are two. */
  lemma SharedRangeMissed()
    ensures SweepCount(SharedOrder()) == 1
  {
    var e := SharedOrder();
    SharedFirstHalf();
    assert Below([Interval(0, 1, 1)], 0) == [] && Above([Interval(0, 1, 1)], 0) == [];
    SweepExtend(e[..2], e[2]);
    assert e[..2] + [e[2]] == e[..3];
    assert Active(e[..3]) == [] && SweepCount(e[..3]) == 1;
    SweepExtend(e[..3], e[3]);
    assert e[..3] + [e[3]] == e[..4];
    assert Active(e[..4]) == [Interval(0, 1, 2)] && SweepCount(e[..4]) == 1;
    assert Below([Interval(0, 1, 2)], 0) == [] && Above([Interval(0, 1, 2)], 0) == [];
    SweepExtend(e[..4], e[4]);
    assert e[..4] + [e[4]] == e[..5];
    assert Active(e[..5]) == [] && SweepCount(e[..5]) == 1;
    SweepExtend(e[..5], e[5]);
    assert e[..5] + [e[5]] == e;
  }

  /** After the two starts, B's entry has replaced A's and one intersection is counted. */
  lemma SharedFirstHalf()
    ensures Active(SharedOrder()[..2]) == [Interval(0, 1, 1)] && SweepCount(SharedOrder()[..2]) == 1
  {
    var e := SharedOrder();
    var none: seq<Interval<int>> := [];
    assert Below(none, 0) == [] && Above(none, 0) == [];
    SweepExtend([], e[0]);
    assert [] + [e[0]] == e[..1];
    assert Active(e[..1]) == [Interval(0, 1, 0)] && SweepCount(e[..1]) == 0;
    assert Below([Interval(0, 1, 0)], 0) == [] && Above([Interval(0, 1, 0)], 0) == [];
    SweepExtend(e[..1], e[1]);
    assert e[..1] + [e[1]] == e[..2];
  }

  /** Handing out the first pending event keeps the handled events in order and ahead
      of every event still pending. */
  lemma SweepStep(order: seq<Event>, events: multiset<Event>, e: Event)
    requires IsFirst(e, events)
    requires forall i, j :: 0 <= i < j < |order| ==> !Greater(order[i], order[j])
    requires forall i, f :: 0 <= i < |order| && f in events ==> !Greater(order[i], f)
    ensures multiset(order + [e]) + (events - multiset{e}) == multiset(order) + events
    ensures forall i, j :: 0 <= i < j < |order + [e]| ==> !Greater((order + [e])[i], (order + [e])[j])
    ensures forall i, f :: 0 <= i < |order + [e]| && f in events - multiset{e} ==> !Greater((order + [e])[i], f)
  {
    var o := order + [e];
    assert multiset(o) == multiset(order) + multiset{e};
    forall i, j | 0 <= i < j < |o| ensures !Greater(o[i], o[j]) {
      if j < |order| { assert o[i] == order[i] && o[j] == order[j]; }
      else { assert o[i] == order[i] && o[j] == e; }
    }
    forall i, f | 0 <= i < |o| && f in events - multiset{e} ensures !Greater(o[i], f) {
      assert f in events;
      if i < |order| { assert o[i] == order[i]; }
      else { assert o[i] == e; }
    }
  }
}
