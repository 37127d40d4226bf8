/** The named steps of Johnson's all-pairs shortest paths, from
    graphs/johnson.cpp: relaxing one edge for one root, the Bellman–Ford passes
    with their early stop and their negative-cycle check, and the recursive
    rewrite of path weights down the tree of parent links.

    A vertex keeps, for each root, the pair {distance from the root, parent};
    INT_MAX as parent marks a vertex the root has not reached. Reading a missing
    root with operator[] adds the pair {0, 0}; relax_edge is modelled with that
    insertion, and its properties are stated for vertices that already hold an
    entry for the root, as main gives every vertex (lines 119-126 and 150). */
module Johnson {

  /** INT_MAX. */
  const Inf := 0x7fff_ffff

  /** SIZE_MAX: `vertices.size() - 1` on an empty vector wraps to it. */
  const SizeMax := 0xffff_ffff_ffff_ffff

  /** {distance from the root, parent id}. */
  datatype Path = Path(dist: int, parent: int)

  datatype Vertex = Vertex(id: int, outgoing: map<int, int>, shortest: map<int, Path>)

  datatype Edge = Edge(source: int, dest: int, weight: int)

  /** `vertices[v].shortest_to_me[root]` as operator[] reads it: {0, 0} for a
      missing root. */
  function At(vs: seq<Vertex>, v: int, root: int): Path
    requires 0 <= v < |vs|
  {
    if root in vs[v].shortest then vs[v].shortest[root] else Path(0, 0)
  }

  /** `vertices[v].shortest_to_me[root] = p`. */
  function Put(vs: seq<Vertex>, v: int, root: int, p: Path): (r: seq<Vertex>)
    requires 0 <= v < |vs|
    ensures |r| == |vs| && At(r, v, root) == p
    ensures forall x, k :: 0 <= x < |vs| && (x != v || k != root) ==> At(r, x, k) == At(vs, x, k)
  {
    vs[v := vs[v].(shortest := vs[v].shortest[root := p])]
  }

  /** Every vertex holds an entry for `root`. */
  ghost predicate Settled(vs: seq<Vertex>, root: int) {
    forall v :: 0 <= v < |vs| ==> root in vs[v].shortest
  }

  /** Every edge joins two vertices. */
  ghost predicate ValidEdges(n: int, edges: seq<Edge>) {
    forall i :: 0 <= i < |edges| ==> 0 <= edges[i].source < n && 0 <= edges[i].dest < n
  }

  /** `vs'` differs from `vs` at most in root entries it adds or changes. */
  ghost predicate Grows(vs: seq<Vertex>, vs': seq<Vertex>) {
    |vs'| == |vs| &&
    forall v :: 0 <= v < |vs| ==>
      vs'[v].id == vs[v].id && vs'[v].outgoing == vs[v].outgoing && vs[v].shortest.Keys <= vs'[v].shortest.Keys
  }

  /** Writing the entry a read just returned changes nothing when the entry is
      present. */
  lemma PutPresent(vs: seq<Vertex>, v: int, root: int)
    requires 0 <= v < |vs| && root in vs[v].shortest
    ensures Put(vs, v, root, At(vs, v, root)) == vs
  {
    assert vs[v].shortest[root := vs[v].shortest[root]] == vs[v].shortest;
    assert vs[v].(shortest := vs[v].shortest) == vs[v];
  }

  lemma PutGrows(vs: seq<Vertex>, v: int, root: int, p: Path)
    requires 0 <= v < |vs|
    ensures Grows(vs, Put(vs, v, root, p))
  {
  }

  // ---------------------------------------------------------------------------
  // relax_edge

  /** relax_edge: false, once the source's entry is read, when the root has not
      reached the source; otherwise the destination's entry is read, and when
      the root has not reached it or it lies further than the source plus the
      weight, it becomes {source distance + weight, source} and the result is
      true. */
  function Relax(vs: seq<Vertex>, e: Edge, root: int): (r: (bool, seq<Vertex>))
    requires 0 <= e.source < |vs| && 0 <= e.dest < |vs|
    ensures Grows(vs, r.1)
    ensures r.0 ==> At(vs, e.source, root).parent != Inf
    ensures r.0 ==> At(r.1, e.dest, root) == Path(At(vs, e.source, root).dist + e.weight, e.source)
  {
    var s := At(vs, e.source, root);
    var vs1 := Put(vs, e.source, root, s);
    if s.parent == Inf then (false, vs1)
    else
      var d := At(vs1, e.dest, root);
      var vs2 := Put(vs1, e.dest, root, d);
      PutGrows(vs, e.source, root, s);
      PutGrows(vs1, e.dest, root, d);
      if d.parent == Inf || d.dist > s.dist + e.weight then
        PutGrows(vs2, e.dest, root, Path(s.dist + e.weight, e.source));
        (true, Put(vs2, e.dest, root, Path(s.dist + e.weight, e.source)))
      else (false, vs2)
  }

  /** With the root's entries present, an unreached source leaves everything
      as it was. */
  lemma RelaxUnreached(vs: seq<Vertex>, e: Edge, root: int)
    requires 0 <= e.source < |vs| && 0 <= e.dest < |vs| && Settled(vs, root)
    requires At(vs, e.source, root).parent == Inf
    ensures Relax(vs, e, root) == (false, vs)
  {
    PutPresent(vs, e.source, root);
  }

  /** With the root's entries present and the source reached, the edge relaxes
      exactly when the destination is unreached or further than the source plus
      the weight; relaxing rewrites only the destination's entry, and otherwise
      nothing changes. */
  lemma RelaxReached(vs: seq<Vertex>, e: Edge, root: int)
    requires 0 <= e.source < |vs| && 0 <= e.dest < |vs| && Settled(vs, root)
    requires At(vs, e.source, root).parent != Inf
    ensures var s, d := At(vs, e.source, root), At(vs, e.dest, root);
      Relax(vs, e, root).0 <==> d.parent == Inf || d.dist > s.dist + e.weight
    ensures Relax(vs, e, root).0 ==>
      Relax(vs, e, root).1 == Put(vs, e.dest, root, Path(At(vs, e.source, root).dist + e.weight, e.source))
    ensures !Relax(vs, e, root).0 ==> Relax(vs, e, root).1 == vs
  {
    PutPresent(vs, e.source, root);
    PutPresent(vs, e.dest, root);
  }

  /** An edge that does not relax changes nothing, given the root's entries. */
  lemma RelaxQuiet(vs: seq<Vertex>, e: Edge, root: int)
    requires 0 <= e.source < |vs| && 0 <= e.dest < |vs| && Settled(vs, root)
    requires !Relax(vs, e, root).0
    ensures Relax(vs, e, root).1 == vs
  {
    if At(vs, e.source, root).parent == Inf {
      RelaxUnreached(vs, e, root);
    } else {
      RelaxReached(vs, e, root);
    }
  }

  /** relax_edge, on the vertex vector passed by reference. */
  method RelaxEdge(e: Edge, vertices: seq<Vertex>, root: int) returns (relaxed: bool, vertices': seq<Vertex>)
    requires 0 <= e.source < |vertices| && 0 <= e.dest < |vertices|
    ensures (relaxed, vertices') == Relax(vertices, e, root)
  {
    var s := At(vertices, e.source, root);
    vertices' := Put(vertices, e.source, root, s);
    if s.parent == Inf {
      return false, vertices';
    }
    var d := At(vertices', e.dest, root);
    vertices' := Put(vertices', e.dest, root, d);
    if d.parent == Inf || d.dist > s.dist + e.weight {
      vertices' := Put(vertices', e.dest, root, Path(s.dist + e.weight, e.source));
      return true, vertices';
    }
    return false, vertices';
  }

  /** Relaxation keeps every vertex's entry for every root it had. */
  lemma GrowsSettled(vs: seq<Vertex>, vs': seq<Vertex>, root: int)
    requires Grows(vs, vs') && Settled(vs, root)
    ensures Settled(vs', root)
  {
    forall v | 0 <= v < |vs'| ensures root in vs'[v].shortest {
      assert root in vs[v].shortest;
    }
  }

  // ---------------------------------------------------------------------------
  // bellman_ford

  /** One pass of relax_edge over the edges in order, and whether any of them
      relaxed. */
  function PassFrom(vs: seq<Vertex>, edges: seq<Edge>, root: int): (r: (bool, seq<Vertex>))
    requires ValidEdges(|vs|, edges)
    ensures Grows(vs, r.1)
    decreases |edges|
  {
    if edges == [] then (false, vs)
    else
      var first := Relax(vs, edges[0], root);
      var rest := PassFrom(first.1, edges[1..], root);
      (first.0 || rest.0, rest.1)
  }

  /** The check pass: relax_edge over the edges in order, stopping with false at
      the first that relaxes. */
  function CheckFrom(vs: seq<Vertex>, edges: seq<Edge>, root: int): (r: (bool, seq<Vertex>))
    requires ValidEdges(|vs|, edges)
    ensures Grows(vs, r.1)
    decreases |edges|
  {
    if edges == [] then (true, vs)
    else
      var first := Relax(vs, edges[0], root);
      if first.0 then (false, first.1)
      else CheckFrom(first.1, edges[1..], root)
  }

  /** The number of passes bellman_ford runs at most: `vertices.size() - 1`,
      computed in size_t. */
  function PassLimit(n: nat): nat {
    if n == 0 then SizeMax else n - 1
  }

  /** Up to `n` passes, stopping after the first that relaxes nothing. */
  function Passes(vs: seq<Vertex>, edges: seq<Edge>, root: int, n: nat): (r: seq<Vertex>)
    requires ValidEdges(|vs|, edges)
    ensures |r| == |vs|
    decreases n
  {
    if n == 0 then vs
    else
      var pass := PassFrom(vs, edges, root);
      if !pass.0 then pass.1 else Passes(pass.1, edges, root, n - 1)
  }

  /** Exactly `n` passes, with no early stop. */
  function Repeat(vs: seq<Vertex>, edges: seq<Edge>, root: int, n: nat): (r: seq<Vertex>)
    requires ValidEdges(|vs|, edges)
    ensures |r| == |vs|
    decreases n
  {
    if n == 0 then vs else Repeat(PassFrom(vs, edges, root).1, edges, root, n - 1)
  }

  /** The check pass returns false exactly when a full pass would relax some
      edge: both see the same states up to the first edge that relaxes. */
  lemma {:induction false} CheckIsPass(vs: seq<Vertex>, edges: seq<Edge>, root: int)
    requires ValidEdges(|vs|, edges)
    ensures CheckFrom(vs, edges, root).0 <==> !PassFrom(vs, edges, root).0
    decreases |edges|
  {
    if edges != [] {
      var first := Relax(vs, edges[0], root);
      CheckIsPass(first.1, edges[1..], root);
    }
  }

  /** A pass that relaxes nothing changes nothing, given the root's entries. */
  lemma {:induction false} QuietPass(vs: seq<Vertex>, edges: seq<Edge>, root: int)
    requires ValidEdges(|vs|, edges) && Settled(vs, root)
    requires !PassFrom(vs, edges, root).0
    ensures PassFrom(vs, edges, root).1 == vs
    decreases |edges|
  {
    if edges != [] {
      RelaxQuiet(vs, edges[0], root);
      QuietPass(vs, edges[1..], root);
    }
  }

  /** Passes after a quiet one change nothing. */
  lemma {:induction false} RepeatQuiet(vs: seq<Vertex>, edges: seq<Edge>, root: int, n: nat)
    requires ValidEdges(|vs|, edges) && Settled(vs, root)
    requires !PassFrom(vs, edges, root).0
    ensures Repeat(vs, edges, root, n) == vs
    decreases n
  {
    if n > 0 {
      QuietPass(vs, edges, root);
      RepeatQuiet(vs, edges, root, n - 1);
    }
  }

  /** Stopping after a quiet pass gives what running every pass gives: the
      early break of bellman_ford only saves work. */
  lemma {:induction false} EarlyStop(vs: seq<Vertex>, edges: seq<Edge>, root: int, n: nat)
    requires ValidEdges(|vs|, edges) && Settled(vs, root)
    ensures Passes(vs, edges, root, n) == Repeat(vs, edges, root, n)
    decreases n
  {
    if n > 0 {
      var pass := PassFrom(vs, edges, root);
      if !pass.0 {
        QuietPass(vs, edges, root);
        RepeatQuiet(vs, edges, root, n - 1);
      } else {
        GrowsSettled(vs, pass.1, root);
        EarlyStop(pass.1, edges, root, n - 1);
      }
    }
  }

  /** The edge cannot be relaxed: when the root reaches its source, it reaches
      its destination at most the source's distance plus the weight away. */
  ghost predicate EdgeTight(vs: seq<Vertex>, e: Edge, root: int)
    requires 0 <= e.source < |vs| && 0 <= e.dest < |vs|
  {
    At(vs, e.source, root).parent != Inf ==>
      At(vs, e.dest, root).parent != Inf && At(vs, e.dest, root).dist <= At(vs, e.source, root).dist + e.weight
  }

  ghost predicate Feasible(vs: seq<Vertex>, edges: seq<Edge>, root: int)
    requires ValidEdges(|vs|, edges)
  {
    forall i :: 0 <= i < |edges| ==> EdgeTight(vs, edges[i], root)
  }

  /** A check pass that returns true changes nothing, and then no edge can be
      relaxed. */
  lemma {:induction false} CheckFeasible(vs: seq<Vertex>, edges: seq<Edge>, root: int)
    requires ValidEdges(|vs|, edges) && Settled(vs, root)
    requires CheckFrom(vs, edges, root).0
    ensures CheckFrom(vs, edges, root).1 == vs && Feasible(vs, edges, root)
    decreases |edges|
  {
    if edges != [] {
      var e := edges[0];
      RelaxQuiet(vs, e, root);
      if At(vs, e.source, root).parent != Inf {
        RelaxReached(vs, e, root);
      }
      assert EdgeTight(vs, e, root);
      CheckFeasible(vs, edges[1..], root);
      forall i | 0 <= i < |edges| ensures EdgeTight(vs, edges[i], root) {
        if i > 0 {
          assert edges[i] == edges[1..][i - 1];
        }
      }
    }
  }

  /** The relaxation loop of one pass (lines 45-49). */
  method RelaxAll(vertices: seq<Vertex>, edges: seq<Edge>, root: int) returns (didRelax: bool, vertices': seq<Vertex>)
    requires ValidEdges(|vertices|, edges)
    ensures (didRelax, vertices') == PassFrom(vertices, edges, root)
  {
    didRelax, vertices' := false, vertices;
    var k := 0;
    while k < |edges|
      invariant 0 <= k <= |edges| && |vertices'| == |vertices|
      invariant ValidEdges(|vertices'|, edges[k..])
      invariant var rest := PassFrom(vertices', edges[k..], root);
        PassFrom(vertices, edges, root) == (didRelax || rest.0, rest.1)
    {
      assert edges[k..][0] == edges[k] && edges[k..][1..] == edges[k + 1..];
      var relaxed;
      relaxed, vertices' := RelaxEdge(edges[k], vertices', root);
      if relaxed {
        didRelax := true;
      }
      k := k + 1;
    }
  }

  /** The negative-cycle check (lines 57-63). */
  method CheckPass(vertices: seq<Vertex>, edges: seq<Edge>, root: int) returns (ok: bool, vertices': seq<Vertex>)
    requires ValidEdges(|vertices|, edges)
    ensures (ok, vertices') == CheckFrom(vertices, edges, root)
  {
    vertices' := vertices;
    var k := 0;
    while k < |edges|
      invariant 0 <= k <= |edges| && |vertices'| == |vertices|
      invariant ValidEdges(|vertices'|, edges[k..])
      invariant CheckFrom(vertices, edges, root) == CheckFrom(vertices', edges[k..], root)
    {
      assert edges[k..][0] == edges[k] && edges[k..][1..] == edges[k + 1..];
      var relaxed;
      relaxed, vertices' := RelaxEdge(edges[k], vertices', root);
      if relaxed {
        return false, vertices';
      }
      k := k + 1;
    }
    assert edges[k..] == [];
    ok := true;
  }

  /** bellman_ford: up to `vertices.size() - 1` passes, stopping after a quiet
      one, then the check pass. It returns false exactly when one more full pass
      would still relax an edge; true leaves every edge tight. */
  method BellmanFord(vertices: seq<Vertex>, edges: seq<Edge>, root: int) returns (ok: bool, vertices': seq<Vertex>)
    requires ValidEdges(|vertices|, edges)
    ensures (ok, vertices') == CheckFrom(Passes(vertices, edges, root, PassLimit(|vertices|)), edges, root)
    ensures ok <==> !PassFrom(Passes(vertices, edges, root, PassLimit(|vertices|)), edges, root).0
    ensures Settled(vertices, root) ==> Settled(vertices', root) && (ok ==> Feasible(vertices', edges, root))
  {
    var limit := PassLimit(|vertices|);
    var current := vertices;
    var i := 0;
    var stopped := false;
    while i < limit && !stopped
      invariant 0 <= i <= limit && |current| == |vertices| && Grows(vertices, current)
      invariant !stopped ==> Passes(vertices, edges, root, limit) == Passes(current, edges, root, limit - i)
      invariant stopped ==> Passes(vertices, edges, root, limit) == current
      decreases limit - i, if stopped then 0 else 1
    {
      var didRelax;
      didRelax, current := RelaxAll(current, edges, root);
      if !didRelax {
        stopped := true;
      } else {
        i := i + 1;
      }
    }
    var relaxed := current;
    ok, vertices' := CheckPass(relaxed, edges, root);
    CheckIsPass(relaxed, edges, root);
    if Settled(vertices, root) {
      GrowsSettled(vertices, relaxed, root);
      GrowsSettled(relaxed, vertices', root);
      if ok {
        CheckFeasible(relaxed, edges, root);
      }
    }
  }

  // ---------------------------------------------------------------------------
  // recalculate_path_weights

  /** What the rewrite reads of a vertex: its edges and its parent for the
      root. */
  datatype Link = Link(outgoing: map<int, int>, parent: int)

  function Shape(vs: seq<Vertex>, root: int): (sh: seq<Link>)
    ensures |sh| == |vs| && forall i :: 0 <= i < |vs| ==> sh[i] == Link(vs[i].outgoing, At(vs, i, root).parent)
  {
    seq(|vs|, i requires 0 <= i < |vs| => Link(vs[i].outgoing, At(vs, i, root).parent))
  }

  /** `c` is a child of `m` in the tree of parent links: an edge joins them and
      `m` is `c`'s parent. */
  ghost predicate ChildLink(sh: seq<Link>, m: int, c: int) {
    0 <= m < |sh| && 0 <= c < |sh| && c in sh[m].outgoing && sh[c].parent == m
  }

  /** `depth` witnesses that the parent links along edges form a tree: every
      edge ends at a vertex, every depth is below the number of vertices, and a
      child lies deeper than its parent. */
  ghost predicate Tree(sh: seq<Link>, depth: seq<nat>) {
    |depth| == |sh| &&
    (forall m, d :: 0 <= m < |sh| && d in sh[m].outgoing ==> 0 <= d < |sh|) &&
    (forall x :: 0 <= x < |sh| ==> depth[x] < |sh|) &&
    (forall m, c :: ChildLink(sh, m, c) ==> depth[m] < depth[c])
  }

  /** `x` lies under `my`: following child links down from `my` reaches it. */
  ghost predicate Under(sh: seq<Link>, depth: seq<nat>, my: int, x: int)
    requires Tree(sh, depth) && 0 <= x < |sh|
    decreases depth[x]
  {
    x == my || (var p := sh[x].parent; ChildLink(sh, p, x) && Under(sh, depth, my, p))
  }

  /** The weight `x` gets when the rewrite reaches it from `my` with `carry`:
      `carry` plus the weights of the edges down the tree. */
  ghost function Carried(sh: seq<Link>, depth: seq<nat>, my: int, carry: int, x: int): int
    requires Tree(sh, depth) && 0 <= x < |sh| && Under(sh, depth, my, x)
    decreases depth[x]
  {
    if x == my then carry
    else
      var p := sh[x].parent;
      Carried(sh, depth, my, carry, p) + sh[p].outgoing[x]
  }

  /** The child of `my` through which `x` lies under it. */
  ghost function Top(sh: seq<Link>, depth: seq<nat>, my: int, x: int): int
    requires Tree(sh, depth) && 0 <= x < |sh| && Under(sh, depth, my, x) && x != my
    decreases depth[x]
  {
    var p := sh[x].parent;
    if p == my then x else Top(sh, depth, my, p)
  }

  lemma {:induction false} UnderDepth(sh: seq<Link>, depth: seq<nat>, my: int, x: int)
    requires Tree(sh, depth) && 0 <= x < |sh| && Under(sh, depth, my, x)
    ensures 0 <= my < |sh| && depth[my] <= depth[x]
    ensures x != my ==> depth[my] < depth[x] && ChildLink(sh, my, Top(sh, depth, my, x))
    decreases depth[x]
  {
    if x != my {
      var p := sh[x].parent;
      UnderDepth(sh, depth, my, p);
    }
  }

  /** For a child `c` of `my`, the vertices under `c` are those under `my`
      through `c`, and `c`'s carry plus the edge weight gives them the same
      weight. */
  lemma {:induction false} UnderChild(sh: seq<Link>, depth: seq<nat>, my: int, c: int, carry: int, x: int)
    requires Tree(sh, depth) && 0 <= x < |sh| && ChildLink(sh, my, c)
    ensures Under(sh, depth, c, x) <==>
      Under(sh, depth, my, x) && x != my && Top(sh, depth, my, x) == c
    ensures Under(sh, depth, c, x) ==>
      Carried(sh, depth, my, carry, x) == Carried(sh, depth, c, carry + sh[my].outgoing[c], x)
    decreases depth[x]
  {
    if Under(sh, depth, my, x) {
      UnderDepth(sh, depth, my, x);
    }
    if Under(sh, depth, c, x) {
      UnderDepth(sh, depth, c, x);
    }
    if x != c && x != my {
      var p := sh[x].parent;
      if ChildLink(sh, p, x) {
        UnderChild(sh, depth, my, c, carry, p);
      }
    }
  }

  /** `vertices[x].shortest_to_me[root].first = dist`. */
  function WithDist(v: Vertex, root: int, dist: int): (r: Vertex)
    requires root in v.shortest
    ensures r.id == v.id && r.outgoing == v.outgoing && r.shortest.Keys == v.shortest.Keys
    ensures r.shortest[root] == Path(dist, v.shortest[root].parent)
  {
    v.(shortest := v.shortest[root := Path(dist, v.shortest[root].parent)])
  }

  /** The vertex `x` as the rewrite from `my` leaves it: its root distance set
      to its carried weight when it lies under `my`, untouched otherwise. */
  ghost function Rewritten(vs: seq<Vertex>, sh: seq<Link>, root: int, depth: seq<nat>, my: int, carry: int, x: int): Vertex
    requires Tree(sh, depth) && |sh| == |vs| && 0 <= x < |vs| && root in vs[x].shortest
  {
    if Under(sh, depth, my, x) then WithDist(vs[x], root, Carried(sh, depth, my, carry, x)) else vs[x]
  }

  /** Part way through the edges of `my`, `x` has been rewritten: it is `my`,
      or it lies under one of the children in `done`. */
  ghost predicate Due(sh: seq<Link>, depth: seq<nat>, my: int, done: set<int>, x: int)
    requires Tree(sh, depth) && 0 <= x < |sh|
  {
    x == my || (Under(sh, depth, my, x) && x != my && Top(sh, depth, my, x) in done)
  }

  /** Doing the edge to `dest` makes due exactly the vertices under `dest`
      when it is a child of `my`, and they carry the same weight from `dest`
      as from `my`. */
  lemma StepAt(sh: seq<Link>, depth: seq<nat>, my: int, carry: int, done: set<int>, dest: int, x: int)
    requires Tree(sh, depth) && 0 <= my < |sh| && 0 <= x < |sh| && dest !in done
    ensures ChildLink(sh, my, dest) && Under(sh, depth, dest, x) ==>
      !Due(sh, depth, my, done, x) && Due(sh, depth, my, done + {dest}, x) && Under(sh, depth, my, x) &&
      Carried(sh, depth, my, carry, x) == Carried(sh, depth, dest, carry + sh[my].outgoing[dest], x)
    ensures !(ChildLink(sh, my, dest) && Under(sh, depth, dest, x)) ==>
      (Due(sh, depth, my, done + {dest}, x) <==> Due(sh, depth, my, done, x))
  {
    if Under(sh, depth, my, x) && x != my {
      UnderDepth(sh, depth, my, x);
    }
    if ChildLink(sh, my, dest) {
      UnderChild(sh, depth, my, dest, carry, x);
    }
  }

  /** `x` part way through the edges of `my`: rewritten when due, as it was
      otherwise. */
  ghost function Staged(vs: seq<Vertex>, sh: seq<Link>, root: int, depth: seq<nat>, my: int, carry: int, done: set<int>, x: int): Vertex
    requires Tree(sh, depth) && |sh| == |vs| && 0 <= x < |vs| && root in vs[x].shortest
  {
    if Due(sh, depth, my, done, x) then Rewritten(vs, sh, root, depth, my, carry, x) else vs[x]
  }

  /** A non-empty set has a member. */
  lemma Inhabited(s: set<int>)
    requires s != {}
    ensures exists x :: x in s
  {
    if forall x :: x !in s {
      assert false;
    }
  }

  /** The vertex `x` after the recursion on the child `dest`. */
  lemma ChildStep(vs: seq<Vertex>, current: seq<Vertex>, v: Vertex, sh: seq<Link>, root: int, depth: seq<nat>,
                  my: int, carry: int, weight: int, done: set<int>, dest: int, x: int)
    requires Tree(sh, depth) && |sh| == |vs| == |current| && 0 <= my < |vs| && 0 <= x < |vs|
    requires root in vs[x].shortest && root in current[x].shortest
    requires ChildLink(sh, my, dest) && dest !in done && weight == sh[my].outgoing[dest]
    requires current[x] == Staged(vs, sh, root, depth, my, carry, done, x)
    requires Shape(current, root) == sh && v == Rewritten(current, Shape(current, root), root, depth, dest, carry + weight, x)
    ensures v == Staged(vs, sh, root, depth, my, carry, done + {dest}, x)
  {
    StepAt(sh, depth, my, carry, done, dest, x);
  }

  /** Setting one vertex's root distance keeps the shape. */
  lemma WithDistShape(vs: seq<Vertex>, root: int, x: int, dist: int)
    requires Settled(vs, root) && 0 <= x < |vs|
    ensures Shape(vs[x := WithDist(vs[x], root, dist)], root) == Shape(vs, root)
    ensures Settled(vs[x := WithDist(vs[x], root, dist)], root)
  {
    var vs' := vs[x := WithDist(vs[x], root, dist)];
    assert forall i :: 0 <= i < |vs| ==> Shape(vs', root)[i] == Shape(vs, root)[i];
  }

  /** recalculate_path_weights: sets the root distance of `my` to `carry`, then
      for each edge `(dest, weight)` of `my` whose destination has `my` as
      parent, recurses on it with `carry + weight`. Given a tree witness, every
      vertex under `my` ends with `carry` plus the weights down the tree to it,
      and every other vertex is untouched. */
  method RecalculatePathWeights(vertices: seq<Vertex>, root: int, my: int, carry: int, ghost depth: seq<nat>)
    returns (vertices': seq<Vertex>)
    requires Settled(vertices, root) && 0 <= my < |vertices| && Tree(Shape(vertices, root), depth)
    ensures |vertices'| == |vertices| && Settled(vertices', root) && Shape(vertices', root) == Shape(vertices, root)
    ensures forall x :: 0 <= x < |vertices| ==>
      vertices'[x] == Rewritten(vertices, Shape(vertices, root), root, depth, my, carry, x)
    decreases |vertices| - depth[my], 1
  {
    ghost var sh := Shape(vertices, root);
    WithDistShape(vertices, root, my, carry);
    vertices' := vertices[my := WithDist(vertices[my], root, carry)];
    ghost var done: set<int> := {};
    var todo := vertices[my].outgoing.Keys;
    while todo != {}
      invariant todo + done == vertices[my].outgoing.Keys && todo !! done
      invariant |vertices'| == |vertices| && Settled(vertices', root) && Shape(vertices', root) == sh
      invariant forall x :: 0 <= x < |vertices| ==> vertices'[x] == Staged(vertices, sh, root, depth, my, carry, done, x)
      decreases todo
    {
      Inhabited(todo);
      var dest :| dest in todo;
      todo := todo - {dest};
      vertices' := VisitEdge(vertices, vertices', root, my, carry, depth, done, dest);
      done := done + {dest};
    }
    forall x | 0 <= x < |vertices| ensures vertices'[x] == Rewritten(vertices, sh, root, depth, my, carry, x) {
      if Under(sh, depth, my, x) && x != my {
        UnderDepth(sh, depth, my, x);
      }
    }
  }

  /** One turn of the loop over the edges of `my` (lines 96-99): recurse on
      `dest` with the edge's weight added when `my` is its parent. */
  method VisitEdge(vertices: seq<Vertex>, current: seq<Vertex>, root: int, my: int, carry: int,
                   ghost depth: seq<nat>, ghost done: set<int>, dest: int)
    returns (current': seq<Vertex>)
    requires Settled(vertices, root) && 0 <= my < |vertices| && Tree(Shape(vertices, root), depth)
    requires dest in vertices[my].outgoing && dest !in done
    requires |current| == |vertices| && Settled(current, root) && Shape(current, root) == Shape(vertices, root)
    requires forall x :: 0 <= x < |vertices| ==>
      current[x] == Staged(vertices, Shape(vertices, root), root, depth, my, carry, done, x)
    ensures |current'| == |vertices| && Settled(current', root) && Shape(current', root) == Shape(vertices, root)
    ensures forall x :: 0 <= x < |vertices| ==>
      current'[x] == Staged(vertices, Shape(vertices, root), root, depth, my, carry, done + {dest}, x)
    decreases |vertices| - depth[my], 0
  {
    ghost var sh := Shape(vertices, root);
    var weight := current[my].outgoing[dest];
    assert sh[my] == Shape(current, root)[my];
    assert 0 <= dest < |vertices|;
    if current[dest].shortest[root].parent == my {
      assert sh[dest] == Shape(current, root)[dest];
      assert ChildLink(sh, my, dest) && weight == sh[my].outgoing[dest];
      current' := RecalculatePathWeights(current, root, dest, carry + weight, depth);
      forall x | 0 <= x < |vertices| ensures
        current'[x] == Staged(vertices, sh, root, depth, my, carry, done + {dest}, x)
      {
        ChildStep(vertices, current, current'[x], sh, root, depth, my, carry, weight, done, dest, x);
      }
    } else {
      current' := current;
      forall x | 0 <= x < |vertices| ensures
        current'[x] == Staged(vertices, sh, root, depth, my, carry, done + {dest}, x)
      {
        StepAt(sh, depth, my, carry, done, dest, x);
      }
    }
  }
}
