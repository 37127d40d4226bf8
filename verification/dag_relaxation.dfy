/** Shortest paths in a weighted directed acyclic graph, from
    graphs/dag_relaxation.cpp: a depth-first search that tracks the nodes on the
    current path rejects graphs with a cycle, and a queue of nodes whose
    distance dropped relaxes the edges out of each of them until no distance
    drops any more.

    The graph maps a node to its set of (destination, weight) edges; `dag[x]` on
    a node that is not a key adds it with no edges, and the model tracks the
    keys this adds. The unordered containers are iterated in an order the model
    leaves open (`:|`). */
module DagRelaxation {
  import opened Wrappers

  /** INT_MAX, the distance of a node not reached yet. */
  const IntMax := 0x7fff_ffff

  type Edge = (nat, int)

  type Dag = map<nat, set<Edge>>

  /** The edges out of `x`: `dag[x]`, empty for a node that is not a key. */
  function Out(dag: Dag, x: nat): set<Edge> {
    if x in dag then dag[x] else {}
  }

  /** The destinations of the edges out of `x`. */
  function Succs(dag: Dag, x: nat): set<nat> {
    set e | e in Out(dag, x) :: e.0
  }

  /** The destinations of all edges. */
  function Dests(dag: Dag): set<nat> {
    set x, e | x in dag && e in dag[x] :: e.0
  }

  /** The nodes of the graph: its keys and the destinations of its edges. */
  function Nodes(dag: Dag): set<nat> {
    dag.Keys + Dests(dag)
  }

  /** The map `dag` becomes once operator[] has added the nodes of `keys` that
      it lacks, each with no edges. */
  function WithKeys(dag: Dag, keys: set<nat>): (r: Dag)
    requires dag.Keys <= keys
    ensures r.Keys == keys && forall x :: Out(r, x) == Out(dag, x)
  {
    map k | k in keys :: Out(dag, k)
  }

  function Elems(s: seq<nat>): set<nat> {
    set i | 0 <= i < |s| :: s[i]
  }

  predicate NoDup(s: seq<nat>) {
    forall i, j :: 0 <= i < j < |s| ==> s[i] != s[j]
  }

  // ---------------------------------------------------------------------------
  // Cycles

  /** Each node of `p` after the first is a destination of an edge out of the
      node before it. */
  ghost predicate IsWalk(dag: Dag, p: seq<nat>) {
    forall i :: 0 <= i < |p| - 1 ==> p[i + 1] in Succs(dag, p[i])
  }

  /** A walk of at least one edge that ends where it starts. */
  ghost predicate IsCycle(dag: Dag, c: seq<nat>) {
    |c| >= 2 && c[0] == c[|c| - 1] && IsWalk(dag, c)
  }

  ghost predicate HasCycle(dag: Dag) {
    exists c :: IsCycle(dag, c)
  }

  /** `rank` orders the graph: every edge goes from a node to a node of lower
      rank, so the graph is acyclic (RankedAcyclic). */
  ghost predicate Ranked(dag: Dag, rank: map<nat, nat>) {
    forall u, v :: v in Succs(dag, u) ==> Below(rank, v, u)
  }

  /** `v` and `u` are ranked, `v` lower. */
  ghost predicate Below(rank: map<nat, nat>, v: nat, u: nat) {
    u in rank && v in rank && rank[v] < rank[u]
  }

  lemma {:induction false} RankDrops(dag: Dag, rank: map<nat, nat>, c: seq<nat>, k: nat)
    requires Ranked(dag, rank) && IsWalk(dag, c) && 0 < k < |c|
    ensures c[0] in rank && c[k] in rank && rank[c[k]] < rank[c[0]]
    decreases k
  {
    assert c[k] in Succs(dag, c[k - 1]);
    if k > 1 {
      RankDrops(dag, rank, c, k - 1);
    }
  }

  /** A ranked graph has no cycle. */
  lemma RankedAcyclic(dag: Dag, rank: map<nat, nat>)
    requires Ranked(dag, rank)
    ensures !HasCycle(dag)
  {
    forall c | IsCycle(dag, c) ensures false {
      RankDrops(dag, rank, c, |c| - 1);
    }
  }

  /** An edge from the end of a walk back to one of its nodes closes a cycle. */
  lemma CycleFound(dag: Dag, path: seq<nat>, d: nat)
    requires IsWalk(dag, path) && |path| > 0 && d in Elems(path) && d in Succs(dag, path[|path| - 1])
    ensures HasCycle(dag)
  {
    var i :| 0 <= i < |path| && path[i] == d;
    var c := path[i..] + [d];
    assert forall k :: 0 <= k < |c| - 1 ==> c[k] == path[i + k];
    assert IsCycle(dag, c);
  }

  // ---------------------------------------------------------------------------
  // dag_checker_dfs and check_is_dag

  /** The state of the search: `onPath` holds the nodes of the current path
      `path`, a walk with no repeated node; the seen nodes off the path are
      finished and ranked, every edge out of a finished node goes to a finished
      node of lower rank, and every rank is below `next`. */
  ghost predicate Searching(dag: Dag, seen: set<nat>, onPath: set<nat>, path: seq<nat>,
                            rank: map<nat, nat>, next: nat) {
    onPath == Elems(path) && NoDup(path) && IsWalk(dag, path) && onPath <= seen &&
    rank.Keys == seen - onPath &&
    (forall u, v :: u in rank && v in Succs(dag, u) ==> Below(rank, v, u)) &&
    (forall u :: u in rank ==> rank[u] < next)
  }

  /** Stepping to an unseen destination of the last node of the path. */
  lemma SearchPush(dag: Dag, seen: set<nat>, onPath: set<nat>, path: seq<nat>,
                   rank: map<nat, nat>, next: nat, d: nat)
    requires Searching(dag, seen, onPath, path, rank, next) && |path| > 0
    requires d !in seen && d in Succs(dag, path[|path| - 1])
    ensures Searching(dag, seen + {d}, onPath + {d}, path + [d], rank, next)
  {
    var p := path + [d];
    forall y | y in Elems(p) ensures y in onPath + {d} {
      var i :| 0 <= i < |p| && p[i] == y;
      if i < |path| {
        assert path[i] == y;
      }
    }
    forall y | y in onPath + {d} ensures y in Elems(p) {
      if y == d {
        assert p[|path|] == y;
      } else {
        var i :| 0 <= i < |path| && path[i] == y;
        assert p[i] == y;
      }
    }
    forall i, j | 0 <= i < j < |p| ensures p[i] != p[j] {
      if j == |path| {
        assert p[i] == path[i] && p[i] in onPath;
      }
    }
    forall i | 0 <= i < |p| - 1 ensures p[i + 1] in Succs(dag, p[i]) {
      if i < |path| - 1 {
        assert p[i] == path[i] && p[i + 1] == path[i + 1];
      }
    }
  }

  /** Finishing the last node of the path once every destination of its edges
      is finished: it gets rank `next`. */
  lemma SearchPop(dag: Dag, seen: set<nat>, onPath: set<nat>, path: seq<nat>,
                  rank: map<nat, nat>, next: nat)
    requires Searching(dag, seen, onPath, path, rank, next) && |path| > 0
    requires Succs(dag, path[|path| - 1]) <= rank.Keys
    ensures Searching(dag, seen, onPath - {path[|path| - 1]}, path[..|path| - 1],
                      rank[path[|path| - 1] := next], next + 1)
  {
    var source, p := path[|path| - 1], path[..|path| - 1];
    forall y | y in Elems(p) ensures y in onPath - {source} {
      var i :| 0 <= i < |p| && p[i] == y;
      assert path[i] == y;
    }
    forall y | y in onPath - {source} ensures y in Elems(p) {
      var i :| 0 <= i < |path| && path[i] == y;
      assert p[i] == y;
    }
    forall i | 0 <= i < |p| - 1 ensures p[i + 1] in Succs(dag, p[i]) {
      assert p[i] == path[i] && p[i + 1] == path[i + 1];
    }
    assert source in onPath;
  }

  /** Taking a node of `n` into a set makes fewer nodes of `n` lie outside it. */
  lemma FewerOutside(n: set<nat>, a: set<nat>, b: set<nat>, x: nat)
    requires a <= b && x in n && x in b && x !in a
    ensures |n - b| < |n - a|
  {
    assert n - b <= (n - a) - {x};
    SubsetCard(n - b, (n - a) - {x});
  }

  lemma {:induction false} SubsetCard(a: set<nat>, b: set<nat>)
    requires a <= b
    ensures |a| <= |b|
    decreases |b|
  {
    if a != {} {
      var x :| x in a;
      SubsetCard(a - {x}, b - {x});
    }
  }

  /** A destination of an edge is a node of the graph. */
  lemma SuccInNodes(dag: Dag, x: nat, y: nat)
    requires y in Succs(dag, x)
    ensures x in dag && y in Nodes(dag)
  {
    var e :| e in Out(dag, x) && e.0 == y;
  }

  /** dag_checker_dfs: for each edge out of `source` (the last node of the
      path), returns false at once if its destination is on the path, and
      searches from it if it is not yet seen; once all are done, takes `source`
      off the path. `keys` is the key set of `dag`, which `dag[source]` extends.
      False means the graph has a cycle; true means the search finished
      `source` and ranked every node it reached, every edge out of a finished
      node going down in rank. */
  method DagCheckerDfs(source: nat, dag: Dag, keys: set<nat>, seen: set<nat>, onPath: set<nat>,
                       ghost path: seq<nat>, ghost rank: map<nat, nat>, ghost next: nat)
    returns (ok: bool, keys': set<nat>, seen': set<nat>, onPath': set<nat>,
             ghost rank': map<nat, nat>, ghost next': nat)
    requires Searching(dag, seen, onPath, path, rank, next) && |path| > 0 && path[|path| - 1] == source
    requires seen <= Nodes(dag) && keys == dag.Keys + (seen - {source})
    ensures keys <= keys' <= keys + Nodes(dag)
    ensures !ok ==> HasCycle(dag)
    ensures ok ==> Searching(dag, seen', onPath - {source}, path[..|path| - 1], rank', next')
    ensures ok ==> onPath' == onPath - {source} && seen <= seen' <= Nodes(dag) && source in rank'
    ensures ok ==> rank.Keys <= rank'.Keys && keys' == dag.Keys + seen'
    decreases |Nodes(dag) - seen|
  {
    keys' := keys + {source};
    seen', onPath', rank', next' := seen, onPath, rank, next;
    var todo := Out(dag, source);
    while todo != {}
      invariant todo <= Out(dag, source) && onPath' == onPath
      invariant Searching(dag, seen', onPath, path, rank', next')
      invariant seen <= seen' <= Nodes(dag) && rank.Keys <= rank'.Keys && keys' == dag.Keys + seen'
      invariant forall e :: e in Out(dag, source) - todo ==> e.0 in rank'
      decreases todo
    {
      var e :| e in todo;
      todo := todo - {e};
      var destination := e.0;
      assert destination in Succs(dag, source);
      if destination in onPath' {
        CycleFound(dag, path, destination);
        return false, keys', seen', onPath', rank', next';
      }
      if destination !in seen' {
        SuccInNodes(dag, source, destination);
        FewerOutside(Nodes(dag), seen, seen' + {destination}, destination);
        SearchPush(dag, seen', onPath', path, rank', next', destination);
        seen' := seen' + {destination};
        onPath' := onPath' + {destination};
        ok, keys', seen', onPath', rank', next' :=
          DagCheckerDfs(destination, dag, keys', seen', onPath', path + [destination], rank', next');
        if !ok {
          return;
        }
        assert (path + [destination])[..|path|] == path;
      }
    }
    SearchPop(dag, seen', onPath', path, rank', next');
    onPath' := onPath' - {source};
    rank' := rank'[source := next'];
    next' := next' + 1;
    ok := true;
  }

  /** check_is_dag: a search from every key not yet seen, each starting with
      the key alone on the path. It returns true exactly when the graph has no
      cycle, and then every node of the graph has been added as a key of `dag`
      (dag_checker_dfs runs `dag[destination]` on each); the edges never
      change. `rank` is the finishing order, which orders an acyclic graph. */
  method CheckIsDag(dag: Dag) returns (ok: bool, dag': Dag, ghost rank: map<nat, nat>)
    ensures ok <==> !HasCycle(dag)
    ensures ok ==> Ranked(dag, rank) && dag'.Keys == Nodes(dag)
    ensures dag.Keys <= dag'.Keys <= Nodes(dag) && forall x :: Out(dag', x) == Out(dag, x)
  {
    var seen: set<nat>, onPath: set<nat> := {}, {};
    var keys := dag.Keys;
    rank := map[];
    ghost var next := 0;
    var sources := dag.Keys;
    while sources != {}
      invariant sources <= dag.Keys && dag.Keys - sources <= seen <= Nodes(dag)
      invariant Searching(dag, seen, {}, [], rank, next) && onPath == {} && keys == dag.Keys + seen
      decreases sources
    {
      var source :| source in sources;
      sources := sources - {source};
      if source !in seen {
        assert [source][0] == source;
        assert Elems([source]) == {source};
        seen := seen + {source};
        onPath := onPath + {source};
        var found;
        found, keys, seen, onPath, rank, next := DagCheckerDfs(source, dag, keys, seen, onPath, [source], rank, next);
        if !found {
          dag' := WithKeys(dag, keys);
          return false, dag', rank;
        }
      }
    }
    forall u, v | v in Succs(dag, u) ensures u in rank && v in rank && rank[v] < rank[u] {
      SuccInNodes(dag, u, v);
    }
    forall y | y in Dests(dag) ensures y in seen {
      var x, e :| x in dag && e in dag[x] && e.0 == y;
      assert y in Succs(dag, x) && x in rank;
      assert Below(rank, y, x);
    }
    RankedAcyclic(dag, rank);
    ok := true;
    dag' := WithKeys(dag, keys);
  }

  // ---------------------------------------------------------------------------
  // Walks and their weights

  /** `es` is a walk from `x`: each edge leaves the node the one before it
      reached. */
  ghost predicate Walk(dag: Dag, x: nat, es: seq<Edge>) {
    (|es| > 0 ==> es[0] in Out(dag, x)) &&
    forall i :: 0 < i < |es| ==> es[i] in Out(dag, es[i - 1].0)
  }

  function End(x: nat, es: seq<Edge>): nat {
    if es == [] then x else es[|es| - 1].0
  }

  function Weight(es: seq<Edge>): int {
    if es == [] then 0 else Weight(es[..|es| - 1]) + es[|es| - 1].1
  }

  /** Some walk from `x` to `y` weighs `len`. */
  ghost predicate WalkTo(dag: Dag, x: nat, y: nat, len: int) {
    exists es :: Walk(dag, x, es) && End(x, es) == y && Weight(es) == len
  }

  /** A walk continues only from keys: every edge of it but the last ends at a
      node with edges. */
  lemma WalkThroughKeys(dag: Dag, x: nat, es: seq<Edge>)
    requires Walk(dag, x, es)
    ensures forall i :: 0 <= i < |es| - 1 ==> es[i].0 in dag
  {
    forall i | 0 <= i < |es| - 1 ensures es[i].0 in dag {
      assert es[i + 1] in Out(dag, es[i].0);
    }
  }

  /** A walk extends by an edge out of its end. */
  lemma WalkExtend(dag: Dag, x: nat, u: nat, len: int, e: Edge)
    requires WalkTo(dag, x, u, len) && e in Out(dag, u)
    ensures WalkTo(dag, x, e.0, len + e.1)
  {
    var es :| Walk(dag, x, es) && End(x, es) == u && Weight(es) == len;
    var es' := es + [e];
    assert es'[..|es|] == es;
    forall i | 0 <= i < |es| ensures es'[i] == es[i] {
    }
    assert Walk(dag, x, es');
  }

  // ---------------------------------------------------------------------------
  // find_shortest_paths

  /** The initial distances over a set of nodes: INT_MAX for each, 0 for the
      source. */
  ghost function Initial(nodes: set<nat>, source: nat): map<nat, int> {
    (map k | k in nodes :: IntMax)[source := 0]
  }

  /** The first loop of find_shortest_paths and the line after it: every node of
      `nodes` at INT_MAX, then the source at 0. */
  method Initialise(nodes: set<nat>, source: nat) returns (distances: map<nat, int>)
    ensures distances.Keys == nodes + {source} && distances[source] == 0
    ensures forall k :: k in nodes && k != source ==> distances[k] == IntMax
    ensures distances == Initial(nodes, source)
  {
    distances := map[];
    var todo := nodes;
    while todo != {}
      invariant todo <= nodes && distances.Keys == nodes - todo
      invariant forall k :: k in distances ==> distances[k] == IntMax
      decreases todo
    {
      var node :| node in todo;
      distances := distances[node := IntMax];
      todo := todo - {node};
    }
    distances := distances[source := 0];
  }

  /** `distances[x]` as operator[] reads it: 0 for a missing key. */
  function Get(d: map<nat, int>, x: nat): int {
    if x in d then d[x] else 0
  }

  /** `distances[v]` as an operator[] write sees the map: `v` added at 0 if it
      is missing. */
  function Touch(d: map<nat, int>, v: nat): (r: map<nat, int>)
    ensures r.Keys == d.Keys + {v} && r[v] == Get(d, v)
    ensures forall k :: k in d ==> r[k] == d[k]
  {
    if v in d then d else d[v := 0]
  }

  /** `x` has been pushed on the queue: it is the source or its distance
      dropped below where it started. */
  ghost predicate Reached(source: nat, d0: map<nat, int>, d: map<nat, int>, x: nat) {
    x == source || (x in d && d[x] < Get(d0, x))
  }

  ghost function ReachedSet(source: nat, d0: map<nat, int>, d: map<nat, int>): set<nat> {
    set x | x in d && Reached(source, d0, d, x)
  }

  /** Distances only drop, and a key is added only for a destination. */
  ghost predicate Decreased(dag: Dag, d0: map<nat, int>, d: map<nat, int>) {
    d0.Keys <= d.Keys <= d0.Keys + Dests(dag) && forall k :: k in d ==> d[k] <= Get(d0, k)
  }

  /** A distance that moved from where it started is the weight of a walk from
      the source. */
  ghost predicate Sound(dag: Dag, source: nat, d0: map<nat, int>, d: map<nat, int>) {
    forall k :: k in d && d[k] != Get(d0, k) ==> WalkTo(dag, source, k, d[k])
  }

  /** Edge `e` out of `x` is relaxed: `d[e.0] <= d[x] + w`. */
  ghost predicate Satisfied(d: map<nat, int>, x: nat, e: Edge) {
    x in d && e.0 in d && d[e.0] <= d[x] + e.1
  }

  /** Every edge out of a reached node that is not waiting on the queue is
      relaxed, but for the edges `todo` out of `u`, the node being scanned. */
  ghost predicate Tight(dag: Dag, source: nat, d0: map<nat, int>, d: map<nat, int>,
                        waiting: seq<nat>, u: nat, todo: set<Edge>) {
    forall x, e :: Reached(source, d0, d, x) && x !in waiting && e in Out(dag, x) && !(x == u && e in todo) ==>
      Satisfied(d, x, e)
  }

  /** What the relaxation loop leaves: distances only dropped, each distance
      that moved is the weight of a walk from the source, and no edge out of a
      reached node violates the triangle inequality. */
  ghost predicate Relaxed(dag: Dag, source: nat, d0: map<nat, int>, d: map<nat, int>) {
    Decreased(dag, d0, d) && Sound(dag, source, d0, d) && Tight(dag, source, d0, d, [], source, {})
  }

  /** The state of the relaxation loop while the edges `todo` out of `u` are
      still to be scanned: the queue holds reached nodes, and every reached node
      has been taken off the queue (adding it as a key of `dag`) or waits on it. */
  ghost predicate Relaxing(dag: Dag, keys: set<nat>, source: nat, d0: map<nat, int>, d: map<nat, int>,
                           frontier: seq<nat>, keys': set<nat>, u: nat, todo: set<Edge>) {
    source in d0 && d0[source] == 0 && Decreased(dag, d0, d) && Sound(dag, source, d0, d) &&
    (forall x :: x in frontier ==> Reached(source, d0, d, x)) &&
    keys <= keys' && (forall x :: x in keys' && x !in keys ==> Reached(source, d0, d, x)) &&
    (forall x :: x in d && Reached(source, d0, d, x) ==> x in keys' || x in frontier) &&
    Tight(dag, source, d0, d, frontier, u, todo)
  }

  /** A reached node's distance is the weight of a walk from the source. */
  lemma ReachedWalk(dag: Dag, source: nat, d0: map<nat, int>, d: map<nat, int>, u: nat)
    requires source in d0 && d0[source] == 0 && Decreased(dag, d0, d) && Sound(dag, source, d0, d)
    requires Reached(source, d0, d, u)
    ensures u in d && WalkTo(dag, source, u, d[u])
  {
    if u == source && d[u] == 0 {
      assert Walk(dag, source, []) && End(source, []) == u && Weight([]) == 0;
    }
  }

  // Ranks bound the work the queue can still cause: a node weighs one more
  // than the destinations of its edges together.

  ghost function Height(rank: map<nat, nat>, x: nat): nat {
    if x in rank then rank[x] else 0
  }

  ghost function Load1(dag: Dag, rank: map<nat, nat>, x: nat): nat
    requires Ranked(dag, rank)
    decreases Height(rank, x), 1
  {
    forall e | e in Out(dag, x) ensures Height(rank, e.0) < Height(rank, x) {
      assert e.0 in Succs(dag, x);
    }
    1 + LoadSet(dag, rank, Out(dag, x), Height(rank, x))
  }

  ghost function LoadSet(dag: Dag, rank: map<nat, nat>, es: set<Edge>, bound: nat): nat
    requires Ranked(dag, rank) && forall e :: e in es ==> Height(rank, e.0) < bound
    decreases bound, 0, |es|
  {
    if es == {} then 0
    else
      var e :| e in es;
      Load1(dag, rank, e.0) + LoadSet(dag, rank, es - {e}, bound)
  }

  ghost function Load(dag: Dag, rank: map<nat, nat>, f: seq<nat>): nat
    requires Ranked(dag, rank)
  {
    if f == [] then 0 else Load1(dag, rank, f[0]) + Load(dag, rank, f[1..])
  }

  lemma {:induction false} LoadSetRemove(dag: Dag, rank: map<nat, nat>, es: set<Edge>, bound: nat, e: Edge)
    requires Ranked(dag, rank) && forall e :: e in es ==> Height(rank, e.0) < bound
    requires e in es
    ensures LoadSet(dag, rank, es, bound) == Load1(dag, rank, e.0) + LoadSet(dag, rank, es - {e}, bound)
    decreases |es|
  {
    var x :| x in es && LoadSet(dag, rank, es, bound) == Load1(dag, rank, x.0) + LoadSet(dag, rank, es - {x}, bound);
    if x != e {
      LoadSetRemove(dag, rank, es - {x}, bound, e);
      LoadSetRemove(dag, rank, es - {e}, bound, x);
      assert es - {x} - {e} == es - {e} - {x};
    }
  }

  lemma {:induction false} LoadAppend(dag: Dag, rank: map<nat, nat>, f: seq<nat>, v: nat)
    requires Ranked(dag, rank)
    ensures Load(dag, rank, f + [v]) == Load(dag, rank, f) + Load1(dag, rank, v)
  {
    if f != [] {
      assert (f + [v])[1..] == f[1..] + [v];
      LoadAppend(dag, rank, f[1..], v);
    }
  }

  /** Taking the front node off the queue and adding it as a key of `dag`
      starts the scan of its edges. */
  lemma PopStep(dag: Dag, keys: set<nat>, source: nat, d0: map<nat, int>, d: map<nat, int>,
                frontier: seq<nat>, keys': set<nat>)
    requires frontier != [] && Relaxing(dag, keys, source, d0, d, frontier, keys', source, {})
    ensures Relaxing(dag, keys, source, d0, d, frontier[1..], keys' + {frontier[0]}, frontier[0], Out(dag, frontier[0]))
    ensures Reached(source, d0, d, frontier[0])
  {
    var u, rest := frontier[0], frontier[1..];
    assert frontier == [u] + rest;
    assert Reached(source, d0, d, u);
  }

  /** operator[] on a destination that is not a key adds it at distance 0,
      which changes nothing the loop relies on. */
  lemma TouchStep(dag: Dag, keys: set<nat>, source: nat, d0: map<nat, int>, d: map<nat, int>,
                  frontier: seq<nat>, keys': set<nat>, u: nat, todo: set<Edge>, v: nat)
    requires Relaxing(dag, keys, source, d0, d, frontier, keys', u, todo) && v in Dests(dag)
    requires Reached(source, d0, d, u) && u in d
    ensures Relaxing(dag, keys, source, d0, Touch(d, v), frontier, keys', u, todo)
    ensures Reached(source, d0, Touch(d, v), u) && u in Touch(d, v)
  {
    if v in d {
      return;
    }
    var d' := d[v := 0];
    assert v !in d0 && v != source;
    assert forall x :: Reached(source, d0, d', x) == Reached(source, d0, d, x);
    forall x, e | Reached(source, d0, d', x) && x !in frontier && e in Out(dag, x) && !(x == u && e in todo)
      ensures Satisfied(d', x, e)
    {
      assert Satisfied(d, x, e);
    }
  }

  /** An edge that does not lower its destination is relaxed already. */
  lemma KeepStep(dag: Dag, keys: set<nat>, source: nat, d0: map<nat, int>, d: map<nat, int>,
                 frontier: seq<nat>, keys': set<nat>, u: nat, todo: set<Edge>, e: Edge)
    requires Relaxing(dag, keys, source, d0, d, frontier, keys', u, todo) && Satisfied(d, u, e)
    ensures Relaxing(dag, keys, source, d0, d, frontier, keys', u, todo - {e})
  {
  }

  /** Lowering the destination of an edge out of the scanned node and queueing
      it keeps the loop's state. */
  lemma LowerStep(dag: Dag, keys: set<nat>, source: nat, d0: map<nat, int>, d: map<nat, int>,
                  frontier: seq<nat>, keys': set<nat>, u: nat, todo: set<Edge>, e: Edge)
    requires Relaxing(dag, keys, source, d0, d, frontier, keys', u, todo) && e in todo
    requires e in Out(dag, u) && Reached(source, d0, d, u) && u in d && e.0 in d && d[e.0] > d[u] + e.1
    ensures Relaxing(dag, keys, source, d0, d[e.0 := d[u] + e.1], frontier + [e.0], keys', u, todo - {e})
    ensures Reached(source, d0, d[e.0 := d[u] + e.1], u) && u in d[e.0 := d[u] + e.1]
  {
    var v := e.0;
    var d' := d[v := d[u] + e.1];
    LowerSound(dag, source, d0, d, u, e);
    assert Reached(source, d0, d', v);
    forall x | x != v ensures Reached(source, d0, d', x) == Reached(source, d0, d, x) {
    }
    assert forall x :: x in frontier + [v] <==> x in frontier || x == v;
    forall x, e' | Reached(source, d0, d', x) && x !in frontier + [v] && e' in Out(dag, x) && !(x == u && e' in todo - {e})
      ensures Satisfied(d', x, e')
    {
      assert Reached(source, d0, d, x);
      if !(x == u && e' == e) {
        assert Satisfied(d, x, e');
      }
    }
  }

  /** Lowering the destination of an edge out of a reached node to the node's
      distance plus the weight keeps distances dropping and each moved distance
      the weight of a walk. */
  lemma LowerSound(dag: Dag, source: nat, d0: map<nat, int>, d: map<nat, int>, u: nat, e: Edge)
    requires source in d0 && d0[source] == 0 && Decreased(dag, d0, d) && Sound(dag, source, d0, d)
    requires e in Out(dag, u) && Reached(source, d0, d, u) && e.0 in d && d[e.0] > d[u] + e.1
    ensures Decreased(dag, d0, d[e.0 := d[u] + e.1]) && Sound(dag, source, d0, d[e.0 := d[u] + e.1])
  {
    var d' := d[e.0 := d[u] + e.1];
    ReachedWalk(dag, source, d0, d, u);
    WalkExtend(dag, source, u, d[u], e);
    forall k | k in d' && d'[k] != Get(d0, k) ensures WalkTo(dag, source, k, d'[k]) {
      if k != e.0 {
        assert d'[k] == d[k];
      }
    }
  }

  /** The loop of find_shortest_paths: takes the front node `u` off the queue
      (`dag[u]` adds it as a key) and scans its edges (ScanEdges). On an acyclic
      graph the loop ends; distances only drop, each distance that moved is the
      weight of a walk from the source, and no edge out of a reached node is
      left violating the triangle inequality. The keys added to `dag` are the
      reached nodes. */
  method Relaxation(dag: Dag, keys: set<nat>, source: nat, d0: map<nat, int>, ghost rank: map<nat, nat>)
    returns (keys': set<nat>, distances: map<nat, int>)
    requires Ranked(dag, rank) && source in d0 && d0[source] == 0
    ensures Relaxed(dag, source, d0, distances)
    ensures keys' == keys + ReachedSet(source, d0, distances)
  {
    distances := d0;
    keys' := keys;
    var frontier := [source];
    while frontier != []
      invariant Relaxing(dag, keys, source, d0, distances, frontier, keys', source, {})
      decreases Load(dag, rank, frontier)
    {
      var u := frontier[0];
      ghost var load := Load(dag, rank, frontier);
      PopStep(dag, keys, source, d0, distances, frontier, keys');
      frontier := frontier[1..];
      keys' := keys' + {u};
      distances, frontier := ScanEdges(dag, keys, source, d0, rank, u, distances, frontier, keys');
    }
    assert Reached(source, d0, distances, source);
  }

  /** The inner loop of find_shortest_paths: for each edge `(v, w)` out of `u`,
      reads `distances[v]` (adding `v` at 0 if missing) and, when it exceeds
      `distances[u] + w`, lowers it to `distances[u] + w` and queues `v`. After
      it every edge out of `u` is relaxed unless `u` was queued again, and the
      queue weighs less than it did with `u` at its front. */
  method ScanEdges(dag: Dag, keys: set<nat>, source: nat, d0: map<nat, int>, ghost rank: map<nat, nat>,
                   u: nat, distances: map<nat, int>, frontier: seq<nat>, keys': set<nat>)
    returns (distances': map<nat, int>, frontier': seq<nat>)
    requires Ranked(dag, rank) && Reached(source, d0, distances, u)
    requires Relaxing(dag, keys, source, d0, distances, frontier, keys', u, Out(dag, u))
    ensures Relaxing(dag, keys, source, d0, distances', frontier', keys', source, {})
    ensures Load(dag, rank, frontier') < Load(dag, rank, [u] + frontier)
  {
    assert ([u] + frontier)[1..] == frontier;
    distances', frontier' := distances, frontier;
    var todo := Out(dag, u);
    forall e | e in todo ensures Height(rank, e.0) < Height(rank, u) {
      assert e.0 in Succs(dag, u);
    }
    while todo != {}
      invariant todo <= Out(dag, u) && Reached(source, d0, distances', u) && u in distances'
      invariant Relaxing(dag, keys, source, d0, distances', frontier', keys', u, todo)
      invariant Load(dag, rank, frontier') + LoadSet(dag, rank, todo, Height(rank, u)) < Load(dag, rank, [u] + frontier)
      decreases todo
    {
      var e :| e in todo;
      LoadSetRemove(dag, rank, todo, Height(rank, u), e);
      distances', frontier' := RelaxEdge(dag, keys, source, d0, rank, u, todo, e, distances', frontier', keys');
      todo := todo - {e};
    }
  }

  /** One edge `e = (v, w)` out of `u`: `distances[v]` adds `v` at 0 if it is
      missing; if it exceeds `distances[u] + w` it drops to that and `v` joins
      the queue. The edge is relaxed afterwards unless `u` itself was queued
      again, and the queue grows by at most `v`'s weight. */
  method RelaxEdge(dag: Dag, keys: set<nat>, source: nat, d0: map<nat, int>, ghost rank: map<nat, nat>,
                   u: nat, ghost todo: set<Edge>, e: Edge, distances: map<nat, int>, frontier: seq<nat>, keys': set<nat>)
    returns (distances': map<nat, int>, frontier': seq<nat>)
    requires Ranked(dag, rank) && e in todo && todo <= Out(dag, u) && Reached(source, d0, distances, u) && u in distances
    requires Relaxing(dag, keys, source, d0, distances, frontier, keys', u, todo)
    ensures Relaxing(dag, keys, source, d0, distances', frontier', keys', u, todo - {e})
    ensures Reached(source, d0, distances', u) && u in distances'
    ensures Load(dag, rank, frontier') <= Load(dag, rank, frontier) + Load1(dag, rank, e.0)
  {
    distances', frontier' := distances, frontier;
    var v, w := e.0, e.1;
    assert dag[u] == Out(dag, u) && v in Dests(dag);
    TouchStep(dag, keys, source, d0, distances', frontier', keys', u, todo, v);
    distances' := Touch(distances', v);
    if distances'[v] > distances'[u] + w {
      LowerStep(dag, keys, source, d0, distances', frontier', keys', u, todo, e);
      LoadAppend(dag, rank, frontier', v);
      distances' := distances'[v := distances'[u] + w];
      frontier' := frontier' + [v];
    } else {
      KeepStep(dag, keys, source, d0, distances', frontier', keys', u, todo, e);
    }
  }

  /** find_shortest_paths as written: INT_MAX for the keys of `dag` only, then
      the relaxation loop. It returns the distances and the graph with the
      reached nodes added as keys (`dag` is passed by reference). When every
      destination is a key of `dag`, as check_is_dag leaves it, the distances
      are the shortest walk weights (Shortest). */
  method FindShortestPaths(dag: Dag, source: nat, ghost rank: map<nat, nat>)
    returns (distances: map<nat, int>, dag': Dag)
    requires Ranked(dag, rank)
    ensures Relaxed(dag, source, Initial(dag.Keys, source), distances)
    ensures dag.Keys <= dag'.Keys && forall x :: Out(dag', x) == Out(dag, x)
    ensures Nodes(dag) <= dag.Keys ==> Shortest(dag, source, distances)
  {
    var d0 := Initialise(dag.Keys, source);
    var keys;
    keys, distances := Relaxation(dag, dag.Keys, source, d0, rank);
    dag' := WithKeys(dag, keys);
    if Nodes(dag) <= dag.Keys {
      RelaxedShortest(dag, source, dag.Keys, distances);
    }
  }

  /** Every prefix of `es` short of the whole weighs less than INT_MAX, so no
      node before its end is confused with an unreached one. */
  ghost predicate BelowIntMax(es: seq<Edge>) {
    forall k :: 0 <= k < |es| ==> Weight(es[..k]) < IntMax
  }

  /** Shortest distances from the source: every node of the graph has one,
      each below INT_MAX is the weight of a walk from the source, and no walk
      from the source (whose prefixes stay below INT_MAX) weighs less than the
      distance of its end. */
  ghost predicate Shortest(dag: Dag, source: nat, d: map<nat, int>) {
    Nodes(dag) + {source} <= d.Keys &&
    (forall v :: v in d && d[v] < IntMax ==> WalkTo(dag, source, v, d[v])) &&
    (forall es :: Walk(dag, source, es) && BelowIntMax(es) ==>
      End(source, es) in d && d[End(source, es)] <= Weight(es))
  }

  /** Relaxation from INT_MAX on every node of the graph gives shortest
      distances. */
  lemma RelaxedShortest(dag: Dag, source: nat, nodes: set<nat>, d: map<nat, int>)
    requires Nodes(dag) <= nodes && Relaxed(dag, source, Initial(nodes, source), d)
    ensures Shortest(dag, source, d)
  {
    var d0 := Initial(nodes, source);
    forall v | v in d && d[v] < IntMax ensures WalkTo(dag, source, v, d[v]) {
      if d[v] == Get(d0, v) {
        assert v == source;
        assert Walk(dag, source, []) && End(source, []) == v;
      }
    }
    forall es | Walk(dag, source, es) && BelowIntMax(es)
      ensures End(source, es) in d && d[End(source, es)] <= Weight(es)
    {
      PrefixBound(dag, source, nodes, d, es, |es|);
      assert es[..|es|] == es;
    }
  }

  lemma {:induction false} PrefixBound(dag: Dag, source: nat, nodes: set<nat>, d: map<nat, int>, es: seq<Edge>, k: nat)
    requires Nodes(dag) <= nodes && Relaxed(dag, source, Initial(nodes, source), d)
    requires Walk(dag, source, es) && BelowIntMax(es) && k <= |es|
    ensures End(source, es[..k]) in d && d[End(source, es[..k])] <= Weight(es[..k])
    decreases k
  {
    var d0 := Initial(nodes, source);
    if k == 0 {
      assert es[..0] == [];
    } else {
      PrefixBound(dag, source, nodes, d, es, k - 1);
      var p := End(source, es[..k - 1]);
      assert es[..k][..k - 1] == es[..k - 1];
      if k == 1 {
        assert p == source;
      } else {
        assert es[..k - 1][k - 2] == es[k - 2] && p == es[k - 2].0;
        assert es[k - 1] in Out(dag, es[k - 2].0);
        var q := if k == 2 then source else es[k - 3].0;
        assert es[k - 2] in Out(dag, q);
        assert q in dag && es[k - 2] in dag[q];
      }
      assert es[k - 1] in Out(dag, p);
      if p != source {
        assert p in Dests(dag);
      }
      assert Reached(source, d0, d, p);
      assert Satisfied(d, p, es[k - 1]);
    }
  }

  /** find_shortest_paths as intended: INT_MAX for every node of the graph,
      destinations included, then the relaxation loop. The distances are the
      shortest walk weights. */
  method FindShortestPathsFixed(dag: Dag, source: nat, ghost rank: map<nat, nat>)
    returns (distances: map<nat, int>, dag': Dag)
    requires Ranked(dag, rank)
    ensures Shortest(dag, source, distances)
    ensures dag.Keys <= dag'.Keys && forall x :: Out(dag', x) == Out(dag, x)
  {
    var d0 := Initialise(Nodes(dag), source);
    var keys;
    keys, distances := Relaxation(dag, dag.Keys, source, d0, rank);
    dag' := WithKeys(dag, keys);
    RelaxedShortest(dag, source, Nodes(dag), distances);
  }

  /** The graph with the single edge 1 -> 2 of weight 5. */
  const OneEdge: Dag := map[1 := {(2, 5)}]

  /** As written, find_shortest_paths called directly from 1 on the single edge
      1 -> 2 of weight 5 reports distance 0 for node 2: node 2 is not a key, so
      `distances[2]` reads 0 and the edge never lowers it; yet the only walk
      from 1 to 2 weighs 5. The program's own main never shows this: it runs
      check_is_dag first, which makes every destination a key (see
      ShortestPathsAsMain). */
  lemma SinkReadsZero(d: map<nat, int>)
    requires Relaxed(OneEdge, 1, Initial(OneEdge.Keys, 1), d)
    ensures 2 in d && d[2] == 0
    ensures WalkTo(OneEdge, 1, 2, 5) && !WalkTo(OneEdge, 1, 2, 0)
  {
    var d0 := Initial(OneEdge.Keys, 1);
    assert (2, 5) in Out(OneEdge, 1);
    assert Reached(1, d0, d, 1);
    assert Satisfied(d, 1, (2, 5));
    assert Walk(OneEdge, 1, [(2, 5)]);
    assert [(2, 5)][..0] == [];
    forall es: seq<Edge> | Walk(OneEdge, 1, es) && End(1, es) == 2 ensures Weight(es) == 5 {
      assert es != [];
      assert es[0] in Out(OneEdge, 1);
      WalkThroughKeys(OneEdge, 1, es);
      if |es| > 1 {
        assert false;
      }
      assert es == [(2, 5)];
      assert es[..0] == [];
    }
  }

  // ---------------------------------------------------------------------------
  // main

  /** The two ways main gives up before computing distances. */
  datatype MainError = NotADag | SourceNotInDag

  /** Adding keys with no edges changes neither the nodes nor any node's
      successors. */
  lemma SameEdges(dag: Dag, dag': Dag)
    requires forall x :: Out(dag', x) == Out(dag, x)
    requires dag.Keys <= dag'.Keys <= Nodes(dag)
    ensures Nodes(dag') == Nodes(dag)
    ensures forall u :: Succs(dag', u) == Succs(dag, u)
  {
    forall v | v in Dests(dag') ensures v in Dests(dag) {
      var x, e :| x in dag' && e in dag'[x] && e.0 == v;
      assert e in Out(dag', x);
    }
    forall v | v in Dests(dag) ensures v in Dests(dag') {
      var x, e :| x in dag && e in dag[x] && e.0 == v;
      assert e in Out(dag, x);
    }
  }

  /** Shortest distances are about the edges and the nodes only, so they carry
      over to the map with the added keys. */
  lemma SameEdgesShortest(dag: Dag, dag': Dag, source: nat, d: map<nat, int>)
    requires forall x :: Out(dag', x) == Out(dag, x)
    requires Nodes(dag') == Nodes(dag)
    requires Shortest(dag', source, d)
    ensures Shortest(dag, source, d)
  {
    forall v | v in d && d[v] < IntMax ensures WalkTo(dag, source, v, d[v]) {
      var es :| Walk(dag', source, es) && End(source, es) == v && Weight(es) == d[v];
      assert Walk(dag, source, es);
    }
    forall es | Walk(dag, source, es) && BelowIntMax(es)
      ensures End(source, es) in d && d[End(source, es)] <= Weight(es)
    {
      assert Walk(dag', source, es);
    }
  }

  /** main without its input and output: check_is_dag, which adds every
      destination as a key, then the test that the source is a key, then
      find_shortest_paths on the keyed map. Called this way the distances are
      the shortest walk weights; the defect of find_shortest_paths called
      directly (SinkReadsZero) does not show. */
  method ShortestPathsAsMain(dag: Dag, source: nat) returns (r: Result<map<nat, int>, MainError>)
    ensures r.Failure? <==> HasCycle(dag) || source !in Nodes(dag)
    ensures r.Failure? ==> r.error == if HasCycle(dag) then NotADag else SourceNotInDag
    ensures r.Success? ==> Shortest(dag, source, r.value)
  {
    var ok, dag', rank := CheckIsDag(dag);
    if !ok {
      return Failure(NotADag);
    }
    if source !in dag' {
      return Failure(SourceNotInDag);
    }
    SameEdges(dag, dag');
    var distances, dag'' := FindShortestPaths(dag', source, rank);
    SameEdgesShortest(dag, dag', source, distances);
    return Success(distances);
  }
}
