/** Kosaraju's strongly connected components of graphs/kosaraju.cpp: a first
    depth-first search stacks the nodes in order of finishing time, the graph is
    transposed, and a second search on the transpose, started from the nodes in
    stack order, collects one component per start node not yet visited.

    A graph maps a node to the set of its successors; `G[node]` on a node that is
    not a key reads as the empty set. The unordered containers are iterated in
    an order the model leaves open (`:|`). */
module Kosaraju {

  type Graph = map<nat, set<nat>>

  /** The successors of `x`: `G[x]`, empty for a node that is not a key. */
  function Adj(g: Graph, x: nat): set<nat> {
    if x in g then g[x] else {}
  }

  /** The destinations of all edges. */
  function Dests(g: Graph): set<nat> {
    set x, y | x in g && y in g[x] :: y
  }

  /** The nodes of a graph: its keys and the destinations of its edges. */
  function Nodes(g: Graph): set<nat> {
    g.Keys + Dests(g)
  }

  /** The elements of a stack (the top is the last element). */
  function Elems(s: seq<nat>): set<nat> {
    set i | 0 <= i < |s| :: s[i]
  }

  /** No node occurs twice in `s`. */
  predicate NoDup(s: seq<nat>) {
    forall i, j :: 0 <= i < j < |s| ==> s[i] != s[j]
  }

  /** `p` is a path of `g` through nodes outside `avoid`. */
  ghost predicate IsPath(g: Graph, avoid: set<nat>, p: seq<nat>) {
    |p| > 0 &&
    (forall i :: 0 <= i < |p| ==> p[i] !in avoid) &&
    (forall i :: 0 <= i < |p| - 1 ==> p[i + 1] in Adj(g, p[i]))
  }

  /** `y` can be reached from `x` in `g` through nodes outside `avoid`. */
  ghost predicate Reaches(g: Graph, avoid: set<nat>, x: nat, y: nat) {
    exists p :: IsPath(g, avoid, p) && p[0] == x && p[|p| - 1] == y
  }

  /** Every successor of a node of `from` lies in `into`. */
  ghost predicate Closed(g: Graph, from: set<nat>, into: set<nat>) {
    forall x, c :: x in from && c in Adj(g, x) ==> c in into
  }

  /** The nodes reached from `x` through nodes outside `avoid` are exactly the
      nodes of `found`. */
  ghost predicate ReachedExactly(g: Graph, avoid: set<nat>, x: nat, found: set<nat>) {
    forall y :: y in found <==> Reaches(g, avoid, x, y)
  }

  /** A path that starts in a set closed under successors, outside `avoid`,
      stays in that set. */
  lemma {:induction false} ClosedPath(g: Graph, avoid: set<nat>, into: set<nat>, p: seq<nat>, n: nat)
    requires Closed(g, into - avoid, into) && IsPath(g, avoid, p) && p[0] in into
    requires n < |p|
    ensures p[n] in into
  {
    if n > 0 {
      ClosedPath(g, avoid, into, p, n - 1);
      assert p[n] in Adj(g, p[n - 1]);
    }
  }

  /** A node reached from a node of a closed set lies in that set. */
  lemma ClosedReach(g: Graph, avoid: set<nat>, into: set<nat>, x: nat, y: nat)
    requires Closed(g, into - avoid, into) && x in into && Reaches(g, avoid, x, y)
    ensures y in into
  {
    var p :| IsPath(g, avoid, p) && p[0] == x && p[|p| - 1] == y;
    ClosedPath(g, avoid, into, p, |p| - 1);
  }

  /** A node outside `avoid` reaches itself. */
  lemma ReachSelf(g: Graph, avoid: set<nat>, x: nat)
    requires x !in avoid
    ensures Reaches(g, avoid, x, x)
  {
    assert IsPath(g, avoid, [x]);
  }

  /** A path from a successor `c` of `x`, through nodes outside a set that
      holds `avoid`, extends to a path from `x`. */
  lemma ReachThrough(g: Graph, avoid: set<nat>, wider: set<nat>, x: nat, c: nat, y: nat)
    requires avoid <= wider && x !in avoid && c in Adj(g, x) && Reaches(g, wider, c, y)
    ensures Reaches(g, avoid, x, y)
  {
    var p :| IsPath(g, wider, p) && p[0] == c && p[|p| - 1] == y;
    var q := [x] + p;
    assert forall i :: 1 <= i < |q| ==> q[i] == p[i - 1];
    assert IsPath(g, avoid, q);
  }

  /** A node reached from a node of `Nodes(g)` is a node of `g`. */
  lemma ReachInNodes(g: Graph, avoid: set<nat>, x: nat, y: nat)
    requires x in Nodes(g) && Reaches(g, avoid, x, y)
    ensures y in Nodes(g)
  {
    var p :| IsPath(g, avoid, p) && p[0] == x && p[|p| - 1] == y;
    if |p| > 1 {
      var z := p[|p| - 2];
      assert y in Adj(g, z);
      assert z in g;
    }
  }

  /** Taking a node of `n` into a set makes fewer nodes of `n` lie outside it. */
  lemma FewerOutside(n: set<nat>, a: set<nat>, b: set<nat>, x: nat)
    requires a <= b && x in n && x in b && x !in a
    ensures |n - b| < |n - a|
  {
    assert n - b <= (n - a) - {x};
    SubsetCard(n - b, (n - a) - {x});
  }

  lemma {:induction false} SubsetCard(a: set<nat>, b: set<nat>)
    requires a <= b
    ensures |a| <= |b|
    decreases |b|
  {
    if a != {} {
      var x :| x in a;
      SubsetCard(a - {x}, b - {x});
    }
  }

  /** Part way through the successors of `node`: `node` and the nodes
      searched so far are visited, the successors in `done` are visited, every
      successor of a visited node other than `node` is visited, and every newly
      visited node is reached from `node` through nodes visited before. */
  ghost predicate Exploring(g: Graph, node: nat, visited: set<nat>, visited': set<nat>, done: set<nat>) {
    visited + {node} <= visited' && done <= visited' &&
    Closed(g, visited' - visited - {node}, visited') &&
    forall y :: y in visited' - visited ==> Reaches(g, visited, node, y)
  }

  /** A finished search from `node`: it visited exactly the nodes reached from
      `node` through unvisited nodes, and every successor of a node it visited
      is visited. */
  ghost predicate Explored(g: Graph, node: nat, visited: set<nat>, visited': set<nat>) {
    visited <= visited' &&
    ReachedExactly(g, visited, node, visited' - visited) &&
    Closed(g, visited' - visited, visited')
  }

  lemma ExploreStart(g: Graph, node: nat, visited: set<nat>)
    requires node !in visited
    ensures Exploring(g, node, visited, visited + {node}, {})
  {
    ReachSelf(g, visited, node);
  }

  /** A finished search from an unvisited successor `c` carries the search
      from `node` one successor further. */
  lemma ExploreChild(g: Graph, node: nat, c: nat, visited: set<nat>, done: set<nat>, before: set<nat>, after: set<nat>)
    requires node !in visited && Exploring(g, node, visited, before, done) && c in Adj(g, node) && c !in before
    requires Explored(g, c, before, after)
    ensures Exploring(g, node, visited, after, done + {c})
  {
    ReachSelf(g, before, c);
    forall y | y in after - visited ensures Reaches(g, visited, node, y) {
      if y !in before {
        ReachThrough(g, visited, before, node, c, y);
      }
    }
  }

  /** Once every successor of `node` is done, the search from `node` is
      finished. */
  lemma ExploreEnd(g: Graph, node: nat, visited: set<nat>, visited': set<nat>)
    requires node !in visited && Exploring(g, node, visited, visited', Adj(g, node))
    ensures Explored(g, node, visited, visited')
  {
    forall y | Reaches(g, visited, node, y) ensures y in visited' {
      ClosedReach(g, visited, visited', node, y);
    }
  }

  /** A search from an unvisited node that is not a node of `g` cannot go past
      it, and one that is leaves fewer unvisited nodes. */
  lemma SearchShrinks(g: Graph, node: nat, c: nat, visited: set<nat>, visited': set<nat>)
    requires node !in visited && node in visited' && visited <= visited' && c in Adj(g, node)
    ensures |Nodes(g) - visited'| < |Nodes(g) - visited|
  {
    assert node in g;
    FewerOutside(Nodes(g), visited, visited', node);
  }

  /** The stack a search from `node` leaves: the stack it was given with the
      newly visited nodes on top, each once, `node` last. */
  ghost predicate Stacked(s: seq<nat>, visited: set<nat>, node: nat, s': seq<nat>, visited': set<nat>) {
    |s| < |s'| && s'[..|s|] == s && s'[|s'| - 1] == node &&
    NoDup(s'[|s|..]) && visited' - visited == Elems(s'[|s|..])
  }

  /** Part way through a search from `node`: the stack it was given with the
      nodes visited so far other than `node` on top, each once. */
  ghost predicate Stacking(s: seq<nat>, visited: set<nat>, node: nat, s': seq<nat>, visited': set<nat>) {
    |s| <= |s'| && s'[..|s|] == s && NoDup(s'[|s|..]) &&
    visited' - visited == Elems(s'[|s|..]) + {node} && node !in Elems(s'[|s|..])
  }

  lemma StackChild(s: seq<nat>, visited: set<nat>, node: nat, pushed: seq<nat>, before: set<nat>,
                   c: nat, s': seq<nat>, visited': set<nat>)
    requires visited <= before <= visited' && Stacking(s, visited, node, pushed, before)
    requires Stacked(pushed, before, c, s', visited')
    ensures Stacking(s, visited, node, s', visited')
  {
    PushedMore(s, pushed, s');
    assert node in before;
    assert visited' - visited == (before - visited) + (visited' - before);
  }

  lemma StackEnd(s: seq<nat>, visited: set<nat>, node: nat, s': seq<nat>, visited': set<nat>)
    requires Stacking(s, visited, node, s', visited')
    ensures Stacked(s, visited, node, s' + [node], visited')
  {
    PushedLast(s, s', node);
  }

  /** stackBuilderDFS: marks `node` visited, searches from each of its
      successors not yet visited, and pushes `node` once they are done. It
      visits exactly the nodes reached from `node` through unvisited nodes,
      pushes each of them once, and pushes `node` last, after every node
      reached from it; every successor of a node it visits ends up visited. */
  method StackBuilderDfs(node: nat, g: Graph, s: seq<nat>, visited: set<nat>)
    returns (s': seq<nat>, visited': set<nat>)
    requires node !in visited
    ensures Explored(g, node, visited, visited') && Stacked(s, visited, node, s', visited')
    decreases |Nodes(g) - visited|
  {
    visited' := visited + {node};
    s' := s;
    ExploreStart(g, node, visited);
    var todo := Adj(g, node);
    while todo != {}
      invariant todo <= Adj(g, node) && Exploring(g, node, visited, visited', Adj(g, node) - todo)
      invariant Stacking(s, visited, node, s', visited')
      decreases todo
    {
      var c :| c in todo;
      ghost var done := Adj(g, node) - todo;
      todo := todo - {c};
      assert Adj(g, node) - todo == done + {c};
      if c !in visited' {
        ghost var before, pushed := visited', s';
        SearchShrinks(g, node, c, visited, visited');
        s', visited' := StackBuilderDfs(c, g, s', visited');
        ExploreChild(g, node, c, visited, done, before, visited');
        StackChild(s, visited, node, pushed, before, c, s', visited');
      }
    }
    StackEnd(s, visited, node, s', visited');
    s' := s' + [node];
    ExploreEnd(g, node, visited, visited');
  }

  /** Pushing the new nodes of a nested search onto a stack that extends `s`
      keeps the nodes above `s` free of repeats and adds them to its elements. */
  lemma PushedMore(s: seq<nat>, mid: seq<nat>, last: seq<nat>)
    requires |s| <= |mid| && mid[..|s|] == s && NoDup(mid[|s|..])
    requires |mid| <= |last| && last[..|mid|] == mid && NoDup(last[|mid|..])
    requires Elems(mid[|s|..]) !! Elems(last[|mid|..])
    ensures last[..|s|] == s && NoDup(last[|s|..])
    ensures Elems(last[|s|..]) == Elems(mid[|s|..]) + Elems(last[|mid|..])
  {
    var a, b, c := mid[|s|..], last[|mid|..], last[|s|..];
    assert c == a + b;
    forall i, j | 0 <= i < j < |c| ensures c[i] != c[j] {
      if j < |a| {
        assert c[i] == a[i] && c[j] == a[j];
      } else if i >= |a| {
        assert c[i] == b[i - |a|] && c[j] == b[j - |a|];
      } else {
        assert c[i] == a[i] && c[j] == b[j - |a|];
        assert c[i] in Elems(a) && c[j] in Elems(b);
      }
    }
    forall y | y in Elems(c) ensures y in Elems(a) + Elems(b) {
      var i :| 0 <= i < |c| && c[i] == y;
      if i < |a| {
        assert a[i] == y;
      } else {
        assert b[i - |a|] == y;
      }
    }
    forall y | y in Elems(a) + Elems(b) ensures y in Elems(c) {
      if y in Elems(a) {
        var i :| 0 <= i < |a| && a[i] == y;
        assert c[i] == y;
      } else {
        var i :| 0 <= i < |b| && b[i] == y;
        assert c[|a| + i] == y;
      }
    }
  }

  /** Pushing one node that is not among the new nodes keeps them free of
      repeats. */
  lemma PushedLast(s: seq<nat>, mid: seq<nat>, x: nat)
    requires |s| <= |mid| && mid[..|s|] == s && NoDup(mid[|s|..]) && x !in Elems(mid[|s|..])
    ensures (mid + [x])[..|s|] == s && NoDup((mid + [x])[|s|..])
    ensures Elems((mid + [x])[|s|..]) == Elems(mid[|s|..]) + {x}
  {
    var a, c := mid[|s|..], (mid + [x])[|s|..];
    assert c == a + [x];
    forall i, j | 0 <= i < j < |c| ensures c[i] != c[j] {
      if j < |a| {
        assert c[i] == a[i] && c[j] == a[j];
      } else {
        assert c[i] == a[i] && c[i] in Elems(a);
      }
    }
    forall y | y in Elems(c) ensures y in Elems(a) + {x} {
      var i :| 0 <= i < |c| && c[i] == y;
      if i < |a| {
        assert a[i] == y;
      }
    }
    forall y | y in Elems(a) ensures y in Elems(c) {
      var i :| 0 <= i < |a| && a[i] == y;
      assert c[i] == y;
    }
    assert c[|a|] == x;
  }

  /** sccFinderDFS: marks `node` visited and collects it, then searches from
      each successor in the transpose `t` not yet visited. It collects exactly
      the unvisited nodes reached from `node` in `t`, and every successor of a
      node it collects ends up visited. */
  method SccFinderDfs(node: nat, t: Graph, visited: set<nat>, scc: set<nat>)
    returns (visited': set<nat>, scc': set<nat>)
    requires node !in visited
    ensures Explored(t, node, visited, visited') && scc' == scc + (visited' - visited)
    decreases |Nodes(t) - visited|
  {
    visited' := visited + {node};
    scc' := scc + {node};
    ExploreStart(t, node, visited);
    var todo := Adj(t, node);
    while todo != {}
      invariant todo <= Adj(t, node) && Exploring(t, node, visited, visited', Adj(t, node) - todo)
      invariant scc' == scc + (visited' - visited)
      decreases todo
    {
      var c :| c in todo;
      ghost var done := Adj(t, node) - todo;
      todo := todo - {c};
      assert Adj(t, node) - todo == done + {c};
      if c !in visited' {
        ghost var before := visited';
        SearchShrinks(t, node, c, visited, visited');
        visited', scc' := SccFinderDfs(c, t, visited', scc');
        ExploreChild(t, node, c, visited, done, before, visited');
      }
    }
    ExploreEnd(t, node, visited, visited');
  }

  /** transposeGraph: for every edge `u -> v` of `g`, adds `u` to `T[v]`. In
      the transpose `u` is a successor of `v` exactly when `v` is a successor of
      `u` in `g`, and its keys are the destinations of `g`'s edges. */
  method TransposeGraph(g: Graph) returns (t: Graph)
    ensures forall u, v :: u in Adj(t, v) <==> v in Adj(g, u)
    ensures t.Keys == Dests(g)
  {
    t := map[];
    var sources := g.Keys;
    while sources != {}
      invariant sources <= g.Keys && Transposed(g, g.Keys - sources, t)
      decreases sources
    {
      var u :| u in sources;
      ghost var t0 := t;
      t := InsertSource(t, u, g[u]);
      TransposedMore(g, g.Keys - sources, u, t0, t);
      sources := sources - {u};
      assert g.Keys - sources == (g.Keys - (sources + {u})) + {u};
    }
    assert g.Keys - sources == g.Keys;
  }

  /** `t` is the transpose of the edges of `g` that leave the nodes of `done`. */
  ghost predicate Transposed(g: Graph, done: set<nat>, t: Graph) {
    (forall u, v :: u in Adj(t, v) <==> u in done && v in Adj(g, u)) &&
    t.Keys == set u, v | u in done && u in g && v in g[u] :: v
  }

  /** The inner loop of transposeGraph: adds `u` to `T[v]` for every `v` of
      `dests`, creating the entries that are missing. */
  method InsertSource(t: Graph, u: nat, dests: set<nat>) returns (t': Graph)
    ensures forall x, v :: x in Adj(t', v) <==> x in Adj(t, v) || (x == u && v in dests)
    ensures t'.Keys == t.Keys + dests
  {
    t' := t;
    var todo := dests;
    while todo != {}
      invariant todo <= dests
      invariant forall x, v :: x in Adj(t', v) <==> x in Adj(t, v) || (x == u && v in dests - todo)
      invariant t'.Keys == t.Keys + (dests - todo)
      decreases todo
    {
      var v :| v in todo;
      ghost var before := t';
      t' := t'[v := Adj(t', v) + {u}];
      todo := todo - {v};
      forall x, w ensures x in Adj(t', w) <==> x in Adj(t, w) || (x == u && w in dests - todo) {
        if w != v {
          assert Adj(t', w) == Adj(before, w);
        }
      }
    }
  }

  lemma TransposedMore(g: Graph, done: set<nat>, u: nat, t: Graph, t': Graph)
    requires u in g && u !in done && Transposed(g, done, t)
    requires forall x, v :: x in Adj(t', v) <==> x in Adj(t, v) || (x == u && v in g[u])
    requires t'.Keys == t.Keys + g[u]
    ensures Transposed(g, done + {u}, t')
  {
    var old_ := set x, v | x in done && x in g && v in g[x] :: v;
    var new_ := set x, v | x in done + {u} && x in g && v in g[x] :: v;
    assert new_ == old_ + g[u];
  }

  /** The nodes of the transpose are the nodes of the graph that have an edge,
      and they lie among the nodes of the graph. */
  lemma TransposeNodes(g: Graph, t: Graph)
    requires forall u, v :: u in Adj(t, v) <==> v in Adj(g, u)
    requires t.Keys == Dests(g)
    ensures Nodes(t) <= Nodes(g)
  {
    forall y | y in Dests(t) ensures y in g {
      var x :| x in t && y in t[x];
      assert y in Adj(t, x) && x in Adj(g, y);
    }
  }

  /** The first loop of main: a search from every key of `g` not yet visited.
      Every node of `g` ends up on the stack exactly once. */
  method FinishOrder(g: Graph) returns (s: seq<nat>)
    ensures NoDup(s) && Elems(s) == Nodes(g)
  {
    s := [];
    var visited: set<nat> := {};
    var keys := g.Keys;
    while keys != {}
      invariant keys <= g.Keys && g.Keys - keys <= visited
      invariant NoDup(s) && Elems(s) == visited && visited <= Nodes(g)
      invariant Closed(g, visited, visited)
      decreases keys
    {
      var x :| x in keys;
      keys := keys - {x};
      if x !in visited {
        ghost var before, stacked := visited, s;
        s, visited := StackBuilderDfs(x, g, s, visited);
        assert s[..|stacked|] == stacked;
        PushedMore([], stacked, s);
        assert s[0..] == s && stacked[0..] == stacked;
        forall y | y in visited - before ensures y in Nodes(g) {
          ReachInNodes(g, before, x, y);
        }
      }
    }
    forall y | y in Dests(g) ensures y in visited {
      var x :| x in g && y in g[x];
      assert y in Adj(g, x);
    }
  }

  /** The union of a sequence of sets. */
  function Union(cs: seq<set<nat>>): set<nat> {
    if cs == [] then {} else Union(cs[..|cs| - 1]) + cs[|cs| - 1]
  }

  /** `cs` is a partition of `nodes`: non-empty sets, pairwise disjoint, that
      cover `nodes`. */
  ghost predicate Partition(cs: seq<set<nat>>, nodes: set<nat>) {
    (forall i :: 0 <= i < |cs| ==> cs[i] != {}) &&
    (forall i, j :: 0 <= i < j < |cs| ==> cs[i] !! cs[j]) &&
    Union(cs) == nodes
  }

  /** A set disjoint from a union is disjoint from each of its sets. */
  lemma {:induction false} DisjointFromUnion(cs: seq<set<nat>>, c: set<nat>, i: nat)
    requires c !! Union(cs) && i < |cs|
    ensures c !! cs[i]
    decreases |cs|
  {
    if i < |cs| - 1 {
      DisjointFromUnion(cs[..|cs| - 1], c, i);
    }
  }

  /** The `i`-th set of `cs` is exactly the set of nodes reached in `t`, from
      some start node, through nodes of no earlier set. */
  ghost predicate Grown(t: Graph, cs: seq<set<nat>>, i: nat)
    requires i < |cs|
  {
    exists x :: ReachedExactly(t, Union(cs[..i]), x, cs[i])
  }

  /** The second loop after popping all but the first `n` nodes of the stack:
      the components found so far partition the visited nodes, which lie on the
      stack and hold every popped node. */
  ghost predicate Collecting(t: Graph, s: seq<nat>, n: nat, cs: seq<set<nat>>, visited: set<nat>) {
    n <= |s| && visited == Union(cs) && Partition(cs, visited) && visited <= Elems(s) &&
    Elems(s[n..]) <= visited &&
    forall i :: 0 <= i < |cs| ==> Grown(t, cs, i)
  }

  /** Popping a node already visited changes nothing else. */
  lemma CollectSkip(t: Graph, s: seq<nat>, n: nat, cs: seq<set<nat>>, visited: set<nat>)
    requires 0 < n && Collecting(t, s, n, cs, visited) && s[n - 1] in visited
    ensures Collecting(t, s, n - 1, cs, visited)
  {
    PopElems(s, n - 1);
  }

  lemma PopElems(s: seq<nat>, n: nat)
    requires n < |s|
    ensures Elems(s[n..]) == Elems(s[n + 1..]) + {s[n]}
  {
    forall y | y in Elems(s[n..]) ensures y in Elems(s[n + 1..]) + {s[n]} {
      var i :| 0 <= i < |s[n..]| && s[n..][i] == y;
      if i > 0 {
        assert s[n + 1..][i - 1] == y;
      }
    }
    forall y | y in Elems(s[n + 1..]) + {s[n]} ensures y in Elems(s[n..]) {
      if y == s[n] {
        assert s[n..][0] == y;
      } else {
        var i :| 0 <= i < |s[n + 1..]| && s[n + 1..][i] == y;
        assert s[n..][i + 1] == y;
      }
    }
  }

  /** Popping an unvisited node and collecting what a search from it visits
      adds one component. */
  lemma CollectNew(t: Graph, s: seq<nat>, n: nat, cs: seq<set<nat>>, visited: set<nat>, visited': set<nat>)
    requires 0 < n && Collecting(t, s, n, cs, visited) && s[n - 1] !in visited
    requires Nodes(t) <= Elems(s) && Explored(t, s[n - 1], visited, visited')
    ensures Collecting(t, s, n - 1, cs + [visited' - visited], visited')
  {
    var node, scc := s[n - 1], visited' - visited;
    forall y | y in scc ensures y in Elems(s) {
      if y != node {
        assert Reaches(t, visited, node, y);
        var p :| IsPath(t, visited, p) && p[0] == node && p[|p| - 1] == y;
        var z := p[|p| - 2];
        assert y in Adj(t, z) && z in t;
      } else {
        assert s[n - 1] == node;
      }
    }
    forall i | 0 <= i < |cs| ensures cs[i] !! scc {
      DisjointFromUnion(cs, scc, i);
    }
    ReachSelf(t, visited, node);
    var cs' := cs + [scc];
    assert cs'[..|cs|] == cs;
    forall i | 0 <= i < |cs'| ensures Grown(t, cs', i) {
      if i < |cs| {
        assert cs'[..i] == cs[..i];
        assert Grown(t, cs, i);
      } else {
        assert ReachedExactly(t, Union(cs'[..i]), node, cs'[i]);
      }
    }
    PopElems(s, n - 1);
  }

  /** The second loop of main: pops the stack and, from each popped node not
      yet visited, collects a component in the transpose. The components
      partition the nodes on the stack, and each is exactly the set of nodes
      reached in the transpose from its start node through nodes of no earlier
      component. */
  method CollectComponents(t: Graph, s: seq<nat>) returns (components: seq<set<nat>>)
    requires Nodes(t) <= Elems(s)
    ensures Partition(components, Elems(s))
    ensures forall i :: 0 <= i < |components| ==> Grown(t, components, i)
  {
    components := [];
    var visited: set<nat> := {};
    var n := |s|;
    assert s[n..] == [];
    while n > 0
      invariant Collecting(t, s, n, components, visited)
    {
      var node := s[n - 1];
      if node !in visited {
        ghost var before := visited;
        var scc;
        visited, scc := SccFinderDfs(node, t, visited, {});
        CollectNew(t, s, n, components, before, visited);
        components := components + [scc];
      } else {
        CollectSkip(t, s, n, components, visited);
      }
      n := n - 1;
    }
    assert s[0..] == s;
  }

  /** The components main computes: finishing order on `g`, then components
      on the transpose in that order. They partition the nodes of `g`. */
  method StronglyConnectedComponents(g: Graph) returns (components: seq<set<nat>>)
    ensures Partition(components, Nodes(g))
  {
    var t := TransposeGraph(g);
    var s := FinishOrder(g);
    TransposeNodes(g, t);
    components := CollectComponents(t, s);
  }
}
