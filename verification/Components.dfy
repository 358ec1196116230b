/** Connected components of a result graph by union-find with path compression, and the hub of each
    component (graph-data.ts, highlightComponentCenters). */
module Components {
  import opened Lists

  /** A node key, as graphology holds it. */
  datatype Node = Node(key: string)

  /** Node keys in insertion order and the end points of the edges. */
  datatype Graph = Graph(nodes: seq<Node>, edges: seq<(Node, Node)>)

  /** graphology: keys are distinct, and an edge joins existing nodes. */
  predicate IsGraph(g: Graph) {
    && (forall i, j | 0 <= i < j < |g.nodes| :: g.nodes[i] != g.nodes[j])
    && (forall i | 0 <= i < |g.edges| :: g.edges[i].0 in g.nodes && g.edges[i].1 in g.nodes)
  }

  // ---------- undirected connection ----------

  predicate Adjacent(edges: seq<(Node, Node)>, u: Node, v: Node) {
    (u, v) in edges || (v, u) in edges
  }

  predicate IsPath(edges: seq<(Node, Node)>, path: seq<Node>) {
    forall i | 0 <= i < |path| - 1 :: Adjacent(edges, path[i], path[i + 1])
  }

  ghost predicate Joins(edges: seq<(Node, Node)>, path: seq<Node>, u: Node, v: Node) {
    path != [] && path[0] == u && path[|path| - 1] == v && IsPath(edges, path)
  }

  ghost predicate Connected(edges: seq<(Node, Node)>, u: Node, v: Node) {
    exists path :: Joins(edges, path, u, v)
  }

  lemma ConnectedSelf(edges: seq<(Node, Node)>, u: Node)
    ensures Connected(edges, u, u)
  {
    assert Joins(edges, [u], u, u);
  }

  lemma ConnectedByEdge(edges: seq<(Node, Node)>, u: Node, v: Node)
    requires Adjacent(edges, u, v)
    ensures Connected(edges, u, v)
  {
    assert Joins(edges, [u, v], u, v);
  }

  lemma ConnectedTrans(edges: seq<(Node, Node)>, u: Node, v: Node, w: Node)
    requires Connected(edges, u, v) && Connected(edges, v, w)
    ensures Connected(edges, u, w)
  {
    var p :| Joins(edges, p, u, v);
    var q :| Joins(edges, q, v, w);
    var r := p + q[1..];
    forall i | 0 <= i < |r| - 1
      ensures Adjacent(edges, r[i], r[i + 1])
    {
      if i < |p| - 1 {
        assert Adjacent(edges, p[i], p[i + 1]);
      } else {
        assert Adjacent(edges, q[i - (|p| - 1)], q[i - (|p| - 1) + 1]);
      }
    }
    assert Joins(edges, r, u, w);
  }

  lemma ConnectedSym(edges: seq<(Node, Node)>, u: Node, v: Node)
    requires Connected(edges, u, v)
    ensures Connected(edges, v, u)
  {
    var p :| Joins(edges, p, u, v);
    var r := seq(|p|, i requires 0 <= i < |p| => p[|p| - 1 - i]);
    forall i | 0 <= i < |r| - 1
      ensures Adjacent(edges, r[i], r[i + 1])
    {
      var k := |p| - 2 - i;
      assert Adjacent(edges, p[k], p[k + 1]);
    }
    assert Joins(edges, r, v, u);
  }

  lemma ConnectedMore(edges: seq<(Node, Node)>, more: seq<(Node, Node)>, u: Node, v: Node)
    requires Connected(edges, u, v) && edges <= more
    ensures Connected(more, u, v)
  {
    var p :| Joins(edges, p, u, v);
    forall i | 0 <= i < |p| - 1
      ensures Adjacent(more, p[i], p[i + 1])
    {
      assert Adjacent(edges, p[i], p[i + 1]);
      assert forall e | e in edges :: e in more;
    }
    assert Joins(more, p, u, v);
  }

  // ---------- forests ----------

  ghost predicate GoodLink(parent: map<Node, Node>, level: map<Node, nat>, top: nat, n: Node) {
    && n in parent && n in level && level[n] <= top
    && parent[n] in parent && parent[n] in level
    && (parent[n] != n ==> level[n] < level[parent[n]])
  }

  /** Every node has a parent in the map, and levels grow strictly towards the roots, up to `top`. */
  ghost predicate IsForest(parent: map<Node, Node>, level: map<Node, nat>, top: nat) {
    forall n {:trigger GoodLink(parent, level, top, n)} :: n in parent ==> GoodLink(parent, level, top, n)
  }

  /** The root that the parent links lead to: the representative of the node's component. */
  ghost function Root(parent: map<Node, Node>, level: map<Node, nat>, top: nat, n: Node): (r: Node)
    requires IsForest(parent, level, top) && n in parent
    ensures r in parent && parent[r] == r && n in level && r in level
    ensures r != n ==> level[n] < level[r]
    decreases top - (if GoodLink(parent, level, top, n) then level[n] else 0)
  {
    assert GoodLink(parent, level, top, n);
    if parent[n] == n then n
    else
      assert GoodLink(parent, level, top, parent[n]);
      Root(parent, level, top, parent[n])
  }

  lemma CompressionKeepsForest(
      parent: map<Node, Node>, parent': map<Node, Node>, level: map<Node, nat>, top: nat, x: Node)
    requires IsForest(parent, level, top) && x in parent && parent' == parent[x := Root(parent, level, top, x)]
    ensures IsForest(parent', level, top)
  {
    forall n | n in parent'
      ensures GoodLink(parent', level, top, n)
    {
      assert GoodLink(parent, level, top, n);
    }
  }

  lemma {:induction false} CompressionKeepsRoot(
      parent: map<Node, Node>, parent': map<Node, Node>, level: map<Node, nat>, top: nat, x: Node, n: Node)
    requires IsForest(parent, level, top) && IsForest(parent', level, top)
    requires x in parent && n in parent && parent' == parent[x := Root(parent, level, top, x)]
    ensures Root(parent', level, top, n) == Root(parent, level, top, n)
    decreases top - (if GoodLink(parent, level, top, n) then level[n] else 0)
  {
    assert GoodLink(parent, level, top, n) && GoodLink(parent, level, top, parent[n]);
    if n != x && parent[n] != n {
      CompressionKeepsRoot(parent, parent', level, top, x, parent[n]);
    }
  }

  lemma LinkKeepsForest(parent: map<Node, Node>, level: map<Node, nat>, top: nat, a: Node, b: Node)
    requires IsForest(parent, level, top) && a in parent && b in parent
    requires parent[a] == a && parent[b] == b && a != b
    requires a in level && b in level
    ensures IsForest(parent[a := b], level[b := Max(level[b], level[a] + 1)], top + 1)
  {
    var parent', level' := parent[a := b], level[b := Max(level[b], level[a] + 1)];
    assert GoodLink(parent, level, top, a) && GoodLink(parent, level, top, b);
    forall n | n in parent'
      ensures GoodLink(parent', level', top + 1, n)
    {
      assert GoodLink(parent, level, top, n);
    }
  }

  /** Linking one root under another merges their two trees and leaves the others. */
  lemma {:induction false} LinkMerges(
      parent: map<Node, Node>, level: map<Node, nat>, top: nat, a: Node, b: Node, n: Node)
    requires IsForest(parent, level, top) && a in parent && b in parent && n in parent
    requires parent[a] == a && parent[b] == b && a != b
    requires a in level && b in level
    requires IsForest(parent[a := b], level[b := Max(level[b], level[a] + 1)], top + 1)
    ensures var parent' := parent[a := b];
            var level' := level[b := Max(level[b], level[a] + 1)];
            var root := Root(parent, level, top, n);
            Root(parent', level', top + 1, n) == if root == a then b else root
    decreases top - (if GoodLink(parent, level, top, n) then level[n] else 0)
  {
    assert GoodLink(parent, level, top, n) && GoodLink(parent, level, top, parent[n]);
    if parent[n] != n {
      LinkMerges(parent, level, top, a, b, parent[n]);
    }
  }

  ghost function RootsOf(parent: map<Node, Node>, level: map<Node, nat>, top: nat): (m: map<Node, Node>)
    requires IsForest(parent, level, top)
    ensures m.Keys == parent.Keys
  {
    map n | n in parent :: Root(parent, level, top, n)
  }

  /** The partition after joining the classes of `a` and `b`. */
  ghost function Merged(roots: map<Node, Node>, a: Node, b: Node): (m: map<Node, Node>)
    requires a in roots && b in roots
    ensures m.Keys == roots.Keys
  {
    map n | n in roots :: if roots[n] == roots[a] then roots[b] else roots[n]
  }

  /** A representative is a root and represents itself. */
  lemma Representative(parent: map<Node, Node>, level: map<Node, nat>, top: nat, n: Node)
    requires IsForest(parent, level, top) && n in parent
    ensures var r := RootsOf(parent, level, top)[n];
            r in parent && parent[r] == r && r in level && RootsOf(parent, level, top)[r] == r
  {
  }

  /** One link up the tree: same representative, higher level. */
  lemma ParentStep(parent: map<Node, Node>, level: map<Node, nat>, top: nat, n: Node)
    requires IsForest(parent, level, top) && n in parent
    ensures parent[n] in parent && n in level && parent[n] in level && level[parent[n]] <= top
    ensures parent[n] != n ==> level[n] < level[parent[n]]
    ensures RootsOf(parent, level, top)[parent[n]] == RootsOf(parent, level, top)[n]
    ensures parent[n] == n ==> RootsOf(parent, level, top)[n] == n
  {
    assert GoodLink(parent, level, top, n) && GoodLink(parent, level, top, parent[n]);
  }

  lemma RootsAt(parent: map<Node, Node>, level: map<Node, nat>, top: nat, n: Node)
    requires IsForest(parent, level, top) && n in parent
    ensures RootsOf(parent, level, top)[n] == Root(parent, level, top, n)
  {
    hide Root, IsForest;
  }

  /** Compressing one link leaves the partition alone. */
  lemma CompressionKeepsPartition(
      parent: map<Node, Node>, parent': map<Node, Node>, level: map<Node, nat>, top: nat, x: Node)
    requires IsForest(parent, level, top) && x in parent
    requires parent' == parent[x := RootsOf(parent, level, top)[x]]
    ensures IsForest(parent', level, top) && RootsOf(parent', level, top) == RootsOf(parent, level, top)
  {
    hide Root, IsForest, RootsOf, GoodLink;
    RootsAt(parent, level, top, x);
    CompressionKeepsForest(parent, parent', level, top, x);
    assert parent'.Keys == parent.Keys;
    forall n | n in parent
      ensures RootsOf(parent', level, top)[n] == RootsOf(parent, level, top)[n]
    {
      RootsAt(parent, level, top, n);
      RootsAt(parent', level, top, n);
      CompressionKeepsRoot(parent, parent', level, top, x, n);
    }
    SameMaps(RootsOf(parent', level, top), RootsOf(parent, level, top));
  }

  lemma SameMaps(m: map<Node, Node>, n: map<Node, Node>)
    requires m.Keys == n.Keys && forall k | k in m :: m[k] == n[k]
    ensures m == n
  {
  }

  lemma MergedAt(
      parent: map<Node, Node>, level: map<Node, nat>, top: nat, parent': map<Node, Node>, level': map<Node, nat>,
      a: Node, b: Node, rootA: Node, rootB: Node, n: Node)
    requires IsForest(parent, level, top) && a in parent && b in parent && n in parent && rootA != rootB
    requires RootsOf(parent, level, top)[a] == rootA && RootsOf(parent, level, top)[b] == rootB
    requires rootA in level && rootB in level && rootA in parent && rootB in parent
    requires parent[rootA] == rootA && parent[rootB] == rootB
    requires parent' == parent[rootA := rootB]
    requires level' == level[rootB := Max(level[rootB], level[rootA] + 1)]
    requires IsForest(parent', level', top + 1)
    ensures RootsOf(parent', level', top + 1)[n] == Merged(RootsOf(parent, level, top), a, b)[n]
  {
    hide Root, IsForest, Max;
    LinkMerges(parent, level, top, rootA, rootB, n);
  }

  lemma LinkMergesAll(
      parent: map<Node, Node>, level: map<Node, nat>, top: nat, parent': map<Node, Node>, level': map<Node, nat>,
      a: Node, b: Node, rootA: Node, rootB: Node)
    requires IsForest(parent, level, top) && a in parent && b in parent && rootA != rootB
    requires RootsOf(parent, level, top)[a] == rootA && RootsOf(parent, level, top)[b] == rootB
    requires rootA in level && rootB in level
    requires parent' == parent[rootA := rootB]
    requires level' == level[rootB := Max(level[rootB], level[rootA] + 1)]
    ensures IsForest(parent', level', top + 1)
    ensures RootsOf(parent', level', top + 1) == Merged(RootsOf(parent, level, top), a, b)
  {
    hide Root, IsForest, Max, RootsOf, Merged;
    Representative(parent, level, top, a);
    Representative(parent, level, top, b);
    LinkKeepsForest(parent, level, top, rootA, rootB);
    var merged := Merged(RootsOf(parent, level, top), a, b);
    var after := RootsOf(parent', level', top + 1);
    assert parent'.Keys == parent.Keys;
    assert after.Keys == merged.Keys;
    forall n | n in after
      ensures after[n] == merged[n]
    {
      MergedAt(parent, level, top, parent', level', a, b, rootA, rootB, n);
    }
    SameMaps(after, merged);
  }

  // ---------- union-find ----------

  /** The closure state of highlightComponentCenters: the `parent` map that find and union update. */
  class DisjointSets {
    var parent: map<Node, Node>
    ghost var level: map<Node, nat>
    ghost var top: nat

    ghost predicate Valid()
      reads this
    {
      IsForest(parent, level, top)
    }

    /** The partition: each node's representative. */
    ghost function Roots(): (m: map<Node, Node>)
      requires Valid()
      reads this
      ensures m.Keys == parent.Keys
    {
      RootsOf(parent, level, top)
    }

    constructor (nodes: seq<Node>)
      ensures Valid()
      ensures Roots() == map n | n in nodes :: n
    {
      parent, level, top := map[], map[], 0;
      new;
      for i := 0 to |nodes|
        invariant parent == map n | n in nodes[..i] :: n
        invariant level == map n | n in nodes[..i] :: 0
        invariant top == 0
      {
        parent := parent[nodes[i] := nodes[i]];
        level := level[nodes[i] := 0];
      }
      assert nodes[..|nodes|] == nodes;
    }

    /** Walks to the root, then hangs every node of the walk directly under it. The partition stays. */
    method Find(start: Node) returns (root: Node)
      requires Valid() && start in parent
      modifies this`parent
      ensures Valid() && Roots() == old(Roots())
      ensures root == Roots()[start]
    {
      hide Root, IsForest, RootsOf, GoodLink;
      ghost var roots := Roots();
      root := start;
      ParentStep(parent, level, top, root);
      while parent[root] != root
        invariant Valid() && Roots() == roots && parent.Keys == roots.Keys
        invariant root in parent && root in level && roots[root] == roots[start]
        decreases top - level[root]
      {
        ParentStep(parent, level, top, root);
        root := parent[root];
        ParentStep(parent, level, top, root);
      }
      ParentStep(parent, level, top, root);
      var node := start;
      ParentStep(parent, level, top, node);
      while parent[node] != root
        invariant Valid() && Roots() == roots && parent.Keys == roots.Keys
        invariant node in parent && node in level && roots[node] == root
        decreases top - level[node]
      {
        ParentStep(parent, level, top, node);
        var next := parent[node];
        ParentStep(parent, level, top, next);
        ghost var before := parent;
        parent := parent[node := root];
        CompressionKeepsPartition(before, parent, level, top, node);
        node := next;
      }
    }

    /** Merges the two classes under the second one's representative. */
    method Union(a: Node, b: Node)
      requires Valid() && a in parent && b in parent
      modifies this
      ensures Valid()
      ensures Roots() == Merged(old(Roots()), a, b)
    {
      hide Root, IsForest, RootsOf, Max;
      ghost var roots := Roots();
      var rootA := Find(a);
      var rootB := Find(b);
      if rootA == rootB {
        assert Merged(roots, a, b) == roots;
      } else {
        Representative(parent, level, top, a);
        Representative(parent, level, top, b);
        LinkMergesAll(parent, level, top, parent[rootA := rootB],
                      level[rootB := Max(level[rootB], level[rootA] + 1)], a, b, rootA, rootB);
        parent := parent[rootA := rootB];
        level := level[rootB := Max(level[rootB], level[rootA] + 1)];
        top := top + 1;
      }
    }
  }

  // ---------- the partition is connection ----------

  /** Every node is connected to its representative, and the ends of an edge share one. */
  ghost predicate Represents(roots: map<Node, Node>, edges: seq<(Node, Node)>) {
    && (forall n | n in roots :: Connected(edges, n, roots[n]))
    && (forall i | 0 <= i < |edges| ::
          edges[i].0 in roots && edges[i].1 in roots && roots[edges[i].0] == roots[edges[i].1])
  }

  lemma {:induction false} PathKeepsRoot(roots: map<Node, Node>, edges: seq<(Node, Node)>, path: seq<Node>, k: nat)
    requires Represents(roots, edges) && IsPath(edges, path) && k < |path| && path[0] in roots
    ensures path[k] in roots && roots[path[k]] == roots[path[0]]
  {
    if k > 0 {
      PathKeepsRoot(roots, edges, path, k - 1);
      assert Adjacent(edges, path[k - 1], path[k - 1 + 1]);
    }
  }

  /** Two nodes share a representative exactly when an undirected path joins them. */
  lemma SameRootIffConnected(roots: map<Node, Node>, edges: seq<(Node, Node)>, u: Node, v: Node)
    requires Represents(roots, edges) && u in roots && v in roots
    ensures roots[u] == roots[v] <==> Connected(edges, u, v)
  {
    if roots[u] == roots[v] {
      ConnectedSym(edges, v, roots[v]);
      ConnectedTrans(edges, u, roots[u], v);
    }
    if Connected(edges, u, v) {
      var path :| Joins(edges, path, u, v);
      PathKeepsRoot(roots, edges, path, |path| - 1);
    }
  }

  /** Joining the classes of a new edge's ends takes the edge into account. */
  lemma MergedRepresents(roots: map<Node, Node>, edges: seq<(Node, Node)>, a: Node, b: Node)
    requires Represents(roots, edges) && a in roots && b in roots
    ensures Represents(Merged(roots, a, b), edges + [(a, b)])
  {
    hide Connected;
    var merged, more := Merged(roots, a, b), edges + [(a, b)];
    assert (a, b) == more[|edges|];
    ConnectedByEdge(more, a, b);
    ConnectedMore(edges, more, a, roots[a]);
    ConnectedMore(edges, more, b, roots[b]);
    ConnectedSym(more, a, roots[a]);
    ConnectedTrans(more, roots[a], a, b);
    ConnectedTrans(more, roots[a], b, roots[b]);
    forall n | n in merged
      ensures Connected(more, n, merged[n])
    {
      ConnectedMore(edges, more, n, roots[n]);
      if roots[n] == roots[a] {
        ConnectedTrans(more, n, roots[a], roots[b]);
      }
    }
  }

  lemma SingletonsRepresent(roots: map<Node, Node>)
    requires forall n | n in roots :: roots[n] == n
    ensures Represents(roots, [])
  {
    forall n | n in roots
      ensures Connected([], n, n)
    {
      ConnectedSelf([], n);
    }
  }

  /** The first half of highlightComponentCenters: every node alone, then a union for every edge. */
  method ConnectAll(g: Graph) returns (sets: DisjointSets)
    requires IsGraph(g)
    ensures fresh(sets) && sets.Valid()
    ensures sets.Roots().Keys == set n | n in g.nodes
    ensures Represents(sets.Roots(), g.edges)
  {
    hide Connected, Root, IsForest, RootsOf, Represents, Merged;
    sets := new DisjointSets(g.nodes);
    SingletonsRepresent(sets.Roots());
    assert g.edges[..0] == [];
    for i := 0 to |g.edges|
      invariant sets.Valid() && sets.Roots().Keys == set n | n in g.nodes
      invariant Represents(sets.Roots(), g.edges[..i])
    {
      var (source, target) := g.edges[i];
      assert g.edges[..i + 1] == g.edges[..i] + [(source, target)];
      MergedRepresents(sets.Roots(), g.edges[..i], source, target);
      sets.Union(source, target);
    }
    assert g.edges[..|g.edges|] == g.edges;
  }

  // ---------- groups and hubs ----------

  /** The nodes connected to `u`, in node order. */
  ghost function Component(nodes: seq<Node>, edges: seq<(Node, Node)>, u: Node): (c: seq<Node>)
    ensures forall v :: v in c <==> v in nodes && Connected(edges, u, v)
  {
    if nodes == [] then []
    else
      var last := nodes[|nodes| - 1];
      Component(nodes[..|nodes| - 1], edges, u) + (if Connected(edges, u, last) then [last] else [])
  }

  /** graphology's degree: an edge counts at each of its ends, a loop twice. */
  function Degree(edges: seq<(Node, Node)>, n: Node): nat {
    if edges == [] then 0
    else
      var (source, target) := edges[|edges| - 1];
      Degree(edges[..|edges| - 1], n) + (if source == n then 1 else 0) + (if target == n then 1 else 0)
  }

  /** The first node of maximal degree. */
  ghost predicate IsFirstBest(edges: seq<(Node, Node)>, group: seq<Node>, center: Node) {
    exists k :: 0 <= k < |group| && group[k] == center
                && (forall j | 0 <= j < |group| :: Degree(edges, group[j]) <= Degree(edges, center))
                && (forall j | 0 <= j < k :: Degree(edges, group[j]) < Degree(edges, center))
  }

  /** A hub is the first node of maximal degree of a component with at least three nodes. The code tests the
      chosen key for truth, so an empty key is never marked. */
  ghost predicate IsHub(g: Graph, u: Node) {
    var c := Component(g.nodes, g.edges, u);
    u in g.nodes && |c| >= 3 && IsFirstBest(g.edges, c, u) && u.key != ""
  }

  // A connected component of three nodes has a node with two edge ends.

  predicate Touches(e: (Node, Node), n: Node) {
    e.0 == n || e.1 == n
  }

  lemma {:induction false} TouchedDegree(edges: seq<(Node, Node)>, i: nat, n: Node)
    requires i < |edges| && Touches(edges[i], n)
    ensures Degree(edges, n) >= 1
    decreases |edges|
  {
    if i < |edges| - 1 {
      TouchedDegree(edges[..|edges| - 1], i, n);
    }
  }

  lemma {:induction false} TwiceTouchedDegree(edges: seq<(Node, Node)>, i: nat, j: nat, n: Node)
    requires i < j < |edges| && Touches(edges[i], n) && Touches(edges[j], n)
    ensures Degree(edges, n) >= 2
    decreases |edges|
  {
    if j < |edges| - 1 {
      TwiceTouchedDegree(edges[..|edges| - 1], i, j, n);
    } else {
      TouchedDegree(edges[..|edges| - 1], i, n);
    }
  }

  /** If the two ends of an edge touch no other edge, a path from one of them does not leave them. */
  lemma {:induction false} StaysInPair(edges: seq<(Node, Node)>, i: nat, path: seq<Node>, k: nat)
    requires i < |edges| && IsPath(edges, path) && k < |path| && Touches(edges[i], path[0])
    requires Degree(edges, edges[i].0) <= 1 && Degree(edges, edges[i].1) <= 1
    ensures Touches(edges[i], path[k])
    decreases k
  {
    if k > 0 {
      StaysInPair(edges, i, path, k - 1);
      var n, next := path[k - 1], path[k];
      assert Adjacent(edges, path[k - 1], path[k - 1 + 1]);
      var e := if (n, next) in edges then (n, next) else (next, n);
      var j :| 0 <= j < |edges| && edges[j] == e;
      if i < j {
        TwiceTouchedDegree(edges, i, j, n);
      } else if j < i {
        TwiceTouchedDegree(edges, j, i, n);
      }
    }
  }

  lemma PathFirstStep(edges: seq<(Node, Node)>, u: Node, v: Node) returns (i: nat)
    requires Connected(edges, u, v) && u != v
    ensures i < |edges| && Touches(edges[i], u)
    ensures Connected(edges, u, edges[i].0) && Connected(edges, u, edges[i].1)
  {
    var path :| Joins(edges, path, u, v);
    assert Adjacent(edges, path[0], path[0 + 1]);
    var e := if (u, path[1]) in edges then (u, path[1]) else (path[1], u);
    i :| 0 <= i < |edges| && edges[i] == e;
    ConnectedSelf(edges, u);
    ConnectedByEdge(edges, u, path[1]);
  }

  lemma {:induction false} ComponentDistinct(nodes: seq<Node>, edges: seq<(Node, Node)>, u: Node)
    requires forall i, j | 0 <= i < j < |nodes| :: nodes[i] != nodes[j]
    ensures var c := Component(nodes, edges, u); forall i, j | 0 <= i < j < |c| :: c[i] != c[j]
    decreases |nodes|
  {
    if nodes != [] {
      ComponentDistinct(nodes[..|nodes| - 1], edges, u);
      assert nodes[|nodes| - 1] !in Component(nodes[..|nodes| - 1], edges, u);
    }
  }

  lemma LargeComponentDegree(g: Graph, u: Node) returns (n: Node)
    requires IsGraph(g) && |Component(g.nodes, g.edges, u)| >= 3
    ensures n in Component(g.nodes, g.edges, u) && Degree(g.edges, n) >= 2
  {
    hide Connected;
    var c := Component(g.nodes, g.edges, u);
    ComponentDistinct(g.nodes, g.edges, u);
    var x, y, z := c[0], c[1], c[2];
    ConnectedSym(g.edges, u, x);
    ConnectedTrans(g.edges, x, u, y);
    ConnectedTrans(g.edges, x, u, z);
    var i := PathFirstStep(g.edges, x, y);
    ConnectedTrans(g.edges, u, x, g.edges[i].0);
    ConnectedTrans(g.edges, u, x, g.edges[i].1);
    if Degree(g.edges, g.edges[i].0) >= 2 {
      n := g.edges[i].0;
    } else if Degree(g.edges, g.edges[i].1) >= 2 {
      n := g.edges[i].1;
    } else {
      ReachesOnlyPair(g.edges, i, x, y);
      ReachesOnlyPair(g.edges, i, x, z);
      assert false;
    }
  }

  lemma ReachesOnlyPair(edges: seq<(Node, Node)>, i: nat, x: Node, y: Node)
    requires i < |edges| && Touches(edges[i], x) && Connected(edges, x, y)
    requires Degree(edges, edges[i].0) <= 1 && Degree(edges, edges[i].1) <= 1
    ensures Touches(edges[i], y)
  {
    var path :| Joins(edges, path, x, y);
    StaysInPair(edges, i, path, |path| - 1);
  }

  // ---------- the second half: groups, centers, hubs ----------

  /** The nodes of one representative, in node order. */
  ghost function Members(nodes: seq<Node>, roots: map<Node, Node>, r: Node): (c: seq<Node>)
    requires forall n | n in nodes :: n in roots
  {
    if nodes == [] then []
    else
      var last := nodes[|nodes| - 1];
      Members(nodes[..|nodes| - 1], roots, r) + (if roots[last] == r then [last] else [])
  }

  lemma {:induction false} MembersAreComponent(
      nodes: seq<Node>, edges: seq<(Node, Node)>, roots: map<Node, Node>, u: Node)
    requires Represents(roots, edges) && u in roots && forall n | n in nodes :: n in roots
    ensures Members(nodes, roots, roots[u]) == Component(nodes, edges, u)
    decreases |nodes|
  {
    if nodes != [] {
      MembersAreComponent(nodes[..|nodes| - 1], edges, roots, u);
      SameRootIffConnected(roots, edges, u, nodes[|nodes| - 1]);
    }
  }

  /** The grouping loop; find keeps compressing paths on the way. */
  method GroupByRoot(g: Graph, sets: DisjointSets) returns (groups: map<Node, seq<Node>>)
    requires sets.Valid() && sets.Roots().Keys == set n | n in g.nodes
    modifies sets
    ensures sets.Valid() && sets.Roots() == old(sets.Roots())
    ensures forall r :: r in groups <==> exists n :: n in g.nodes && sets.Roots()[n] == r
    ensures forall r | r in groups :: groups[r] == Members(g.nodes, sets.Roots(), r)
  {
    hide RootsOf, IsForest, Members;
    ghost var roots := sets.Roots();
    groups := map[];
    NoMembers(roots);
    for i := 0 to |g.nodes|
      invariant sets.Valid() && sets.Roots() == roots
      invariant forall r :: r in groups <==> exists n :: n in g.nodes[..i] && roots[n] == r
      invariant forall r | r in groups :: groups[r] == Members(g.nodes[..i], roots, r)
      invariant forall r | r !in groups :: Members(g.nodes[..i], roots, r) == []
    {
      var node := g.nodes[i];
      var root := sets.Find(node);
      assert g.nodes[..i + 1] == g.nodes[..i] + [node];
      NextMember(g.nodes[..i], roots, node);
      if root in groups {
        groups := groups[root := groups[root] + [node]];
      } else {
        groups := groups[root := [node]];
      }
    }
    assert g.nodes[..|g.nodes|] == g.nodes;
  }

  lemma NoMembers(roots: map<Node, Node>)
    ensures forall r :: Members([], roots, r) == []
  {
  }

  lemma NextMember(nodes: seq<Node>, roots: map<Node, Node>, last: Node)
    requires last in roots && forall n | n in nodes :: n in roots
    ensures forall r :: Members(nodes + [last], roots, r)
                     == Members(nodes, roots, r) + (if roots[last] == r then [last] else [])
  {
    assert (nodes + [last])[..|nodes|] == nodes;
  }

  /** The choice loop: a later node replaces the center only with a strictly larger degree. */
  method ChooseCenter(edges: seq<(Node, Node)>, group: seq<Node>) returns (center: Node, bestDegree: int)
    requires group != []
    ensures IsFirstBest(edges, group, center) && bestDegree == Degree(edges, center)
  {
    hide Degree;
    center, bestDegree := group[0], -1;
    ghost var k := 0;
    for i := 0 to |group|
      invariant i == 0 ==> bestDegree == -1
      invariant i > 0 ==> 0 <= k < i && group[k] == center && bestDegree == Degree(edges, center)
      invariant forall j | 0 <= j < i :: Degree(edges, group[j]) <= bestDegree
      invariant forall j | 0 <= j < i && j < k :: Degree(edges, group[j]) < bestDegree
    {
      var degree := Degree(edges, group[i]);
      if degree > bestDegree {
        bestDegree := degree;
        center := group[i];
        k := i;
      }
    }
  }

  lemma FirstBestUnique(edges: seq<(Node, Node)>, group: seq<Node>, a: Node, b: Node)
    requires IsFirstBest(edges, group, a) && IsFirstBest(edges, group, b)
    ensures a == b
  {
  }

  /** highlightComponentCenters: the nodes that receive the hub attribute. The groups are independent, so the
      order in which the map yields them does not matter. */
  method HighlightComponentCenters(g: Graph) returns (hubs: set<Node>)
    requires IsGraph(g)
    ensures forall u :: u in hubs <==> IsHub(g, u)
  {
    hide RootsOf, IsForest, Represents, IsHub, Members;
    var sets := ConnectAll(g);
    var groups := GroupByRoot(g, sets);
    ghost var roots := sets.Roots();
    hubs := {};
    var pending := groups.Keys;
    HubsAreNodes(g);
    while pending != {}
      invariant pending <= groups.Keys
      invariant forall u :: u in hubs <==> IsHub(g, u) && roots[u] !in pending
      decreases pending
    {
      var root :| root in pending;
      ghost var member :| member in g.nodes && roots[member] == root;
      var marked := MarkCenter(g, groups[root], roots, member);
      hubs := hubs + marked;
      pending := pending - {root};
    }
  }

  lemma HubsAreNodes(g: Graph)
    ensures forall u | IsHub(g, u) :: u in g.nodes
  {
  }

  /** One round of the loop over the groups: at most one node of the group is marked. */
  method MarkCenter(g: Graph, group: seq<Node>, ghost roots: map<Node, Node>, ghost member: Node)
    returns (marked: set<Node>)
    requires IsGraph(g) && Represents(roots, g.edges) && roots.Keys == set n | n in g.nodes
    requires member in g.nodes && group == Members(g.nodes, roots, roots[member])
    ensures forall u :: u in marked <==> u in g.nodes && roots[u] == roots[member] && IsHub(g, u)
  {
    hide Represents, IsFirstBest, Degree, Component, Members, Connected, IsHub;
    MembersAreComponent(g.nodes, g.edges, roots, member);
    HubsOfGroup(g, roots, member);
    marked := {};
    if |group| >= 3 {
      var center, bestDegree := ChooseCenter(g.edges, group);
      CenterOfLargeGroup(g, member, center);
      if center.key != "" && bestDegree > 1 {
        marked := {center};
      }
    }
  }

  /** Which nodes of a group are hubs. */
  lemma HubsOfGroup(g: Graph, roots: map<Node, Node>, member: Node)
    requires IsGraph(g) && Represents(roots, g.edges) && roots.Keys == set n | n in g.nodes
    requires member in g.nodes
    ensures var c := Component(g.nodes, g.edges, member);
            forall u | u in g.nodes && roots[u] == roots[member] ::
              IsHub(g, u) <==> |c| >= 3 && IsFirstBest(g.edges, c, u) && u.key != ""
    ensures forall u :: u in Component(g.nodes, g.edges, member) <==> u in g.nodes && roots[u] == roots[member]
  {
    hide IsFirstBest, Represents;
    forall u | u in g.nodes
      ensures u in Component(g.nodes, g.edges, member) <==> roots[u] == roots[member]
    {
      SameRootIffConnected(roots, g.edges, member, u);
    }
    forall u | u in g.nodes && roots[u] == roots[member]
      ensures Component(g.nodes, g.edges, u) == Component(g.nodes, g.edges, member)
    {
      MembersAreComponent(g.nodes, g.edges, roots, u);
      MembersAreComponent(g.nodes, g.edges, roots, member);
    }
  }

  /** The center of a group of three has at least two edge ends, and is the only first best node. */
  lemma CenterOfLargeGroup(g: Graph, member: Node, center: Node)
    requires IsGraph(g)
    requires var c := Component(g.nodes, g.edges, member); |c| >= 3 && IsFirstBest(g.edges, c, center)
    ensures center in Component(g.nodes, g.edges, member) && Degree(g.edges, center) > 1
    ensures forall u | IsFirstBest(g.edges, Component(g.nodes, g.edges, member), u) :: u == center
  {
    hide Degree;
    var n := LargeComponentDegree(g, member);
    var c := Component(g.nodes, g.edges, member);
    forall u | IsFirstBest(g.edges, c, u)
      ensures u == center
    {
      FirstBestUnique(g.edges, c, u, center);
    }
  }

  /** Every component of at least three nodes has exactly one node that qualifies as its hub. */
  lemma OneHubPerComponent(g: Graph, u: Node) returns (hub: Node)
    requires IsGraph(g) && u in g.nodes && |Component(g.nodes, g.edges, u)| >= 3
    ensures hub in Component(g.nodes, g.edges, u)
    ensures forall v | v in Component(g.nodes, g.edges, u) :: Degree(g.edges, v) <= Degree(g.edges, hub)
    ensures forall v | v in Component(g.nodes, g.edges, u) :: IsHub(g, v) <==> v == hub && hub.key != ""
  {
    hide Degree;
    var c := Component(g.nodes, g.edges, u);
    hub := FirstBest(g.edges, c);
    forall v | v in c
      ensures IsHub(g, v) <==> v == hub && hub.key != ""
    {
      SameComponent(g, u, v);
      if IsFirstBest(g.edges, c, v) {
        FirstBestUnique(g.edges, c, v, hub);
      }
    }
  }

  lemma {:induction false} FirstBest(edges: seq<(Node, Node)>, group: seq<Node>) returns (best: Node)
    requires group != []
    ensures IsFirstBest(edges, group, best)
    decreases |group|
  {
    hide Degree;
    var n := |group| - 1;
    var front, last := group[..n], group[n];
    if n == 0 {
      best := last;
    } else {
      best := FirstBest(edges, front);
      var k :| 0 <= k < n && front[k] == best
               && (forall j | 0 <= j < n :: Degree(edges, front[j]) <= Degree(edges, best))
               && (forall j | 0 <= j < k :: Degree(edges, front[j]) < Degree(edges, best));
      assert forall j | 0 <= j < n :: group[j] == front[j];
      if Degree(edges, last) > Degree(edges, best) {
        best := last;
        assert group[n] == best;
      } else {
        assert group[k] == best;
      }
    }
  }

  lemma {:induction false} SameComponent(g: Graph, u: Node, v: Node)
    requires v in Component(g.nodes, g.edges, u)
    ensures Component(g.nodes, g.edges, v) == Component(g.nodes, g.edges, u)
  {
    hide Connected;
    forall n: Node
      ensures Connected(g.edges, v, n) <==> Connected(g.edges, u, n)
    {
      ConnectedSym(g.edges, u, v);
      if Connected(g.edges, v, n) {
        ConnectedTrans(g.edges, u, v, n);
      }
      if Connected(g.edges, u, n) {
        ConnectedTrans(g.edges, v, u, n);
      }
    }
    SameFilter(g.nodes, g.edges, u, v);
  }

  lemma {:induction false} SameFilter(nodes: seq<Node>, edges: seq<(Node, Node)>, u: Node, v: Node)
    requires forall n: Node :: Connected(edges, v, n) <==> Connected(edges, u, n)
    ensures Component(nodes, edges, v) == Component(nodes, edges, u)
    decreases |nodes|
  {
    hide Connected;
    if nodes != [] {
      SameFilter(nodes[..|nodes| - 1], edges, u, v);
    }
  }

  /** A star around an empty key: one component of three nodes, its center is chosen, and nothing is marked. */
  lemma EmptyKeyIsNoHub(g: Graph, center: Node, a: Node, b: Node)
    requires center == Node("") && a == Node("a") && b == Node("b")
    requires g == Graph([center, a, b], [(center, a), (center, b)])
    ensures IsGraph(g) && |Component(g.nodes, g.edges, center)| == 3
    ensures forall u :: !IsHub(g, u)
  {
    hide Connected, IsHub;
    assert Adjacent(g.edges, center, a) by { assert g.edges[0] == (center, a); }
    assert Adjacent(g.edges, center, b) by { assert g.edges[1] == (center, b); }
    ConnectedSelf(g.edges, center);
    ConnectedByEdge(g.edges, center, a);
    ConnectedByEdge(g.edges, center, b);
    StarComponent(g, center, a, b);
    StarDegrees(g.edges, center, a, b);
    var hub := OneHubPerComponent(g, center);
    HubsAreNodes(g);
  }

  lemma StarComponent(g: Graph, center: Node, a: Node, b: Node)
    requires g.nodes == [center, a, b]
    requires Connected(g.edges, center, center) && Connected(g.edges, center, a) && Connected(g.edges, center, b)
    ensures Component(g.nodes, g.edges, center) == g.nodes
  {
    hide Connected, Component;
    NextInComponent([], g.edges, center, center);
    NextInComponent([center], g.edges, center, a);
    NextInComponent([center, a], g.edges, center, b);
    assert [] + [center] == [center] && [center] + [a] == [center, a] && [center, a] + [b] == g.nodes;
    assert Component([], g.edges, center) == [] by { EmptyComponent(g.edges, center); }
  }

  lemma NextInComponent(nodes: seq<Node>, edges: seq<(Node, Node)>, u: Node, last: Node)
    ensures Component(nodes + [last], edges, u)
         == Component(nodes, edges, u) + (if Connected(edges, u, last) then [last] else [])
  {
    hide Connected;
    assert (nodes + [last])[..|nodes|] == nodes;
  }

  lemma EmptyComponent(edges: seq<(Node, Node)>, u: Node)
    ensures Component([], edges, u) == []
  {
  }

  lemma StarDegrees(edges: seq<(Node, Node)>, center: Node, a: Node, b: Node)
    requires edges == [(center, a), (center, b)] && center != a && center != b && a != b
    ensures Degree(edges, center) == 2 && Degree(edges, a) == 1 && Degree(edges, b) == 1
  {
    var first := [(center, a)];
    assert edges[..1] == first && first[..0] == [];
    assert forall n: Node :: Degree(first, n) == (if center == n then 1 else 0) + (if a == n then 1 else 0);
  }
}
