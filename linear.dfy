// linear(n): the undirected path 0 - 1 - ... - (n - 1). is_linear accepts the
// empty graph, and otherwise a graph with V - 1 edges whose degrees are all 1
// or 2 with exactly two vertices of degree 1. That test does not ask for
// connectivity, so it also accepts a shorter path beside a cycle
// (PathBesideTriangle), and it rejects the path of one vertex; IsPathGraph is
// the check those cases call for.
module LinearGraphs {
  import opened GraphTypes
  import opened AdjacencyOps
  import opened AdjacencyList
  import opened FamilyBuild
  import opened Paths
  import opened Dfs

  // a and b are next to each other on the path of n vertices.
  ghost predicate AlongPath(n: nat, a: nat, b: nat)
  {
    a < n && b < n && (a + 1 == b || b + 1 == a)
  }

  // The number of vertices among the first k that have exactly one neighbour.
  function Leaves<V, E>(vs: seq<Vertex<V, E>>, k: nat): nat
    requires k <= |vs|
  {
    if k == 0 then 0 else Leaves(vs, k - 1) + (if |vs[k - 1].outs| == 1 then 1 else 0)
  }

  // What is_linear accepts, for a graph with edge_size edges.
  ghost predicate PathShaped<V, E>(vs: seq<Vertex<V, E>>, edgeSize: nat)
  {
    || vs == []
    || (&& edgeSize == |vs| - 1
        && (forall u :: 0 <= u < |vs| ==> |vs[u].outs| == 1 || |vs[u].outs| == 2)
        && Leaves(vs, |vs|) == 2)
  }

  // linear. The payloads vp and p stand for the default-constructed vertex and
  // edge payloads.
  method Linear<V, E>(n: nat, vp: V, p: E) returns (result: Graph<V, E>)
    ensures fresh(result) && !result.directed && result.Valid()
    ensures |result.vertices| == n && Uniform(result.vertices, vp, p)
    ensures forall a: nat, b: nat :: HasEdge(result.vertices, a, b) <==> AlongPath(n, a, b)
    ensures result.EdgeSize() == if n == 0 then 0 else n - 1
    ensures PathShaped(result.vertices, result.EdgeSize()) <==> n != 1
    ensures PathGraph(result.vertices, result.EdgeSize())
  {
    result := new Graph.Sized(false, n, vp);
    UniformStart(result.vertices, vp, p);
    if n > 1 {
      EmplacePath(result, n - 1, vp, p);
    }
    PathIsAlong(result.vertices, n);
    if n >= 2 {
      PathAccepted(result.vertices, n);
    } else if n == 1 {
      SingleVertexRejected(result.vertices, result.EdgeSize());
    }
    PathConnected(result.vertices, n);
  }

  // A path graph: no vertices, or a tree (connected, with V - 1 edges) in
  // which no vertex has more than two neighbours.
  ghost predicate PathGraph<V, E>(vs: seq<Vertex<V, E>>, edgeSize: nat)
  {
    || vs == []
    || (&& edgeSize == |vs| - 1
        && Connected(vs)
        && forall u :: 0 <= u < |vs| ==> |vs[u].outs| <= 2)
  }

  // is_linear as its name promises: the edge count and degree tests of
  // is_linear, with connectivity in place of the leaf count.
  method IsPathGraph<V, E>(g: Graph<V, E>) returns (r: bool)
    requires g.Valid() && !g.directed
    ensures r <==> PathGraph(g.vertices, g.EdgeSize())
  {
    var n := |g.vertices|;
    if n == 0 {
      return true;
    }
    if g.EdgeSize() != n - 1 {
      return false;
    }
    var k := 0;
    while k < n
      invariant 0 <= k <= n && g.Valid()
      invariant forall u :: 0 <= u < k ==> |g.vertices[u].outs| <= 2
    {
      var d := g.OutDegree(k);
      if d > 2 {
        return false;
      }
      k := k + 1;
    }
    r := IsConnected(g);
  }

  // is_linear, as written. graph.empty() is read as "has no vertices".
  method IsLinear<V, E>(g: Graph<V, E>) returns (r: bool)
    requires g.Valid() && !g.directed
    ensures r <==> PathShaped(g.vertices, g.EdgeSize())
  {
    var n := |g.vertices|;
    if n == 0 {
      return true;
    }
    if g.EdgeSize() != n - 1 {
      return false;
    }
    var leaves := 0;
    var k := 0;
    while k < n
      invariant 0 <= k <= n && g.Valid()
      invariant leaves == Leaves(g.vertices, k) && leaves <= 2
      invariant forall u :: 0 <= u < k ==> |g.vertices[u].outs| == 1 || |g.vertices[u].outs| == 2
    {
      var d := g.OutDegree(k);
      if d == 1 {
        leaves := leaves + 1;
        if leaves > 2 {
          LeavesGrow(g.vertices, k + 1);
          return false;
        }
      } else if d != 2 {
        return false;
      }
      k := k + 1;
    }
    return leaves == 2;
  }

  // ---------------------------------------------------------------------------
  // Lemmas.

  // Counting leaves over a longer prefix never gives fewer.
  lemma {:induction false} LeavesGrow<V, E>(vs: seq<Vertex<V, E>>, k: nat)
    requires k <= |vs|
    ensures Leaves(vs, k) <= Leaves(vs, |vs|)
    decreases |vs| - k
  {
    if k < |vs| {
      LeavesGrow(vs, k + 1);
    }
  }

  // After the loop of linear the edges are the pairs along the path.
  lemma PathIsAlong<V, E>(vs: seq<Vertex<V, E>>, n: nat)
    requires |vs| == n
    requires n > 1 ==> PathUpTo(vs, n - 1)
    requires n <= 1 ==> forall a: nat, b: nat :: !HasEdge(vs, a, b)
    ensures forall a: nat, b: nat :: HasEdge(vs, a, b) <==> AlongPath(n, a, b)
  {
    if n > 1 {
      forall a: nat, b: nat ensures HasEdge(vs, a, b) <==> AlongPath(n, a, b) {
        assert HasEdge(vs, a, b) <==> Linked(n - 1, a, b);
      }
    }
  }

  // is_linear accepts every path of at least two vertices: its ends have one
  // neighbour and its inner vertices two.
  lemma PathAccepted<V, E>(vs: seq<Vertex<V, E>>, n: nat)
    requires Simple(vs) && |vs| == n && n >= 2
    requires forall a: nat, b: nat :: HasEdge(vs, a, b) <==> AlongPath(n, a, b)
    ensures PathShaped(vs, n - 1)
  {
    forall u | 0 <= u < n ensures |vs[u].outs| == if u == 0 || u == n - 1 then 1 else 2 {
      var S := if u == 0 then {1} else if u == n - 1 then {n - 2} else {u - 1, u + 1};
      forall b: nat ensures HasEdge(vs, u, b) <==> b in S {
        assert HasEdge(vs, u, b) <==> AlongPath(n, u, b);
      }
      DegreeBy(vs, u, S);
    }
    PathLeaves(vs, n, n - 1);
  }

  // Along a path only the first vertex among the first k < n is a leaf.
  lemma {:induction false} PathLeaves<V, E>(vs: seq<Vertex<V, E>>, n: nat, k: nat)
    requires |vs| == n && 1 <= k < n
    requires forall u :: 0 <= u < n ==> |vs[u].outs| == if u == 0 || u == n - 1 then 1 else 2
    ensures Leaves(vs, k) == 1
  {
    if k > 1 {
      PathLeaves(vs, n, k - 1);
    }
  }

  // A single vertex has no neighbour, so is_linear rejects it.
  lemma SingleVertexRejected<V, E>(vs: seq<Vertex<V, E>>, edgeSize: nat)
    requires |vs| == 1 && vs[0].outs == []
    ensures !PathShaped(vs, edgeSize)
  {
  }

  // Along the path every vertex is reached from vertex 0, and no vertex has
  // more than two neighbours.
  lemma PathConnected<V, E>(vs: seq<Vertex<V, E>>, n: nat)
    requires Simple(vs) && |vs| == n
    requires forall a: nat, b: nat :: HasEdge(vs, a, b) <==> AlongPath(n, a, b)
    ensures Connected(vs)
    ensures forall u :: 0 <= u < n ==> |vs[u].outs| <= 2
  {
    forall w | 0 <= w < n ensures Reachable(vs, [0], w) {
      PathReaches(vs, n, w);
    }
    forall u | 0 <= u < n ensures |vs[u].outs| <= 2 {
      var S := (if u > 0 then {u - 1} else {}) + (if u + 1 < n then {u + 1} else {});
      forall b: nat ensures HasEdge(vs, u, b) <==> b in S {
        assert HasEdge(vs, u, b) <==> AlongPath(n, u, b);
      }
      DegreeBy(vs, u, S);
    }
  }

  lemma {:induction false} PathReaches<V, E>(vs: seq<Vertex<V, E>>, n: nat, w: nat)
    requires forall a: nat, b: nat :: HasEdge(vs, a, b) <==> AlongPath(n, a, b)
    requires w < n
    ensures Reachable(vs, [0], w)
  {
    if w == 0 {
      ReachableSeed(vs, [0], 0);
    } else {
      PathReaches(vs, n, w - 1);
      assert AlongPath(n, w - 1, w);
      ReachableStep(vs, [0], w - 1, w);
    }
  }

  // The undirected graph of the path 0 - 1 - 2 beside the triangle 3 - 4 - 5.
  function PathAndTriangle(): (vs: seq<Vertex<(), ()>>)
  {
    [ Vertex((), [OutEdge(1, ())]),
      Vertex((), [OutEdge(0, ()), OutEdge(2, ())]),
      Vertex((), [OutEdge(1, ())]),
      Vertex((), [OutEdge(4, ()), OutEdge(5, ())]),
      Vertex((), [OutEdge(3, ()), OutEdge(5, ())]),
      Vertex((), [OutEdge(3, ()), OutEdge(4, ())]) ]
  }

  // is_linear accepts a graph that is no path: it has V - 1 = 5 edges, two
  // leaves and no vertex of degree above 2, but vertex 3 cannot be reached
  // from vertex 0.
  lemma PathBesideTriangle()
    ensures WellFormed(PathAndTriangle(), false) && Records(PathAndTriangle()) == 10
    ensures PathShaped(PathAndTriangle(), 5)
    ensures !PathGraph(PathAndTriangle(), 5)
  {
    var vs := PathAndTriangle();
    assert Leaves(vs, 6) == 2;
    TriangleApart(vs);
  }

  lemma TriangleApart(vs: seq<Vertex<(), ()>>)
    requires vs == PathAndTriangle()
    ensures WellFormed(vs, false) && Records(vs) == 10
    ensures !Reachable(vs, [0], 3)
  {
    TriangleSimple(vs);
    TriangleSymmetric(vs);
    TriangleClosed(vs);
    ClosedReachable(vs, [0], {0, 1, 2});
    TriangleRecords(vs);
  }

  lemma TriangleSymmetric(vs: seq<Vertex<(), ()>>)
    requires vs == PathAndTriangle()
    ensures Symmetric(vs)
  {
    TriangleEdges(vs);
  }

  lemma TriangleClosed(vs: seq<Vertex<(), ()>>)
    requires vs == PathAndTriangle()
    ensures Closed(vs, {0, 1, 2})
  {
    TriangleEdges(vs);
  }

  lemma TriangleRecords(vs: seq<Vertex<(), ()>>)
    requires vs == PathAndTriangle()
    ensures Records(vs) == 10
  {
    var prefix: seq<Vertex<(), ()>> := [];
    for k := 0 to 6
      invariant prefix == vs[..k] && Records(prefix) == [0, 1, 3, 4, 6, 8, 10][k]
    {
      RecordsAppend(prefix, vs[k]);
      assert vs[..k + 1] == prefix + [vs[k]];
      prefix := prefix + [vs[k]];
    }
    assert vs[..6] == vs;
  }

  // The records of PathAndTriangle, as pairs: each edge in both directions.
  lemma TriangleEdges(vs: seq<Vertex<(), ()>>)
    requires vs == PathAndTriangle()
    ensures forall u: nat, w: nat :: HasEdge(vs, u, w) <==>
      (u, w) in {(0, 1), (1, 0), (1, 2), (2, 1), (3, 4), (4, 3), (3, 5), (5, 3), (4, 5), (5, 4)}
  {
    forall u: nat, w: nat | HasEdge(vs, u, w)
      ensures (u, w) in {(0, 1), (1, 0), (1, 2), (2, 1), (3, 4), (4, 3), (3, 5), (5, 3), (4, 5), (5, 4)}
    {
      var i :| 0 <= i < |vs[u].outs| && vs[u].outs[i].to == w;
    }
    TriangleHas(vs);
  }

  lemma TriangleHas(vs: seq<Vertex<(), ()>>)
    requires vs == PathAndTriangle()
    ensures forall u: nat, w: nat ::
      (u, w) in {(0, 1), (1, 0), (1, 2), (2, 1), (3, 4), (4, 3), (3, 5), (5, 3), (4, 5), (5, 4)} ==> HasEdge(vs, u, w)
  {
    assert vs[0].outs[0].to == 1 && vs[1].outs[0].to == 0 && vs[1].outs[1].to == 2 && vs[2].outs[0].to == 1;
    assert vs[3].outs[0].to == 4 && vs[3].outs[1].to == 5 && vs[4].outs[0].to == 3;
    assert vs[4].outs[1].to == 5 && vs[5].outs[0].to == 3 && vs[5].outs[1].to == 4;
  }

  lemma TriangleSimple(vs: seq<Vertex<(), ()>>)
    requires vs == PathAndTriangle()
    ensures Simple(vs)
  {
  }
}
