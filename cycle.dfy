// cycle(n): the undirected cycle 0 - 1 - ... - (n - 1) - 0 for n >= 3, built as
// the path 0 - ... - (n - 1) and the closing pair (0, n - 1). is_cycle_graph
// is is_regular(graph, 2), which does not ask for connectivity: it also
// accepts two triangles side by side (TwoTriangles) and the graph without
// vertices. IsCycle is the test a cycle graph calls for.
module CycleGraphs {
  import opened GraphTypes
  import opened AdjacencyOps
  import opened AdjacencyList
  import opened FamilyBuild
  import opened Regularity
  import opened Paths
  import opened Dfs

  // a and b are neighbours around the cycle of n vertices.
  ghost predicate AroundCycle(n: nat, a: nat, b: nat)
  {
    a < n && b < n && (a + 1 == b || b + 1 == a || (a == 0 && b == n - 1) || (a == n - 1 && b == 0))
  }

  // The successor and the predecessor of u around the cycle.
  function Next(n: nat, u: nat): nat
    requires u < n
  {
    if u + 1 == n then 0 else u + 1
  }

  function Prev(n: nat, u: nat): nat
    requires u < n
  {
    if u == 0 then n - 1 else u - 1
  }

  // cycle. The payloads vp and p stand for the default-constructed vertex and
  // edge payloads; cycle asserts n >= 3, which becomes the precondition.
  method Cycle<V, E>(n: nat, vp: V, p: E) returns (result: Graph<V, E>)
    requires n >= 3
    ensures fresh(result) && !result.directed && result.Valid()
    ensures |result.vertices| == n && Uniform(result.vertices, vp, p)
    ensures forall a: nat, b: nat :: HasEdge(result.vertices, a, b) <==> AroundCycle(n, a, b)
    ensures result.EdgeSize() == n
    ensures Regular(result.vertices, false, 2)
    ensures CycleGraph(result.vertices)
  {
    result := new Graph.Sized(false, n, vp);
    UniformStart(result.vertices, vp, p);
    EmplacePath(result, n - 1, vp, p);
    CloseCycle(result, n, vp, p);
    CycleDegrees(result.vertices, n);
  }

  // The closing edge 0 - (n - 1) of cycle, added to the path 0 - ... - (n - 1).
  method CloseCycle<V, E>(g: Graph<V, E>, n: nat, vp: V, p: E)
    requires n >= 3 && !g.directed && g.Valid() && |g.vertices| == n
    requires Uniform(g.vertices, vp, p) && PathUpTo(g.vertices, n - 1) && g.mE == 2 * (n - 1)
    modifies g
    ensures g.Valid() && |g.vertices| == n && Uniform(g.vertices, vp, p)
    ensures forall a: nat, b: nat :: HasEdge(g.vertices, a, b) <==> AroundCycle(n, a, b)
    ensures g.mE == 2 * n
  {
    assert !HasEdge(g.vertices, 0, n - 1);
    AddPair(g.vertices, 0, n - 1, vp, p);
    CycleClosed(g.vertices, Emplace(g.vertices, false, 0, n - 1, p).0, n);
    var _ := g.EdgeEmplace(0, n - 1, p);
  }

  // is_cycle_graph, as written: every vertex has exactly two neighbours.
  method IsCycleGraph<V, E>(g: Graph<V, E>) returns (r: bool)
    requires g.Valid() && !g.directed
    ensures r <==> forall v :: 0 <= v < |g.vertices| ==> |g.vertices[v].outs| == 2
  {
    r := IsRegular(g, 2);
  }

  // A cycle graph: at least three vertices, connected, every vertex with
  // exactly two neighbours.
  ghost predicate CycleGraph<V, E>(vs: seq<Vertex<V, E>>)
  {
    |vs| >= 3 && Connected(vs) && forall v :: 0 <= v < |vs| ==> |vs[v].outs| == 2
  }

  // is_cycle_graph as its name promises: 2-regular, connected and not empty.
  method IsCycle<V, E>(g: Graph<V, E>) returns (r: bool)
    requires g.Valid() && !g.directed
    ensures r <==> CycleGraph(g.vertices)
  {
    r := IsRegular(g, 2);
    if r && |g.vertices| >= 3 {
      r := IsConnected(g);
    } else {
      r := false;
    }
  }

  // The closing pair (0, n - 1) turns the path 0 - ... - (n - 1) into the cycle.
  lemma CycleClosed<V, E>(vs: seq<Vertex<V, E>>, r: seq<Vertex<V, E>>, n: nat)
    requires n >= 3 && PathUpTo(vs, n - 1)
    requires forall a: nat, b: nat :: HasEdge(r, a, b) <==> HasEdge(vs, a, b) || (a == 0 && b == n - 1) || (a == n - 1 && b == 0)
    ensures forall a: nat, b: nat :: HasEdge(r, a, b) <==> AroundCycle(n, a, b)
  {
    forall a: nat, b: nat ensures HasEdge(r, a, b) <==> AroundCycle(n, a, b) {
      assert HasEdge(r, a, b) <==> HasEdge(vs, a, b) || (a == 0 && b == n - 1) || (a == n - 1 && b == 0);
      assert HasEdge(vs, a, b) <==> Linked(n - 1, a, b);
    }
  }

  // Every vertex of the cycle has the two neighbours Prev and Next, so the
  // cycle is a cycle graph.
  lemma CycleDegrees<V, E>(vs: seq<Vertex<V, E>>, n: nat)
    requires Simple(vs) && |vs| == n && n >= 3
    requires forall a: nat, b: nat :: HasEdge(vs, a, b) <==> AroundCycle(n, a, b)
    ensures Regular(vs, false, 2) && CycleGraph(vs)
  {
    CycleConnected(vs, n);
    forall u | 0 <= u < n ensures |vs[u].outs| == 2 {
      var S := {Prev(n, u), Next(n, u)};
      assert Prev(n, u) != Next(n, u);
      forall b: nat ensures HasEdge(vs, u, b) <==> b in S {
        assert HasEdge(vs, u, b) <==> AroundCycle(n, u, b);
      }
      DegreeBy(vs, u, S);
    }
  }

  // Around the cycle every vertex is reached from vertex 0 along 0 - 1 - ...
  lemma CycleConnected<V, E>(vs: seq<Vertex<V, E>>, n: nat)
    requires |vs| == n
    requires forall a: nat, b: nat :: HasEdge(vs, a, b) <==> AroundCycle(n, a, b)
    ensures Connected(vs)
  {
    forall w | 0 <= w < n ensures Reachable(vs, [0], w) {
      CycleReaches(vs, n, w);
    }
  }

  lemma {:induction false} CycleReaches<V, E>(vs: seq<Vertex<V, E>>, n: nat, w: nat)
    requires forall a: nat, b: nat :: HasEdge(vs, a, b) <==> AroundCycle(n, a, b)
    requires w < n
    ensures Reachable(vs, [0], w)
  {
    if w == 0 {
      ReachableSeed(vs, [0], 0);
    } else {
      CycleReaches(vs, n, w - 1);
      assert AroundCycle(n, w - 1, w);
      ReachableStep(vs, [0], w - 1, w);
    }
  }

  // Two triangles 0 - 1 - 2 and 3 - 4 - 5.
  function Triangles(): (vs: seq<Vertex<(), ()>>)
  {
    [ Vertex((), [OutEdge(1, ()), OutEdge(2, ())]),
      Vertex((), [OutEdge(0, ()), OutEdge(2, ())]),
      Vertex((), [OutEdge(0, ()), OutEdge(1, ())]),
      Vertex((), [OutEdge(4, ()), OutEdge(5, ())]),
      Vertex((), [OutEdge(3, ()), OutEdge(5, ())]),
      Vertex((), [OutEdge(3, ()), OutEdge(4, ())]) ]
  }

  // is_cycle_graph accepts two triangles side by side, a graph that is no
  // cycle because vertex 3 cannot be reached from vertex 0; it also accepts
  // the graph without vertices.
  lemma TwoTriangles()
    ensures WellFormed(Triangles(), false)
    ensures forall v :: 0 <= v < |Triangles()| ==> |Triangles()[v].outs| == 2
    ensures !CycleGraph(Triangles())
    ensures !CycleGraph<(), ()>([])
  {
    var vs := Triangles();
    assert forall v :: 0 <= v < 6 ==> |vs[v].outs| == 2;
    TrianglesSimple(vs);
    TrianglesSymmetric(vs);
    TrianglesClosed(vs);
    ClosedReachable(vs, [0], {0, 1, 2});
    assert !Reachable(vs, [0], 3);
  }

  // The records of Triangles, as pairs: each edge in both directions.
  lemma TrianglesEdges(vs: seq<Vertex<(), ()>>)
    requires vs == Triangles()
    ensures forall u: nat, w: nat :: HasEdge(vs, u, w) <==>
      (u, w) in {(0, 1), (1, 0), (0, 2), (2, 0), (1, 2), (2, 1), (3, 4), (4, 3), (3, 5), (5, 3), (4, 5), (5, 4)}
  {
    forall u: nat, w: nat | HasEdge(vs, u, w)
      ensures (u, w) in {(0, 1), (1, 0), (0, 2), (2, 0), (1, 2), (2, 1), (3, 4), (4, 3), (3, 5), (5, 3), (4, 5), (5, 4)}
    {
      var i :| 0 <= i < |vs[u].outs| && vs[u].outs[i].to == w;
    }
    TrianglesHas(vs);
  }

  lemma TrianglesHas(vs: seq<Vertex<(), ()>>)
    requires vs == Triangles()
    ensures forall u: nat, w: nat ::
      (u, w) in {(0, 1), (1, 0), (0, 2), (2, 0), (1, 2), (2, 1), (3, 4), (4, 3), (3, 5), (5, 3), (4, 5), (5, 4)} ==> HasEdge(vs, u, w)
  {
    assert vs[0].outs[0].to == 1 && vs[0].outs[1].to == 2 && vs[1].outs[0].to == 0;
    assert vs[1].outs[1].to == 2 && vs[2].outs[0].to == 0 && vs[2].outs[1].to == 1;
    assert vs[3].outs[0].to == 4 && vs[3].outs[1].to == 5 && vs[4].outs[0].to == 3;
    assert vs[4].outs[1].to == 5 && vs[5].outs[0].to == 3 && vs[5].outs[1].to == 4;
  }

  lemma TrianglesSimple(vs: seq<Vertex<(), ()>>)
    requires vs == Triangles()
    ensures Simple(vs)
  {
  }

  lemma TrianglesSymmetric(vs: seq<Vertex<(), ()>>)
    requires vs == Triangles()
    ensures Symmetric(vs)
  {
    TrianglesEdges(vs);
  }

  lemma TrianglesClosed(vs: seq<Vertex<(), ()>>)
    requires vs == Triangles()
    ensures Closed(vs, {0, 1, 2})
  {
    TrianglesEdges(vs);
  }
}
