// complete_bipartite(m, n): the first n vertices form one side, the m vertices
// after them the other, and every vertex of one side is adjacent to every vertex
// of the other. star(n) is complete_bipartite(n, 1): vertex 0 is the centre and
// vertices 1..n its leaves; claw() is star(3).
module CompleteBipartiteGraphs {
  import opened GraphTypes
  import opened AdjacencyOps
  import opened AdjacencyList
  import opened FamilyBuild

  // x lies on the side of n vertices and y on the side of m vertices.
  ghost predicate Across(m: nat, n: nat, x: nat, y: nat)
  {
    x < n && n <= y < n + m
  }

  // complete_bipartite. The payloads vp and p stand for the default-constructed
  // vertex and edge payloads.
  method CompleteBipartite<V, E>(m: nat, n: nat, vp: V, p: E) returns (result: Graph<V, E>)
    ensures fresh(result) && !result.directed && result.Valid()
    ensures |result.vertices| == m + n && Uniform(result.vertices, vp, p)
    ensures forall a: nat, b: nat :: HasEdge(result.vertices, a, b) <==> Across(m, n, a, b) || Across(m, n, b, a)
    ensures result.EdgeSize() == m * n
  {
    result := new Graph.Sized(false, m + n, vp);
    UniformStart(result.vertices, vp, p);
    var i := 0;
    while i < n
      invariant 0 <= i <= n
      invariant fresh(result) && !result.directed && result.Valid()
      invariant |result.vertices| == m + n && Uniform(result.vertices, vp, p)
      invariant CrossedUpTo(result.vertices, m, n, i, 0)
      invariant result.mE == 2 * (i * m)
    {
      BipartiteRow(result, m, n, i, vp, p);
      assert (i + 1) * m == i * m + m;
      i := i + 1;
    }
  }

  // The inner loop: emplace (i, j + n) for every j < m.
  method BipartiteRow<V, E>(result: Graph<V, E>, m: nat, n: nat, i: nat, vp: V, p: E)
    requires !result.directed && result.Valid() && |result.vertices| == m + n && i < n
    requires Uniform(result.vertices, vp, p) && CrossedUpTo(result.vertices, m, n, i, 0)
    modifies result
    ensures result.Valid() && |result.vertices| == m + n && Uniform(result.vertices, vp, p)
    ensures CrossedUpTo(result.vertices, m, n, i + 1, 0) && result.mE == old(result.mE) + 2 * m
  {
    var j := 0;
    while j < m
      invariant 0 <= j <= m
      invariant result.Valid() && |result.vertices| == m + n && Uniform(result.vertices, vp, p)
      invariant CrossedUpTo(result.vertices, m, n, i, j) && result.mE == old(result.mE) + 2 * j
    {
      assert !HasEdge(result.vertices, i, j + n);
      AddPair(result.vertices, i, j + n, vp, p);
      CrossedNext(result.vertices, Emplace(result.vertices, false, i, j + n, p).0, m, n, i, j);
      var _ := result.EdgeEmplace(i, j + n, p);
      j := j + 1;
    }
    CrossedRow(m, n, i);
  }

  // star: complete_bipartite(n, 1), so vertex 0 is joined to each of 1..n.
  method Star<V, E>(n: nat, vp: V, p: E) returns (result: Graph<V, E>)
    ensures fresh(result) && !result.directed && result.Valid()
    ensures |result.vertices| == n + 1 && Uniform(result.vertices, vp, p)
    ensures forall a: nat, b: nat :: HasEdge(result.vertices, a, b) <==> (a == 0 && 1 <= b <= n) || (b == 0 && 1 <= a <= n)
    ensures result.EdgeSize() == n
    ensures |result.vertices[0].outs| == n && forall u :: 1 <= u <= n ==> |result.vertices[u].outs| == 1
  {
    result := CompleteBipartite(n, 1, vp, p);
    BipartiteDegrees(result.vertices, n, 1);
  }

  // claw: star(3).
  method Claw<V, E>(vp: V, p: E) returns (result: Graph<V, E>)
    ensures fresh(result) && !result.directed && result.Valid()
    ensures |result.vertices| == 4 && Uniform(result.vertices, vp, p)
    ensures forall a: nat, b: nat :: HasEdge(result.vertices, a, b) <==> (a == 0 && 1 <= b <= 3) || (b == 0 && 1 <= a <= 3)
    ensures result.EdgeSize() == 3
  {
    result := Star(3, vp, p);
  }

  // ---------------------------------------------------------------------------
  // Degrees.

  // Each vertex of the side of n vertices has degree m, each vertex of the
  // other side degree n.
  lemma BipartiteDegrees<V, E>(vs: seq<Vertex<V, E>>, m: nat, n: nat)
    requires Simple(vs) && |vs| == m + n
    requires forall a: nat, b: nat :: HasEdge(vs, a, b) <==> Across(m, n, a, b) || Across(m, n, b, a)
    ensures forall u :: 0 <= u < n ==> |vs[u].outs| == m
    ensures forall u :: n <= u < m + n ==> |vs[u].outs| == n
  {
    forall u | 0 <= u < m + n ensures |vs[u].outs| == if u < n then m else n {
      SideDegree(vs, m, n, u);
    }
  }

  lemma SideDegree<V, E>(vs: seq<Vertex<V, E>>, m: nat, n: nat, u: nat)
    requires Simple(vs) && |vs| == m + n && u < m + n
    requires forall a: nat, b: nat :: HasEdge(vs, a, b) <==> Across(m, n, a, b) || Across(m, n, b, a)
    ensures |vs[u].outs| == if u < n then m else n
  {
    if u < n {
      IntervalCard(n, n + m);
      SideNeighbours(vs, m, n, u, n, n + m);
    } else {
      IntervalCard(0, n);
      SideNeighbours(vs, m, n, u, 0, n);
    }
  }

  // The neighbours of u are the vertices of the other side, lo..hi - 1.
  lemma SideNeighbours<V, E>(vs: seq<Vertex<V, E>>, m: nat, n: nat, u: nat, lo: nat, hi: nat)
    requires Simple(vs) && |vs| == m + n && u < m + n
    requires if u < n then lo == n && hi == n + m else lo == 0 && hi == n
    requires forall a: nat, b: nat :: HasEdge(vs, a, b) <==> Across(m, n, a, b) || Across(m, n, b, a)
    ensures |vs[u].outs| == |Interval(lo, hi)|
  {
    forall b: nat ensures HasEdge(vs, u, b) <==> b in Interval(lo, hi) {
      assert HasEdge(vs, u, b) <==> Across(m, n, u, b) || Across(m, n, b, u);
    }
    DegreeBy(vs, u, Interval(lo, hi));
  }

  // ---------------------------------------------------------------------------
  // The loops of complete_bipartite.

  // The pair (x, y) has been emplaced once the loops reach row i, column j.
  ghost predicate Crossed(m: nat, n: nat, i: nat, j: nat, x: nat, y: nat)
  {
    Across(m, n, x, y) && (x < i || (x == i && y < n + j))
  }

  ghost predicate CrossedUpTo<V, E>(vs: seq<Vertex<V, E>>, m: nat, n: nat, i: nat, j: nat)
  {
    forall a: nat, b: nat :: HasEdge(vs, a, b) <==> Crossed(m, n, i, j, a, b) || Crossed(m, n, i, j, b, a)
  }

  // Emplacing the pair (i, j + n) reaches column j + 1.
  lemma CrossedNext<V, E>(vs: seq<Vertex<V, E>>, r: seq<Vertex<V, E>>, m: nat, n: nat, i: nat, j: nat)
    requires i < n && j < m && CrossedUpTo(vs, m, n, i, j)
    requires forall a: nat, b: nat :: HasEdge(r, a, b) <==> HasEdge(vs, a, b) || (a == i && b == j + n) || (a == j + n && b == i)
    ensures CrossedUpTo(r, m, n, i, j + 1)
  {
    forall a: nat, b: nat ensures HasEdge(r, a, b) <==> Crossed(m, n, i, j + 1, a, b) || Crossed(m, n, i, j + 1, b, a) {
      assert HasEdge(r, a, b) <==> HasEdge(vs, a, b) || (a == i && b == j + n) || (a == j + n && b == i);
      assert HasEdge(vs, a, b) <==> Crossed(m, n, i, j, a, b) || Crossed(m, n, i, j, b, a);
    }
  }

  // A finished row: column m of row i is row i + 1.
  lemma CrossedRow(m: nat, n: nat, i: nat)
    ensures forall x: nat, y: nat :: Crossed(m, n, i, m, x, y) <==> Crossed(m, n, i + 1, 0, x, y)
  {
  }
}
