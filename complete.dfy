// complete(n): the undirected graph on n vertices in which every two distinct
// vertices are adjacent, built by emplacing the pair (i, j) for every j < i.
// is_complete compares the edge count with the largest possible one; that
// comparison is proved to hold exactly when every two distinct vertices are
// adjacent.
module CompleteGraphs {
  import opened Util
  import opened GraphTypes
  import opened AdjacencyOps
  import opened AdjacencyList
  import opened FamilyBuild

  // Every two distinct vertices are adjacent.
  ghost predicate AllJoined<V, E>(vs: seq<Vertex<V, E>>)
  {
    forall a: nat, b: nat :: a < |vs| && b < |vs| && a != b ==> HasEdge(vs, a, b)
  }

  // complete. The payloads vp and p stand for the default-constructed vertex
  // and edge payloads.
  method Complete<V, E>(n: nat, vp: V, p: E) returns (result: Graph<V, E>)
    ensures fresh(result) && !result.directed && result.Valid()
    ensures |result.vertices| == n && Uniform(result.vertices, vp, p)
    ensures forall a: nat, b: nat :: HasEdge(result.vertices, a, b) <==> a < n && b < n && a != b
    ensures result.EdgeSize() == n * (n - 1) / 2
  {
    result := new Graph.Sized(false, n, vp);
    UniformStart(result.vertices, vp, p);
    var i := 1;
    while i < n
      invariant 1 <= i && (i <= n || i == 1)
      invariant fresh(result) && !result.directed && result.Valid()
      invariant |result.vertices| == n && Uniform(result.vertices, vp, p)
      invariant JoinedUpTo(result.vertices, i, 0)
    {
      CompleteRow(result, i, vp, p);
      i := i + 1;
    }
    assert AllJoined(result.vertices);
    FullIff(result);
  }

  // The inner loop: emplace (i, j) for every j < i.
  method CompleteRow<V, E>(result: Graph<V, E>, i: nat, vp: V, p: E)
    requires !result.directed && result.Valid() && 1 <= i < |result.vertices|
    requires Uniform(result.vertices, vp, p) && JoinedUpTo(result.vertices, i, 0)
    modifies result
    ensures result.Valid() && |result.vertices| == old(|result.vertices|)
    ensures Uniform(result.vertices, vp, p) && JoinedUpTo(result.vertices, i + 1, 0)
  {
    var j := 0;
    while j < i
      invariant 0 <= j <= i
      invariant result.Valid() && |result.vertices| == old(|result.vertices|)
      invariant Uniform(result.vertices, vp, p) && JoinedUpTo(result.vertices, i, j)
    {
      assert !HasEdge(result.vertices, i, j);
      AddPair(result.vertices, i, j, vp, p);
      JoinedNext(result.vertices, Emplace(result.vertices, false, i, j, p).0, i, j);
      var _ := result.EdgeEmplace(i, j, p);
      j := j + 1;
    }
  }

  // is_complete: the edge count is the largest possible one.
  function IsComplete<V, E>(g: Graph<V, E>): (r: bool)
    reads g
    requires g.Valid()
    ensures r <==> AllJoined(g.vertices)
  {
    FullIff(g);
    g.EdgeSize() == g.EdgeMaxSize()
  }

  // ---------------------------------------------------------------------------
  // The loops of complete.

  // The pair {hi, lo} with lo < hi has been emplaced once the loops reach row i,
  // column j.
  ghost predicate Joined(i: nat, j: nat, hi: nat, lo: nat)
  {
    lo < hi && (hi < i || (hi == i && lo < j))
  }

  ghost predicate JoinedUpTo<V, E>(vs: seq<Vertex<V, E>>, i: nat, j: nat)
  {
    forall a: nat, b: nat :: HasEdge(vs, a, b) <==> Joined(i, j, a, b) || Joined(i, j, b, a)
  }

  // Emplacing the pair (i, j) reaches column j + 1.
  lemma JoinedNext<V, E>(vs: seq<Vertex<V, E>>, r: seq<Vertex<V, E>>, i: nat, j: nat)
    requires j < i && JoinedUpTo(vs, i, j)
    requires forall a: nat, b: nat :: HasEdge(r, a, b) <==> HasEdge(vs, a, b) || (a == i && b == j) || (a == j && b == i)
    ensures JoinedUpTo(r, i, j + 1)
  {
    forall a: nat, b: nat ensures HasEdge(r, a, b) <==> Joined(i, j + 1, a, b) || Joined(i, j + 1, b, a) {
      assert HasEdge(r, a, b) <==> HasEdge(vs, a, b) || (a == i && b == j) || (a == j && b == i);
      assert HasEdge(vs, a, b) <==> Joined(i, j, a, b) || Joined(i, j, b, a);
    }
  }

  // ---------------------------------------------------------------------------
  // What is_complete's comparison means.

  // The edge count reaches edge_max_size exactly when every two distinct
  // vertices are adjacent, for directed and undirected graphs alike.
  lemma FullIff<V, E>(g: Graph<V, E>)
    requires g.Valid()
    ensures g.EdgeSize() == g.EdgeMaxSize() <==> AllJoined(g.vertices)
  {
    var vs := g.vertices;
    var n := |vs|;
    if n > 0 {
      RecordsFullIff(vs);
      RecordsMax(vs);
      if !g.directed {
        UndirectedRecordsEven(vs);
        PairsEven(n);
      }
    }
  }

  lemma {:induction false} PairsEven(n: nat)
    ensures (n * (n - 1)) % 2 == 0
  {
    if n > 1 {
      PairsEven(n - 1);
      assert n * (n - 1) == (n - 1) * (n - 2) + 2 * (n - 1);
    }
  }

  // A simple graph has n(n-1) records exactly when all pairs are joined.
  lemma RecordsFullIff<V, E>(vs: seq<Vertex<V, E>>)
    requires Simple(vs) && vs != []
    ensures Records(vs) == |vs| * (|vs| - 1) <==> AllJoined(vs)
  {
    var n := |vs|;
    forall u | 0 <= u < n ensures |vs[u].outs| <= n - 1 {
      OutDegreeBound(vs, u);
    }
    RecordsCapped(vs, n - 1);
    RowsFull(vs);
  }

  lemma RowsFull<V, E>(vs: seq<Vertex<V, E>>)
    requires Simple(vs)
    ensures (forall u :: 0 <= u < |vs| ==> |vs[u].outs| == |vs| - 1) <==> AllJoined(vs)
  {
    if forall u :: 0 <= u < |vs| ==> |vs[u].outs| == |vs| - 1 {
      forall a: nat, b: nat | a < |vs| && b < |vs| && a != b ensures HasEdge(vs, a, b) {
        RowFull(vs, a);
      }
    }
    if AllJoined(vs) {
      forall u | 0 <= u < |vs| ensures |vs[u].outs| == |vs| - 1 {
        RowFull(vs, u);
      }
    }
  }

  // A row of a simple graph has n - 1 records exactly when it reaches every
  // other vertex.
  lemma RowFull<V, E>(vs: seq<Vertex<V, E>>, u: nat)
    requires Simple(vs) && u < |vs|
    ensures |vs[u].outs| == |vs| - 1 <==> forall b: nat :: b < |vs| && b != u ==> HasEdge(vs, u, b)
  {
    var n := |vs|;
    OutDegreeCounts(vs, u);
    var others := Below(n) - {u};
    BelowCard(n);
    assert |others| == n - 1;
    assert OutNeighbours(vs, u) <= others by {
      forall b | b in OutNeighbours(vs, u) ensures b in others {
        var i :| 0 <= i < |vs[u].outs| && vs[u].outs[i].to == b;
      }
    }
    if |vs[u].outs| == n - 1 {
      SubsetFull(OutNeighbours(vs, u), others);
    }
    if forall b: nat :: b < n && b != u ==> HasEdge(vs, u, b) {
      assert OutNeighbours(vs, u) == others;
    }
  }

  // Rows of at most d records sum to at most |vs| * d, with equality exactly
  // when every row has d records.
  lemma {:induction false} RecordsCapped<V, E>(vs: seq<Vertex<V, E>>, d: nat)
    requires forall u :: 0 <= u < |vs| ==> |vs[u].outs| <= d
    ensures Records(vs) <= |vs| * d
    ensures Records(vs) == |vs| * d <==> forall u :: 0 <= u < |vs| ==> |vs[u].outs| == d
  {
    if vs != [] {
      var m := |vs| - 1;
      var pre := vs[..m];
      assert forall u :: 0 <= u < m ==> pre[u] == vs[u];
      RecordsCapped(pre, d);
      assert |vs| * d == m * d + d;
    }
  }
}
