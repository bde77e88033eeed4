// complement(graph): the graph on the same vertices whose edges are exactly
// the pairs of distinct vertices the original does not join. The result starts
// as the edgeless copy; for every vertex v a checklist marks v's neighbours, and
// every other unmarked vertex o is joined to v by emplace(v, o) with a
// default-constructed payload. A directed graph visits every o != v, an
// undirected one only o < v (emplace adds both records).
module Complementation {
  import opened Util
  import opened GraphTypes
  import opened AdjacencyOps
  import opened AdjacencyList

  // a and b are distinct vertices of vs that vs does not join.
  predicate Missing<V, E>(vs: seq<Vertex<V, E>>, a: nat, b: nat)
  {
    a < |vs| && b < |vs| && a != b && !HasEdge(vs, a, b)
  }

  // Every record of r carries payload p.
  ghost predicate AllPayloads<V, E>(r: seq<Vertex<V, E>>, p: E)
  {
    forall a, i :: 0 <= a < |r| && 0 <= i < |r[a].outs| ==> r[a].outs[i].payload == p
  }

  // r is the complement of vs: the same vertex payloads, an edge exactly where
  // vs has none, and the default payload on every record.
  ghost predicate Complemented<V, E>(vs: seq<Vertex<V, E>>, r: seq<Vertex<V, E>>, p: E)
  {
    && |r| == |vs|
    && (forall k :: 0 <= k < |vs| ==> r[k].payload == vs[k].payload)
    && (forall a: nat, b: nat :: HasEdge(r, a, b) <==> Missing(vs, a, b))
    && AllPayloads(r, p)
  }

  // complement. The payload parameter stands for the default-constructed edge
  // payload. The edge count of the result is what the original lacks of the
  // largest possible count.
  method Complement<V, E>(g: Graph<V, E>, payload: E) returns (result: Graph<V, E>)
    requires g.Valid()
    ensures fresh(result) && result.directed == g.directed && result.Valid()
    ensures Complemented(g.vertices, result.vertices, payload)
    ensures result.EdgeSize() + g.EdgeSize() == g.EdgeMaxSize()
  {
    result := g.StripEdges();
    var n := |g.vertices|;
    for v := 0 to n
      invariant fresh(result) && result.directed == g.directed && result.Valid()
      invariant Filled(g.vertices, result.vertices, g.directed, v, 0, payload)
    {
      var checklist := Checklist(g.vertices[v].outs, n);
      EmplaceMissing(g.vertices, g.directed, result, v, checklist, payload);
    }
    FilledEnd(g.vertices, result.vertices, g.directed, payload);
    ComplementEdgeSize(g, result, payload);
  }

  // The checklist of one vertex: cleared, then set at every target.
  method Checklist<E>(outs: seq<OutEdge<E>>, n: nat) returns (checklist: seq<bool>)
    requires forall i :: 0 <= i < |outs| ==> outs[i].to < n
    ensures |checklist| == n && forall o :: 0 <= o < n ==> (checklist[o] <==> AnyTo(outs, o))
  {
    checklist := seq(n, _ => false);
    for j := 0 to |outs|
      invariant |checklist| == n
      invariant forall o :: 0 <= o < n ==> (checklist[o] <==> exists i :: 0 <= i < j && outs[i].to == o)
    {
      checklist := checklist[outs[j].to := true];
    }
  }

  // The inner loops: emplace(v, o) for every unmarked o other than v, where o
  // runs below v for an undirected graph and over every vertex for a directed one.
  method EmplaceMissing<V, E>(vs: seq<Vertex<V, E>>, directed: bool, result: Graph<V, E>, v: nat, checklist: seq<bool>, payload: E)
    requires WellFormed(vs, directed) && v < |vs| && |checklist| == |vs|
    requires forall o :: 0 <= o < |vs| ==> (checklist[o] <==> HasEdge(vs, v, o))
    requires result.directed == directed && result.Valid()
    requires Filled(vs, result.vertices, directed, v, 0, payload)
    modifies result
    ensures result.Valid() && Filled(vs, result.vertices, directed, v + 1, 0, payload)
  {
    var bound := if directed then |vs| else v;
    for o := 0 to bound
      invariant result.Valid() && Filled(vs, result.vertices, directed, v, o, payload)
    {
      if o != v && !checklist[o] {
        ComplementStep(vs, result.vertices, directed, v, o, payload);
        var _ := result.EdgeEmplace(v, o, payload);
      } else {
        SkipStep(vs, result.vertices, directed, v, o, payload);
      }
    }
    FilledRow(vs, result.vertices, directed, v, bound, payload);
  }

  // ---------------------------------------------------------------------------
  // Progress of the loops.

  // The pairs the loops have handled once they reach vertex v and candidate o:
  // ordered pairs (a, b) with a before v, or a == v and b before o; for an
  // undirected graph the same with a the larger end of the pair.
  predicate Handled(directed: bool, a: nat, b: nat, v: nat, o: nat)
  {
    var (hi, lo) := if directed || a >= b then (a, b) else (b, a);
    hi < v || (hi == v && lo < o)
  }

  ghost predicate Filled<V, E>(vs: seq<Vertex<V, E>>, r: seq<Vertex<V, E>>, directed: bool, v: nat, o: nat, p: E)
  {
    && |r| == |vs|
    && (forall k :: 0 <= k < |vs| ==> r[k].payload == vs[k].payload)
    && EdgesHandled(vs, r, directed, v, o)
    && AllPayloads(r, p)
  }

  // r has an edge exactly at the missing pairs the loops have handled.
  ghost predicate EdgesHandled<V, E>(vs: seq<Vertex<V, E>>, r: seq<Vertex<V, E>>, directed: bool, v: nat, o: nat)
  {
    forall a: nat, b: nat :: HasEdge(r, a, b) <==> Missing(vs, a, b) && Handled(directed, a, b, v, o)
  }

  lemma FilledRow<V, E>(vs: seq<Vertex<V, E>>, r: seq<Vertex<V, E>>, directed: bool, v: nat, bound: nat, p: E)
    requires WellFormed(vs, directed) && v < |vs| && bound == (if directed then |vs| else v)
    requires Filled(vs, r, directed, v, bound, p)
    ensures Filled(vs, r, directed, v + 1, 0, p)
  {
    forall a: nat, b: nat ensures Missing(vs, a, b) && Handled(directed, a, b, v, bound) <==> Missing(vs, a, b) && Handled(directed, a, b, v + 1, 0) {
    }
  }

  lemma FilledEnd<V, E>(vs: seq<Vertex<V, E>>, r: seq<Vertex<V, E>>, directed: bool, p: E)
    requires Filled(vs, r, directed, |vs|, 0, p)
    ensures Complemented(vs, r, p)
  {
  }

  // An unmarked o other than v: the pair is missing and not yet handled, so
  // emplace adds it (in both directions when undirected), with payload p.
  lemma ComplementStep<V, E>(vs: seq<Vertex<V, E>>, r: seq<Vertex<V, E>>, directed: bool, v: nat, o: nat, p: E)
    requires WellFormed(vs, directed) && WellFormed(r, directed) && v < |vs| && o < |vs| && o != v
    requires !directed ==> o < v
    requires !HasEdge(vs, v, o) && Filled(vs, r, directed, v, o, p)
    ensures |r| == |vs|
    ensures Filled(vs, Emplace(r, directed, v, o, p).0, directed, v, o + 1, p)
  {
    var r' := Emplace(r, directed, v, o, p).0;
    EmplaceEffect(r, directed, v, o, p);
    EmplacePayloads(r, directed, v, o, p);
    if !directed {
      assert !HasEdge(vs, o, v);
    }
    HandledStep(vs, r, r', directed, v, o);
  }

  lemma HandledStep<V, E>(vs: seq<Vertex<V, E>>, r: seq<Vertex<V, E>>, r': seq<Vertex<V, E>>, directed: bool, v: nat, o: nat)
    requires EdgesHandled(vs, r, directed, v, o) && Missing(vs, v, o)
    requires !directed ==> o < v && Missing(vs, o, v)
    requires forall a: nat, b: nat :: HasEdge(r', a, b) <==> HasEdge(r, a, b) || (a == v && b == o) || (!directed && a == o && b == v)
    ensures EdgesHandled(vs, r', directed, v, o + 1)
  {
    forall a: nat, b: nat ensures HasEdge(r', a, b) <==> Missing(vs, a, b) && Handled(directed, a, b, v, o + 1) {
      assert Handled(directed, a, b, v, o + 1) <==>
        Handled(directed, a, b, v, o) || (a == v && b == o) || (!directed && a == o && b == v);
    }
  }

  // A marked o, or o == v: nothing is emplaced and nothing is missing.
  lemma SkipStep<V, E>(vs: seq<Vertex<V, E>>, r: seq<Vertex<V, E>>, directed: bool, v: nat, o: nat, p: E)
    requires WellFormed(vs, directed) && v < |vs| && o < |vs|
    requires o == v || HasEdge(vs, v, o)
    requires Filled(vs, r, directed, v, o, p)
    ensures Filled(vs, r, directed, v, o + 1, p)
  {
    if !directed && o != v {
      assert HasEdge(vs, o, v);
    }
  }

  // Every record emplace adds carries the payload it was given.
  lemma EmplacePayloads<V, E>(vs: seq<Vertex<V, E>>, directed: bool, from: nat, to: nat, p: E)
    requires from < |vs| && to < |vs| && AllPayloads(vs, p)
    ensures AllPayloads(Emplace(vs, directed, from, to, p).0, p)
  {
    if !directed {
      SimplePayloads(vs, to, from, p);
      SimplePayloads(EmplaceSimple(vs, to, from, p).0, from, to, p);
    } else {
      SimplePayloads(vs, from, to, p);
    }
  }

  lemma SimplePayloads<V, E>(vs: seq<Vertex<V, E>>, from: nat, to: nat, p: E)
    requires from < |vs| && AllPayloads(vs, p)
    ensures AllPayloads(EmplaceSimple(vs, from, to, p).0, p)
  {
    var r := EmplaceSimple(vs, from, to, p).0;
    if r != vs {
      assert r == vs[from := Vertex(vs[from].payload, vs[from].outs + [OutEdge(to, p)])];
      forall a, i | 0 <= a < |r| && 0 <= i < |r[a].outs| ensures r[a].outs[i].payload == p {
        if a == from && i < |vs[from].outs| {
          assert r[a].outs[i] == vs[a].outs[i];
        }
      }
    }
  }

  // ---------------------------------------------------------------------------
  // Counting: each vertex has n - 1 possible neighbours, split between the
  // graph and its complement.

  // edge_size of the complement: edge_max_size minus the original's edge_size.
  lemma ComplementEdgeSize<V, E>(g: Graph<V, E>, result: Graph<V, E>, p: E)
    requires g.Valid() && result.Valid() && result.directed == g.directed
    requires Complemented(g.vertices, result.vertices, p)
    ensures result.EdgeSize() + g.EdgeSize() == g.EdgeMaxSize()
  {
    var vs, r := g.vertices, result.vertices;
    forall u | 0 <= u < |vs| ensures |r[u].outs| + |vs[u].outs| == |vs| - 1 {
      ComplementRow(vs, r, u);
    }
    ComplementRecords(vs, r, |vs|);
    assert vs[..|vs|] == vs && r[..|vs|] == r;
    if !g.directed {
      UndirectedRecordsEven(vs);
      UndirectedRecordsEven(r);
    }
  }

  // Rows whose degrees add up to n - 1 store k * (n - 1) records over the
  // first k rows.
  lemma {:induction false} ComplementRecords<V, E>(vs: seq<Vertex<V, E>>, r: seq<Vertex<V, E>>, k: nat)
    requires k <= |vs| == |r|
    requires forall u :: 0 <= u < |vs| ==> |r[u].outs| + |vs[u].outs| == |vs| - 1
    ensures Records(r[..k]) + Records(vs[..k]) == k * (|vs| - 1)
    decreases k
  {
    if k > 0 {
      ComplementRecords(vs, r, k - 1);
      assert r[..k][..k - 1] == r[..k - 1] && vs[..k][..k - 1] == vs[..k - 1];
      assert k * (|vs| - 1) == (k - 1) * (|vs| - 1) + (|vs| - 1);
    }
  }

  // The neighbours of u in the graph and in its complement make up every
  // other vertex.
  lemma ComplementRow<V, E>(vs: seq<Vertex<V, E>>, r: seq<Vertex<V, E>>, u: nat)
    requires u < |vs| == |r| && DistinctTargets(vs[u].outs) && DistinctTargets(r[u].outs)
    requires forall i :: 0 <= i < |vs[u].outs| ==> vs[u].outs[i].to < |vs| && vs[u].outs[i].to != u
    requires forall b: nat :: HasEdge(r, u, b) <==> Missing(vs, u, b)
    ensures |r[u].outs| + |vs[u].outs| == |vs| - 1
  {
    OutDegreeCounts(vs, u);
    OutDegreeCounts(r, u);
    RowPartition(vs, r, u);
    PartitionCard(OutNeighbours(r, u), OutNeighbours(vs, u), Below(|vs|) - {u});
    BelowCard(|vs|);
  }

  lemma RowPartition<V, E>(vs: seq<Vertex<V, E>>, r: seq<Vertex<V, E>>, u: nat)
    requires u < |vs| == |r|
    requires forall i :: 0 <= i < |vs[u].outs| ==> vs[u].outs[i].to < |vs| && vs[u].outs[i].to != u
    requires forall b: nat :: b in OutNeighbours(vs, u) <==> HasEdge(vs, u, b)
    requires forall b: nat :: b in OutNeighbours(r, u) <==> Missing(vs, u, b)
    ensures OutNeighbours(r, u) + OutNeighbours(vs, u) == Below(|vs|) - {u}
    ensures OutNeighbours(r, u) * OutNeighbours(vs, u) == {}
  {
    forall b: nat | HasEdge(vs, u, b) ensures b < |vs| && b != u {
      var i :| 0 <= i < |vs[u].outs| && vs[u].outs[i].to == b;
    }
  }

  lemma PartitionCard<T>(a: set<T>, b: set<T>, c: set<T>)
    requires a + b == c && a * b == {}
    ensures |a| + |b| == |c|
  {
  }

  // Complementing twice gives back the edges of a simple graph.
  lemma ComplementTwice<V, E>(vs: seq<Vertex<V, E>>, r: seq<Vertex<V, E>>, s: seq<Vertex<V, E>>, p: E, q: E)
    requires Simple(vs) && Complemented(vs, r, p) && Complemented(r, s, q)
    ensures forall a: nat, b: nat :: HasEdge(s, a, b) <==> HasEdge(vs, a, b)
  {
    forall a: nat, b: nat | HasEdge(vs, a, b) ensures HasEdge(s, a, b) {
      var i :| 0 <= i < |vs[a].outs| && vs[a].outs[i].to == b;
    }
  }
}
