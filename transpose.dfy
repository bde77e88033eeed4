// transpose(graph): every edge reversed. An undirected graph is its own
// transpose and is handed back as it is; a directed graph is rebuilt from its
// edgeless copy by emplacing to -> v with the payload of every record v -> to.
module Transposition {
  import opened GraphTypes
  import opened AdjacencyOps
  import opened AdjacencyList

  // r holds the vertices of vs, each with its payload, and for every record
  // u -> w of vs with payload p the record w -> u with payload p, and no other.
  ghost predicate Transposed<V, E(!new)>(vs: seq<Vertex<V, E>>, r: seq<Vertex<V, E>>)
  {
    && |r| == |vs|
    && (forall k :: 0 <= k < |vs| ==> r[k].payload == vs[k].payload)
    && forall a: nat, b: nat, p: E :: HasRecord(r, a, b, p) <==> HasRecord(vs, b, a, p)
  }

  // transpose: the same object for an undirected graph, a new directed graph
  // otherwise, with as many edges as the original.
  method Transpose<V, E(!new)>(g: Graph<V, E>) returns (result: Graph<V, E>)
    requires g.Valid()
    ensures result.directed == g.directed && result.Valid()
    ensures !g.directed ==> result == g
    ensures g.directed ==> fresh(result) && Transposed(g.vertices, result.vertices)
    ensures result.EdgeSize() == g.EdgeSize()
  {
    if !g.directed {
      return g;
    }
    result := g.StripEdges();
    PartialStart(g.vertices, result.vertices);
    var v := 0;
    while v < |g.vertices|
      invariant 0 <= v <= |g.vertices|
      invariant fresh(result) && result.directed && result.Valid()
      invariant Partial(g.vertices, result.vertices, v, 0)
      invariant Records(result.vertices) == Records(g.vertices[..v])
    {
      EmplaceReversed(g.vertices, result, v);
      v := v + 1;
    }
    PartialEnd(g.vertices, result.vertices);
  }

  // The inner loop: emplace to -> v with the payload of every record v -> to.
  method EmplaceReversed<V, E(!new)>(vs: seq<Vertex<V, E>>, result: Graph<V, E>, v: nat)
    requires Simple(vs) && v < |vs| && result.directed && result.Valid()
    requires Partial(vs, result.vertices, v, 0) && Records(result.vertices) == Records(vs[..v])
    modifies result
    ensures result.Valid() && Partial(vs, result.vertices, v + 1, 0)
    ensures Records(result.vertices) == Records(vs[..v + 1])
  {
    var outs := vs[v].outs;
    var j := 0;
    while j < |outs|
      invariant 0 <= j <= |outs|
      invariant result.Valid() && Partial(vs, result.vertices, v, j)
      invariant Records(result.vertices) == Records(vs[..v]) + j
    {
      TransposeStep(vs, result.vertices, v, j);
      var _ := result.EdgeEmplace(outs[j].to, v, outs[j].payload);
      j := j + 1;
    }
    PartialRow(vs, result.vertices, v);
  }

  // ---------------------------------------------------------------------------
  // What the transpose means.

  // The edges of the transpose are the reversed edges of the graph.
  lemma TransposedEdges<V, E(!new)>(vs: seq<Vertex<V, E>>, r: seq<Vertex<V, E>>)
    requires Transposed(vs, r)
    ensures forall a: nat, b: nat :: HasEdge(r, a, b) <==> HasEdge(vs, b, a)
  {
    forall a: nat, b: nat ensures HasEdge(r, a, b) <==> HasEdge(vs, b, a) {
      if HasEdge(r, a, b) {
        var i :| 0 <= i < |r[a].outs| && r[a].outs[i].to == b;
        assert HasRecord(r, a, b, r[a].outs[i].payload);
        assert HasRecord(vs, b, a, r[a].outs[i].payload);
        var k :| 0 <= k < |vs[b].outs| && vs[b].outs[k] == OutEdge(a, r[a].outs[i].payload);
      }
      if HasEdge(vs, b, a) {
        var i :| 0 <= i < |vs[b].outs| && vs[b].outs[i].to == a;
        assert HasRecord(vs, b, a, vs[b].outs[i].payload);
        var k :| 0 <= k < |r[a].outs| && r[a].outs[k] == OutEdge(b, vs[b].outs[i].payload);
      }
    }
  }

  // Transposing twice gives back every record of the graph with its payload.
  lemma TransposeTwice<V, E(!new)>(vs: seq<Vertex<V, E>>, r: seq<Vertex<V, E>>, s: seq<Vertex<V, E>>)
    requires Transposed(vs, r) && Transposed(r, s)
    ensures |s| == |vs| && forall k :: 0 <= k < |s| ==> s[k].payload == vs[k].payload
    ensures forall a: nat, b: nat, p: E :: HasRecord(s, a, b, p) <==> HasRecord(vs, a, b, p)
  {
  }

  // ---------------------------------------------------------------------------
  // The loop, record by record.

  // The copy after the loop has visited the rows before v and the first j
  // records of row v.
  ghost predicate Partial<V, E(!new)>(vs: seq<Vertex<V, E>>, r: seq<Vertex<V, E>>, v: nat, j: nat)
  {
    && |r| == |vs| && v <= |vs|
    && (v < |vs| ==> j <= |vs[v].outs|)
    && (forall k :: 0 <= k < |vs| ==> r[k].payload == vs[k].payload)
    && forall a: nat, b: nat, p: E :: HasRecord(r, a, b, p) <==>
         (b < v && HasRecord(vs, b, a, p)) || (b == v < |vs| && OutEdge(a, p) in vs[v].outs[..j])
  }

  lemma PartialStart<V, E(!new)>(vs: seq<Vertex<V, E>>, r: seq<Vertex<V, E>>)
    requires r == Stripped(vs)
    ensures Partial(vs, r, 0, 0)
  {
  }

  lemma PartialEnd<V, E(!new)>(vs: seq<Vertex<V, E>>, r: seq<Vertex<V, E>>)
    requires Partial(vs, r, |vs|, 0)
    ensures Transposed(vs, r) && vs[..|vs|] == vs
  {
  }

  // Emplacing the reverse of record j of row v adds exactly that record.
  lemma TransposeStep<V, E(!new)>(vs: seq<Vertex<V, E>>, r: seq<Vertex<V, E>>, v: nat, j: nat)
    requires Simple(vs) && Simple(r) && Partial(vs, r, v, j) && v < |vs| && j < |vs[v].outs|
    ensures vs[v].outs[j].to < |r| && vs[v].outs[j].to != v
    ensures var (r', added) := Emplace(r, true, vs[v].outs[j].to, v, vs[v].outs[j].payload);
      added && Partial(vs, r', v, j + 1)
  {
    var outs := vs[v].outs;
    var t, p := outs[j].to, outs[j].payload;
    assert outs[j] in outs;
    if HasEdge(r, t, v) {
      var i :| 0 <= i < |r[t].outs| && r[t].outs[i].to == v;
      assert HasRecord(r, t, v, r[t].outs[i].payload);
      assert false;
    }
    var r' := AddRecord(r, t, v, p);
    assert r' == r[t := Vertex(r[t].payload, r[t].outs + [OutEdge(v, p)])];
    assert outs[..j + 1] == outs[..j] + [OutEdge(t, p)];
    forall a: nat, b: nat, q: E ensures HasRecord(r', a, b, q) <==>
      (b < v && HasRecord(vs, b, a, q)) || (b == v < |vs| && OutEdge(a, q) in outs[..j + 1])
    {
      assert OutEdge(a, q) in outs[..j + 1] <==> OutEdge(a, q) in outs[..j] || (a == t && q == p);
      assert HasRecord(r, a, b, q) <==>
        (b < v && HasRecord(vs, b, a, q)) || (b == v < |vs| && OutEdge(a, q) in outs[..j]);
      if a == t {
        assert OutEdge(b, q) in r'[a].outs <==> OutEdge(b, q) in r[a].outs || OutEdge(b, q) == OutEdge(v, p);
      } else if a < |r| {
        assert r'[a] == r[a];
      }
    }
  }

  // A finished row: the records of row v are all transposed.
  lemma PartialRow<V, E(!new)>(vs: seq<Vertex<V, E>>, r: seq<Vertex<V, E>>, v: nat)
    requires v < |vs| && Partial(vs, r, v, |vs[v].outs|)
    ensures Partial(vs, r, v + 1, 0)
    ensures Records(vs[..v + 1]) == Records(vs[..v]) + |vs[v].outs|
  {
    assert vs[v].outs[..|vs[v].outs|] == vs[v].outs;
    assert vs[..v + 1][..v] == vs[..v];
  }
}
