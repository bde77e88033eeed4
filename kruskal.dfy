// Kruskal's spanning forest of an undirected graph: the edges are offered one
// at a time, each once from its lower end, and an edge is kept exactly when its
// two ends still lie in different sets of a disjoint set. The unweighted
// overload offers them in storage order; the weighted overload collects them
// first and offers them in order of weight.
module SpanningForests {
  import opened Util
  import opened GraphTypes
  import opened Paths
  import opened DisjointSets
  import opened AdjacencyOps
  import opened AdjacencyList
  import opened ConnectedComponents

  // ---------------------------------------------------------------------------
  // What the forest is made of.

  // ts has the vertices of vs with their payloads, and each of its records
  // carries the payload of a record of vs between the same two vertices.
  ghost predicate Kept<V, E(!new)>(vs: seq<Vertex<V, E>>, ts: seq<Vertex<V, E>>)
  {
    |ts| == |vs|
    && (forall k :: 0 <= k < |ts| ==> ts[k].payload == vs[k].payload)
    && forall a: nat, b: nat, q: E :: HasRecord(ts, a, b, q) ==> HasRecord(vs, a, b, q) || HasRecord(vs, b, a, q)
  }

  // Every edge of ts joins two vertices with one root.
  ghost predicate AllUnited<V, E(!new)>(ts: seq<Vertex<V, E>>, roots: seq<nat>)
  {
    |roots| == |ts|
    && forall a: nat, b: nat :: a < |ts| && b < |ts| && HasEdge(ts, a, b) ==> roots[a] == roots[b]
  }

  // Vertices that share a root in r1 share one in r2: r2 only joins sets.
  ghost predicate Coarser(r1: seq<nat>, r2: seq<nat>)
  {
    |r2| == |r1|
    && forall x, y :: 0 <= x < |r1| && 0 <= y < |r1| && r1[x] == r1[y] ==> r2[x] == r2[y]
  }

  // The two ends of e share a root.
  ghost predicate Joined<E(!new)>(roots: seq<nat>, e: Edge<E>)
  {
    e.from < |roots| && e.to < |roots| && roots[e.from] == roots[e.to]
  }

  lemma KeptEdges<V, E(!new)>(vs: seq<Vertex<V, E>>, ts: seq<Vertex<V, E>>)
    requires Symmetric(vs) && Kept(vs, ts)
    ensures forall a: nat, b: nat :: HasEdge(ts, a, b) ==> HasEdge(vs, a, b)
  {
    forall a: nat, b: nat | HasEdge(ts, a, b) ensures HasEdge(vs, a, b) {
      var i :| 0 <= i < |ts[a].outs| && ts[a].outs[i].to == b;
      var q := ts[a].outs[i].payload;
      assert ts[a].outs[i] == OutEdge(b, q);
      assert HasRecord(ts, a, b, q);
      if HasRecord(vs, a, b, q) {
        var j :| 0 <= j < |vs[a].outs| && vs[a].outs[j] == OutEdge(b, q);
        assert vs[a].outs[j].to == b;
      } else {
        var j :| 0 <= j < |vs[b].outs| && vs[b].outs[j] == OutEdge(a, q);
        assert vs[b].outs[j].to == a;
        assert HasEdge(vs, b, a);
      }
    }
  }

  // A walk of vs is a walk of any graph that has every edge of vs.
  lemma ReachMono<V, E(!new)>(vs: seq<Vertex<V, E>>, ws: seq<Vertex<V, E>>, a: nat, b: nat)
    requires forall x: nat, y: nat :: HasEdge(vs, x, y) ==> HasEdge(ws, x, y)
    requires Reachable(vs, [a], b)
    ensures Reachable(ws, [a], b)
  {
    var p :| IsPath(vs, p) && p[0] in [a] && p[|p| - 1] == b;
    assert IsPath(ws, p);
  }

  lemma SoundMono<V, E(!new)>(vs: seq<Vertex<V, E>>, ws: seq<Vertex<V, E>>, roots: seq<nat>)
    requires Sound(vs, roots) && |ws| == |vs|
    requires forall x: nat, y: nat :: HasEdge(vs, x, y) ==> HasEdge(ws, x, y)
    ensures Sound(ws, roots)
  {
    forall a, b | 0 <= a < |roots| && 0 <= b < |roots| && roots[a] == roots[b] ensures Reachable(ws, [a], b) {
      ReachMono(vs, ws, a, b);
    }
  }

  // ---------------------------------------------------------------------------
  // The state shared by both overloads.

  // mst is an undirected graph on the vertices of vs built from records of
  // vs; the sets of ds are joined exactly along its edges, and every unite
  // that succeeded has put two records into it.
  ghost predicate Growing<V, E(!new)>(ds: DisjointSet, vs: seq<Vertex<V, E>>, mst: Graph<V, E>)
    reads ds, mst
  {
    ds.Valid() && |ds.parent| == |vs| && mst.Valid() && !mst.directed && Kept(vs, mst.vertices)
    && Sound(mst.vertices, Roots(ds.parent, ds.rank)) && AllUnited(mst.vertices, Roots(ds.parent, ds.rank))
    && mst.mE + 2 * ds.sets == 2 * |vs|
  }

  // strip_edges() and a fresh disjoint set: no edges and singleton sets.
  lemma GrowingStart<V, E(!new)>(vs: seq<Vertex<V, E>>, ts: seq<Vertex<V, E>>, roots: seq<nat>)
    requires ts == Stripped(vs) && |roots| == |vs| && forall i :: 0 <= i < |roots| ==> roots[i] == i
    ensures Kept(vs, ts) && Sound(ts, roots) && AllUnited(ts, roots) && UnitedUpTo(vs, roots, 0, 0)
  {
    SingletonsSound(ts, roots);
    assert forall a :: 0 <= a < |ts| ==> ts[a].outs == [];
  }

  // Adding the edge a - b between two different sets and joining the sets.
  lemma Grow<V, E(!new)>(vs: seq<Vertex<V, E>>, ts: seq<Vertex<V, E>>, roots: seq<nat>, a: nat, b: nat, p: E, w: nat)
    requires WellFormed(ts, false) && Kept(vs, ts) && Sound(ts, roots) && AllUnited(ts, roots)
    requires a < b < |vs| && HasRecord(vs, a, b, p) && !HasEdge(ts, a, b) && (w == roots[a] || w == roots[b])
    ensures var ts2 := Emplace(ts, false, a, b, p).0;
      Kept(vs, ts2) && Sound(ts2, Merged(roots, roots[a], roots[b], w)) && AllUnited(ts2, Merged(roots, roots[a], roots[b], w))
  {
    var ts2 := Emplace(ts, false, a, b, p).0;
    EmplaceEffect(ts, false, a, b, p);
    GrowKept(vs, ts, a, b, p);
    SoundMono(ts, ts2, roots);
    MergeSound(ts2, roots, a, b, w);
    GrowUnited(ts, ts2, roots, a, b, w);
  }

  lemma GrowUnited<V, E(!new)>(ts: seq<Vertex<V, E>>, ts2: seq<Vertex<V, E>>, roots: seq<nat>, a: nat, b: nat, w: nat)
    requires AllUnited(ts, roots) && |ts2| == |ts| && a < |ts| && b < |ts|
    requires forall x: nat, y: nat :: HasEdge(ts2, x, y) <==> HasEdge(ts, x, y) || (x == a && y == b) || (x == b && y == a)
    ensures AllUnited(ts2, Merged(roots, roots[a], roots[b], w))
  {
  }

  lemma GrowKept<V, E(!new)>(vs: seq<Vertex<V, E>>, ts: seq<Vertex<V, E>>, a: nat, b: nat, p: E)
    requires WellFormed(ts, false) && Kept(vs, ts) && a < b < |vs| && HasRecord(vs, a, b, p)
    ensures Kept(vs, Emplace(ts, false, a, b, p).0)
  {
    var ts2 := Emplace(ts, false, a, b, p).0;
    EmplaceUndirectedRecords(ts, a, b, p);
    assert forall k :: 0 <= k < |ts| ==> ts2[k].payload == ts[k].payload;
  }

  lemma MergedCoarser(roots: seq<nat>, x: nat, y: nat, w: nat)
    ensures Coarser(roots, Merged(roots, x, y, w))
  {
  }

  // One offered edge a - b (record payload p): unite the sets of a and b, and
  // when they were different, emplace the edge into the forest.
  method Consider<V, E(!new)>(ds: DisjointSet, vs: seq<Vertex<V, E>>, mst: Graph<V, E>, a: nat, b: nat, p: E)
    requires Growing(ds, vs, mst) && a < b < |vs| && HasRecord(vs, a, b, p)
    modifies ds, mst
    ensures Growing(ds, vs, mst)
    ensures Coarser(old(Roots(ds.parent, ds.rank)), Roots(ds.parent, ds.rank))
    ensures Roots(ds.parent, ds.rank)[a] == Roots(ds.parent, ds.rank)[b]
    ensures forall x: nat, y: nat, q: E :: HasRecord(old(mst.vertices), x, y, q) ==> HasRecord(mst.vertices, x, y, q)
    ensures forall x: nat, y: nat, q: E :: HasRecord(mst.vertices, x, y, q) ==>
      HasRecord(old(mst.vertices), x, y, q) || (q == p && ((x == a && y == b) || (x == b && y == a)))
    ensures HasRecord(mst.vertices, a, b, p) || (mst.vertices == old(mst.vertices) && Reachable(mst.vertices, [a], b))
  {
    ghost var roots := Roots(ds.parent, ds.rank);
    ghost var ts := mst.vertices;
    var united := ds.Unite(a, b);
    if united {
      assert roots[a] != roots[b];
      EmplaceEffect(ts, false, a, b, p);
      EmplaceUndirectedRecords(ts, a, b, p);
      Grow(vs, ts, roots, a, b, p, ds.RootOf(a));
      MergedCoarser(roots, roots[a], roots[b], ds.RootOf(a));
      var _ := mst.EdgeEmplace(a, b, p);
    } else {
      assert roots[a] == roots[b];
    }
  }

  // ---------------------------------------------------------------------------
  // The unweighted overload.

  // The loop state before record j of row u.
  ghost predicate Spanning<V, E(!new)>(ds: DisjointSet, vs: seq<Vertex<V, E>>, mst: Graph<V, E>, u: nat, j: nat)
    reads ds, mst
  {
    WellFormed(vs, false) && Growing(ds, vs, mst) && UnitedUpTo(vs, Roots(ds.parent, ds.rank), u, j)
  }

  lemma UnitedNext<V, E(!new)>(vs: seq<Vertex<V, E>>, r1: seq<nat>, r2: seq<nat>, u: nat, j: nat)
    requires UnitedUpTo(vs, r1, u, j) && Coarser(r1, r2) && u < |vs| && j < |vs[u].outs|
    requires u < vs[u].outs[j].to < |vs| ==> r2[u] == r2[vs[u].outs[j].to]
    ensures UnitedUpTo(vs, r2, u, j + 1)
  {
  }

  // kruskal for a graph without weights: every edge in storage order.
  method Kruskal<V, E(!new)>(g: Graph<V, E>) returns (mst: Graph<V, E>)
    requires g.Valid() && !g.directed
    ensures fresh(mst) && mst.Valid() && !mst.directed && Kept(g.vertices, mst.vertices)
    ensures forall a, b :: 0 <= a < |g.vertices| && 0 <= b < |g.vertices| ==>
      (Reachable(mst.vertices, [a], b) <==> Reachable(g.vertices, [a], b))
    ensures mst.mE == 2 * (|g.vertices| - |Components(g.vertices)|)
    ensures Components(mst.vertices) == Components(g.vertices)
  {
    var vs := g.vertices;
    mst := g.StripEdges();
    var ds := new DisjointSet(PathSplitting, |vs|);
    forall i | 0 <= i < |vs| ensures Roots(ds.parent, ds.rank)[i] == i {
      assert ds.RootOf(i) == i;
    }
    GrowingStart(vs, mst.vertices, Roots(ds.parent, ds.rank));
    var u := 0;
    while u < |vs|
      invariant 0 <= u <= |vs| && Spanning(ds, vs, mst, u, 0)
    {
      KruskalRow(ds, vs, mst, u);
      u := u + 1;
    }
    Spanned(vs, mst.vertices, Roots(ds.parent, ds.rank));
    Counted(ds, vs, mst);
  }

  // The inner loop of kruskal over the records of u.
  method KruskalRow<V, E(!new)>(ds: DisjointSet, vs: seq<Vertex<V, E>>, mst: Graph<V, E>, u: nat)
    requires u < |vs| && Spanning(ds, vs, mst, u, 0)
    modifies ds, mst
    ensures Spanning(ds, vs, mst, u + 1, 0)
  {
    var j := 0;
    while j < |vs[u].outs|
      invariant 0 <= j <= |vs[u].outs| && Spanning(ds, vs, mst, u, j)
    {
      KruskalRecord(ds, vs, mst, u, j);
      j := j + 1;
    }
  }

  // One record of the inner loop: offered when it points to a higher vertex.
  method KruskalRecord<V, E(!new)>(ds: DisjointSet, vs: seq<Vertex<V, E>>, mst: Graph<V, E>, u: nat, j: nat)
    requires u < |vs| && j < |vs[u].outs| && Spanning(ds, vs, mst, u, j)
    modifies ds, mst
    ensures Spanning(ds, vs, mst, u, j + 1)
  {
    var to := vs[u].outs[j].to;
    if u < to {
      ghost var roots := Roots(ds.parent, ds.rank);
      assert vs[u].outs[j] in vs[u].outs;
      Consider(ds, vs, mst, u, to, vs[u].outs[j].payload);
      UnitedNext(vs, roots, Roots(ds.parent, ds.rank), u, j);
    }
  }

  // Once every edge is offered, the forest and the graph have the same
  // components.
  lemma Spanned<V, E(!new)>(vs: seq<Vertex<V, E>>, ts: seq<Vertex<V, E>>, roots: seq<nat>)
    requires WellFormed(vs, false) && WellFormed(ts, false) && Kept(vs, ts)
    requires Sound(ts, roots) && AllUnited(ts, roots) && UnitedUpTo(vs, roots, |vs|, 0)
    ensures Classes(vs, roots) && Classes(ts, roots)
    ensures forall a, b :: 0 <= a < |vs| && 0 <= b < |vs| ==> (Reachable(ts, [a], b) <==> Reachable(vs, [a], b))
    ensures Components(ts) == Components(vs)
  {
    KeptEdges(vs, ts);
    SoundMono(ts, vs, roots);
    UnitedClasses(vs, roots);
    AllUnitedUpTo(ts, roots);
    UnitedClasses(ts, roots);
    SameComponents(vs, ts, roots);
  }

  lemma AllUnitedUpTo<V, E(!new)>(ts: seq<Vertex<V, E>>, roots: seq<nat>)
    requires AllUnited(ts, roots)
    ensures UnitedUpTo(ts, roots, |ts|, 0)
  {
    forall v, k | 0 <= v < |ts| && 0 <= k < |ts[v].outs| && v < ts[v].outs[k].to < |ts|
      ensures roots[v] == roots[ts[v].outs[k].to]
    {
      assert HasEdge(ts, v, ts[v].outs[k].to);
    }
  }

  // Two graphs whose vertices share roots exactly alike have the same
  // reachability and the same components.
  lemma SameComponents<V, E(!new)>(vs: seq<Vertex<V, E>>, ts: seq<Vertex<V, E>>, roots: seq<nat>)
    requires Classes(vs, roots) && Classes(ts, roots)
    ensures forall a, b :: 0 <= a < |vs| && 0 <= b < |vs| ==> (Reachable(ts, [a], b) <==> Reachable(vs, [a], b))
    ensures Components(ts) == Components(vs)
  {
    forall a, b | 0 <= a < |vs| && 0 <= b < |vs| ensures Reachable(ts, [a], b) <==> Reachable(vs, [a], b) {
      assert Reachable(ts, [a], b) <==> roots[a] == roots[b];
    }
    forall a: nat | a < |vs| ensures Component(ts, a) == Component(vs, a) {
    }
    forall c | c in Components(ts) ensures c in Components(vs) {
      var a: nat :| a < |ts| && c == Component(ts, a);
    }
    forall c | c in Components(vs) ensures c in Components(ts) {
      var a: nat :| a < |vs| && c == Component(vs, a);
    }
  }

  // Each successful unite removed one set and added one edge (two records):
  // the forest has as many edges as vertices less components.
  lemma Counted<V, E(!new)>(ds: DisjointSet, vs: seq<Vertex<V, E>>, mst: Graph<V, E>)
    requires Growing(ds, vs, mst) && Classes(vs, Roots(ds.parent, ds.rank))
    ensures mst.mE == 2 * (|vs| - |Components(vs)|)
  {
    SetsAreComponents(vs, ds.parent, ds.rank);
  }

  // ---------------------------------------------------------------------------
  // The weighted overload.

  // The edge list kruskal collects: one entry per edge, from its lower end,
  // with the payload of that end's record.
  ghost predicate Offered<V, E(!new)>(es: seq<Edge<E>>, vs: seq<Vertex<V, E>>)
  {
    forall e :: e in es <==> e.from < e.to && HasRecord(vs, e.from, e.to, e.payload)
  }

  // The records of rows before u, and of row u before position j, that point
  // to a higher vertex are exactly the entries of es.
  ghost predicate CollectedUpTo<V, E(!new)>(es: seq<Edge<E>>, vs: seq<Vertex<V, E>>, u: nat, j: nat)
    requires u < |vs| ==> j <= |vs[u].outs|
  {
    forall e :: e in es <==>
      e.from < e.to && HasRecord(vs, e.from, e.to, e.payload)
      && (e.from < u || (e.from == u && u < |vs| && OutEdge(e.to, e.payload) in vs[u].outs[..j]))
  }

  // The collecting loops of the weighted kruskal.
  method Collect<V, E(!new)>(vs: seq<Vertex<V, E>>) returns (es: seq<Edge<E>>)
    ensures Offered(es, vs)
  {
    es := [];
    var u := 0;
    while u < |vs|
      invariant 0 <= u <= |vs| && CollectedUpTo(es, vs, u, 0)
    {
      es := CollectRow(vs, u, es);
      u := u + 1;
    }
  }

  method CollectRow<V, E(!new)>(vs: seq<Vertex<V, E>>, u: nat, es: seq<Edge<E>>) returns (es': seq<Edge<E>>)
    requires u < |vs| && CollectedUpTo(es, vs, u, 0)
    ensures CollectedUpTo(es', vs, u + 1, 0)
  {
    es' := es;
    var j := 0;
    while j < |vs[u].outs|
      invariant 0 <= j <= |vs[u].outs| && CollectedUpTo(es', vs, u, j)
    {
      var out := vs[u].outs[j];
      assert vs[u].outs[..j + 1] == vs[u].outs[..j] + [out];
      if u < out.to {
        es' := es' + [Edge(u, out.to, out.payload)];
      }
      j := j + 1;
    }
    assert vs[u].outs[..j] == vs[u].outs;
  }

  // The order std::sort leaves the edge list in: by weight.
  ghost predicate ByWeight<E(!new)>(es: seq<Edge<E>>, weight: E -> int)
  {
    forall i, j :: 0 <= i < j < |es| ==> weight(es[i].payload) <= weight(es[j].payload)
  }

  function Insert<E(!new)>(x: Edge<E>, es: seq<Edge<E>>, weight: E -> int): (r: seq<Edge<E>>)
    requires ByWeight(es, weight)
    ensures multiset(r) == multiset(es) + multiset{x} && ByWeight(r, weight)
  {
    if es == [] || weight(x.payload) <= weight(es[0].payload) then [x] + es
    else
      var rest := Insert(x, es[1..], weight);
      assert es == [es[0]] + es[1..];
      InsertAbove(x, es, rest, weight);
      [es[0]] + rest
  }

  // Nothing in the insertion into the tail of es weighs less than es[0].
  lemma InsertAbove<E(!new)>(x: Edge<E>, es: seq<Edge<E>>, rest: seq<Edge<E>>, weight: E -> int)
    requires es != [] && ByWeight(es, weight) && weight(es[0].payload) <= weight(x.payload)
    requires multiset(rest) == multiset(es[1..]) + multiset{x}
    ensures forall k :: 0 <= k < |rest| ==> weight(es[0].payload) <= weight(rest[k].payload)
  {
    forall k | 0 <= k < |rest| ensures weight(es[0].payload) <= weight(rest[k].payload) {
      assert rest[k] in multiset(rest);
      if rest[k] != x {
        assert rest[k] in es[1..];
        var j :| 0 <= j < |es[1..]| && es[1..][j] == rest[k];
        assert es[j + 1] == rest[k];
      }
    }
  }

  // The sort of the weighted kruskal: the same entries, by weight.
  function SortByWeight<E(!new)>(es: seq<Edge<E>>, weight: E -> int): (r: seq<Edge<E>>)
    ensures multiset(r) == multiset(es) && ByWeight(r, weight)
  {
    if es == [] then []
    else
      assert es == es[..|es| - 1] + [es[|es| - 1]];
      Insert(es[|es| - 1], SortByWeight(es[..|es| - 1], weight), weight)
  }

  // The edges of ts of weight at most bound.
  function LightOuts<E(!new)>(outs: seq<OutEdge<E>>, weight: E -> int, bound: int): (r: seq<OutEdge<E>>)
    ensures forall x :: x in r <==> x in outs && weight(x.payload) <= bound
  {
    if outs == [] then []
    else
      var rest := LightOuts(outs[1..], weight, bound);
      assert outs == [outs[0]] + outs[1..];
      if weight(outs[0].payload) <= bound then [outs[0]] + rest else rest
  }

  function Light<V, E(!new)>(ts: seq<Vertex<V, E>>, weight: E -> int, bound: int): (r: seq<Vertex<V, E>>)
    ensures |r| == |ts|
    ensures forall k :: 0 <= k < |ts| ==> r[k] == Vertex(ts[k].payload, LightOuts(ts[k].outs, weight, bound))
  {
    seq(|ts|, k requires 0 <= k < |ts| => Vertex(ts[k].payload, LightOuts(ts[k].outs, weight, bound)))
  }

  lemma LightEdge<V, E(!new)>(ts: seq<Vertex<V, E>>, weight: E -> int, bound: int, a: nat, b: nat, q: E)
    requires HasRecord(ts, a, b, q) && weight(q) <= bound
    ensures HasEdge(Light(ts, weight, bound), a, b)
  {
    var r := Light(ts, weight, bound);
    assert OutEdge(b, q) in r[a].outs;
    var i :| 0 <= i < |r[a].outs| && r[a].outs[i] == OutEdge(b, q);
    assert r[a].outs[i].to == b;
  }

  // Light edges of ts stay light edges of a graph with more records.
  lemma LightMono<V, E(!new)>(ts: seq<Vertex<V, E>>, ts2: seq<Vertex<V, E>>, weight: E -> int, bound: int)
    requires |ts2| == |ts|
    requires forall x: nat, y: nat, q: E :: HasRecord(ts, x, y, q) ==> HasRecord(ts2, x, y, q)
    ensures forall x: nat, y: nat :: HasEdge(Light(ts, weight, bound), x, y) ==> HasEdge(Light(ts2, weight, bound), x, y)
  {
    forall x: nat, y: nat | HasEdge(Light(ts, weight, bound), x, y) ensures HasEdge(Light(ts2, weight, bound), x, y) {
      var r := Light(ts, weight, bound);
      var i :| 0 <= i < |r[x].outs| && r[x].outs[i].to == y;
      var q := r[x].outs[i].payload;
      assert r[x].outs[i] in LightOuts(ts[x].outs, weight, bound);
      assert HasRecord(ts, x, y, q);
      LightEdge(ts2, weight, bound, x, y, q);
    }
  }

  // When every record of ts is light, its light edges are all its edges.
  lemma AllLight<V, E(!new)>(ts: seq<Vertex<V, E>>, weight: E -> int, bound: int)
    requires forall x: nat, y: nat, q: E :: HasRecord(ts, x, y, q) ==> weight(q) <= bound
    ensures forall x: nat, y: nat :: HasEdge(ts, x, y) ==> HasEdge(Light(ts, weight, bound), x, y)
  {
    forall x: nat, y: nat | HasEdge(ts, x, y) ensures HasEdge(Light(ts, weight, bound), x, y) {
      var i :| 0 <= i < |ts[x].outs| && ts[x].outs[i].to == y;
      var q := ts[x].outs[i].payload;
      assert ts[x].outs[i] == OutEdge(y, q);
      assert HasRecord(ts, x, y, q);
      LightEdge(ts, weight, bound, x, y, q);
    }
  }

  // Every record of ts weighs at most the last edge offered.
  ghost predicate Bounded<V, E(!new)>(ts: seq<Vertex<V, E>>, es: seq<Edge<E>>, weight: E -> int, i: nat)
    requires i <= |es|
  {
    forall x: nat, y: nat, q: E :: HasRecord(ts, x, y, q) ==> 0 < i && weight(q) <= weight(es[i - 1].payload)
  }

  // The ends of every edge offered so far are joined in ts by edges no
  // heavier than it.
  ghost predicate Closing<V, E(!new)>(ts: seq<Vertex<V, E>>, es: seq<Edge<E>>, weight: E -> int, i: nat)
    requires i <= |es|
  {
    forall k :: 0 <= k < i ==> Reachable(Light(ts, weight, weight(es[k].payload)), [es[k].from], es[k].to)
  }

  // The loop state of the weighted kruskal before entry i.
  ghost predicate Greedy<V, E(!new)>(ds: DisjointSet, vs: seq<Vertex<V, E>>, mst: Graph<V, E>, es: seq<Edge<E>>,
                               weight: E -> int, i: nat)
    reads ds, mst
  {
    Growing(ds, vs, mst) && Offered(es, vs) && ByWeight(es, weight) && i <= |es|
    && (forall k :: 0 <= k < i ==> Joined(Roots(ds.parent, ds.rank), es[k]))
    && Bounded(mst.vertices, es, weight, i) && Closing(mst.vertices, es, weight, i)
  }

  // kruskal for a weighted graph: the edges by weight.
  method KruskalWeighted<V, E(!new)>(g: Graph<V, E>, weight: E -> int) returns (mst: Graph<V, E>)
    requires g.Valid() && !g.directed
    ensures fresh(mst) && mst.Valid() && !mst.directed && Kept(g.vertices, mst.vertices)
    ensures forall a, b :: 0 <= a < |g.vertices| && 0 <= b < |g.vertices| ==>
      (Reachable(mst.vertices, [a], b) <==> Reachable(g.vertices, [a], b))
    ensures mst.mE == 2 * (|g.vertices| - |Components(g.vertices)|)
    ensures Components(mst.vertices) == Components(g.vertices)
    ensures forall a: nat, b: nat, q: E :: a < b && HasRecord(g.vertices, a, b, q) ==>
      Reachable(Light(mst.vertices, weight, weight(q)), [a], b)
  {
    var vs := g.vertices;
    var ds := new DisjointSet(PathSplitting, |vs|);
    var edges := Collect(vs);
    edges := SortCollected(vs, edges, weight);
    mst := g.StripEdges();
    GreedyStart(vs, mst.vertices, edges, weight);
    forall i | 0 <= i < |vs| ensures Roots(ds.parent, ds.rank)[i] == i {
      assert ds.RootOf(i) == i;
    }
    GrowingStart(vs, mst.vertices, Roots(ds.parent, ds.rank));
    var i := 0;
    while i < |edges|
      invariant 0 <= i <= |edges| && WellFormed(vs, false) && Greedy(ds, vs, mst, edges, weight, i)
    {
      ConsiderNext(ds, vs, mst, edges, weight, i);
      i := i + 1;
    }
    GreedyDone(vs, mst.vertices, Roots(ds.parent, ds.rank), edges, weight);
    Spanned(vs, mst.vertices, Roots(ds.parent, ds.rank));
    Counted(ds, vs, mst);
  }

  // std::sort over the collected edges.
  method SortCollected<V, E(!new)>(vs: seq<Vertex<V, E>>, es: seq<Edge<E>>, weight: E -> int) returns (r: seq<Edge<E>>)
    requires Offered(es, vs)
    ensures Offered(r, vs) && ByWeight(r, weight)
  {
    r := SortByWeight(es, weight);
    assert forall e :: e in r <==> e in multiset(es);
  }

  lemma GreedyStart<V, E(!new)>(vs: seq<Vertex<V, E>>, ts: seq<Vertex<V, E>>, es: seq<Edge<E>>, weight: E -> int)
    requires ts == Stripped(vs)
    ensures Bounded(ts, es, weight, 0) && Closing(ts, es, weight, 0)
  {
    assert forall a :: 0 <= a < |ts| ==> ts[a].outs == [];
  }

  // One iteration of the weighted loop.
  method ConsiderNext<V, E(!new)>(ds: DisjointSet, vs: seq<Vertex<V, E>>, mst: Graph<V, E>, es: seq<Edge<E>>,
                            weight: E -> int, i: nat)
    requires WellFormed(vs, false) && i < |es| && Greedy(ds, vs, mst, es, weight, i)
    modifies ds, mst
    ensures Greedy(ds, vs, mst, es, weight, i + 1)
  {
    var e := es[i];
    assert e in es;
    ghost var roots := Roots(ds.parent, ds.rank);
    ghost var ts := mst.vertices;
    OfferedInRange(vs, e);
    Consider(ds, vs, mst, e.from, e.to, e.payload);
    JoinedStep(es, roots, Roots(ds.parent, ds.rank), i);
    BoundedStep(ts, mst.vertices, es, weight, i);
    ClosingStep(ts, mst.vertices, es, weight, i);
  }

  lemma OfferedInRange<V, E(!new)>(vs: seq<Vertex<V, E>>, e: Edge<E>)
    requires InRange(vs) && e.from < |vs| && OutEdge(e.to, e.payload) in vs[e.from].outs
    ensures e.to < |vs|
  {
    var j :| 0 <= j < |vs[e.from].outs| && vs[e.from].outs[j] == OutEdge(e.to, e.payload);
  }

  lemma JoinedStep<E(!new)>(es: seq<Edge<E>>, r1: seq<nat>, r2: seq<nat>, i: nat)
    requires i < |es| && Coarser(r1, r2) && Joined(r2, es[i])
    requires forall k :: 0 <= k < i ==> Joined(r1, es[k])
    ensures forall k :: 0 <= k < i + 1 ==> Joined(r2, es[k])
  {
  }

  lemma BoundedStep<V, E(!new)>(ts: seq<Vertex<V, E>>, ts2: seq<Vertex<V, E>>, es: seq<Edge<E>>, weight: E -> int, i: nat)
    requires i < |es| && ByWeight(es, weight) && Bounded(ts, es, weight, i)
    requires forall x: nat, y: nat, q: E :: HasRecord(ts2, x, y, q) ==>
      HasRecord(ts, x, y, q) || (q == es[i].payload && ((x == es[i].from && y == es[i].to) || (x == es[i].to && y == es[i].from)))
    ensures Bounded(ts2, es, weight, i + 1)
  {
  }

  lemma ClosingStep<V, E(!new)>(ts: seq<Vertex<V, E>>, ts2: seq<Vertex<V, E>>, es: seq<Edge<E>>, weight: E -> int, i: nat)
    requires i < |es| && ByWeight(es, weight) && Bounded(ts, es, weight, i) && Closing(ts, es, weight, i)
    requires |ts2| == |ts|
    requires forall x: nat, y: nat, q: E :: HasRecord(ts, x, y, q) ==> HasRecord(ts2, x, y, q)
    requires HasRecord(ts2, es[i].from, es[i].to, es[i].payload) || (ts2 == ts && Reachable(ts, [es[i].from], es[i].to))
    ensures Closing(ts2, es, weight, i + 1)
  {
    var e := es[i];
    var bound := weight(e.payload);
    forall k | 0 <= k < i + 1 ensures Reachable(Light(ts2, weight, weight(es[k].payload)), [es[k].from], es[k].to) {
      if k < i {
        LightMono(ts, ts2, weight, weight(es[k].payload));
        ReachMono(Light(ts, weight, weight(es[k].payload)), Light(ts2, weight, weight(es[k].payload)), es[k].from, es[k].to);
      } else if HasRecord(ts2, e.from, e.to, e.payload) {
        LightEdge(ts2, weight, bound, e.from, e.to, e.payload);
        ReachEdge(Light(ts2, weight, bound), e.from, e.to);
      } else {
        AllLight(ts, weight, bound);
        ReachMono(ts, Light(ts, weight, bound), e.from, e.to);
      }
    }
  }

  // After the last entry: every edge is joined, and every edge of the graph
  // is closed in the forest by edges no heavier than it.
  lemma GreedyDone<V, E(!new)>(vs: seq<Vertex<V, E>>, ts: seq<Vertex<V, E>>, roots: seq<nat>, es: seq<Edge<E>>, weight: E -> int)
    requires |roots| == |vs| && Offered(es, vs)
    requires forall k :: 0 <= k < |es| ==> Joined(roots, es[k])
    requires Closing(ts, es, weight, |es|)
    ensures UnitedUpTo(vs, roots, |vs|, 0)
    ensures forall a: nat, b: nat, q: E :: a < b && HasRecord(vs, a, b, q) ==> Reachable(Light(ts, weight, weight(q)), [a], b)
  {
    forall v, k | 0 <= v < |vs| && 0 <= k < |vs[v].outs| && v < vs[v].outs[k].to < |vs|
      ensures roots[v] == roots[vs[v].outs[k].to]
    {
      var out := vs[v].outs[k];
      assert out in vs[v].outs;
      var e := Edge(v, out.to, out.payload);
      assert e in es;
      var m :| 0 <= m < |es| && es[m] == e;
      assert Joined(roots, es[m]);
    }
    forall a: nat, b: nat, q: E | a < b && HasRecord(vs, a, b, q) ensures Reachable(Light(ts, weight, weight(q)), [a], b) {
      var e := Edge(a, b, q);
      assert e in es;
      var m :| 0 <= m < |es| && es[m] == e;
    }
  }
}
