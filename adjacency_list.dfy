// The adjacency list: a class over the vertex sequence together with the two
// counters the library keeps (m_v, the number of vertices, and m_e, the number
// of out-edge records). Each operation runs the library's loops in place and is
// proved to reach the value that a function of AdjacencyOps or Contraction
// describes; the lemmas there say what those values mean.
module AdjacencyList {
  import opened Util
  import opened GraphTypes
  import opened AdjacencyOps
  import opened Contraction

  class Graph<V, E> {
    // The directivity is a template argument of the library, fixed per graph.
    const directed: bool
    var vertices: seq<Vertex<V, E>>
    var mV: nat
    var mE: nat

    // The counters agree with the storage.
    ghost predicate Counted()
      reads this
    {
      mV == |vertices| && mE == Records(vertices)
    }

    // The class invariant: counters in step, no loops, no multi-edges, every
    // target an existing vertex, and every record paired with its reverse
    // record when undirected.
    ghost predicate Valid()
      reads this
    {
      Counted() && WellFormed(vertices, directed)
    }

    // ---------------------------------------------------------------------------
    // Construction.

    constructor (directed: bool)
      ensures this.directed == directed && vertices == [] && Valid()
    {
      this.directed := directed;
      vertices := [];
      mV, mE := 0, 0;
    }

    // adjacency_list(n): n vertices with the given payload and no edges.
    constructor Sized(directed: bool, n: nat, payload: V)
      ensures this.directed == directed && Valid()
      ensures |vertices| == n && forall k :: 0 <= k < n ==> vertices[k] == Vertex(payload, [])
    {
      var vs := seq(n, _ => Vertex(payload, []));
      StrippedRecords(vs);
      this.directed := directed;
      vertices := vs;
      mV, mE := n, 0;
    }

    // The converting constructor behind to_directed and the undirected
    // to_undirected: storage and counters are taken over as they are.
    constructor Copy(directed: bool, rhs: Graph<V, E>)
      ensures this.directed == directed
      ensures vertices == rhs.vertices && mV == rhs.mV && mE == rhs.mE
    {
      this.directed := directed;
      vertices := rhs.vertices;
      mV, mE := rhs.mV, rhs.mE;
    }

    // ---------------------------------------------------------------------------
    // Vertices.

    function VertexSize(): (r: nat)
      reads this
      ensures Counted() ==> r == mV
    {
      |vertices|
    }

    function VertexEmpty(): (r: bool)
      reads this
      ensures r <==> vertices == []
    {
      |vertices| == 0
    }

    // V[index]: the vertex stored at that index.
    function VertexGet(index: nat): (r: Vertex<V, E>)
      reads this
      requires index < |vertices|
      ensures r == vertices[index]
    {
      vertices[index]
    }

    // vertex_emplace: appends a vertex (with whatever records it carries) and
    // returns its index, the old m_v.
    method VertexEmplace(payload: V, outs: seq<OutEdge<E>>) returns (index: nat)
      requires Counted()
      modifies this
      ensures index == old(|vertices|)
      ensures vertices == old(vertices) + [Vertex(payload, outs)] && Counted()
      ensures old(Valid()) && outs == [] ==> Valid()
      ensures old(Mirrored(vertices)) && outs == [] ==> Mirrored(vertices)
    {
      ghost var vs := vertices;
      RecordsAppend(vertices, Vertex(payload, outs));
      vertices := vertices + [Vertex(payload, outs)];
      mE := mE + |outs|;
      index := mV;
      mV := mV + 1;
      if WellFormed(vs, directed) && outs == [] {
        AppendIsolated(vs, directed, Vertex(payload, outs));
      }
    }

    // vertex_erase_simple: removes the vertex and its records only; records of
    // other vertices are left as they are.
    method VertexEraseSimple(index: nat) returns (r: bool)
      requires Counted() && index < |vertices|
      modifies this
      ensures r && vertices == RemoveVertex(old(vertices), index) && Counted()
    {
      var outDegree := |vertices[index].outs|;
      RecordsRemove(vertices, index);
      vertices := vertices[..index] + vertices[index + 1..];
      mE := mE - outDegree;
      mV := mV - 1;
      r := true;
    }

    // vertex_erase: removes the vertex, then scans every list backwards,
    // dropping records to it and decrementing the targets above it.
    method VertexErase(index: nat) returns (r: bool)
      requires Valid() && index < |vertices|
      modifies this
      ensures r && vertices == EraseVertex(old(vertices), index) && Valid()
      ensures old(Mirrored(vertices)) ==> Mirrored(vertices)
    {
      ghost var vs := vertices;
      r := VertexEraseSimple(index);
      ShiftRows(index);
      assert vertices == EraseVertex(vs, index);
      EraseVertexEffect(vs, directed, index);
      if Mirrored(vs) {
        EraseVertexMirrored(vs, index);
      }
    }

    // The second half of vertex_erase: every list is scanned in turn.
    method ShiftRows(index: nat)
      requires Counted()
      modifies this
      ensures Counted() && |vertices| == |old(vertices)|
      ensures forall j :: 0 <= j < |vertices| ==> vertices[j] == Vertex(old(vertices)[j].payload, ShiftOuts(old(vertices)[j].outs, index))
    {
      ghost var rest := vertices;
      var k := 0;
      while k < |vertices|
        invariant 0 <= k <= |vertices| == |rest|
        invariant forall j :: 0 <= j < k ==> vertices[j] == Vertex(rest[j].payload, ShiftOuts(rest[j].outs, index))
        invariant forall j :: k <= j < |vertices| ==> vertices[j] == rest[j]
        invariant Counted()
      {
        var outs, erased := ShiftList(vertices[k].outs, index);
        RecordsUpdate(vertices, k, Vertex(vertices[k].payload, outs));
        vertices := vertices[k := Vertex(vertices[k].payload, outs)];
        mE := mE - erased;
        k := k + 1;
      }
    }

    // The backward scan of vertex_erase over one list, without the `++i` that
    // follows an erasure in the library: records to index are dropped and
    // targets above it decremented. Also returns how many records were dropped.
    static method ShiftList(outs: seq<OutEdge<E>>, index: nat) returns (r: seq<OutEdge<E>>, erased: nat)
      ensures r == ShiftOuts(outs, index) && |r| + erased == |outs|
    {
      r := outs;
      erased := 0;
      ScanCorrectedShifts(outs, |outs|, index);
      assert outs[..|outs|] == outs && outs[|outs|..] == [];
      var i := |r|;
      while i > 0
        invariant 0 <= i <= |r| && |r| + erased == |outs|
        invariant ScanCorrected(r, i, index) == ShiftOuts(outs, index)
      {
        i := i - 1;
        if r[i].to == index {
          r := r[..i] + r[i + 1..];
          erased := erased + 1;
        } else if r[i].to > index {
          r := r[i := OutEdge(r[i].to - 1, r[i].payload)];
        }
      }
    }

    // ---------------------------------------------------------------------------
    // Edge counts.

    // edge_size: every record in a directed graph, half of them in an undirected one.
    function EdgeSize(): nat
      reads this
    {
      if directed then mE else mE / 2
    }

    function EdgeEmpty(): bool
      reads this
    {
      EdgeSize() == 0
    }

    // edge_max_size: n(n-1) ordered pairs, or half as many unordered ones.
    function EdgeMaxSize(): nat
      reads this
    {
      var n := |vertices|;
      if n == 0 then 0 else if directed then n * (n - 1) else n * (n - 1) / 2
    }

    // What the counts mean: edge_size is the number of adjacent ordered pairs
    // (of unordered pairs when undirected), it never exceeds edge_max_size, and
    // edge_empty holds exactly when no two vertices are adjacent.
    lemma EdgeSizeCounts()
      requires Valid()
      ensures directed ==> EdgeSize() == |EdgePairs(vertices)|
      ensures !directed ==> 2 * EdgeSize() == |EdgePairs(vertices)|
      ensures EdgeSize() <= EdgeMaxSize()
      ensures EdgeEmpty() <==> forall a: nat, b: nat :: !HasEdge(vertices, a, b)
    {
      EdgePairsCard(vertices);
      if !directed {
        UndirectedRecordsEven(vertices);
      }
      RecordsMax(vertices);
      RecordsZero(vertices);
    }

    // ---------------------------------------------------------------------------
    // Finding edges.

    // edge_get_simple: the first record from -> to, read without normalising.
    method EdgeGetSimple(from: nat, to: nat) returns (r: Option<OutEdge<E>>)
      requires from < |vertices| && to < |vertices|
      ensures r.None? <==> !HasEdge(vertices, from, to)
      ensures r.Some? ==> FirstTo(vertices[from].outs, to).Some? && r.value == vertices[from].outs[FirstTo(vertices[from].outs, to).value]
    {
      var edges := vertices[from].outs;
      var i := 0;
      while i < |edges|
        invariant 0 <= i <= |edges|
        invariant forall j :: 0 <= j < i ==> edges[j].to != to
      {
        if edges[i].to == to {
          assert FirstTo(edges, to) == Some(i);
          return Some(edges[i]);
        }
        i := i + 1;
      }
      return None;
    }

    // edge_get: an undirected graph looks the pair up with the lower index
    // first, so that edge_get(1, 0) and edge_get(0, 1) find the same record.
    method EdgeGet(from: nat, to: nat) returns (r: Option<OutEdge<E>>)
      requires Valid() && from < |vertices| && to < |vertices|
      ensures r.Some? <==> HasEdge(vertices, from, to)
      ensures r.Some? ==> r.value.to == (if !directed && from > to then from else to)
      ensures r.Some? ==>
        var (f, t) := if !directed && from > to then (to, from) else (from, to);
        FirstTo(vertices[f].outs, t).Some? && r.value == vertices[f].outs[FirstTo(vertices[f].outs, t).value]
    {
      var f, t := from, to;
      if !directed && f > t {
        f, t := t, f;
      }
      r := EdgeGetSimple(f, t);
    }

    // ---------------------------------------------------------------------------
    // Inserting edges.

    // edge_emplace_simple_nonexistent: appends a record the caller knows is absent.
    method EdgeEmplaceSimpleNonexistent(from: nat, to: nat, payload: E) returns (r: bool)
      requires Counted() && from < |vertices| && to < |vertices| && from != to
      requires !HasEdge(vertices, from, to)
      modifies this
      ensures r && vertices == AddRecord(old(vertices), from, to, payload) && Counted()
    {
      vertices := vertices[from := Vertex(vertices[from].payload, vertices[from].outs + [OutEdge(to, payload)])];
      mE := mE + 1;
      r := true;
    }

    // edge_emplace_simple: appends the record from -> to unless there is one.
    method EdgeEmplaceSimple(from: nat, to: nat, payload: E) returns (r: bool)
      requires Counted() && from < |vertices| && to < |vertices| && from != to
      modifies this
      ensures (vertices, r) == EmplaceSimple(old(vertices), from, to, payload) && Counted()
      ensures Simple(old(vertices)) ==> Simple(vertices)
    {
      ghost var vs := vertices;
      var e := EdgeGetSimple(from, to);
      if e.None? {
        r := EdgeEmplaceSimpleNonexistent(from, to, payload);
      } else {
        r := false;
      }
      if Simple(vs) {
        EmplaceSimplePreservesSimple(vs, from, to, payload);
      }
    }

    // edge_emplace: an undirected graph stores to -> from and from -> to; both
    // insertions report the same, and the first report is returned.
    method EdgeEmplace(from: nat, to: nat, payload: E) returns (r: bool)
      requires Valid() && from < |vertices| && to < |vertices| && from != to
      modifies this
      ensures (vertices, r) == Emplace(old(vertices), directed, from, to, payload) && Valid()
      ensures r <==> !old(HasEdge(vertices, from, to))
      ensures !directed && old(Mirrored(vertices)) ==> Mirrored(vertices)
    {
      ghost var vs := vertices;
      EmplaceEffect(vs, directed, from, to, payload);
      if !directed && Mirrored(vs) {
        EmplaceMirrored(vs, from, to, payload);
      }
      if directed {
        r := EdgeEmplaceSimple(from, to, payload);
      } else {
        var existed1 := EdgeEmplaceSimple(to, from, payload);
        var existed2 := EdgeEmplaceSimple(from, to, payload);
        assert existed1 == existed2;
        r := existed1;
      }
    }

    // ---------------------------------------------------------------------------
    // Removing edges.

    // edge_erase_simple: removes the first record from -> to, if there is one.
    method EdgeEraseSimple(from: nat, to: nat) returns (r: bool)
      requires Counted() && from < |vertices| && to < |vertices|
      modifies this
      ensures (vertices, r) == EraseSimple(old(vertices), from, to) && Counted()
    {
      var edges := vertices[from].outs;
      var i := 0;
      while i < |edges|
        invariant 0 <= i <= |edges|
        invariant forall j :: 0 <= j < i ==> edges[j].to != to
      {
        if edges[i].to == to {
          assert FirstTo(edges, to) == Some(i);
          ghost var res := EraseSimple(vertices, from, to);
          vertices := vertices[from := Vertex(vertices[from].payload, edges[..i] + edges[i + 1..])];
          assert vertices == res.0;
          mE := mE - 1;
          return true;
        }
        i := i + 1;
      }
      assert vertices[from := Vertex(vertices[from].payload, edges)] == vertices;
      return false;
    }

    // edge_erase: an undirected graph removes both records of the edge.
    method EdgeErase(from: nat, to: nat) returns (r: bool)
      requires Valid() && from < |vertices| && to < |vertices|
      modifies this
      ensures (vertices, r) == Erase(old(vertices), directed, from, to) && Valid()
      ensures r <==> old(HasEdge(vertices, from, to))
      ensures forall a: nat, b: nat :: HasEdge(vertices, a, b) <==>
        old(HasEdge(vertices, a, b)) && !(a == from && b == to) && !(!directed && a == to && b == from)
      ensures !directed && old(Mirrored(vertices)) ==> Mirrored(vertices)
    {
      EraseEffect(vertices, directed, from, to);
      if !directed && Mirrored(vertices) {
        EraseMirrored(vertices, from, to);
      }
      if directed || from == to {
        r := EdgeEraseSimple(from, to);
      } else {
        assert HasEdge(vertices, from, to) == HasEdge(vertices, to, from);
        var removed := EdgeEraseSimple(from, to);
        if removed {
          var _ := EdgeEraseSimple(to, from);
        }
        r := removed;
      }
    }

    // ---------------------------------------------------------------------------
    // Degrees.

    // in_degree: a directed graph counts the vertices holding a record to index;
    // an undirected graph answers with the out-degree, which is the same number.
    method InDegree(index: nat) returns (r: nat)
      requires Valid()
      requires !directed ==> index < |vertices|
      ensures r == InCount(vertices, |vertices|, index)
      ensures r == |InNeighbours(vertices, |vertices|, index)|
    {
      InCountCounts(vertices, |vertices|, index);
      if directed {
        r := 0;
        var k := 0;
        while k < |vertices|
          invariant 0 <= k <= |vertices|
          invariant r == InCount(vertices, k, index)
        {
          r := r + if HasEdgeTo(vertices[k], index) then 1 else 0;
          k := k + 1;
        }
      } else {
        r := OutDegree(index);
        UndirectedInDegree(vertices, index);
      }
    }

    // out_degree: the length of the vertex's list, which without multi-edges is
    // its number of neighbours.
    function OutDegree(index: nat): (r: nat)
      reads this
      requires Valid() && index < |vertices|
      ensures r == |OutNeighbours(vertices, index)|
    {
      OutDegreeCounts(vertices, index);
      GraphTypes.OutDegree(vertices[index])
    }

    // degree: only for undirected graphs, where in- and out-degree agree.
    function Degree(index: nat): (r: nat)
      reads this
      requires Valid() && !directed && index < |vertices|
      ensures r == |OutNeighbours(vertices, index)| && r == InCount(vertices, |vertices|, index)
    {
      UndirectedInDegree(vertices, index);
      OutDegree(index)
    }

    // ---------------------------------------------------------------------------
    // Conversions.

    // strip_edges() const&: a new graph with the same vertex payloads and no edges.
    method StripEdges() returns (g: Graph<V, E>)
      requires Valid()
      ensures fresh(g) && g.directed == directed && g.Valid()
      ensures g.vertices == Stripped(vertices) && Mirrored(g.vertices)
    {
      g := PayloadsOnly(directed);
    }

    // The loop strip_edges() const& and to_undirected() const& begin with: a new
    // graph of the given directivity with one edgeless vertex per vertex.
    method PayloadsOnly(dir: bool) returns (g: Graph<V, E>)
      ensures fresh(g) && g.directed == dir && g.Valid()
      ensures g.vertices == Stripped(vertices) && Mirrored(g.vertices)
    {
      g := new Graph(dir);
      var k := 0;
      while k < |vertices|
        invariant 0 <= k <= |vertices|
        invariant fresh(g) && g.directed == dir && g.Valid()
        invariant |g.vertices| == k && forall j :: 0 <= j < k ==> g.vertices[j] == Vertex(vertices[j].payload, [])
      {
        var _ := g.VertexEmplace(vertices[k].payload, []);
        k := k + 1;
      }
    }

    // strip_edges() &&: clears every list in place; m_e ends at zero.
    method StripEdgesMove()
      requires Counted()
      modifies this
      ensures vertices == Stripped(old(vertices)) && mE == 0 && Valid()
      ensures Mirrored(vertices)
    {
      ghost var vs := vertices;
      var k := 0;
      while k < |vertices|
        invariant 0 <= k <= |vertices| == |vs|
        invariant forall j :: 0 <= j < k ==> vertices[j] == Vertex(vs[j].payload, [])
        invariant forall j :: k <= j < |vertices| ==> vertices[j] == vs[j]
        invariant Counted()
      {
        var diff := |vertices[k].outs|;
        RecordsUpdate(vertices, k, Vertex(vertices[k].payload, []));
        vertices := vertices[k := Vertex(vertices[k].payload, [])];
        mE := mE - diff;
        k := k + 1;
      }
      assert vertices == Stripped(vs);
    }

    // to_directed: the same storage, read as a directed graph. Each undirected
    // edge becomes the two directed edges its records already are.
    method ToDirected() returns (g: Graph<V, E>)
      requires Valid()
      ensures fresh(g) && g.directed && g.Valid()
      ensures g.vertices == vertices && g.mE == mE
    {
      g := new Graph.Copy(true, this);
    }

    // to_undirected() const&: for a directed graph, a new graph with the same
    // vertex payloads into which every edge is emplaced as an undirected edge,
    // in iteration order.
    method ToUndirected() returns (g: Graph<V, E>)
      requires Valid()
      ensures fresh(g) && !g.directed && g.Valid()
      ensures g.vertices == if directed then ToUndirectedCopy(vertices) else vertices
      ensures directed || Mirrored(vertices) ==> Mirrored(g.vertices)
    {
      if !directed {
        g := new Graph.Copy(false, this);
      } else {
        g := UndirectedCopy();
      }
    }

    // The directed case of to_undirected() const&.
    method UndirectedCopy() returns (g: Graph<V, E>)
      requires Valid() && directed
      ensures fresh(g) && !g.directed && g.Valid()
      ensures g.vertices == ToUndirectedCopy(vertices) && Mirrored(g.vertices)
    {
      var vs := vertices;
      g := PayloadsOnly(false);
      ghost var base := g.vertices;
      var v := 0;
      while v < |vs|
        invariant 0 <= v <= |vs|
        invariant fresh(g) && !g.directed && g.Valid()
        invariant g.vertices == CopiedRows(base, vs, v)
      {
        CopiedRowsNext(base, vs, v);
        g.EmplaceRow(v, vs[v].outs);
        v := v + 1;
      }
      ToUndirectedCopyRecords(vs);
    }

    // The inner loop of to_undirected() const&: every record of one vertex of
    // the directed graph emplaced into this undirected graph.
    method EmplaceRow(v: nat, outs: seq<OutEdge<E>>)
      requires Valid() && !directed && Joinable(RowEdges(v, outs), |vertices|)
      modifies this
      ensures Valid() && |vertices| == old(|vertices|)
      ensures vertices == UndirectedFold(old(vertices), RowEdges(v, outs))
    {
      ghost var start := vertices;
      PrefixFoldEnds(start, v, outs);
      var j := 0;
      while j < |outs|
        invariant 0 <= j <= |outs|
        invariant Valid() && vertices == PrefixFold(start, v, outs, j)
      {
        PrefixFoldNext(start, v, outs, j);
        var _ := EdgeEmplace(v, outs[j].to, outs[j].payload);
        j := j + 1;
      }
    }

    // to_undirected() &&: the records are moved into an undirected graph, which
    // then adds the missing reverse record of every record, vertex by vertex.
    method ToUndirectedMove() returns (g: Graph<V, E>)
      requires Valid()
      ensures fresh(g) && !g.directed && g.Valid()
      ensures g.vertices == if directed then AdjacencyOps.ToUndirectedMove(vertices) else vertices
    {
      g := new Graph.Copy(false, this);
      if !directed {
        return;
      }
      ghost var vs := vertices;
      ghost var target := AdjacencyOps.ToUndirectedMove(vs);
      var v := 0;
      while v < |g.vertices|
        invariant 0 <= v <= |g.vertices| == |vs|
        invariant fresh(g) && !g.directed && g.Counted() && Simple(g.vertices)
        invariant MoveFold(g.vertices, v) == target
      {
        g.AddReverseRecords(v);
        v := v + 1;
      }
      ToUndirectedMoveValid(vs);
    }

    // The inner loop of to_undirected() &&: edge_emplace_simple(to, v) for every
    // record v -> to.
    method AddReverseRecords(v: nat)
      requires Counted() && Simple(vertices) && v < |vertices|
      modifies this
      ensures Counted() && Simple(vertices)
      ensures vertices == RowFold(old(vertices), v, old(vertices)[v].outs)
    {
      ghost var start := vertices;
      var outs := vertices[v].outs;
      assert outs[0..] == outs;
      var j := 0;
      while j < |outs|
        invariant 0 <= j <= |outs|
        invariant Counted() && Simple(vertices) && |vertices| == |start|
        invariant vertices[v].outs == outs
        invariant RowFold(vertices, v, outs[j..]) == RowFold(start, v, outs)
      {
        assert outs[j..][0] == outs[j] && outs[j..][1..] == outs[j + 1..];
        assert HasEdge(vertices, v, outs[j].to);
        var _ := EdgeEmplaceSimple(outs[j].to, v, outs[j].payload);
        j := j + 1;
      }
      assert outs[j..] == [];
    }

    // ---------------------------------------------------------------------------
    // Rewriting the lists.

    // transform_outs: every record's target becomes f of it.
    method TransformOuts(f: nat -> nat)
      requires Counted()
      modifies this
      ensures vertices == MapTargets(old(vertices), f) && Counted()
    {
      ghost var vs := vertices;
      var k := 0;
      while k < |vertices|
        invariant 0 <= k <= |vertices| == |vs|
        invariant mV == |vs| && mE == Records(vs)
        invariant forall j :: 0 <= j < k ==> vertices[j] == MapTargets(vs, f)[j]
        invariant forall j :: k <= j < |vertices| ==> vertices[j] == vs[j]
      {
        var outs := vertices[k].outs;
        var i := 0;
        while i < |outs|
          invariant 0 <= i <= |outs| == |vs[k].outs|
          invariant forall j :: 0 <= j < i ==> outs[j] == OutEdge(f(vs[k].outs[j].to), vs[k].outs[j].payload)
          invariant forall j :: i <= j < |outs| ==> outs[j] == vs[k].outs[j]
        {
          outs := outs[i := OutEdge(f(outs[i].to), outs[i].payload)];
          i := i + 1;
        }
        assert outs == MapOuts(vs[k].outs, f);
        vertices := vertices[k := Vertex(vertices[k].payload, outs)];
        k := k + 1;
      }
      assert vertices == MapTargets(vs, f);
      TransformOutsEffect(vs, f);
    }

    // sort_edges: every list sorted by target.
    method SortEdges()
      requires Counted()
      modifies this
      ensures vertices == SortedRows(old(vertices)) && Counted()
      ensures old(Valid()) ==> Valid()
      ensures old(Mirrored(vertices)) ==> Mirrored(vertices)
    {
      ghost var vs := vertices;
      var k := 0;
      while k < |vertices|
        invariant 0 <= k <= |vertices| == |vs|
        invariant mV == |vs| && mE == Records(vs)
        invariant forall j :: 0 <= j < k ==> vertices[j] == SortedRows(vs)[j]
        invariant forall j :: k <= j < |vertices| ==> vertices[j] == vs[j]
      {
        vertices := vertices[k := Vertex(vertices[k].payload, SortByTarget(vertices[k].outs))];
        k := k + 1;
      }
      assert vertices == SortedRows(vs);
      SortEdgesEffect(vs, directed);
      if Mirrored(vs) {
        SortMirrored(vs);
      }
    }

    // ---------------------------------------------------------------------------
    // Contraction.

    // The first block of contract: u_connectivity marks the targets of u's
    // records other than its record to v, which is removed.
    static method Neighbourhood(outs: seq<OutEdge<E>>, v: nat, n: nat) returns (conn: seq<bool>, rem: seq<OutEdge<E>>, found: bool)
      requires forall i :: 0 <= i < |outs| ==> outs[i].to < n
      ensures found == AnyTo(outs, v)
      ensures rem == RemoveFirstTo(outs, v) && |rem| + (if found then 1 else 0) == |outs|
      ensures |conn| == n && forall t :: 0 <= t < n ==> conn[t] == AnyTo(rem, t)
    {
      conn := seq(n, _ => false);
      var k := 0;
      while k < |outs| && outs[k].to != v
        invariant 0 <= k <= |outs| && |conn| == n
        invariant forall j :: 0 <= j < k ==> outs[j].to != v
        invariant forall t :: 0 <= t < n ==> conn[t] == AnyTo(outs[..k], t)
      {
        assert outs[..k + 1] == outs[..k] + [outs[k]];
        MarkTarget(outs[..k], outs[k], conn);
        conn := conn[outs[k].to := true];
        k := k + 1;
      }
      if k == |outs| {
        assert outs[..k] == outs;
        found, rem := false, outs;
      } else {
        assert FirstTo(outs, v) == Some(k);
        found := true;
        conn := MarkTargets(outs[..k], outs[k + 1..], conn);
        rem := outs[..k] + outs[k + 1..];
      }
    }

    // Marks the targets of the records xs in a vector that marks those of pre.
    static method MarkTargets(ghost pre: seq<OutEdge<E>>, xs: seq<OutEdge<E>>, conn: seq<bool>) returns (r: seq<bool>)
      requires forall i :: 0 <= i < |xs| ==> xs[i].to < |conn|
      requires forall t :: 0 <= t < |conn| ==> conn[t] == AnyTo(pre, t)
      ensures |r| == |conn| && forall t :: 0 <= t < |r| ==> r[t] == AnyTo(pre + xs, t)
    {
      r := conn;
      var j := 0;
      assert pre + xs[..0] == pre;
      while j < |xs|
        invariant j <= |xs| && |r| == |conn|
        invariant forall t :: 0 <= t < |r| ==> r[t] == AnyTo(pre + xs[..j], t)
      {
        assert pre + xs[..j + 1] == pre + xs[..j] + [xs[j]];
        MarkTarget(pre + xs[..j], xs[j], r);
        r := r[xs[j].to := true];
        j := j + 1;
      }
      assert xs[..j] == xs;
    }

    // The relabelling loops of contract for one list other than u's: returns
    // the new list and the number of records erased.
    static method RelabelOuts(outs: seq<OutEdge<E>>, u: nat, v: nat) returns (r: seq<OutEdge<E>>, erased: nat)
      ensures r == RelabelRow(outs, u, v, false)
      ensures |r| + erased == |outs|
    {
      var i, found;
      r, i, found := RelabelUntilFirst(outs, u, v);
      var tail;
      tail, erased := RelabelAfterFirst(r[i..], u, v);
      if i == |outs| {
        assert outs[i..] == [] && tail == [];
      }
      r := r[..i] + tail;
    }

    // The first inner loop of contract's relabelling: targets are renamed up to
    // and including the first record to u or v, which becomes a record to u.
    // Returns the list, the position after that record (or the end) and whether
    // it was met.
    static method RelabelUntilFirst(outs: seq<OutEdge<E>>, u: nat, v: nat) returns (r: seq<OutEdge<E>>, i: nat, found: bool)
      ensures i <= |r| == |outs| && r[i..] == outs[i..]
      ensures r[..i] + RelabelRow(outs[i..], u, v, found) == RelabelRow(outs, u, v, false)
      ensures i < |outs| ==> found
    {
      r := outs;
      i := 0;
      found := false;
      while i < |r| && !found
        invariant UntilFirst(outs, r, i, found, u, v)
      {
        var x := r[i];
        var y := if x.to == u || x.to == v then OutEdge(u, x.payload) else OutEdge(Shift(x.to, v), x.payload);
        UntilFirstStep(outs, r, i, u, v);
        r := r[i := y];
        found := x.to == u || x.to == v;
        i := i + 1;
      }
    }

    // The second inner loop of contract's relabelling, on the records after the
    // first one to u or v: a further record to u or v is erased, every other
    // target is renamed. Also returns how many records were erased.
    static method RelabelAfterFirst(rest: seq<OutEdge<E>>, u: nat, v: nat) returns (r: seq<OutEdge<E>>, erased: nat)
      ensures r == RelabelRow(rest, u, v, true) && |r| + erased == |rest|
    {
      r := rest;
      erased := 0;
      var i := 0;
      AfterFirstStart(rest, u, v);
      while i < |r|
        invariant AfterFirst(rest, r, i, erased, u, v)
        decreases |r| - i
      {
        var x := r[i];
        if x.to == u || x.to == v {
          AfterFirstDrop(rest, r, i, erased, u, v);
          r := r[..i] + r[i + 1..];
          erased := erased + 1;
        } else {
          AfterFirstRename(rest, r, i, erased, u, v);
          r := r[i := OutEdge(Shift(x.to, v), x.payload)];
          i := i + 1;
        }
      }
      AfterFirstDone(rest, r, erased, u, v);
    }

    // The last loop of contract: u's records renamed.
    static method RenameList(outs: seq<OutEdge<E>>, v: nat) returns (r: seq<OutEdge<E>>)
      ensures r == RenameOuts(outs, v)
    {
      r := outs;
      var i := 0;
      while i < |r|
        invariant 0 <= i <= |r| == |outs|
        invariant forall j :: 0 <= j < i ==> r[j] == OutEdge(Shift(outs[j].to, v), outs[j].payload)
        invariant forall j :: i <= j < |r| ==> r[j] == outs[j]
      {
        r := r[i := OutEdge(Shift(r[i].to, v), r[i].payload)];
        i := i + 1;
      }
    }

    // contract(u, v): the higher-numbered of the two vertices is merged into
    // the lower-numbered one and removed; the result tells whether they were
    // adjacent.
    method Contract(u0: nat, v0: nat) returns (r: bool)
      requires Valid() && u0 < |vertices| && v0 < |vertices| && u0 != v0
      modifies this
      ensures vertices == Contracted(old(vertices), if u0 < v0 then u0 else v0, if u0 < v0 then v0 else u0)
      ensures r <==> old(HasEdge(vertices, u0, v0) || HasEdge(vertices, v0, u0))
      ensures Valid()
    {
      var u, v := u0, v0;
      if u > v {
        u, v := v, u;
      }
      ghost var vs := vertices;
      r := ContractOrdered(u, v);
      ContractEffect(vs, directed, u, v);
    }

    // contract with u < v: the steps of the library, in order.
    method ContractOrdered(u: nat, v: nat) returns (r: bool)
      requires Valid() && u < v < |vertices|
      modifies this
      ensures vertices == Contracted(old(vertices), u, v) && Counted()
      ensures r <==> old(HasEdge(vertices, u, v) || HasEdge(vertices, v, u))
    {
      ghost var vs := vertices;
      var conn, uRem, hasUv := DropRecordTo(u, v);
      assert DistinctTargets(vs[v].outs) && forall i :: 0 <= i < |vs[v].outs| ==> vs[v].outs[i].to < |vs|;
      var hasVu := AbsorbList(u, vertices[v].outs, conn, uRem);
      ghost var merged := vertices;
      assert merged == vs[u := Vertex(vs[u].payload, MergedOuts(vs, u, v))];
      var _ := VertexEraseSimple(v);
      ghost var rest := vertices;
      RelabelOthers(u, v);
      RenameOwn(u, v);
      ContractedSteps(vs, u, v, rest, vertices);
      assert HasEdge(vs, u, v) == AnyTo(vs[u].outs, v) && HasEdge(vs, v, u) == AnyTo(vs[v].outs, u);
      r := hasUv || hasVu;
    }

    // The first block of contract: u's record to v is erased (its presence is
    // reported) and the u_connectivity vector of the rest of u's list is built.
    method DropRecordTo(u: nat, v: nat) returns (conn: seq<bool>, uRem: seq<OutEdge<E>>, hasUv: bool)
      requires Valid() && u < |vertices| && v < |vertices|
      modifies this
      ensures Counted() && uRem == RemoveFirstTo(old(vertices)[u].outs, v)
      ensures vertices == old(vertices)[u := Vertex(old(vertices)[u].payload, uRem)]
      ensures hasUv == AnyTo(old(vertices)[u].outs, v)
      ensures |conn| == |vertices| && forall t :: 0 <= t < |vertices| ==> conn[t] == AnyTo(uRem, t)
    {
      assert forall i :: 0 <= i < |vertices[u].outs| ==> vertices[u].outs[i].to < |vertices|;
      conn, uRem, hasUv := Neighbourhood(vertices[u].outs, v, |vertices|);
      RecordsUpdate(vertices, u, Vertex(vertices[u].payload, uRem));
      vertices := vertices[u := Vertex(vertices[u].payload, uRem)];
      if hasUv {
        mE := mE - 1;
      }
    }

    // The last loop of contract: u's own list renamed.
    method RenameOwn(u: nat, v: nat)
      requires Counted() && u < |vertices|
      modifies this
      ensures Counted()
      ensures vertices == old(vertices)[u := Vertex(old(vertices)[u].payload, RenameOuts(old(vertices)[u].outs, v))]
    {
      var renamed := RenameList(vertices[u].outs, v);
      assert |renamed| == |vertices[u].outs|;
      RecordsUpdate(vertices, u, Vertex(vertices[u].payload, renamed));
      vertices := vertices[u := Vertex(vertices[u].payload, renamed)];
    }

    // The merge loop of contract: every record of v's list (vOuts) that points
    // neither at u nor at a target u already has (conn, the u_connectivity
    // vector over u's list uRem) is emplaced at u. Returns whether v's list
    // holds a record to u.
    method AbsorbList(u: nat, vOuts: seq<OutEdge<E>>, conn: seq<bool>, ghost uRem: seq<OutEdge<E>>) returns (hasVu: bool)
      requires Counted() && u < |vertices| && vertices[u].outs == uRem
      requires |conn| == |vertices| && forall t :: 0 <= t < |vertices| ==> conn[t] == AnyTo(uRem, t)
      requires DistinctTargets(vOuts) && forall i :: 0 <= i < |vOuts| ==> vOuts[i].to < |vertices|
      modifies this
      ensures Counted()
      ensures vertices == old(vertices)[u := Vertex(old(vertices)[u].payload, uRem + Absorbed(vOuts, uRem, u))]
      ensures hasVu == AnyTo(vOuts, u)
    {
      ghost var vs1 := vertices;
      hasVu := false;
      assert vOuts[..0] == [] && Absorbed(vOuts[..0], uRem, u) == [] && uRem + [] == uRem;
      assert vertices == vs1[u := Vertex(vs1[u].payload, uRem + Absorbed(vOuts[..0], uRem, u))];
      var m := 0;
      while m < |vOuts|
        invariant 0 <= m <= |vOuts|
        invariant Counted() && |vertices| == |vs1|
        invariant vertices == vs1[u := Vertex(vs1[u].payload, uRem + Absorbed(vOuts[..m], uRem, u))]
        invariant hasVu == AnyTo(vOuts[..m], u)
      {
        var x := vOuts[m];
        AbsorbStep(vOuts, m, uRem, u);
        hasVu := hasVu || x.to == u;
        if x.to != u && !conn[x.to] {
          assert HasEdge(vertices, u, x.to) == AnyTo(vertices[u].outs, x.to);
          var _ := EdgeEmplaceSimpleNonexistent(u, x.to, x.payload);
        }
        m := m + 1;
      }
      assert vOuts[..m] == vOuts;
    }

    // The relabelling loop of contract over every list but u's.
    method RelabelOthers(u: nat, v: nat)
      requires Counted() && u < |vertices|
      modifies this
      ensures Counted() && |vertices| == old(|vertices|) && vertices[u] == old(vertices)[u]
      ensures forall j :: 0 <= j < |vertices| && j != u ==>
        vertices[j] == Vertex(old(vertices)[j].payload, RelabelRow(old(vertices)[j].outs, u, v, false))
    {
      ghost var rest := vertices;
      var i := 0;
      while i < |vertices|
        invariant 0 <= i <= |vertices| == |rest|
        invariant Counted()
        invariant forall j :: 0 <= j < i && j != u ==>
          vertices[j] == Vertex(rest[j].payload, RelabelRow(rest[j].outs, u, v, false))
        invariant forall j :: 0 <= j < |vertices| && (i <= j || j == u) ==> vertices[j] == rest[j]
      {
        if i != u {
          var outs, erased := RelabelOuts(vertices[i].outs, u, v);
          RecordsUpdate(vertices, i, Vertex(vertices[i].payload, outs));
          vertices := vertices[i := Vertex(vertices[i].payload, outs)];
          mE := mE - erased;
        }
        i := i + 1;
      }
    }

    // ---------------------------------------------------------------------------
    // Cleaving.

    // cleave(v): appends a copy of v (payload and records) and gives every other
    // vertex with a record to v a record to the copy with the same payload.
    method Cleave(v: nat) returns (newV: nat)
      requires Valid() && v < |vertices|
      modifies this
      ensures newV == old(|vertices|)
      ensures vertices == Cleaved(old(vertices), v) && Valid()
      ensures old(Mirrored(vertices)) ==> Mirrored(vertices)
    {
      ghost var vs := vertices;
      newV := VertexEmplace(vertices[v].payload, vertices[v].outs);
      ghost var grown := vertices;
      var i := 0;
      while i < |vertices|
        invariant 0 <= i <= |vertices| == |vs| + 1
        invariant Counted() && grown == vs + [vs[v]]
        invariant forall k :: 0 <= k < i ==> vertices[k] == Cleaved(vs, v)[k]
        invariant forall k :: i <= k < |vertices| ==> vertices[k] == grown[k]
      {
        if i != v && i != newV {
          assert vertices[i] == vs[i];
          assert !AnyTo(vs[i].outs, newV) by {
            assert forall l :: 0 <= l < |vs[i].outs| ==> vs[i].outs[l].to < newV;
          }
          CleaveRow(i, v, newV);
        }
        i := i + 1;
      }
      assert vertices == Cleaved(vs, v);
      CleaveEffect(vs, directed, v);
      if Mirrored(vs) {
        CleaveMirrored(vs, v);
      }
    }

    // One round of cleave's loop: vertex i gets a record to newV, with the
    // payload of its record to v, when it has one.
    method CleaveRow(i: nat, v: nat, newV: nat)
      requires Counted() && i < |vertices| && v < |vertices| && newV < |vertices| && i != newV
      requires !AnyTo(vertices[i].outs, newV)
      modifies this
      ensures Counted()
      ensures vertices == old(vertices)[i := Vertex(old(vertices)[i].payload, CleavedRow(old(vertices)[i].outs, v, newV))]
    {
      var outs := vertices[i].outs;
      var j := 0;
      while j < |outs| && outs[j].to != v
        invariant 0 <= j <= |outs|
        invariant forall l :: 0 <= l < j ==> outs[l].to != v
      {
        j := j + 1;
      }
      if j < |outs| {
        assert FirstTo(outs, v) == Some(j);
        var _ := EdgeEmplaceSimpleNonexistent(i, newV, outs[j].payload);
      } else {
        assert FirstTo(outs, v) == None;
      }
    }

    // swap: exchanges the storage and both counters of the two graphs.
    method Swap(rhs: Graph<V, E>)
      requires rhs.directed == directed
      modifies this, rhs
      ensures vertices == old(rhs.vertices) && mV == old(rhs.mV) && mE == old(rhs.mE)
      ensures rhs.vertices == old(vertices) && rhs.mV == old(mV) && rhs.mE == old(mE)
      ensures old(Valid()) && old(rhs.Valid()) ==> Valid() && rhs.Valid()
      ensures old(Mirrored(vertices)) ==> Mirrored(rhs.vertices)
      ensures old(Mirrored(rhs.vertices)) ==> Mirrored(vertices)
    {
      vertices, rhs.vertices := rhs.vertices, vertices;
      mV, rhs.mV := rhs.mV, mV;
      mE, rhs.mE := rhs.mE, mE;
    }
  }
}
