// orient and disorient: conversions between undirected and directed graphs.
// orient keeps one direction of every undirected edge, chosen by a caller's
// predicate; disorient turns every directed edge into an undirected one and
// collapses reciprocal pairs.
module Orientation {
  import opened Util
  import opened GraphTypes
  import opened AdjacencyOps
  import opened AdjacencyList

  // ---------------------------------------------------------------------------
  // orient.

  // a -> b with payload p is the orientation of an undirected edge {a, b}:
  // the record of the larger end carries p, and orientation(lower, higher)
  // says whether the edge points up.
  ghost predicate OrientedRecord<V, E(!new)>(vs: seq<Vertex<V, E>>, orientation: (nat, nat) -> bool, a: nat, b: nat, p: E)
  {
    a != b && HasRecord(vs, Max(a, b), Min(a, b), p) && (orientation(Min(a, b), Max(a, b)) <==> a < b)
  }

  // r holds the vertices of vs with their payloads, and exactly the oriented records.
  ghost predicate Oriented<V, E(!new)>(vs: seq<Vertex<V, E>>, orientation: (nat, nat) -> bool, r: seq<Vertex<V, E>>)
  {
    && |r| == |vs|
    && (forall k :: 0 <= k < |vs| ==> r[k].payload == vs[k].payload)
    && forall a: nat, b: nat, p: E :: HasRecord(r, a, b, p) <==> OrientedRecord(vs, orientation, a, b, p)
  }

  // orient: for every record v -> to with to < v, emplace to -> v when
  // orientation(to, v) holds, and v -> to otherwise, with the record's payload.
  method Orient<V, E(!new)>(g: Graph<V, E>, orientation: (nat, nat) -> bool) returns (result: Graph<V, E>)
    requires g.Valid() && !g.directed
    ensures fresh(result) && result.directed && result.Valid()
    ensures Oriented(g.vertices, orientation, result.vertices)
    ensures result.EdgeSize() == g.EdgeSize()
  {
    result := g.PayloadsOnly(true);
    var v := 0;
    while v < |g.vertices|
      invariant 0 <= v <= |g.vertices|
      invariant fresh(result) && result.directed && result.Valid()
      invariant OrientedUpTo(g.vertices, orientation, result.vertices, v, 0)
    {
      OrientRow(g.vertices, orientation, result, v);
      v := v + 1;
    }
    OrientedEnd(g.vertices, orientation, result.vertices);
    OrientEdgeSize(g, orientation, result);
  }

  // The inner loop of orient for vertex v.
  method OrientRow<V, E(!new)>(vs: seq<Vertex<V, E>>, orientation: (nat, nat) -> bool, result: Graph<V, E>, v: nat)
    requires Simple(vs) && v < |vs| && result.directed && result.Valid()
    requires OrientedUpTo(vs, orientation, result.vertices, v, 0)
    modifies result
    ensures result.Valid() && OrientedUpTo(vs, orientation, result.vertices, v + 1, 0)
  {
    var outs := vs[v].outs;
    for j := 0 to |outs|
      invariant result.Valid() && OrientedUpTo(vs, orientation, result.vertices, v, j)
    {
      var to := outs[j].to;
      if to < v {
        if orientation(to, v) {
          OrientStep(vs, orientation, result.vertices, v, j, to, v);
          var _ := result.EdgeEmplace(to, v, outs[j].payload);
        } else {
          OrientStep(vs, orientation, result.vertices, v, j, v, to);
          var _ := result.EdgeEmplace(v, to, outs[j].payload);
        }
      } else {
        OrientSkip(vs, orientation, result.vertices, v, j);
      }
    }
    OrientedRow(vs, orientation, result.vertices, v);
  }

  // The edges of the oriented graph: one direction of every undirected edge.
  lemma OrientedEdges<V, E(!new)>(vs: seq<Vertex<V, E>>, orientation: (nat, nat) -> bool, r: seq<Vertex<V, E>>)
    requires Simple(vs) && Symmetric(vs) && Oriented(vs, orientation, r)
    ensures forall a: nat, b: nat :: HasEdge(r, a, b) <==>
      a != b && HasEdge(vs, a, b) && (orientation(Min(a, b), Max(a, b)) <==> a < b)
    ensures forall a: nat, b: nat :: HasEdge(r, a, b) ==> !HasEdge(r, b, a)
  {
    forall a: nat, b: nat ensures HasEdge(r, a, b) <==>
      a != b && HasEdge(vs, a, b) && (orientation(Min(a, b), Max(a, b)) <==> a < b)
    {
      if HasEdge(r, a, b) {
        var i :| 0 <= i < |r[a].outs| && r[a].outs[i].to == b;
        assert HasRecord(r, a, b, r[a].outs[i].payload);
        var k :| 0 <= k < |vs[Max(a, b)].outs| && vs[Max(a, b)].outs[k] == OutEdge(Min(a, b), r[a].outs[i].payload);
        assert HasEdge(vs, Max(a, b), Min(a, b));
      }
      if a != b && HasEdge(vs, a, b) && (orientation(Min(a, b), Max(a, b)) <==> a < b) {
        assert HasEdge(vs, Max(a, b), Min(a, b));
        var k :| 0 <= k < |vs[Max(a, b)].outs| && vs[Max(a, b)].outs[k].to == Min(a, b);
        assert OrientedRecord(vs, orientation, a, b, vs[Max(a, b)].outs[k].payload);
        assert HasRecord(r, a, b, vs[Max(a, b)].outs[k].payload);
      }
    }
  }

  // ---------------------------------------------------------------------------
  // The loop of orient.

  // The records of row m before position j, and every row before v, have
  // been oriented.
  ghost predicate Seen<V, E(!new)>(vs: seq<Vertex<V, E>>, m: nat, t: nat, p: E, v: nat, j: nat)
  {
    m < v || (m == v < |vs| && j <= |vs[v].outs| && OutEdge(t, p) in vs[v].outs[..j])
  }

  ghost predicate OrientedUpTo<V, E(!new)>(vs: seq<Vertex<V, E>>, orientation: (nat, nat) -> bool, r: seq<Vertex<V, E>>, v: nat, j: nat)
  {
    && |r| == |vs| && v <= |vs|
    && (v < |vs| ==> j <= |vs[v].outs|)
    && (forall k :: 0 <= k < |vs| ==> r[k].payload == vs[k].payload)
    && forall a: nat, b: nat, p: E :: HasRecord(r, a, b, p) <==>
         OrientedRecord(vs, orientation, a, b, p) && Seen(vs, Max(a, b), Min(a, b), p, v, j)
  }

  lemma OrientedRow<V, E(!new)>(vs: seq<Vertex<V, E>>, orientation: (nat, nat) -> bool, r: seq<Vertex<V, E>>, v: nat)
    requires v < |vs| && OrientedUpTo(vs, orientation, r, v, |vs[v].outs|)
    ensures OrientedUpTo(vs, orientation, r, v + 1, 0)
  {
    assert vs[v].outs[..|vs[v].outs|] == vs[v].outs;
  }

  lemma OrientedEnd<V, E(!new)>(vs: seq<Vertex<V, E>>, orientation: (nat, nat) -> bool, r: seq<Vertex<V, E>>)
    requires OrientedUpTo(vs, orientation, r, |vs|, 0)
    ensures Oriented(vs, orientation, r)
  {
  }

  // A record to a higher vertex is left to that vertex's row.
  lemma OrientSkip<V, E(!new)>(vs: seq<Vertex<V, E>>, orientation: (nat, nat) -> bool, r: seq<Vertex<V, E>>, v: nat, j: nat)
    requires v < |vs| && j < |vs[v].outs| && vs[v].outs[j].to >= v
    requires OrientedUpTo(vs, orientation, r, v, j)
    ensures OrientedUpTo(vs, orientation, r, v, j + 1)
  {
    var outs := vs[v].outs;
    assert outs[..j + 1] == outs[..j] + [outs[j]];
    forall a: nat, b: nat, p: E ensures Seen(vs, Max(a, b), Min(a, b), p, v, j + 1) && OrientedRecord(vs, orientation, a, b, p)
      <==> Seen(vs, Max(a, b), Min(a, b), p, v, j) && OrientedRecord(vs, orientation, a, b, p)
    {
      if Max(a, b) == v && OrientedRecord(vs, orientation, a, b, p) {
        assert OutEdge(Min(a, b), p) != outs[j];
      }
    }
  }

  // The record v -> to with to < v is oriented as from -> target; the
  // emplace adds exactly that record.
  lemma OrientStep<V, E(!new)>(vs: seq<Vertex<V, E>>, orientation: (nat, nat) -> bool, r: seq<Vertex<V, E>>, v: nat, j: nat, from: nat, target: nat)
    requires Simple(vs) && Simple(r) && v < |vs| && j < |vs[v].outs| && vs[v].outs[j].to < v
    requires OrientedUpTo(vs, orientation, r, v, j)
    requires var to := vs[v].outs[j].to;
      if orientation(to, v) then from == to && target == v else from == v && target == to
    ensures from < |r| && target < |r|
    ensures var (r', added) := Emplace(r, true, from, target, vs[v].outs[j].payload);
      added && OrientedUpTo(vs, orientation, r', v, j + 1)
  {
    var outs := vs[v].outs;
    var to, p := outs[j].to, outs[j].payload;
    assert outs[j] in outs;
    assert DistinctTargets(outs);
    assert OrientedRecord(vs, orientation, from, target, p);
    if HasEdge(r, from, target) {
      var i :| 0 <= i < |r[from].outs| && r[from].outs[i].to == target;
      assert HasRecord(r, from, target, r[from].outs[i].payload);
      assert false;
    }
    SeenStep(vs, v, j);
    OrientAdd(vs, orientation, r, v, j, from, target);
  }

  // Seen grows by the record j of row v.
  lemma SeenStep<V, E(!new)>(vs: seq<Vertex<V, E>>, v: nat, j: nat)
    requires v < |vs| && j < |vs[v].outs|
    ensures forall m: nat, t: nat, q: E :: Seen(vs, m, t, q, v, j + 1) <==>
      Seen(vs, m, t, q, v, j) || (m == v && OutEdge(t, q) == vs[v].outs[j])
  {
    var outs := vs[v].outs;
    assert outs[..j + 1] == outs[..j] + [outs[j]];
    forall m: nat, t: nat, q: E ensures Seen(vs, m, t, q, v, j + 1) <==>
      Seen(vs, m, t, q, v, j) || (m == v && OutEdge(t, q) == vs[v].outs[j])
    {
      if m == v {
        assert OutEdge(t, q) in outs[..j + 1] <==> OutEdge(t, q) in outs[..j] || OutEdge(t, q) == outs[j];
      }
    }
  }

  // Adding the record from -> target to the copy.
  lemma OrientAdd<V, E(!new)>(vs: seq<Vertex<V, E>>, orientation: (nat, nat) -> bool, r: seq<Vertex<V, E>>, v: nat, j: nat, from: nat, target: nat)
    requires v < |vs| && j < |vs[v].outs| && vs[v].outs[j].to < v && from < |r|
    requires OrientedUpTo(vs, orientation, r, v, j)
    requires forall m: nat, t: nat, q: E :: Seen(vs, m, t, q, v, j + 1) <==>
      Seen(vs, m, t, q, v, j) || (m == v && OutEdge(t, q) == vs[v].outs[j])
    requires OrientedRecord(vs, orientation, from, target, vs[v].outs[j].payload)
    requires var to := vs[v].outs[j].to;
      if orientation(to, v) then from == to && target == v else from == v && target == to
    ensures OrientedUpTo(vs, orientation, AddRecord(r, from, target, vs[v].outs[j].payload), v, j + 1)
  {
    var to, p := vs[v].outs[j].to, vs[v].outs[j].payload;
    var r' := AddRecord(r, from, target, p);
    assert r' == r[from := Vertex(r[from].payload, r[from].outs + [OutEdge(target, p)])];
    forall a: nat, b: nat, q: E ensures HasRecord(r', a, b, q) <==>
      OrientedRecord(vs, orientation, a, b, q) && Seen(vs, Max(a, b), Min(a, b), q, v, j + 1)
    {
      if a == from {
        assert OutEdge(b, q) in r'[a].outs <==> OutEdge(b, q) in r[a].outs || OutEdge(b, q) == OutEdge(target, p);
      } else if a < |r| {
        assert r'[a] == r[a];
      }
      if OrientedRecord(vs, orientation, a, b, q) && Max(a, b) == v && Min(a, b) == to && q == p {
        assert a == from && b == target;
      }
    }
  }

  // ---------------------------------------------------------------------------
  // Counting the edges of orient.

  // The orientation of the upper pair (a, b).
  function Orient1(orientation: (nat, nat) -> bool, q: (nat, nat)): (nat, nat)
  {
    if orientation(q.0, q.1) then q else (q.1, q.0)
  }

  lemma OrientEdgeSize<V, E(!new)>(g: Graph<V, E>, orientation: (nat, nat) -> bool, result: Graph<V, E>)
    requires g.Valid() && !g.directed && result.Valid() && result.directed
    requires Oriented(g.vertices, orientation, result.vertices)
    ensures result.EdgeSize() == g.EdgeSize()
  {
    UndirectedUpper(g);
    result.EdgeSizeCounts();
    OrientedEdges(g.vertices, orientation, result.vertices);
    OrientImageCard(g.vertices, orientation, result.vertices);
  }

  // An undirected graph has one edge per upper pair.
  lemma UndirectedUpper<V, E>(g: Graph<V, E>)
    requires g.Valid() && !g.directed
    ensures g.EdgeSize() == |Upper(EdgePairs(g.vertices))|
  {
    g.EdgeSizeCounts();
    EdgePairsMembers(g.vertices);
    SwapHalf(EdgePairs(g.vertices));
  }

  // The edges of the oriented graph are the upper pairs of the graph, each
  // turned as the orientation says.
  lemma OrientImageCard<V, E>(vs: seq<Vertex<V, E>>, orientation: (nat, nat) -> bool, r: seq<Vertex<V, E>>)
    requires NoLoops(vs)
    requires forall a: nat, b: nat :: HasEdge(r, a, b) <==>
      a != b && HasEdge(vs, a, b) && (orientation(Min(a, b), Max(a, b)) <==> a < b)
    requires forall a: nat, b: nat :: HasEdge(vs, a, b) ==> HasEdge(vs, b, a)
    ensures |EdgePairs(r)| == |Upper(EdgePairs(vs))|
  {
    EdgePairsMembers(vs);
    forall q | q in Upper(EdgePairs(vs)) ensures q.0 < q.1 {
      var i :| 0 <= i < |vs[q.0].outs| && vs[q.0].outs[i].to == q.1;
    }
    OrientCard(orientation, Upper(EdgePairs(vs)));
    OrientImage(vs, orientation, r);
  }

  // Turning distinct upper pairs gives distinct pairs.
  lemma {:induction false} OrientCard(orientation: (nat, nat) -> bool, up: set<(nat, nat)>)
    requires forall q :: q in up ==> q.0 < q.1
    ensures |set q | q in up :: Orient1(orientation, q)| == |up|
  {
    if up != {} {
      var x :| x in up;
      var rest := up - {x};
      OrientCard(orientation, rest);
      assert (set q | q in up :: Orient1(orientation, q)) == (set q | q in rest :: Orient1(orientation, q)) + {Orient1(orientation, x)};
      assert Orient1(orientation, x) !in (set q | q in rest :: Orient1(orientation, q));
    }
  }

  lemma OrientImage<V, E>(vs: seq<Vertex<V, E>>, orientation: (nat, nat) -> bool, r: seq<Vertex<V, E>>)
    requires NoLoops(vs)
    requires forall a: nat, b: nat :: HasEdge(r, a, b) <==>
      a != b && HasEdge(vs, a, b) && (orientation(Min(a, b), Max(a, b)) <==> a < b)
    requires forall a: nat, b: nat :: HasEdge(vs, a, b) ==> HasEdge(vs, b, a)
    ensures (set q | q in Upper(EdgePairs(vs)) :: Orient1(orientation, q)) == EdgePairs(r)
  {
    OrientImageCovers(vs, orientation, r);
    OrientImageWithin(vs, orientation, r);
  }

  lemma OrientImageWithin<V, E>(vs: seq<Vertex<V, E>>, orientation: (nat, nat) -> bool, r: seq<Vertex<V, E>>)
    requires NoLoops(vs)
    requires forall a: nat, b: nat :: HasEdge(r, a, b) <==>
      a != b && HasEdge(vs, a, b) && (orientation(Min(a, b), Max(a, b)) <==> a < b)
    requires forall a: nat, b: nat :: HasEdge(vs, a, b) ==> HasEdge(vs, b, a)
    ensures (set q | q in Upper(EdgePairs(vs)) :: Orient1(orientation, q)) <= EdgePairs(r)
  {
    EdgePairsMembers(vs);
    EdgePairsMembers(r);
    forall q | q in Upper(EdgePairs(vs)) ensures Orient1(orientation, q) in EdgePairs(r) {
      assert HasEdge(vs, q.0, q.1);
      var i :| 0 <= i < |vs[q.0].outs| && vs[q.0].outs[i].to == q.1;
      assert q.0 < q.1;
      if orientation(q.0, q.1) {
        assert HasEdge(r, q.0, q.1);
      } else {
        assert HasEdge(vs, q.1, q.0) && Min(q.1, q.0) == q.0 && Max(q.1, q.0) == q.1;
        assert HasEdge(r, q.1, q.0);
      }
    }
  }

  lemma OrientImageCovers<V, E>(vs: seq<Vertex<V, E>>, orientation: (nat, nat) -> bool, r: seq<Vertex<V, E>>)
    requires forall a: nat, b: nat :: HasEdge(r, a, b) <==>
      a != b && HasEdge(vs, a, b) && (orientation(Min(a, b), Max(a, b)) <==> a < b)
    requires forall a: nat, b: nat :: HasEdge(vs, a, b) ==> HasEdge(vs, b, a)
    ensures EdgePairs(r) <= (set q | q in Upper(EdgePairs(vs)) :: Orient1(orientation, q))
  {
    EdgePairsMembers(vs);
    EdgePairsMembers(r);
    var up := Upper(EdgePairs(vs));
    forall x | x in EdgePairs(r) ensures x in (set q | q in up :: Orient1(orientation, q)) {
      var q := (Min(x.0, x.1), Max(x.0, x.1));
      assert HasEdge(vs, x.0, x.1) && HasEdge(vs, x.1, x.0);
      assert q in up && Orient1(orientation, q) == x;
    }
  }

  // ---------------------------------------------------------------------------
  // disorient.

  // The record of the pair {lo, hi} (lo < hi) that the loop meets first: the
  // one of row lo when there is one, else the one of row hi.
  ghost predicate Chosen<V, E(!new)>(vs: seq<Vertex<V, E>>, lo: nat, hi: nat, p: E)
  {
    HasRecord(vs, lo, hi, p) || (!HasEdge(vs, lo, hi) && HasRecord(vs, hi, lo, p))
  }

  // a -> b with payload p is a record of the disoriented graph: a and b are
  // joined in some direction, and p is the payload of the first record met.
  ghost predicate DisorientedRecord<V, E(!new)>(vs: seq<Vertex<V, E>>, a: nat, b: nat, p: E)
  {
    a != b && Chosen(vs, Min(a, b), Max(a, b), p)
  }

  ghost predicate Disoriented<V, E(!new)>(vs: seq<Vertex<V, E>>, r: seq<Vertex<V, E>>)
  {
    && |r| == |vs|
    && (forall k :: 0 <= k < |vs| ==> r[k].payload == vs[k].payload)
    && forall a: nat, b: nat, p: E :: HasRecord(r, a, b, p) <==> DisorientedRecord(vs, a, b, p)
  }

  // Position of the pair (a, b) in the n x n matrix of booleans.
  function Cell(n: nat, a: nat, b: nat): (c: nat)
    requires a < n && b < n
    ensures c < n * n
  {
    MulLe(n, a + 1, n);
    n * a + b
  }

  lemma MulLe(n: nat, x: nat, y: nat)
    requires x <= y
    ensures n * x <= n * y
  {
  }

  lemma MulNext(n: nat, x: nat, y: nat)
    requires x < y
    ensures n * x + n <= n * y
  {
    MulLe(n, x + 1, y);
    assert n * (x + 1) == n * x + n;
  }

  lemma CellInjective(n: nat, a: nat, b: nat, c: nat, d: nat)
    requires a < n && b < n && c < n && d < n && Cell(n, a, b) == Cell(n, c, d)
    ensures a == c && b == d
  {
    if a < c {
      MulNext(n, a, c);
      assert false;
    } else if c < a {
      MulNext(n, c, a);
      assert false;
    }
  }

  // disorient: for every record v -> to whose pair is not yet marked, emplace
  // the undirected edge (to, v) with the record's payload and mark the pair in
  // both orders of the n x n matrix.
  method Disorient<V, E(!new)>(g: Graph<V, E>) returns (result: Graph<V, E>)
    requires g.Valid() && g.directed
    ensures fresh(result) && !result.directed && result.Valid()
    ensures Disoriented(g.vertices, result.vertices)
  {
    var n := |g.vertices|;
    result := g.PayloadsOnly(false);
    var marked := seq(n * n, _ => false);
    DisorientStart(g.vertices, result.vertices, marked);
    var v := 0;
    while v < n
      invariant 0 <= v <= n
      invariant fresh(result) && !result.directed && result.Valid()
      invariant Marks(g.vertices, marked, v, 0)
      invariant DisorientedUpTo(g.vertices, result.vertices, v, 0)
    {
      marked := DisorientRow(g.vertices, result, v, marked);
      v := v + 1;
    }
    DisorientedEnd(g.vertices, result.vertices);
  }

  // The inner loop of disorient for vertex v.
  method DisorientRow<V, E(!new)>(vs: seq<Vertex<V, E>>, result: Graph<V, E>, v: nat, marked0: seq<bool>) returns (marked: seq<bool>)
    requires Simple(vs) && v < |vs| && !result.directed && result.Valid()
    requires Marks(vs, marked0, v, 0) && DisorientedUpTo(vs, result.vertices, v, 0)
    modifies result
    ensures result.Valid() && Marks(vs, marked, v + 1, 0) && DisorientedUpTo(vs, result.vertices, v + 1, 0)
  {
    var n := |vs|;
    marked := marked0;
    var outs := vs[v].outs;
    for j := 0 to |outs|
      invariant result.Valid() && Marks(vs, marked, v, j) && DisorientedUpTo(vs, result.vertices, v, j)
    {
      var to := outs[j].to;
      assert outs[j] in outs;
      if !marked[Cell(n, to, v)] {
        DisorientStep(vs, result.vertices, v, j);
        var _ := result.EdgeEmplace(to, v, outs[j].payload);
        MarkStep(vs, marked, v, j);
        marked := marked[Cell(n, to, v) := true][Cell(n, v, to) := true];
      } else {
        DisorientSkip(vs, result.vertices, marked, v, j);
      }
    }
    DisorientRowEnd(vs, result.vertices, marked, v);
  }

  // The edges of the disoriented graph: every pair joined in some direction.
  lemma DisorientedEdges<V, E(!new)>(vs: seq<Vertex<V, E>>, r: seq<Vertex<V, E>>)
    requires Disoriented(vs, r)
    ensures forall a: nat, b: nat :: HasEdge(r, a, b) <==> a != b && (HasEdge(vs, a, b) || HasEdge(vs, b, a))
  {
    forall a: nat, b: nat ensures HasEdge(r, a, b) <==> a != b && (HasEdge(vs, a, b) || HasEdge(vs, b, a)) {
      if HasEdge(r, a, b) {
        var i :| 0 <= i < |r[a].outs| && r[a].outs[i].to == b;
        assert HasRecord(r, a, b, r[a].outs[i].payload);
        var q := r[a].outs[i].payload;
        if HasRecord(vs, Min(a, b), Max(a, b), q) {
          var k :| 0 <= k < |vs[Min(a, b)].outs| && vs[Min(a, b)].outs[k] == OutEdge(Max(a, b), q);
          assert HasEdge(vs, Min(a, b), Max(a, b));
        } else {
          var k :| 0 <= k < |vs[Max(a, b)].outs| && vs[Max(a, b)].outs[k] == OutEdge(Min(a, b), q);
          assert HasEdge(vs, Max(a, b), Min(a, b));
        }
      }
      if a != b && (HasEdge(vs, a, b) || HasEdge(vs, b, a)) {
        var lo, hi := Min(a, b), Max(a, b);
        var q;
        if HasEdge(vs, lo, hi) {
          var k :| 0 <= k < |vs[lo].outs| && vs[lo].outs[k].to == hi;
          q := vs[lo].outs[k].payload;
          assert HasRecord(vs, lo, hi, q);
        } else {
          assert HasEdge(vs, hi, lo);
          var k :| 0 <= k < |vs[hi].outs| && vs[hi].outs[k].to == lo;
          q := vs[hi].outs[k].payload;
          assert HasRecord(vs, hi, lo, q);
        }
        assert DisorientedRecord(vs, a, b, q);
        assert HasRecord(r, a, b, q);
      }
    }
  }

  // ---------------------------------------------------------------------------
  // The loop of disorient.

  // The record s -> t has been met: its row is done, or it is among the first
  // j records of row v.
  ghost predicate Reached<V, E>(vs: seq<Vertex<V, E>>, s: nat, t: nat, v: nat, j: nat)
  {
    s < v || (s == v < |vs| && j <= |vs[v].outs| && AnyTo(vs[v].outs[..j], t))
  }

  // Some record of the pair {a, b} has been met.
  ghost predicate PairMet<V, E>(vs: seq<Vertex<V, E>>, a: nat, b: nat, v: nat, j: nat)
  {
    a != b && ((HasEdge(vs, a, b) && Reached(vs, a, b, v, j)) || (HasEdge(vs, b, a) && Reached(vs, b, a, v, j)))
  }

  // The matrix marks exactly the pairs met so far.
  ghost predicate Marks<V, E>(vs: seq<Vertex<V, E>>, marked: seq<bool>, v: nat, j: nat)
  {
    var n := |vs|;
    && |marked| == n * n && v <= n && (v < n ==> j <= |vs[v].outs|)
    && forall a, b :: 0 <= a < n && 0 <= b < n ==> (marked[Cell(n, a, b)] <==> PairMet(vs, a, b, v, j))
  }

  ghost predicate DisorientedUpTo<V, E(!new)>(vs: seq<Vertex<V, E>>, r: seq<Vertex<V, E>>, v: nat, j: nat)
  {
    && |r| == |vs| && v <= |vs| && (v < |vs| ==> j <= |vs[v].outs|)
    && (forall k :: 0 <= k < |vs| ==> r[k].payload == vs[k].payload)
    && forall a: nat, b: nat, p: E :: HasRecord(r, a, b, p) <==> DisorientedRecord(vs, a, b, p) && PairMet(vs, a, b, v, j)
  }

  lemma ReachedStep<V, E>(vs: seq<Vertex<V, E>>, v: nat, j: nat)
    requires v < |vs| && j < |vs[v].outs|
    ensures forall s: nat, t: nat :: Reached(vs, s, t, v, j + 1) <==> Reached(vs, s, t, v, j) || (s == v && t == vs[v].outs[j].to)
  {
    var outs := vs[v].outs;
    assert outs[..j + 1] == outs[..j] + [outs[j]];
    forall t: nat ensures AnyTo(outs[..j + 1], t) <==> AnyTo(outs[..j], t) || t == outs[j].to {
      if AnyTo(outs[..j], t) {
        var i :| 0 <= i < j && outs[..j][i].to == t;
        assert outs[..j + 1][i].to == t;
      }
      if AnyTo(outs[..j + 1], t) {
        var i :| 0 <= i < j + 1 && outs[..j + 1][i].to == t;
        if i < j {
          assert outs[..j][i].to == t;
        }
      }
      if t == outs[j].to {
        assert outs[..j + 1][j].to == t;
      }
    }
  }

  lemma PairMetStep<V, E>(vs: seq<Vertex<V, E>>, v: nat, j: nat)
    requires Simple(vs) && v < |vs| && j < |vs[v].outs|
    ensures forall a: nat, b: nat :: PairMet(vs, a, b, v, j + 1) <==>
      PairMet(vs, a, b, v, j) || (a == v && b == vs[v].outs[j].to) || (a == vs[v].outs[j].to && b == v)
  {
    ReachedStep(vs, v, j);
    var to := vs[v].outs[j].to;
    assert vs[v].outs[j] in vs[v].outs;
    assert HasEdge(vs, v, to) && to != v;
    forall a: nat, b: nat ensures PairMet(vs, a, b, v, j + 1) <==>
      PairMet(vs, a, b, v, j) || (a == v && b == to) || (a == to && b == v)
    {
      assert Reached(vs, a, b, v, j + 1) <==> Reached(vs, a, b, v, j) || (a == v && b == to);
      assert Reached(vs, b, a, v, j + 1) <==> Reached(vs, b, a, v, j) || (b == v && a == to);
    }
  }

  // Marking both orders of the pair of the record met.
  lemma MarkStep<V, E>(vs: seq<Vertex<V, E>>, marked: seq<bool>, v: nat, j: nat)
    requires Simple(vs) && v < |vs| && j < |vs[v].outs| && Marks(vs, marked, v, j)
    ensures var n, to := |vs|, vs[v].outs[j].to;
      to < n && Marks(vs, marked[Cell(n, to, v) := true][Cell(n, v, to) := true], v, j + 1)
  {
    var n, to := |vs|, vs[v].outs[j].to;
    assert vs[v].outs[j] in vs[v].outs;
    PairMetStep(vs, v, j);
    var ex := marked[Cell(n, to, v) := true][Cell(n, v, to) := true];
    forall a, b | 0 <= a < n && 0 <= b < n ensures ex[Cell(n, a, b)] <==> PairMet(vs, a, b, v, j + 1) {
      if Cell(n, a, b) == Cell(n, to, v) {
        CellInjective(n, a, b, to, v);
      } else if Cell(n, a, b) == Cell(n, v, to) {
        CellInjective(n, a, b, v, to);
      } else {
        assert !(a == to && b == v) && !(a == v && b == to);
      }
    }
  }

  // A pair already met: nothing is emplaced.
  lemma DisorientSkip<V, E(!new)>(vs: seq<Vertex<V, E>>, r: seq<Vertex<V, E>>, marked: seq<bool>, v: nat, j: nat)
    requires Simple(vs) && v < |vs| && j < |vs[v].outs| && Marks(vs, marked, v, j)
    requires vs[v].outs[j].to < |vs| && marked[Cell(|vs|, vs[v].outs[j].to, v)]
    requires DisorientedUpTo(vs, r, v, j)
    ensures Marks(vs, marked, v, j + 1) && DisorientedUpTo(vs, r, v, j + 1)
  {
    PairMetStep(vs, v, j);
  }

  lemma DisorientStart<V, E(!new)>(vs: seq<Vertex<V, E>>, r: seq<Vertex<V, E>>, marked: seq<bool>)
    requires r == Stripped(vs) && marked == seq(|vs| * |vs|, _ => false)
    ensures Marks(vs, marked, 0, 0) && DisorientedUpTo(vs, r, 0, 0)
  {
  }

  lemma DisorientRowEnd<V, E(!new)>(vs: seq<Vertex<V, E>>, r: seq<Vertex<V, E>>, marked: seq<bool>, v: nat)
    requires v < |vs| && Marks(vs, marked, v, |vs[v].outs|) && DisorientedUpTo(vs, r, v, |vs[v].outs|)
    ensures Marks(vs, marked, v + 1, 0) && DisorientedUpTo(vs, r, v + 1, 0)
  {
    assert vs[v].outs[..|vs[v].outs|] == vs[v].outs;
    forall s: nat, t: nat | HasEdge(vs, s, t) ensures Reached(vs, s, t, v, |vs[v].outs|) <==> Reached(vs, s, t, v + 1, 0) {
    }
  }

  lemma DisorientedEnd<V, E(!new)>(vs: seq<Vertex<V, E>>, r: seq<Vertex<V, E>>)
    requires DisorientedUpTo(vs, r, |vs|, 0)
    ensures Disoriented(vs, r)
  {
    forall a: nat, b: nat, p: E | DisorientedRecord(vs, a, b, p) ensures PairMet(vs, a, b, |vs|, 0) {
      if HasRecord(vs, Min(a, b), Max(a, b), p) {
        var k :| 0 <= k < |vs[Min(a, b)].outs| && vs[Min(a, b)].outs[k] == OutEdge(Max(a, b), p);
        assert HasEdge(vs, Min(a, b), Max(a, b));
      } else {
        var k :| 0 <= k < |vs[Max(a, b)].outs| && vs[Max(a, b)].outs[k] == OutEdge(Min(a, b), p);
        assert HasEdge(vs, Max(a, b), Min(a, b));
      }
    }
  }

  // A pair not yet met: emplace adds both records of it, with the payload of
  // the record met.
  lemma DisorientStep<V, E(!new)>(vs: seq<Vertex<V, E>>, r: seq<Vertex<V, E>>, v: nat, j: nat)
    requires Simple(vs) && WellFormed(r, false) && v < |vs| && j < |vs[v].outs|
    requires !PairMet(vs, vs[v].outs[j].to, v, v, j) && DisorientedUpTo(vs, r, v, j)
    ensures vs[v].outs[j].to < |r| && vs[v].outs[j].to != v
    ensures DisorientedUpTo(vs, Emplace(r, false, vs[v].outs[j].to, v, vs[v].outs[j].payload).0, v, j + 1)
  {
    var outs := vs[v].outs;
    var to, p := outs[j].to, outs[j].payload;
    assert outs[j] in outs;
    assert HasEdge(vs, v, to);
    if HasEdge(r, to, v) {
      var i :| 0 <= i < |r[to].outs| && r[to].outs[i].to == v;
      assert HasRecord(r, to, v, r[to].outs[i].payload);
      assert false;
    }
    assert !HasEdge(r, v, to);
    var r' := Emplace(r, false, to, v, p).0;
    EmplaceFresh(r, to, v, p);
    PairMetStep(vs, v, j);
    assert DisorientedRecord(vs, v, to, p) && DisorientedRecord(vs, to, v, p) by {
      if to < v {
        assert !HasEdge(vs, to, v) by {
          if HasEdge(vs, to, v) {
            assert Reached(vs, to, v, v, j);
          }
        }
      }
      assert HasRecord(vs, v, to, p);
    }
    forall a: nat, b: nat, q: E ensures HasRecord(r', a, b, q) <==> DisorientedRecord(vs, a, b, q) && PairMet(vs, a, b, v, j + 1) {
      if ((a == v && b == to) || (a == to && b == v)) && DisorientedRecord(vs, a, b, q) {
        ChosenUnique(vs, Min(a, b), Max(a, b), p, q);
      }
    }
  }

  // A pair has one chosen payload.
  lemma ChosenUnique<V, E(!new)>(vs: seq<Vertex<V, E>>, lo: nat, hi: nat, p: E, q: E)
    requires Simple(vs) && Chosen(vs, lo, hi, p) && Chosen(vs, lo, hi, q)
    ensures p == q
  {
    RecordEdges(vs);
    var s := if HasRecord(vs, lo, hi, p) then lo else hi;
    var t := if HasRecord(vs, lo, hi, p) then hi else lo;
    assert HasRecord(vs, s, t, p) && HasRecord(vs, s, t, q);
    var i :| 0 <= i < |vs[s].outs| && vs[s].outs[i] == OutEdge(t, p);
    var k :| 0 <= k < |vs[s].outs| && vs[s].outs[k] == OutEdge(t, q);
    assert vs[s].outs[i].to == vs[s].outs[k].to;
  }

  // A stored record is an edge.
  lemma RecordEdges<V, E(!new)>(vs: seq<Vertex<V, E>>)
    ensures forall u: nat, w: nat, p: E :: HasRecord(vs, u, w, p) ==> HasEdge(vs, u, w)
  {
    forall u: nat, w: nat, p: E | HasRecord(vs, u, w, p) ensures HasEdge(vs, u, w) {
      var i :| 0 <= i < |vs[u].outs| && vs[u].outs[i] == OutEdge(w, p);
      assert vs[u].outs[i].to == w;
    }
  }

  // The undirected emplace of a pair with no records adds its two records.
  lemma EmplaceFresh<V, E(!new)>(r: seq<Vertex<V, E>>, from: nat, to: nat, p: E)
    requires from < |r| && to < |r| && from != to && !HasEdge(r, from, to) && !HasEdge(r, to, from)
    ensures var r' := Emplace(r, false, from, to, p).0;
      && |r'| == |r| && (forall k :: 0 <= k < |r| ==> r'[k].payload == r[k].payload)
      && forall a: nat, b: nat, q: E :: HasRecord(r', a, b, q) <==>
           HasRecord(r, a, b, q) || (a == from && b == to && q == p) || (a == to && b == from && q == p)
  {
    var r1 := AddRecord(r, to, from, p);
    assert EmplaceSimple(r, to, from, p).0 == r1;
    assert !HasEdge(r1, from, to);
    var r2 := AddRecord(r1, from, to, p);
    assert Emplace(r, false, from, to, p).0 == r2;
    assert r1 == r[to := Vertex(r[to].payload, r[to].outs + [OutEdge(from, p)])];
    assert r2 == r1[from := Vertex(r1[from].payload, r1[from].outs + [OutEdge(to, p)])];
    forall a: nat, b: nat, q: E ensures HasRecord(r2, a, b, q) <==>
      HasRecord(r, a, b, q) || (a == from && b == to && q == p) || (a == to && b == from && q == p)
    {
      if a == from {
        assert OutEdge(b, q) in r2[a].outs <==> OutEdge(b, q) in r[a].outs || OutEdge(b, q) == OutEdge(to, p);
      } else if a == to {
        assert OutEdge(b, q) in r2[a].outs <==> OutEdge(b, q) in r[a].outs || OutEdge(b, q) == OutEdge(from, p);
      } else if a < |r| {
        assert r2[a] == r[a];
      }
    }
  }
}
