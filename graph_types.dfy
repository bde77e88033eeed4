// The value types of an adjacency list: out-edge records, full edges and
// vertices, together with the whole-graph properties the adjacency list keeps
// ("no loops, no multiedges", and for undirected graphs every edge stored in
// both directions).
module GraphTypes {
  import opened Util

  // out_edge: the target of an edge and the edge's payload.
  datatype OutEdge<E> = OutEdge(to: nat, payload: E)

  // edge: a source, a target and a payload.
  datatype Edge<E> = Edge(from: nat, to: nat, payload: E)

  // vertex: a payload and the list of out-edge records of the vertex.
  datatype Vertex<V, E> = Vertex(payload: V, outs: seq<OutEdge<E>>)

  // edge(from, out_edge): the full edge that an out-edge record of `from` stands for.
  function EdgeOf<E>(from: nat, out: OutEdge<E>): Edge<E>
  {
    Edge(from, out.to, out.payload)
  }

  function OutDegree<V, E>(v: Vertex<V, E>): nat
  {
    |v.outs|
  }

  // vertex::has_edge_to, a std::any_of over the out-edge records.
  function AnyTo<E>(outs: seq<OutEdge<E>>, index: nat): (b: bool)
    ensures b <==> exists i :: 0 <= i < |outs| && outs[i].to == index
  {
    if outs == [] then false
    else outs[0].to == index || AnyTo(outs[1..], index)
  }

  function HasEdgeTo<V, E>(v: Vertex<V, E>, index: nat): bool
  {
    AnyTo(v.outs, index)
  }

  // Position of the first record whose target is `to`, if there is one.
  function FirstTo<E>(outs: seq<OutEdge<E>>, to: nat): (r: Option<nat>)
    ensures r.None? <==> forall i :: 0 <= i < |outs| ==> outs[i].to != to
    ensures r.Some? ==> r.value < |outs| && outs[r.value].to == to
                        && forall j :: 0 <= j < r.value ==> outs[j].to != to
  {
    if outs == [] then None
    else if outs[0].to == to then Some(0)
    else match FirstTo(outs[1..], to)
      case None => None
      case Some(k) => Some(k + 1)
  }

  // ---------------------------------------------------------------------------
  // Sorting the out-edge records of a vertex by target (vertex::sort_edges).

  predicate SortedByTarget<E>(outs: seq<OutEdge<E>>)
  {
    forall i, j :: 0 <= i < j < |outs| ==> outs[i].to <= outs[j].to
  }

  function InsertByTarget<E>(x: OutEdge<E>, outs: seq<OutEdge<E>>): (r: seq<OutEdge<E>>)
    requires SortedByTarget(outs)
    ensures SortedByTarget(r)
    ensures multiset(r) == multiset(outs) + multiset{x}
    ensures r != [] && (r[0] == x || (outs != [] && r[0] == outs[0]))
  {
    if outs == [] || x.to <= outs[0].to then [x] + outs
    else
      var rest := InsertByTarget(x, outs[1..]);
      assert outs == [outs[0]] + outs[1..];
      [outs[0]] + rest
  }

  // The sorted arrangement of the records: the records themselves, reordered.
  function SortByTarget<E>(outs: seq<OutEdge<E>>): (r: seq<OutEdge<E>>)
    ensures SortedByTarget(r)
    ensures multiset(r) == multiset(outs)
  {
    if outs == [] then []
    else
      assert outs == [outs[0]] + outs[1..];
      InsertByTarget(outs[0], SortByTarget(outs[1..]))
  }

  predicate DistinctTargets<E>(outs: seq<OutEdge<E>>)
  {
    forall i, j :: 0 <= i < j < |outs| ==> outs[i].to != outs[j].to
  }

  lemma SortedTail<E>(a: seq<OutEdge<E>>)
    requires a != [] && SortedByTarget(a)
    ensures SortedByTarget(a[1..])
  {
    forall i, j | 0 <= i < j < |a[1..]| ensures a[1..][i].to <= a[1..][j].to {
      assert a[1..][i] == a[i + 1] && a[1..][j] == a[j + 1];
    }
  }

  lemma DistinctTail<E>(a: seq<OutEdge<E>>)
    requires a != [] && DistinctTargets(a)
    ensures DistinctTargets(a[1..])
  {
    forall i, j | 0 <= i < j < |a[1..]| ensures a[1..][i].to != a[1..][j].to {
      assert a[1..][i] == a[i + 1] && a[1..][j] == a[j + 1];
    }
  }

  // A list has distinct targets when its head's target is not repeated in its
  // tail and the tail has distinct targets.
  lemma DistinctHead<E>(outs: seq<OutEdge<E>>)
    requires outs != []
    ensures DistinctTargets(outs) <==> !AnyTo(outs[1..], outs[0].to) && DistinctTargets(outs[1..])
  {
    if DistinctTargets(outs) {
      DistinctTail(outs);
      forall j | 0 <= j < |outs[1..]| ensures outs[1..][j].to != outs[0].to {
        assert outs[1..][j] == outs[j + 1];
      }
    }
    if !AnyTo(outs[1..], outs[0].to) && DistinctTargets(outs[1..]) {
      forall i, j | 0 <= i < j < |outs| ensures outs[i].to != outs[j].to {
        assert outs[j] == outs[1..][j - 1];
        if i > 0 { assert outs[i] == outs[1..][i - 1]; }
      }
    }
  }

  // Reordering a list keeps its targets.
  lemma PermutationAny<E>(a: seq<OutEdge<E>>, b: seq<OutEdge<E>>, t: nat)
    requires multiset(a) == multiset(b)
    ensures AnyTo(a, t) == AnyTo(b, t)
  {
    if AnyTo(a, t) {
      var i :| 0 <= i < |a| && a[i].to == t;
      assert a[i] in multiset(b);
      var j :| 0 <= j < |b| && b[j] == a[i];
    }
    if AnyTo(b, t) {
      var j :| 0 <= j < |b| && b[j].to == t;
      assert b[j] in multiset(a);
      var i :| 0 <= i < |a| && a[i] == b[j];
    }
  }

  lemma SortAny<E>(outs: seq<OutEdge<E>>, t: nat)
    ensures AnyTo(SortByTarget(outs), t) == AnyTo(outs, t)
  {
    PermutationAny(SortByTarget(outs), outs, t);
  }

  lemma {:induction false} InsertDistinct<E>(x: OutEdge<E>, outs: seq<OutEdge<E>>)
    requires SortedByTarget(outs) && DistinctTargets(outs) && !AnyTo(outs, x.to)
    ensures DistinctTargets(InsertByTarget(x, outs))
    decreases |outs|
  {
    var r := InsertByTarget(x, outs);
    if outs == [] || x.to <= outs[0].to {
      assert r[1..] == outs;
      DistinctHead(r);
    } else {
      var rest := InsertByTarget(x, outs[1..]);
      assert r == [outs[0]] + rest;
      assert r[1..] == rest;
      DistinctHead(outs);
      SortedTail(outs);
      InsertDistinct(x, outs[1..]);
      assert multiset(outs[1..] + [x]) == multiset(outs[1..]) + multiset{x};
      PermutationAny(rest, outs[1..] + [x], outs[0].to);
      assert !AnyTo(outs[1..] + [x], outs[0].to);
      DistinctHead(r);
    }
  }

  // Sorting keeps the targets distinct.
  lemma {:induction false} SortDistinct<E>(outs: seq<OutEdge<E>>)
    requires DistinctTargets(outs)
    ensures DistinctTargets(SortByTarget(outs))
  {
    if outs != [] {
      DistinctHead(outs);
      SortDistinct(outs[1..]);
      SortAny(outs[1..], outs[0].to);
      InsertDistinct(outs[0], SortByTarget(outs[1..]));
    }
  }

  // Two sorted arrangements of the same records with distinct targets start alike.
  lemma SortedSameHead<E>(a: seq<OutEdge<E>>, b: seq<OutEdge<E>>)
    requires a != [] && SortedByTarget(a) && SortedByTarget(b)
    requires multiset(a) == multiset(b)
    requires DistinctTargets(a)
    ensures b != [] && a[0] == b[0]
  {
    assert a[0] in multiset(b);
    var i :| 0 <= i < |b| && b[i] == a[0];
    assert b[0] in multiset(a);
    var j :| 0 <= j < |a| && a[j] == b[0];
    assert a[0].to <= a[j].to;
    assert b[0].to <= b[i].to;
  }

  // With distinct targets, a sorted arrangement of a list of records is unique,
  // so sorting with any comparison sort yields SortByTarget's result.
  lemma {:induction false} SortedPermutationUnique<E>(a: seq<OutEdge<E>>, b: seq<OutEdge<E>>)
    requires SortedByTarget(a) && SortedByTarget(b)
    requires multiset(a) == multiset(b)
    requires DistinctTargets(a)
    ensures a == b
  {
    if a != [] {
      SortedSameHead(a, b);
      assert a == [a[0]] + a[1..];
      assert b == [b[0]] + b[1..];
      assert multiset(a[1..]) == multiset(a) - multiset{a[0]};
      assert multiset(b[1..]) == multiset(b) - multiset{b[0]};
      SortedTail(a);
      SortedTail(b);
      DistinctTail(a);
      SortedPermutationUnique(a[1..], b[1..]);
    } else {
      assert |b| == |multiset(b)| == 0;
    }
  }

  // ---------------------------------------------------------------------------
  // Whole-graph properties.

  // Every record points at an existing vertex.
  predicate InRange<V, E>(vs: seq<Vertex<V, E>>)
  {
    forall u, i :: 0 <= u < |vs| && 0 <= i < |vs[u].outs| ==> vs[u].outs[i].to < |vs|
  }

  // No record points back at its own vertex.
  predicate NoLoops<V, E>(vs: seq<Vertex<V, E>>)
  {
    forall u, i :: 0 <= u < |vs| && 0 <= i < |vs[u].outs| ==> vs[u].outs[i].to != u
  }

  // No vertex holds two records with the same target.
  predicate NoMultiEdges<V, E>(vs: seq<Vertex<V, E>>)
  {
    forall u :: 0 <= u < |vs| ==> DistinctTargets(vs[u].outs)
  }

  // "no loops, no multiedges", with every target an existing vertex.
  predicate Simple<V, E>(vs: seq<Vertex<V, E>>)
  {
    InRange(vs) && NoLoops(vs) && NoMultiEdges(vs)
  }

  // There is a record u -> w.
  predicate HasEdge<V, E>(vs: seq<Vertex<V, E>>, u: nat, w: nat)
  {
    u < |vs| && exists i :: 0 <= i < |vs[u].outs| && vs[u].outs[i].to == w
  }

  // Every record u -> w has a partner record w -> u (the storage of an undirected graph).
  ghost predicate Symmetric<V, E>(vs: seq<Vertex<V, E>>)
  {
    forall u: nat, w: nat :: HasEdge(vs, u, w) ==> HasEdge(vs, w, u)
  }

  // There is a record u -> w carrying payload p.
  ghost predicate HasRecord<V, E>(vs: seq<Vertex<V, E>>, u: nat, w: nat, p: E)
  {
    u < |vs| && OutEdge(w, p) in vs[u].outs
  }

  // Every record u -> w has a partner record w -> u with the same payload: the
  // two records the library writes for one undirected edge.
  ghost predicate Mirrored<V, E>(vs: seq<Vertex<V, E>>)
  {
    forall u, i :: 0 <= u < |vs| && 0 <= i < |vs[u].outs| ==> HasRecord(vs, vs[u].outs[i].to, u, vs[u].outs[i].payload)
  }

  ghost predicate WellFormed<V, E>(vs: seq<Vertex<V, E>>, directed: bool)
  {
    Simple(vs) && (!directed ==> Symmetric(vs))
  }

  // Total number of out-edge records, the quantity m_e counts.
  function Records<V, E>(vs: seq<Vertex<V, E>>): nat
  {
    if vs == [] then 0 else Records(vs[..|vs| - 1]) + |vs[|vs| - 1].outs|
  }

  lemma {:induction false} RecordsAppend<V, E>(vs: seq<Vertex<V, E>>, x: Vertex<V, E>)
    ensures Records(vs + [x]) == Records(vs) + |x.outs|
  {
    assert (vs + [x])[..|vs|] == vs;
  }

  lemma {:induction false} RecordsConcat<V, E>(a: seq<Vertex<V, E>>, b: seq<Vertex<V, E>>)
    ensures Records(a + b) == Records(a) + Records(b)
  {
    if b != [] {
      var b' := b[..|b| - 1];
      assert a + b == (a + b') + [b[|b| - 1]];
      assert b == b' + [b[|b| - 1]];
      RecordsConcat(a, b');
      RecordsAppend(a + b', b[|b| - 1]);
      RecordsAppend(b', b[|b| - 1]);
    } else {
      assert a + b == a;
    }
  }

  // Replacing one vertex changes the record count by the difference of its degrees.
  lemma RecordsUpdate<V, E>(vs: seq<Vertex<V, E>>, k: nat, x: Vertex<V, E>)
    requires k < |vs|
    ensures Records(vs[k := x]) + |vs[k].outs| == Records(vs) + |x.outs|
  {
    assert vs == vs[..k] + [vs[k]] + vs[k + 1..];
    assert vs[k := x] == vs[..k] + [x] + vs[k + 1..];
    RecordsConcat(vs[..k] + [vs[k]], vs[k + 1..]);
    RecordsConcat(vs[..k] + [x], vs[k + 1..]);
    RecordsAppend(vs[..k], vs[k]);
    RecordsAppend(vs[..k], x);
  }

  // Removing one vertex removes its records from the count.
  lemma RecordsRemove<V, E>(vs: seq<Vertex<V, E>>, k: nat)
    requires k < |vs|
    ensures Records(vs[..k] + vs[k + 1..]) + |vs[k].outs| == Records(vs)
  {
    assert vs == vs[..k] + [vs[k]] + vs[k + 1..];
    RecordsConcat(vs[..k] + [vs[k]], vs[k + 1..]);
    RecordsConcat(vs[..k], vs[k + 1..]);
    RecordsAppend(vs[..k], vs[k]);
  }

  // The records of one vertex, as (source, target) pairs.
  function RowPairs<E>(u: nat, outs: seq<OutEdge<E>>): (r: set<(nat, nat)>)
    ensures forall p :: p in r <==> p.0 == u && exists i :: 0 <= i < |outs| && outs[i].to == p.1
  {
    if outs == [] then {}
    else
      var pre := outs[..|outs| - 1];
      assert forall i :: 0 <= i < |pre| ==> pre[i] == outs[i];
      RowPairs(u, pre) + {(u, outs[|outs| - 1].to)}
  }

  // All records of the graph, as (source, target) pairs.
  function EdgePairs<V, E>(vs: seq<Vertex<V, E>>): set<(nat, nat)>
  {
    if vs == [] then {} else EdgePairs(vs[..|vs| - 1]) + RowPairs(|vs| - 1, vs[|vs| - 1].outs)
  }

  lemma {:induction false} EdgePairsMembers<V, E>(vs: seq<Vertex<V, E>>)
    ensures forall p :: p in EdgePairs(vs) <==> HasEdge(vs, p.0, p.1)
  {
    if vs != [] {
      var pre := vs[..|vs| - 1];
      EdgePairsMembers(pre);
      forall p ensures p in EdgePairs(vs) <==> HasEdge(vs, p.0, p.1) {
        if p.0 < |pre| {
          assert vs[p.0] == pre[p.0];
        }
      }
    }
  }

  // The pairs (u, w) with u <= w.
  function Upper(S: set<(nat, nat)>): set<(nat, nat)>
  {
    set p | p in S && p.0 <= p.1
  }

  lemma UpperAdd(S: set<(nat, nat)>, p: (nat, nat))
    requires p !in S
    ensures |Upper(S + {p})| == |Upper(S)| + (if p.0 <= p.1 then 1 else 0)
  {
    if p.0 <= p.1 {
      assert Upper(S + {p}) == Upper(S) + {p};
    } else {
      assert Upper(S + {p}) == Upper(S);
    }
  }

  // In a set of pairs closed under swapping and free of diagonal pairs,
  // exactly half of the pairs have the smaller element first.
  lemma {:induction false} SwapHalf(S: set<(nat, nat)>)
    requires forall p :: p in S ==> p.0 != p.1 && (p.1, p.0) in S
    ensures 2 * |Upper(S)| == |S|
  {
    if S != {} {
      var p :| p in S;
      var q := (p.1, p.0);
      var rest := S - {p, q};
      assert forall r :: r in rest ==> r.0 != r.1 && (r.1, r.0) in rest;
      SwapHalf(rest);
      UpperAdd(rest, p);
      UpperAdd(rest + {p}, q);
      assert S == rest + {p} + {q};
    }
  }

  lemma {:induction false} RowPairsCard<E>(u: nat, outs: seq<OutEdge<E>>)
    requires DistinctTargets(outs)
    ensures |RowPairs(u, outs)| == |outs|
  {
    if outs != [] {
      var pre := outs[..|outs| - 1];
      assert DistinctTargets(pre) by {
        forall i, j | 0 <= i < j < |pre| ensures pre[i].to != pre[j].to {
          assert pre[i] == outs[i] && pre[j] == outs[j];
        }
      }
      RowPairsCard(u, pre);
      assert (u, outs[|outs| - 1].to) !in RowPairs(u, pre) by {
        forall i | 0 <= i < |pre| ensures pre[i].to != outs[|outs| - 1].to {
          assert pre[i] == outs[i];
        }
      }
    }
  }

  // Without multi-edges, the number of records equals the number of distinct pairs.
  lemma {:induction false} EdgePairsCard<V, E>(vs: seq<Vertex<V, E>>)
    requires NoMultiEdges(vs)
    ensures |EdgePairs(vs)| == Records(vs)
  {
    if vs != [] {
      var pre := vs[..|vs| - 1];
      var u := |vs| - 1;
      assert NoMultiEdges(pre) by {
        forall k | 0 <= k < |pre| ensures DistinctTargets(pre[k].outs) {
          assert pre[k] == vs[k];
        }
      }
      EdgePairsCard(pre);
      RowPairsCard(u, vs[u].outs);
      EdgePairsMembers(pre);
      assert EdgePairs(pre) !! RowPairs(u, vs[u].outs) by {
        forall p | p in RowPairs(u, vs[u].outs) ensures p !in EdgePairs(pre) {
          assert p.0 == u;
        }
      }
    }
  }

  // An undirected graph stores an even number of records: they come in pairs.
  lemma UndirectedRecordsEven<V, E>(vs: seq<Vertex<V, E>>)
    requires Simple(vs) && Symmetric(vs)
    ensures Records(vs) % 2 == 0
  {
    EdgePairsMembers(vs);
    EdgePairsCard(vs);
    forall p | p in EdgePairs(vs) ensures p.0 != p.1 && (p.1, p.0) in EdgePairs(vs) {
      var i :| 0 <= i < |vs[p.0].outs| && vs[p.0].outs[i].to == p.1;
    }
    SwapClosedEven(EdgePairs(vs));
  }

  // A vertex of a simple graph has at most |vs| - 1 records.
  lemma OutDegreeBound<V, E>(vs: seq<Vertex<V, E>>, u: nat)
    requires Simple(vs) && u < |vs|
    ensures |vs[u].outs| <= |vs| - 1
  {
    var outs := vs[u].outs;
    var ts := seq(|outs|, i requires 0 <= i < |outs| => if outs[i].to < u then outs[i].to else outs[i].to - 1);
    assert Distinct(ts) by {
      forall i, j | 0 <= i < j < |ts| ensures ts[i] != ts[j] {
        assert outs[i].to != outs[j].to && outs[i].to != u && outs[j].to != u;
      }
    }
    DistinctBounded(ts, |vs| - 1);
  }

  // A simple graph has at most |vs| * (|vs| - 1) records.
  lemma {:induction false} RecordsBound<V, E>(vs: seq<Vertex<V, E>>, n: nat)
    requires |vs| <= n
    requires forall u :: 0 <= u < |vs| ==> |vs[u].outs| <= n - 1
    ensures Records(vs) <= |vs| * (n - 1)
  {
    if vs != [] {
      RecordsBound(vs[..|vs| - 1], n);
    }
  }

  // A simple graph has at most |vs| * (|vs| - 1) records.
  lemma RecordsMax<V, E>(vs: seq<Vertex<V, E>>)
    requires Simple(vs)
    ensures Records(vs) <= |vs| * (|vs| - 1)
  {
    forall u | 0 <= u < |vs| ensures |vs[u].outs| <= |vs| - 1 {
      OutDegreeBound(vs, u);
    }
    RecordsBound(vs, |vs|);
  }

  // Without multi-edges, no record is stored exactly when no two vertices are
  // adjacent.
  lemma RecordsZero<V, E>(vs: seq<Vertex<V, E>>)
    requires NoMultiEdges(vs)
    ensures Records(vs) == 0 <==> forall a: nat, b: nat :: !HasEdge(vs, a, b)
  {
    EdgePairsCard(vs);
    EdgePairsMembers(vs);
    if Records(vs) == 0 {
      assert EdgePairs(vs) == {};
      forall a: nat, b: nat ensures !HasEdge(vs, a, b) {
        assert (a, b) !in EdgePairs(vs);
      }
    } else {
      var p :| p in EdgePairs(vs);
      assert HasEdge(vs, p.0, p.1);
    }
  }
}
