// What the adjacency list's operations do to its storage, stated on values:
// the sequence of vertices before and after. The class in AdjacencyList runs
// these operations in place and is proved to produce exactly these values; the
// lemmas here say what the values mean (which edges exist afterwards, and that
// the "no loops, no multiedges" and mirrored-storage invariants are kept).
module AdjacencyOps {
  import opened Util
  import opened GraphTypes

  // ---------------------------------------------------------------------------
  // Inserting edges.

  // edge_emplace_simple_nonexistent: append a record to the source's list.
  function AddRecord<V, E>(vs: seq<Vertex<V, E>>, from: nat, to: nat, p: E): (r: seq<Vertex<V, E>>)
    requires from < |vs|
    ensures |r| == |vs| && Records(r) == Records(vs) + 1
    ensures forall a: nat, b: nat :: HasEdge(r, a, b) <==> HasEdge(vs, a, b) || (a == from && b == to)
    ensures forall k :: 0 <= k < |r| ==> r[k].payload == vs[k].payload
    ensures forall k :: 0 <= k < |vs| && k != from ==> r[k] == vs[k]
  {
    var x := Vertex(vs[from].payload, vs[from].outs + [OutEdge(to, p)]);
    RecordsUpdate(vs, from, x);
    var r := vs[from := x];
    assert forall a: nat, b: nat :: HasEdge(r, a, b) <==> HasEdge(vs, a, b) || (a == from && b == to) by {
      forall a: nat, b: nat ensures HasEdge(r, a, b) <==> HasEdge(vs, a, b) || (a == from && b == to) {
        if a == from && b == to {
          assert r[a].outs[|vs[from].outs|].to == b;
        }
        if a == from && HasEdge(vs, a, b) {
          var i :| 0 <= i < |vs[a].outs| && vs[a].outs[i].to == b;
          assert r[a].outs[i].to == b;
        }
        if a == from && HasEdge(r, a, b) {
          var i :| 0 <= i < |r[a].outs| && r[a].outs[i].to == b;
          if i < |vs[a].outs| { assert vs[a].outs[i].to == b; }
        }
      }
    }
    r
  }

  // edge_emplace_simple: add the record from -> to unless one exists already;
  // the flag says whether a record was added.
  function EmplaceSimple<V, E>(vs: seq<Vertex<V, E>>, from: nat, to: nat, p: E): (r: (seq<Vertex<V, E>>, bool))
    requires from < |vs|
    ensures r.1 <==> !HasEdge(vs, from, to)
    ensures |r.0| == |vs| && Records(r.0) == Records(vs) + (if r.1 then 1 else 0)
    ensures forall a: nat, b: nat :: HasEdge(r.0, a, b) <==> HasEdge(vs, a, b) || (a == from && b == to)
    ensures forall k :: 0 <= k < |vs| ==> r.0[k].payload == vs[k].payload
    ensures forall k :: 0 <= k < |vs| && k != from ==> r.0[k] == vs[k]
  {
    if FirstTo(vs[from].outs, to).None? then (AddRecord(vs, from, to, p), true) else (vs, false)
  }

  // edge_emplace: a directed graph adds from -> to; an undirected graph adds
  // to -> from and then from -> to, and reports whether the first was added.
  function Emplace<V, E>(vs: seq<Vertex<V, E>>, directed: bool, from: nat, to: nat, p: E): (r: (seq<Vertex<V, E>>, bool))
    requires from < |vs| && to < |vs|
    ensures |r.0| == |vs|
  {
    if directed then EmplaceSimple(vs, from, to, p)
    else
      var first := EmplaceSimple(vs, to, from, p);
      (EmplaceSimple(first.0, from, to, p).0, first.1)
  }

  // What edge_emplace promises: the edge exists afterwards (both directions in
  // an undirected graph), nothing else changes, the result says whether the edge
  // is new, and the graph stays simple (and mirrored when undirected).
  lemma EmplaceEffect<V, E>(vs: seq<Vertex<V, E>>, directed: bool, from: nat, to: nat, p: E)
    requires from < |vs| && to < |vs| && from != to
    requires WellFormed(vs, directed)
    ensures var (r, added) := Emplace(vs, directed, from, to, p);
      && |r| == |vs|
      && (added <==> !HasEdge(vs, from, to))
      && (forall a: nat, b: nat :: HasEdge(r, a, b) <==>
            HasEdge(vs, a, b) || (a == from && b == to) || (!directed && a == to && b == from))
      && Records(r) == Records(vs) + (if !added then 0 else if directed then 1 else 2)
      && WellFormed(r, directed)
  {
    var (r, added) := Emplace(vs, directed, from, to, p);
    EmplaceSimplePreservesSimple(vs, from, to, p);
    if !directed {
      var first := EmplaceSimple(vs, to, from, p);
      EmplaceSimplePreservesSimple(vs, to, from, p);
      EmplaceSimplePreservesSimple(first.0, from, to, p);
      assert HasEdge(vs, from, to) <==> HasEdge(vs, to, from);
    }
  }

  // A record is an edge.
  lemma RecordsAreEdges<V, E>(vs: seq<Vertex<V, E>>)
    ensures forall u: nat, w: nat, p: E :: HasRecord(vs, u, w, p) ==> HasEdge(vs, u, w)
  {
    forall u: nat, w: nat, p: E | HasRecord(vs, u, w, p) ensures HasEdge(vs, u, w) {
      var i :| 0 <= i < |vs[u].outs| && vs[u].outs[i] == OutEdge(w, p);
    }
  }

  // The records after edge_emplace_simple: the new one, if any, and the old ones.
  lemma EmplaceSimpleRecords<V, E>(vs: seq<Vertex<V, E>>, from: nat, to: nat, p: E)
    requires from < |vs|
    ensures var r := EmplaceSimple(vs, from, to, p).0;
      forall a: nat, b: nat, q: E :: HasRecord(r, a, b, q) <==>
        HasRecord(vs, a, b, q) || (!HasEdge(vs, from, to) && a == from && b == to && q == p)
  {
    var r := EmplaceSimple(vs, from, to, p).0;
    forall a: nat, b: nat, q: E ensures HasRecord(r, a, b, q) <==>
      HasRecord(vs, a, b, q) || (!HasEdge(vs, from, to) && a == from && b == to && q == p)
    {
      if a == from && !HasEdge(vs, from, to) {
        assert r[a].outs == vs[a].outs + [OutEdge(to, p)];
      } else if a < |vs| {
        assert r[a] == vs[a];
      }
    }
  }

  lemma EmplaceSimpleRecord<V, E>(vs: seq<Vertex<V, E>>, from: nat, to: nat, p: E, a: nat, b: nat, q: E)
    requires from < |vs|
    ensures HasRecord(EmplaceSimple(vs, from, to, p).0, a, b, q) <==>
      HasRecord(vs, a, b, q) || (!HasEdge(vs, from, to) && a == from && b == to && q == p)
  {
    EmplaceSimpleRecords(vs, from, to, p);
  }

  // The records after an undirected edge_emplace: both records of a new edge
  // carry its payload; an existing edge keeps its records as they are.
  lemma EmplaceUndirectedRecords<V, E>(vs: seq<Vertex<V, E>>, from: nat, to: nat, p: E)
    requires from < |vs| && to < |vs| && from != to && WellFormed(vs, false)
    ensures var r := Emplace(vs, false, from, to, p).0;
      forall a: nat, b: nat, q: E :: HasRecord(r, a, b, q) <==>
        HasRecord(vs, a, b, q) || (!HasEdge(vs, from, to) && q == p && ((a == from && b == to) || (a == to && b == from)))
  {
    var first := EmplaceSimple(vs, to, from, p).0;
    EmplaceSimpleRecords(vs, to, from, p);
    EmplaceSimpleRecords(first, from, to, p);
    assert HasEdge(vs, to, from) == HasEdge(vs, from, to);
    assert HasEdge(first, from, to) == HasEdge(vs, from, to);
  }

  lemma EmplaceUndirectedRecord<V, E>(vs: seq<Vertex<V, E>>, from: nat, to: nat, p: E, a: nat, b: nat, q: E)
    requires from < |vs| && to < |vs| && from != to && WellFormed(vs, false)
    ensures HasRecord(Emplace(vs, false, from, to, p).0, a, b, q) <==>
      HasRecord(vs, a, b, q) || (!HasEdge(vs, from, to) && q == p && ((a == from && b == to) || (a == to && b == from)))
  {
    EmplaceUndirectedRecords(vs, from, to, p);
  }

  // Undirected edge_emplace keeps every record's partner at the same payload.
  lemma EmplaceMirrored<V, E>(vs: seq<Vertex<V, E>>, from: nat, to: nat, p: E)
    requires from < |vs| && to < |vs| && from != to && WellFormed(vs, false) && Mirrored(vs)
    ensures Mirrored(Emplace(vs, false, from, to, p).0)
  {
    var r := Emplace(vs, false, from, to, p).0;
    forall u, i | 0 <= u < |r| && 0 <= i < |r[u].outs| ensures HasRecord(r, r[u].outs[i].to, u, r[u].outs[i].payload) {
      var x := r[u].outs[i];
      assert HasRecord(r, u, x.to, x.payload);
      EmplaceUndirectedRecord(vs, from, to, p, u, x.to, x.payload);
      EmplaceUndirectedRecord(vs, from, to, p, x.to, u, x.payload);
      if HasRecord(vs, u, x.to, x.payload) {
        var j :| 0 <= j < |vs[u].outs| && vs[u].outs[j] == x;
        assert HasRecord(vs, x.to, u, x.payload);
      }
    }
  }

  lemma EmplaceWellFormed<V, E>(vs: seq<Vertex<V, E>>, from: nat, to: nat, p: E)
    requires from < |vs| && to < |vs| && from != to && WellFormed(vs, false)
    ensures WellFormed(Emplace(vs, false, from, to, p).0, false)
  {
    EmplaceEffect(vs, false, from, to, p);
  }

  lemma EmplaceSimplePreservesSimple<V, E>(vs: seq<Vertex<V, E>>, from: nat, to: nat, p: E)
    requires from < |vs| && to < |vs| && from != to
    requires Simple(vs)
    ensures Simple(EmplaceSimple(vs, from, to, p).0)
  {
    var r := EmplaceSimple(vs, from, to, p).0;
    if r != vs {
      assert r == vs[from := Vertex(vs[from].payload, vs[from].outs + [OutEdge(to, p)])];
      assert DistinctTargets(r[from].outs) by {
        forall i, j | 0 <= i < j < |r[from].outs| ensures r[from].outs[i].to != r[from].outs[j].to {
          if j == |vs[from].outs| {
            assert r[from].outs[i] == vs[from].outs[i];
          } else {
            assert r[from].outs[i] == vs[from].outs[i] && r[from].outs[j] == vs[from].outs[j];
          }
        }
      }
      forall u, i | 0 <= u < |r| && 0 <= i < |r[u].outs| ensures r[u].outs[i].to < |r| && r[u].outs[i].to != u {
        if u == from && i < |vs[from].outs| { assert r[u].outs[i] == vs[u].outs[i]; }
      }
    }
  }

  // ---------------------------------------------------------------------------
  // Erasing edges.

  // The list without its first record to `to` (the whole list if there is none).
  function RemoveFirstTo<E>(outs: seq<OutEdge<E>>, to: nat): (r: seq<OutEdge<E>>)
  {
    match FirstTo(outs, to)
      case None => outs
      case Some(k) => outs[..k] + outs[k + 1..]
  }

  // Dropping the record at position k keeps exactly the targets of the other records.
  lemma RemoveAtAny<E>(outs: seq<OutEdge<E>>, k: nat, t: nat)
    requires k < |outs|
    ensures AnyTo(outs[..k] + outs[k + 1..], t) <==> exists i :: 0 <= i < |outs| && i != k && outs[i].to == t
  {
    var r := outs[..k] + outs[k + 1..];
    if AnyTo(r, t) {
      var i :| 0 <= i < |r| && r[i].to == t;
      if i < k { assert r[i] == outs[i]; } else { assert r[i] == outs[i + 1]; }
    }
    if exists i :: 0 <= i < |outs| && i != k && outs[i].to == t {
      var i :| 0 <= i < |outs| && i != k && outs[i].to == t;
      if i < k { assert r[i] == outs[i]; } else { assert r[i - 1] == outs[i]; }
    }
  }

  // Dropping the record to v: with distinct targets, every other target stays.
  lemma RemoveFirstToAny<E>(outs: seq<OutEdge<E>>, v: nat, t: nat)
    requires DistinctTargets(outs)
    ensures AnyTo(RemoveFirstTo(outs, v), t) == (t != v && AnyTo(outs, t))
  {
    var f := FirstTo(outs, v);
    if f.Some? {
      var k := f.value;
      RemoveAtAny(outs, k, t);
      if AnyTo(outs, t) && t != v {
        var i :| 0 <= i < |outs| && outs[i].to == t;
        assert i != k;
      }
    }
  }

  lemma RemoveFirstToDistinct<E>(outs: seq<OutEdge<E>>, v: nat)
    requires DistinctTargets(outs)
    ensures DistinctTargets(RemoveFirstTo(outs, v))
  {
    match FirstTo(outs, v)
      case None =>
      case Some(k) => {
        var r := outs[..k] + outs[k + 1..];
        forall i, j | 0 <= i < j < |r| ensures r[i].to != r[j].to {
          var i' := if i < k then i else i + 1;
          var j' := if j < k then j else j + 1;
          assert r[i] == outs[i'] && r[j] == outs[j'];
        }
      }
  }

  // edge_erase_simple: drop the first record from -> to; the flag says whether one was there.
  function EraseSimple<V, E>(vs: seq<Vertex<V, E>>, from: nat, to: nat): (r: (seq<Vertex<V, E>>, bool))
    requires from < |vs|
    ensures r.1 <==> HasEdge(vs, from, to)
    ensures |r.0| == |vs| && Records(r.0) + (if r.1 then 1 else 0) == Records(vs)
  {
    var x := Vertex(vs[from].payload, RemoveFirstTo(vs[from].outs, to));
    RecordsUpdate(vs, from, x);
    (vs[from := x], FirstTo(vs[from].outs, to).Some?)
  }

  // edge_erase: an undirected graph also drops the partner record, unless the
  // two endpoints coincide.
  function Erase<V, E>(vs: seq<Vertex<V, E>>, directed: bool, from: nat, to: nat): (r: (seq<Vertex<V, E>>, bool))
    requires from < |vs| && to < |vs|
  {
    if directed || from == to then EraseSimple(vs, from, to)
    else
      var first := EraseSimple(vs, from, to);
      if first.1 then (EraseSimple(first.0, to, from).0, true) else first
  }

  // Dropping the first record to `to` keeps every record with another target,
  // and only those when the targets are distinct.
  lemma RemoveFirstToRecords<E>(outs: seq<OutEdge<E>>, to: nat)
    requires DistinctTargets(outs)
    ensures forall x :: x in RemoveFirstTo(outs, to) <==> x in outs && x.to != to
  {
    match FirstTo(outs, to)
      case None =>
      case Some(k) => {
        var r := outs[..k] + outs[k + 1..];
        forall x ensures x in r <==> x in outs && x.to != to {
          if x in r {
            var i :| 0 <= i < |r| && r[i] == x;
            if i < k { assert r[i] == outs[i]; } else { assert r[i] == outs[i + 1]; }
          }
          if x in outs && x.to != to {
            var i :| 0 <= i < |outs| && outs[i] == x;
            if i < k { assert r[i] == outs[i]; } else { assert r[i - 1] == outs[i]; }
          }
        }
      }
  }

  lemma EraseSimpleEffect<V, E>(vs: seq<Vertex<V, E>>, from: nat, to: nat)
    requires from < |vs| && Simple(vs)
    ensures var r := EraseSimple(vs, from, to).0;
      Simple(r) && forall a: nat, b: nat :: HasEdge(r, a, b) <==> HasEdge(vs, a, b) && !(a == from && b == to)
  {
    EraseSimpleSimple(vs, from, to);
    var r := EraseSimple(vs, from, to).0;
    forall a: nat, b: nat ensures HasEdge(r, a, b) <==> HasEdge(vs, a, b) && !(a == from && b == to) {
      if a == from {
        RemoveFirstToAny(vs[from].outs, to, b);
        assert HasEdge(r, a, b) == AnyTo(r[a].outs, b);
      } else if a < |vs| {
        assert r[a] == vs[a];
      }
    }
  }

  lemma EraseSimpleSimple<V, E>(vs: seq<Vertex<V, E>>, from: nat, to: nat)
    requires from < |vs| && Simple(vs)
    ensures Simple(EraseSimple(vs, from, to).0)
  {
    var r := EraseSimple(vs, from, to).0;
    var outs := vs[from].outs;
    RemoveFirstToDistinct(outs, to);
    RemoveFirstToRecords(outs, to);
    forall u, i | 0 <= u < |r| && 0 <= i < |r[u].outs| ensures r[u].outs[i].to < |r| && r[u].outs[i].to != u {
      if u == from {
        assert r[u].outs[i] in outs;
      } else {
        assert r[u] == vs[u];
      }
    }
    forall u | 0 <= u < |r| ensures DistinctTargets(r[u].outs) {
      if u != from {
        assert r[u] == vs[u];
      }
    }
  }

  // The records after edge_erase_simple: all but the record from -> to.
  lemma EraseSimpleRecords<V, E>(vs: seq<Vertex<V, E>>, from: nat, to: nat)
    requires from < |vs| && Simple(vs)
    ensures var r := EraseSimple(vs, from, to).0;
      forall a: nat, b: nat, q: E :: HasRecord(r, a, b, q) <==> HasRecord(vs, a, b, q) && !(a == from && b == to)
  {
    var r := EraseSimple(vs, from, to).0;
    RemoveFirstToRecords(vs[from].outs, to);
    forall a: nat, b: nat, q: E ensures HasRecord(r, a, b, q) <==> HasRecord(vs, a, b, q) && !(a == from && b == to) {
      if a != from && a < |vs| {
        assert r[a] == vs[a];
      }
    }
  }

  // The records after an undirected edge_erase: all but the two of the edge.
  lemma EraseUndirectedRecords<V, E>(vs: seq<Vertex<V, E>>, from: nat, to: nat)
    requires from < |vs| && to < |vs| && WellFormed(vs, false)
    ensures var r := Erase(vs, false, from, to).0;
      forall a: nat, b: nat, q: E :: HasRecord(r, a, b, q) <==>
        HasRecord(vs, a, b, q) && !(a == from && b == to) && !(a == to && b == from)
  {
    var first := EraseSimple(vs, from, to);
    EraseSimpleRecords(vs, from, to);
    RecordsAreEdges(vs);
    if from != to && first.1 {
      EraseSimpleSimple(vs, from, to);
      EraseSimpleRecords(first.0, to, from);
    }
  }

  lemma EraseUndirectedRecord<V, E>(vs: seq<Vertex<V, E>>, from: nat, to: nat, a: nat, b: nat, q: E)
    requires from < |vs| && to < |vs| && WellFormed(vs, false)
    ensures HasRecord(Erase(vs, false, from, to).0, a, b, q) <==>
      HasRecord(vs, a, b, q) && !(a == from && b == to) && !(a == to && b == from)
  {
    EraseUndirectedRecords(vs, from, to);
  }

  // Undirected edge_erase keeps every record's partner at the same payload.
  lemma EraseMirrored<V, E>(vs: seq<Vertex<V, E>>, from: nat, to: nat)
    requires from < |vs| && to < |vs| && WellFormed(vs, false) && Mirrored(vs)
    ensures Mirrored(Erase(vs, false, from, to).0)
  {
    var r := Erase(vs, false, from, to).0;
    forall u, i | 0 <= u < |r| && 0 <= i < |r[u].outs| ensures HasRecord(r, r[u].outs[i].to, u, r[u].outs[i].payload) {
      var x := r[u].outs[i];
      assert HasRecord(r, u, x.to, x.payload);
      EraseUndirectedRecord(vs, from, to, u, x.to, x.payload);
      EraseUndirectedRecord(vs, from, to, x.to, u, x.payload);
      var j :| 0 <= j < |vs[u].outs| && vs[u].outs[j] == x;
      assert HasRecord(vs, x.to, u, x.payload);
    }
  }

  // What edge_erase promises: the edge is gone (both directions in an undirected
  // graph), nothing else changes, the result says whether it was there, and the
  // invariants are kept.
  lemma EraseEffect<V, E>(vs: seq<Vertex<V, E>>, directed: bool, from: nat, to: nat)
    requires from < |vs| && to < |vs|
    requires WellFormed(vs, directed)
    ensures var (r, removed) := Erase(vs, directed, from, to);
      && |r| == |vs|
      && (removed <==> HasEdge(vs, from, to))
      && (forall a: nat, b: nat :: HasEdge(r, a, b) <==>
            HasEdge(vs, a, b) && !(a == from && b == to) && !(!directed && a == to && b == from))
      && Records(r) + (if !removed then 0 else if directed then 1 else 2) == Records(vs)
      && WellFormed(r, directed)
  {
    EraseSimpleEffect(vs, from, to);
    if !directed && from != to {
      var first := EraseSimple(vs, from, to);
      EraseSimpleEffect(first.0, to, from);
      assert HasEdge(vs, from, to) <==> HasEdge(vs, to, from);
    }
    if from == to {
      assert !HasEdge(vs, from, to);
    }
  }

  // ---------------------------------------------------------------------------
  // Erasing vertices.

  // vertex_erase_simple: drop the vertex, leaving the other records untouched.
  function RemoveVertex<V, E>(vs: seq<Vertex<V, E>>, index: nat): (r: seq<Vertex<V, E>>)
    requires index < |vs|
    ensures |r| == |vs| - 1 && Records(r) + |vs[index].outs| == Records(vs)
    ensures forall k :: 0 <= k < |r| ==> r[k] == vs[if k < index then k else k + 1]
  {
    RecordsRemove(vs, index);
    vs[..index] + vs[index + 1..]
  }

  // The records of one vertex once vertex `index` is gone: records to it are
  // dropped, and targets above it move down by one.
  function ShiftOuts<E>(outs: seq<OutEdge<E>>, index: nat): (r: seq<OutEdge<E>>)
    ensures |r| <= |outs|
  {
    if outs == [] then []
    else
      var x := outs[0];
      (if x.to == index then [] else [OutEdge(Shift(x.to, index), x.payload)])
        + ShiftOuts(outs[1..], index)
  }

  // New index of vertex t once vertex `index` (other than t) is gone.
  function Shift(t: nat, index: nat): nat
  {
    if t > index then t - 1 else t
  }

  // Old index of the vertex that sits at `k` once vertex `index` is gone.
  function Up(k: nat, index: nat): nat
  {
    if k < index then k else k + 1
  }

  // A shifted list has a record to b exactly when the old list had one to b's old index.
  lemma {:induction false} ShiftOutsAny<E>(outs: seq<OutEdge<E>>, index: nat, b: nat)
    ensures AnyTo(ShiftOuts(outs, index), b) == AnyTo(outs, Up(b, index))
  {
    if outs != [] {
      ShiftOutsAny(outs[1..], index, b);
      var rest := ShiftOuts(outs[1..], index);
      var t := outs[0].to;
      assert t == Up(b, index) <==> (t != index && Shift(t, index) == b);
      if t != index {
        var x := OutEdge(Shift(t, index), outs[0].payload);
        assert ShiftOuts(outs, index) == [x] + rest;
        assert ([x] + rest)[1..] == rest;
        assert AnyTo([x] + rest, b) == (x.to == b || AnyTo(rest, b));
      } else {
        assert ShiftOuts(outs, index) == rest;
      }
    }
  }

  lemma ShiftOutsHas<E>(outs: seq<OutEdge<E>>, index: nat)
    ensures forall b: nat :: AnyTo(ShiftOuts(outs, index), b) == AnyTo(outs, Up(b, index))
  {
    forall b: nat ensures AnyTo(ShiftOuts(outs, index), b) == AnyTo(outs, Up(b, index)) {
      ShiftOutsAny(outs, index, b);
    }
  }

  // Shifting keeps targets distinct: distinct old targets other than `index` map to distinct new ones.
  lemma {:induction false} ShiftOutsDistinct<E>(outs: seq<OutEdge<E>>, index: nat)
    requires DistinctTargets(outs)
    ensures DistinctTargets(ShiftOuts(outs, index))
  {
    if outs != [] {
      DistinctTail(outs);
      ShiftOutsDistinct(outs[1..], index);
      var rest := ShiftOuts(outs[1..], index);
      var r := ShiftOuts(outs, index);
      if outs[0].to != index {
        assert r == [r[0]] + rest;
        ShiftOutsAny(outs[1..], index, r[0].to);
        assert !AnyTo(outs[1..], outs[0].to) by {
          forall j | 0 <= j < |outs[1..]| ensures outs[1..][j].to != outs[0].to {
            assert outs[1..][j] == outs[j + 1];
          }
        }
        forall j | 0 <= j < |rest| ensures rest[j].to != r[0].to {
          assert AnyTo(rest, rest[j].to);
        }
      }
    }
  }

  // vertex_erase: the vertex is dropped, and every remaining list is shifted.
  function EraseVertex<V, E>(vs: seq<Vertex<V, E>>, index: nat): (r: seq<Vertex<V, E>>)
    requires index < |vs|
    ensures |r| == |vs| - 1
  {
    var rest := RemoveVertex(vs, index);
    seq(|rest|, k requires 0 <= k < |rest| => Vertex(rest[k].payload, ShiftOuts(rest[k].outs, index)))
  }

  // What vertex_erase promises: the other vertices keep their payloads in order,
  // their edges among themselves are exactly the old ones (renumbered), and the
  // graph stays simple (and symmetric when undirected).
  lemma EraseVertexEffect<V, E>(vs: seq<Vertex<V, E>>, directed: bool, index: nat)
    requires index < |vs| && WellFormed(vs, directed)
    ensures var r := EraseVertex(vs, index);
      && (forall k :: 0 <= k < |r| ==> r[k].payload == vs[Up(k, index)].payload)
      && (forall a: nat, b: nat :: HasEdge(r, a, b) <==> a < |r| && HasEdge(vs, Up(a, index), Up(b, index)))
      && WellFormed(r, directed)
  {
    var r := EraseVertex(vs, index);
    forall a: nat, b: nat ensures HasEdge(r, a, b) <==> a < |r| && HasEdge(vs, Up(a, index), Up(b, index)) {
      if a < |r| {
        ShiftOutsAny(vs[Up(a, index)].outs, index, b);
        assert r[a].outs == ShiftOuts(vs[Up(a, index)].outs, index);
        assert HasEdge(r, a, b) == AnyTo(r[a].outs, b);
        assert HasEdge(vs, Up(a, index), Up(b, index)) == AnyTo(vs[Up(a, index)].outs, Up(b, index));
      }
    }
    forall k | 0 <= k < |r| ensures DistinctTargets(r[k].outs) {
      ShiftOutsDistinct(vs[Up(k, index)].outs, index);
    }
    forall u, i | 0 <= u < |r| && 0 <= i < |r[u].outs| ensures r[u].outs[i].to < |r| && r[u].outs[i].to != u {
      var b := r[u].outs[i].to;
      assert HasEdge(r, u, b);
      assert HasEdge(vs, Up(u, index), Up(b, index));
      var j :| 0 <= j < |vs[Up(u, index)].outs| && vs[Up(u, index)].outs[j].to == Up(b, index);
    }
  }
  // A shifted list holds record y exactly when the old list held y with y's
  // target at its old index.
  lemma {:induction false} ShiftOutsRecord<E>(outs: seq<OutEdge<E>>, index: nat, y: OutEdge<E>)
    ensures y in ShiftOuts(outs, index) <==> OutEdge(Up(y.to, index), y.payload) in outs
  {
    if outs != [] {
      ShiftOutsRecord(outs[1..], index, y);
      var x := outs[0];
      var rest := ShiftOuts(outs[1..], index);
      assert outs == [x] + outs[1..];
      assert x == OutEdge(Up(y.to, index), y.payload) <==> (x.to != index && OutEdge(Shift(x.to, index), x.payload) == y);
      if x.to == index {
        assert ShiftOuts(outs, index) == rest;
      } else {
        assert ShiftOuts(outs, index) == [OutEdge(Shift(x.to, index), x.payload)] + rest;
      }
    }
  }

  // vertex_erase keeps every record's partner at the same payload: the two
  // records of an undirected edge are dropped or renumbered together.
  lemma EraseVertexMirrored<V, E>(vs: seq<Vertex<V, E>>, index: nat)
    requires index < |vs| && Mirrored(vs)
    ensures Mirrored(EraseVertex(vs, index))
  {
    var r := EraseVertex(vs, index);
    forall u, i | 0 <= u < |r| && 0 <= i < |r[u].outs| ensures HasRecord(r, r[u].outs[i].to, u, r[u].outs[i].payload) {
      EraseVertexPartner(vs, index, u, r[u].outs[i]);
    }
  }

  // The partner of one record that survives vertex_erase.
  lemma EraseVertexPartner<V, E>(vs: seq<Vertex<V, E>>, index: nat, u: nat, y: OutEdge<E>)
    requires index < |vs| && Mirrored(vs) && u < |vs| - 1
    requires y in EraseVertex(vs, index)[u].outs
    ensures HasRecord(EraseVertex(vs, index), y.to, u, y.payload)
  {
    var r := EraseVertex(vs, index);
    var a, b := Up(u, index), Up(y.to, index);
    assert r[u].outs == ShiftOuts(vs[a].outs, index);
    ShiftOutsRecord(vs[a].outs, index, y);
    var j :| 0 <= j < |vs[a].outs| && vs[a].outs[j] == OutEdge(b, y.payload);
    assert HasRecord(vs, b, a, y.payload);
    assert r[y.to].outs == ShiftOuts(vs[b].outs, index);
    ShiftOutsRecord(vs[b].outs, index, OutEdge(u, y.payload));
  }


  // The backward scan of vertex_erase as written. `k` is the loop counter before
  // its `k-- > 0` test. After erasing at position k - 1 the body's `++i` makes the
  // next round look at position k - 1 again, which now holds the record that was
  // after it (already processed), or lies past the end of the list. None stands
  // for reading past the end.
  function ScanAsWritten<E>(outs: seq<OutEdge<E>>, k: nat, index: nat): (r: Option<seq<OutEdge<E>>>)
    decreases k + |outs|
  {
    if k == 0 then Some(outs)
    else
      var i := k - 1;
      if i >= |outs| then None
      else if outs[i].to == index then ScanAsWritten(outs[..i] + outs[i + 1..], i + 1, index)
      else if outs[i].to > index then ScanAsWritten(outs[i := OutEdge(outs[i].to - 1, outs[i].payload)], i, index)
      else ScanAsWritten(outs, i, index)
  }

  // The same scan without the `++i`: every position is looked at once.
  function ScanCorrected<E>(outs: seq<OutEdge<E>>, k: nat, index: nat): seq<OutEdge<E>>
    requires k <= |outs|
    decreases k
  {
    if k == 0 then outs
    else
      var i := k - 1;
      if outs[i].to == index then ScanCorrected(outs[..i] + outs[i + 1..], i, index)
      else if outs[i].to > index then ScanCorrected(outs[i := OutEdge(outs[i].to - 1, outs[i].payload)], i, index)
      else ScanCorrected(outs, i, index)
  }

  lemma ShiftOutsSingle<E>(x: OutEdge<E>, index: nat)
    ensures ShiftOuts([x], index) == if x.to == index then [] else [OutEdge(Shift(x.to, index), x.payload)]
  {
    assert [x][1..] == [];
  }

  // The corrected scan shifts the list: the scanned prefix is shifted, the rest kept.
  lemma {:induction false} ScanCorrectedShifts<E>(outs: seq<OutEdge<E>>, k: nat, index: nat)
    requires k <= |outs|
    ensures ScanCorrected(outs, k, index) == ShiftOuts(outs[..k], index) + outs[k..]
    decreases k
  {
    if k == 0 {
      assert outs[..0] == [];
    } else {
      var i := k - 1;
      var x := outs[i];
      assert outs[..k] == outs[..i] + [x];
      ShiftOutsConcat(outs[..i], [x], index);
      ShiftOutsSingle(x, index);
      if x.to == index {
        var next := outs[..i] + outs[i + 1..];
        ScanCorrectedShifts(next, i, index);
        assert next[..i] == outs[..i];
        assert next[i..] == outs[k..];
      } else if x.to > index {
        var next := outs[i := OutEdge(x.to - 1, x.payload)];
        ScanCorrectedShifts(next, i, index);
        assert next[..i] == outs[..i];
        assert next[i..] == [OutEdge(x.to - 1, x.payload)] + outs[k..];
      } else {
        ScanCorrectedShifts(outs, i, index);
        assert outs[i..] == [x] + outs[k..];
      }
    }
  }

  lemma {:induction false} ShiftOutsConcat<E>(a: seq<OutEdge<E>>, b: seq<OutEdge<E>>, index: nat)
    ensures ShiftOuts(a + b, index) == ShiftOuts(a, index) + ShiftOuts(b, index)
  {
    if a == [] {
      assert a + b == b;
    } else {
      assert (a + b)[1..] == a[1..] + b;
      ShiftOutsConcat(a[1..], b, index);
    }
  }

  // The defect: a list [index, index + 2] should become [index + 1], but the
  // scan as written looks at the shifted record twice and yields [index].
  lemma ScanAsWrittenShiftsTwice<E>(index: nat, p: E, q: E)
    ensures ShiftOuts([OutEdge(index, p), OutEdge(index + 2, q)], index) == [OutEdge(index + 1, q)]
    ensures ScanAsWritten([OutEdge(index, p), OutEdge(index + 2, q)], 2, index) == Some([OutEdge(index, q)])
  {
    var s := [OutEdge(index, p), OutEdge(index + 2, q)];
    var s1 := s[1 := OutEdge(index + 1, q)];
    assert ScanAsWritten(s, 2, index) == ScanAsWritten(s1, 1, index);
    assert s1[..0] + s1[1..] == [OutEdge(index + 1, q)];
    assert ScanAsWritten(s1, 1, index) == ScanAsWritten([OutEdge(index + 1, q)], 1, index);
    assert [OutEdge(index + 1, q)][0 := OutEdge(index, q)] == [OutEdge(index, q)];
    assert ScanAsWritten([OutEdge(index + 1, q)], 1, index) == ScanAsWritten([OutEdge(index, q)], 0, index);
  }

  // The defect also reads past the end: a list whose last record points at the
  // erased vertex makes the next round read the position after the list.
  lemma ScanAsWrittenReadsPastEnd<E>(index: nat, p: E)
    ensures ShiftOuts([OutEdge(index, p)], index) == []
    ensures ScanAsWritten([OutEdge(index, p)], 1, index) == None
  {
    var s := [OutEdge(index, p)];
    assert s[..0] + s[1..] == [];
  }

  // ---------------------------------------------------------------------------
  // The edges of a graph in the order the library's loops visit them: vertex by
  // vertex, each vertex's records in list order.

  function RowEdges<E>(u: nat, outs: seq<OutEdge<E>>): (r: seq<Edge<E>>)
    ensures |r| == |outs|
    ensures forall i :: 0 <= i < |outs| ==> r[i] == EdgeOf(u, outs[i])
  {
    if outs == [] then [] else RowEdges(u, outs[..|outs| - 1]) + [EdgeOf(u, outs[|outs| - 1])]
  }

  function EdgesUpTo<V, E>(vs: seq<Vertex<V, E>>, n: nat): (r: seq<Edge<E>>)
    requires n <= |vs|
  {
    if n == 0 then [] else EdgesUpTo(vs, n - 1) + RowEdges(n - 1, vs[n - 1].outs)
  }

  function Edges<V, E>(vs: seq<Vertex<V, E>>): seq<Edge<E>>
  {
    EdgesUpTo(vs, |vs|)
  }

  // The edge is listed by the first n rows exactly when it is a record of one of them.
  ghost predicate Listed<V, E>(vs: seq<Vertex<V, E>>, e: Edge<E>)
  {
    e.from < |vs| && exists i :: 0 <= i < |vs[e.from].outs| && vs[e.from].outs[i] == OutEdge(e.to, e.payload)
  }

  lemma {:induction false} EdgesUpToMember<V, E>(vs: seq<Vertex<V, E>>, n: nat, e: Edge<E>)
    requires n <= |vs|
    ensures e in EdgesUpTo(vs, n) <==> e.from < n && Listed(vs, e)
  {
    if n > 0 {
      EdgesUpToMember(vs, n - 1, e);
      var row := RowEdges(n - 1, vs[n - 1].outs);
      if e in row {
        var i :| 0 <= i < |row| && row[i] == e;
        assert vs[e.from].outs[i] == OutEdge(e.to, e.payload);
      }
      if e.from == n - 1 && Listed(vs, e) {
        var i :| 0 <= i < |vs[e.from].outs| && vs[e.from].outs[i] == OutEdge(e.to, e.payload);
        assert row[i] == e;
      }
    }
  }

  lemma EdgesMembers<V, E>(vs: seq<Vertex<V, E>>)
    ensures forall e :: e in Edges(vs) <==> Listed(vs, e)
    ensures forall e :: e in Edges(vs) ==> HasEdge(vs, e.from, e.to)
    ensures forall a: nat, b: nat :: HasEdge(vs, a, b) ==> exists e :: e in Edges(vs) && e.from == a && e.to == b
  {
    forall e ensures e in Edges(vs) <==> Listed(vs, e) {
      EdgesUpToMember(vs, |vs|, e);
    }
    forall e | e in Edges(vs) ensures HasEdge(vs, e.from, e.to) {
      EdgesUpToMember(vs, |vs|, e);
      assert Listed(vs, e);
      var i :| 0 <= i < |vs[e.from].outs| && vs[e.from].outs[i] == OutEdge(e.to, e.payload);
      assert vs[e.from].outs[i].to == e.to;
    }
    forall a: nat, b: nat | HasEdge(vs, a, b) ensures exists e :: e in Edges(vs) && e.from == a && e.to == b {
      var i :| 0 <= i < |vs[a].outs| && vs[a].outs[i].to == b;
      assert Listed(vs, EdgeOf(a, vs[a].outs[i]));
    }
  }

  // ---------------------------------------------------------------------------
  // Conversion to an undirected graph.

  // The payloads of a graph, with no edges.
  function Stripped<V, E>(vs: seq<Vertex<V, E>>): (r: seq<Vertex<V, E>>)
    ensures |r| == |vs| && Records(r) == 0
    ensures forall k :: 0 <= k < |r| ==> r[k] == Vertex(vs[k].payload, [])
  {
    var r := seq(|vs|, k requires 0 <= k < |vs| => Vertex(vs[k].payload, []));
    StrippedRecords(r);
    r
  }

  lemma {:induction false} StrippedRecords<V, E>(r: seq<Vertex<V, E>>)
    requires forall k :: 0 <= k < |r| ==> r[k].outs == []
    ensures Records(r) == 0
  {
    if r != [] {
      StrippedRecords(r[..|r| - 1]);
    }
  }

  // to_undirected() const&: undirected edge_emplace(from, to, payload) for every
  // edge, in iteration order, into a copy of the payloads.
  function UndirectedFold<V, E>(acc: seq<Vertex<V, E>>, es: seq<Edge<E>>): (r: seq<Vertex<V, E>>)
    requires forall k :: 0 <= k < |es| ==> es[k].from < |acc| && es[k].to < |acc|
    ensures |r| == |acc|
    ensures forall k :: 0 <= k < |r| ==> r[k].payload == acc[k].payload
    decreases |es|
  {
    if es == [] then acc
    else UndirectedFold(Emplace(acc, false, es[0].from, es[0].to, es[0].payload).0, es[1..])
  }

  // Some edge of es joins a and b, in either direction.
  ghost predicate Mentions<E>(es: seq<Edge<E>>, a: nat, b: nat)
  {
    exists k :: 0 <= k < |es| && ((es[k].from == a && es[k].to == b) || (es[k].from == b && es[k].to == a))
  }

  lemma MentionsCons<E>(es: seq<Edge<E>>, a: nat, b: nat)
    requires es != []
    ensures Mentions(es, a, b) <==>
      (es[0].from == a && es[0].to == b) || (es[0].from == b && es[0].to == a) || Mentions(es[1..], a, b)
  {
    if Mentions(es[1..], a, b) {
      var k :| 0 <= k < |es[1..]| && ((es[1..][k].from == a && es[1..][k].to == b) || (es[1..][k].from == b && es[1..][k].to == a));
      assert es[k + 1] == es[1..][k];
    }
    if Mentions(es, a, b) {
      var k :| 0 <= k < |es| && ((es[k].from == a && es[k].to == b) || (es[k].from == b && es[k].to == a));
      if k > 0 { assert es[1..][k - 1] == es[k]; }
    }
  }

  lemma UndirectedFoldEffect<V, E>(acc: seq<Vertex<V, E>>, es: seq<Edge<E>>)
    requires forall k :: 0 <= k < |es| ==> es[k].from < |acc| && es[k].to < |acc| && es[k].from != es[k].to
    requires WellFormed(acc, false)
    ensures var r := UndirectedFold(acc, es);
      && WellFormed(r, false)
      && forall a: nat, b: nat :: HasEdge(r, a, b) <==> HasEdge(acc, a, b) || Mentions(es, a, b)
  {
    UndirectedFoldWellFormed(acc, es);
    forall a: nat, b: nat ensures HasEdge(UndirectedFold(acc, es), a, b) <==> HasEdge(acc, a, b) || Mentions(es, a, b) {
      UndirectedFoldEdge(acc, es, a, b);
    }
  }

  lemma {:induction false} UndirectedFoldWellFormed<V, E>(acc: seq<Vertex<V, E>>, es: seq<Edge<E>>)
    requires forall k :: 0 <= k < |es| ==> es[k].from < |acc| && es[k].to < |acc| && es[k].from != es[k].to
    requires WellFormed(acc, false)
    ensures WellFormed(UndirectedFold(acc, es), false)
    decreases |es|
  {
    if es != [] {
      EmplaceWellFormed(acc, es[0].from, es[0].to, es[0].payload);
      UndirectedFoldWellFormed(Emplace(acc, false, es[0].from, es[0].to, es[0].payload).0, es[1..]);
    }
  }

  lemma {:induction false} UndirectedFoldEdge<V, E>(acc: seq<Vertex<V, E>>, es: seq<Edge<E>>, a: nat, b: nat)
    requires forall k :: 0 <= k < |es| ==> es[k].from < |acc| && es[k].to < |acc| && es[k].from != es[k].to
    requires WellFormed(acc, false)
    ensures HasEdge(UndirectedFold(acc, es), a, b) <==> HasEdge(acc, a, b) || Mentions(es, a, b)
    decreases |es|
  {
    if es != [] {
      EmplaceEffect(acc, false, es[0].from, es[0].to, es[0].payload);
      UndirectedFoldEdge(Emplace(acc, false, es[0].from, es[0].to, es[0].payload).0, es[1..], a, b);
      MentionsCons(es, a, b);
    }
  }

  function ToUndirectedCopy<V, E>(vs: seq<Vertex<V, E>>): (r: seq<Vertex<V, E>>)
    requires InRange(vs)
    ensures |r| == |vs|
  {
    EdgesMembers(vs);
    UndirectedFold(Stripped(vs), Edges(vs))
  }

  lemma EdgesMentions<V, E>(vs: seq<Vertex<V, E>>)
    ensures forall a: nat, b: nat :: Mentions(Edges(vs), a, b) <==> HasEdge(vs, a, b) || HasEdge(vs, b, a)
  {
    var es := Edges(vs);
    EdgesMembers(vs);
    forall a: nat, b: nat ensures Mentions(es, a, b) <==> HasEdge(vs, a, b) || HasEdge(vs, b, a) {
      if HasEdge(vs, a, b) {
        var e :| e in es && e.from == a && e.to == b;
        var k :| 0 <= k < |es| && es[k] == e;
      }
      if HasEdge(vs, b, a) {
        var e :| e in es && e.from == b && e.to == a;
        var k :| 0 <= k < |es| && es[k] == e;
      }
      if Mentions(es, a, b) {
        var k :| 0 <= k < |es| && ((es[k].from == a && es[k].to == b) || (es[k].from == b && es[k].to == a));
        assert es[k] in es;
      }
    }
  }

  // What to_undirected() const& promises: the same vertices, and an undirected
  // edge {a, b} exactly where the directed graph had a -> b or b -> a.
  lemma ToUndirectedCopyEffect<V, E>(vs: seq<Vertex<V, E>>)
    requires Simple(vs)
    ensures var r := ToUndirectedCopy(vs);
      && (forall k :: 0 <= k < |r| ==> r[k].payload == vs[k].payload)
      && WellFormed(r, false)
      && forall a: nat, b: nat :: HasEdge(r, a, b) <==> HasEdge(vs, a, b) || HasEdge(vs, b, a)
  {
    var base := Stripped(vs);
    var es := Edges(vs);
    EdgesMembers(vs);
    forall k | 0 <= k < |es| ensures es[k].from < |base| && es[k].to < |base| && es[k].from != es[k].to {
      assert es[k] in es;
      assert HasEdge(vs, es[k].from, es[k].to);
    }
    assert forall a: nat, b: nat :: !HasEdge(base, a, b);
    UndirectedFoldEffect(base, es);
    EdgesMentions(vs);
  }

  // The payload of the first record of outs to w.
  function PayloadTo<E>(outs: seq<OutEdge<E>>, w: nat): (r: Option<E>)
    ensures r.None? <==> !AnyTo(outs, w)
    ensures r.Some? ==> OutEdge(w, r.value) in outs
  {
    match FirstTo(outs, w)
      case None => None
      case Some(k) => Some(outs[k].payload)
  }

  // With distinct targets the first record to w is the only one.
  lemma PayloadToRecord<E>(outs: seq<OutEdge<E>>, w: nat, q: E)
    requires DistinctTargets(outs)
    ensures OutEdge(w, q) in outs <==> PayloadTo(outs, w) == Some(q)
  {
    if OutEdge(w, q) in outs {
      var i :| 0 <= i < |outs| && outs[i] == OutEdge(w, q);
      assert FirstTo(outs, w) == Some(i);
    }
  }

  // Appending a record: the first record to w is found before it, or is it.
  lemma PayloadToSnoc<E>(outs: seq<OutEdge<E>>, x: OutEdge<E>, w: nat)
    ensures PayloadTo(outs + [x], w) ==
      if AnyTo(outs, w) then PayloadTo(outs, w) else if x.to == w then Some(x.payload) else None
  {
    var s := outs + [x];
    if AnyTo(outs, w) {
      var k := FirstTo(outs, w).value;
      assert s[k] == outs[k];
      assert FirstTo(s, w) == Some(k);
    } else if x.to == w {
      assert s[|outs|] == x;
      assert FirstTo(s, w) == Some(|outs|);
    } else {
      assert forall i :: 0 <= i < |s| ==> s[i].to != w by {
        forall i | 0 <= i < |s| ensures s[i].to != w {
          if i < |outs| { assert s[i] == outs[i]; }
        }
      }
    }
  }

  // The edge joins a and b, in either direction.
  predicate Joins<E>(e: Edge<E>, a: nat, b: nat)
  {
    (e.from == a && e.to == b) || (e.from == b && e.to == a)
  }

  // The payload of the first edge of es that joins a and b: the payload the
  // copying to_undirected gives the edge {a, b}.
  function FirstJoin<E>(es: seq<Edge<E>>, a: nat, b: nat): (r: Option<E>)
  {
    if es == [] then None
    else if Joins(es[0], a, b) then Some(es[0].payload)
    else FirstJoin(es[1..], a, b)
  }

  lemma {:induction false} FirstJoinConcat<E>(x: seq<Edge<E>>, y: seq<Edge<E>>, a: nat, b: nat)
    ensures FirstJoin(x + y, a, b) == if FirstJoin(x, a, b).Some? then FirstJoin(x, a, b) else FirstJoin(y, a, b)
  {
    if x == [] {
      assert x + y == y;
    } else {
      assert (x + y)[0] == x[0] && (x + y)[1..] == x[1..] + y;
      FirstJoinConcat(x[1..], y, a, b);
    }
  }

  // In one vertex's row only that vertex's records can join a and b.
  lemma {:induction false} FirstJoinRow<E>(u: nat, outs: seq<OutEdge<E>>, a: nat, b: nat)
    requires a != b
    ensures FirstJoin(RowEdges(u, outs), a, b) ==
      if u == a then PayloadTo(outs, b) else if u == b then PayloadTo(outs, a) else None
    decreases |outs|
  {
    if outs != [] {
      var init, x := outs[..|outs| - 1], outs[|outs| - 1];
      assert outs == init + [x];
      FirstJoinRow(u, init, a, b);
      FirstJoinConcat(RowEdges(u, init), [EdgeOf(u, x)], a, b);
      assert FirstJoin([EdgeOf(u, x)], a, b) == if Joins(EdgeOf(u, x), a, b) then Some(x.payload) else None;
      PayloadToSnoc(init, x, b);
      PayloadToSnoc(init, x, a);
    }
  }

  // The first n rows: the record a -> b comes first when a's row has been read
  // and holds one, the record b -> a otherwise.
  lemma {:induction false} FirstJoinUpTo<V, E>(vs: seq<Vertex<V, E>>, n: nat, a: nat, b: nat)
    requires n <= |vs| && a < b
    ensures FirstJoin(EdgesUpTo(vs, n), a, b) ==
      if a < n && HasEdge(vs, a, b) then PayloadTo(vs[a].outs, b)
      else if b < n then PayloadTo(vs[b].outs, a)
      else None
  {
    if n > 0 {
      FirstJoinUpTo(vs, n - 1, a, b);
      FirstJoinConcat(EdgesUpTo(vs, n - 1), RowEdges(n - 1, vs[n - 1].outs), a, b);
      FirstJoinRow(n - 1, vs[n - 1].outs, a, b);
    }
  }

  // The records of the undirected fold: those of the start, and for every pair
  // the start does not join, the payload of the first edge of es joining it.
  lemma {:induction false} UndirectedFoldRecord<V, E>(acc: seq<Vertex<V, E>>, es: seq<Edge<E>>, a: nat, b: nat, q: E)
    requires forall k :: 0 <= k < |es| ==> es[k].from < |acc| && es[k].to < |acc| && es[k].from != es[k].to
    requires WellFormed(acc, false)
    ensures HasRecord(UndirectedFold(acc, es), a, b, q) <==>
      HasRecord(acc, a, b, q) || (!HasEdge(acc, a, b) && FirstJoin(es, a, b) == Some(q))
    decreases |es|
  {
    if es != [] {
      var e := es[0];
      var next := Emplace(acc, false, e.from, e.to, e.payload).0;
      EmplaceEffect(acc, false, e.from, e.to, e.payload);
      EmplaceUndirectedRecord(acc, e.from, e.to, e.payload, a, b, q);
      UndirectedFoldRecord(next, es[1..], a, b, q);
      assert HasEdge(acc, e.to, e.from) == HasEdge(acc, e.from, e.to);
    }
  }

  lemma EmplaceKeepsMirrored<V, E>(vs: seq<Vertex<V, E>>, from: nat, to: nat, p: E)
    requires from < |vs| && to < |vs| && from != to && WellFormed(vs, false) && Mirrored(vs)
    ensures var r := Emplace(vs, false, from, to, p).0;
      WellFormed(r, false) && Mirrored(r)
  {
    EmplaceWellFormed(vs, from, to, p);
    EmplaceMirrored(vs, from, to, p);
  }

  lemma {:induction false} UndirectedFoldMirrored<V, E>(acc: seq<Vertex<V, E>>, es: seq<Edge<E>>)
    requires Joinable(es, |acc|)
    requires WellFormed(acc, false) && Mirrored(acc)
    ensures Mirrored(UndirectedFold(acc, es))
    decreases |es|
  {
    if es != [] {
      var e := es[0];
      EmplaceKeepsMirrored(acc, e.from, e.to, e.payload);
      JoinableTail(es, |acc|);
      UndirectedFoldMirrored(Emplace(acc, false, e.from, e.to, e.payload).0, es[1..]);
    }
  }

  // The payloads to_undirected() const& writes: the two records of an edge carry
  // the same payload, that of the directed record from the lower-indexed
  // endpoint if there is one, else that of the record from the higher one.
  lemma ToUndirectedCopyRecords<V, E>(vs: seq<Vertex<V, E>>)
    requires Simple(vs)
    ensures var r := ToUndirectedCopy(vs);
      && Mirrored(r)
      && forall a: nat, b: nat, q: E :: a < b ==>
           (HasRecord(r, a, b, q) <==> HasRecord(vs, a, b, q) || (!HasEdge(vs, a, b) && HasRecord(vs, b, a, q)))
  {
    var base := Stripped(vs);
    var es := Edges(vs);
    EdgesMembers(vs);
    forall k | 0 <= k < |es| ensures es[k].from < |base| && es[k].to < |base| && es[k].from != es[k].to {
      assert es[k] in es;
      assert HasEdge(vs, es[k].from, es[k].to);
    }
    assert forall a: nat, b: nat :: !HasEdge(base, a, b);
    UndirectedFoldMirrored(base, es);
    RecordsAreEdges(vs);
    forall a: nat, b: nat, q: E | a < b
      ensures HasRecord(ToUndirectedCopy(vs), a, b, q) <==> HasRecord(vs, a, b, q) || (!HasEdge(vs, a, b) && HasRecord(vs, b, a, q))
    {
      UndirectedFoldRecord(base, es, a, b, q);
      FirstJoinUpTo(vs, |vs|, a, b);
      if HasEdge(vs, a, b) {
        PayloadToRecord(vs[a].outs, b, q);
      } else if b < |vs| {
        PayloadToRecord(vs[b].outs, a, q);
      }
    }
  }

  // to_undirected() &&: keep every record and add the missing reverse record
  // (edge_emplace_simple(to, v, payload)) vertex by vertex; a vertex's list is
  // read once reverse records from lower vertices have been added to it.
  function MoveFold<V, E>(acc: seq<Vertex<V, E>>, v: nat): (r: seq<Vertex<V, E>>)
    requires InRange(acc) && v <= |acc|
    ensures |r| == |acc| && InRange(r)
    ensures forall k :: 0 <= k < |r| ==> r[k].payload == acc[k].payload
    decreases |acc| - v
  {
    if v == |acc| then acc else MoveFold(RowFold(acc, v, acc[v].outs), v + 1)
  }

  function RowFold<V, E>(acc: seq<Vertex<V, E>>, v: nat, outs: seq<OutEdge<E>>): (r: seq<Vertex<V, E>>)
    requires InRange(acc) && v < |acc|
    requires forall i :: 0 <= i < |outs| ==> outs[i].to < |acc|
    ensures |r| == |acc| && InRange(r)
    ensures forall k :: 0 <= k < |r| ==> r[k].payload == acc[k].payload
    decreases |outs|
  {
    if outs == [] then acc
    else
      var next := EmplaceSimple(acc, outs[0].to, v, outs[0].payload).0;
      EmplaceSimpleInRange(acc, outs[0].to, v, outs[0].payload);
      RowFold(next, v, outs[1..])
  }

  lemma EmplaceSimpleInRange<V, E>(vs: seq<Vertex<V, E>>, from: nat, to: nat, p: E)
    requires InRange(vs) && from < |vs| && to < |vs|
    ensures InRange(EmplaceSimple(vs, from, to, p).0)
  {
    var r := EmplaceSimple(vs, from, to, p).0;
    forall u, i | 0 <= u < |r| && 0 <= i < |r[u].outs| ensures r[u].outs[i].to < |r| {
      assert HasEdge(r, u, r[u].outs[i].to);
    }
  }

  // A record of a list with distinct targets is its head, or a record of its
  // tail with another target.
  lemma DistinctCons<E>(outs: seq<OutEdge<E>>, y: OutEdge<E>)
    requires outs != [] && DistinctTargets(outs)
    ensures y in outs <==> y == outs[0] || (y.to != outs[0].to && y in outs[1..])
  {
    assert outs == [outs[0]] + outs[1..];
    if y in outs[1..] {
      var j :| 0 <= j < |outs[1..]| && outs[1..][j] == y;
      assert outs[j + 1] == y;
    }
  }

  // The two invariants of the row fold: it only adds reverse records of the
  // records it reads, and afterwards each of them has its reverse record.
  lemma RowFoldEffect<V, E>(acc: seq<Vertex<V, E>>, v: nat, outs: seq<OutEdge<E>>)
    requires InRange(acc) && v < |acc|
    requires forall i :: 0 <= i < |outs| ==> outs[i].to < |acc|
    ensures var r := RowFold(acc, v, outs);
      && (forall a: nat, b: nat :: HasEdge(r, a, b) <==> HasEdge(acc, a, b) || (b == v && exists i :: 0 <= i < |outs| && outs[i].to == a))
  {
    forall a: nat, b: nat ensures HasEdge(RowFold(acc, v, outs), a, b) <==> HasEdge(acc, a, b) || (b == v && AnyTo(outs, a)) {
      RowFoldEdge(acc, v, outs, a, b);
    }
  }

  lemma {:induction false} RowFoldEdge<V, E>(acc: seq<Vertex<V, E>>, v: nat, outs: seq<OutEdge<E>>, a: nat, b: nat)
    requires InRange(acc) && v < |acc|
    requires forall i :: 0 <= i < |outs| ==> outs[i].to < |acc|
    ensures HasEdge(RowFold(acc, v, outs), a, b) <==> HasEdge(acc, a, b) || (b == v && AnyTo(outs, a))
    decreases |outs|
  {
    if outs != [] {
      var next := EmplaceSimple(acc, outs[0].to, v, outs[0].payload).0;
      EmplaceSimpleInRange(acc, outs[0].to, v, outs[0].payload);
      RowFoldEdge(next, v, outs[1..], a, b);
    }
  }


  lemma {:induction false} MoveFoldEffect<V, E>(acc: seq<Vertex<V, E>>, v: nat, orig: seq<Vertex<V, E>>)
    requires InRange(acc) && v <= |acc| && |orig| == |acc|
    requires forall a: nat, b: nat :: HasEdge(acc, a, b) ==> HasEdge(orig, a, b) || HasEdge(orig, b, a)
    requires forall a: nat, b: nat :: HasEdge(orig, a, b) ==> HasEdge(acc, a, b)
    requires forall a: nat, b: nat :: a < v && HasEdge(acc, a, b) ==> HasEdge(acc, b, a)
    ensures var r := MoveFold(acc, v);
      forall a: nat, b: nat :: HasEdge(r, a, b) <==> HasEdge(orig, a, b) || HasEdge(orig, b, a)
    decreases |acc| - v
  {
    if v < |acc| {
      var next := RowFold(acc, v, acc[v].outs);
      RowFoldEffect(acc, v, acc[v].outs);
      forall a: nat, b: nat | a < v + 1 && HasEdge(next, a, b) ensures HasEdge(next, b, a) {
        if a == v {
          assert HasEdge(acc, a, b);
          var i :| 0 <= i < |acc[v].outs| && acc[v].outs[i].to == b;
        }
      }
      MoveFoldEffect(next, v + 1, orig);
    }
  }

  function ToUndirectedMove<V, E>(vs: seq<Vertex<V, E>>): (r: seq<Vertex<V, E>>)
    requires InRange(vs)
    ensures |r| == |vs|
  {
    MoveFold(vs, 0)
  }

  // What to_undirected() && promises: the same adjacency as the copying form.
  lemma ToUndirectedMoveEffect<V, E>(vs: seq<Vertex<V, E>>)
    requires Simple(vs)
    ensures var r := ToUndirectedMove(vs);
      && (forall k :: 0 <= k < |r| ==> r[k].payload == vs[k].payload)
      && forall a: nat, b: nat :: HasEdge(r, a, b) <==> HasEdge(vs, a, b) || HasEdge(vs, b, a)
  {
    MoveFoldEffect(vs, 0, vs);
  }

  // The records of the row fold: those of the start, and for each record v -> a
  // it reads, a record a -> v with the same payload unless a already had one.
  lemma {:induction false} RowFoldRecord<V, E>(acc: seq<Vertex<V, E>>, v: nat, outs: seq<OutEdge<E>>, a: nat, b: nat, q: E)
    requires InRange(acc) && v < |acc| && DistinctTargets(outs)
    requires forall i :: 0 <= i < |outs| ==> outs[i].to < |acc|
    ensures HasRecord(RowFold(acc, v, outs), a, b, q) <==>
      HasRecord(acc, a, b, q) || (b == v && !HasEdge(acc, a, v) && OutEdge(a, q) in outs)
    decreases |outs|
  {
    if outs != [] {
      var x := outs[0];
      var next := EmplaceSimple(acc, x.to, v, x.payload).0;
      EmplaceSimpleInRange(acc, x.to, v, x.payload);
      EmplaceSimpleRecord(acc, x.to, v, x.payload, a, b, q);
      DistinctTail(outs);
      RowFoldRecord(next, v, outs[1..], a, b, q);
      DistinctCons(outs, OutEdge(a, q));
    }
  }

  // What the move fold has built once the rows before v are read: every original
  // record, and the reverse records of those rows that were missing.
  ghost predicate MovedEdges<V, E>(acc: seq<Vertex<V, E>>, v: nat, orig: seq<Vertex<V, E>>)
  {
    forall a: nat, b: nat :: HasEdge(acc, a, b) <==> HasEdge(orig, a, b) || (b < v && HasEdge(orig, b, a))
  }

  ghost predicate MovedRecord<V, E>(acc: seq<Vertex<V, E>>, v: nat, orig: seq<Vertex<V, E>>, a: nat, b: nat, q: E)
  {
    HasRecord(acc, a, b, q) <==> HasRecord(orig, a, b, q) || (b < v && !HasEdge(orig, a, b) && HasRecord(orig, b, a, q))
  }

  // One row of the move fold, record by record.
  lemma MoveStepRecord<V, E>(acc: seq<Vertex<V, E>>, v: nat, orig: seq<Vertex<V, E>>, a: nat, b: nat, q: E)
    requires Simple(acc) && v < |acc| && MovedEdges(acc, v, orig)
    requires MovedRecord(acc, v, orig, b, a, q) && MovedRecord(acc, v, orig, a, b, q)
    requires HasRecord(orig, a, v, q) ==> HasEdge(orig, a, v)
    ensures MovedRecord(RowFold(acc, v, acc[v].outs), v + 1, orig, a, b, q)
  {
    RowFoldRecord(acc, v, acc[v].outs, a, b, q);
    assert HasEdge(acc, a, v) == HasEdge(orig, a, v);
  }

  lemma MoveStepEdges<V, E>(acc: seq<Vertex<V, E>>, v: nat, orig: seq<Vertex<V, E>>)
    requires InRange(acc) && v < |acc| && MovedEdges(acc, v, orig)
    ensures MovedEdges(RowFold(acc, v, acc[v].outs), v + 1, orig)
  {
    RowFoldEffect(acc, v, acc[v].outs);
    forall a: nat ensures (exists i :: 0 <= i < |acc[v].outs| && acc[v].outs[i].to == a) == HasEdge(acc, v, a) {
    }
  }

  lemma {:induction false} MoveFoldRecords<V, E>(acc: seq<Vertex<V, E>>, v: nat, orig: seq<Vertex<V, E>>)
    requires Simple(acc) && v <= |acc| && MovedEdges(acc, v, orig)
    requires forall a: nat, b: nat, q: E :: MovedRecord(acc, v, orig, a, b, q)
    ensures forall a: nat, b: nat, q: E :: MovedRecord(MoveFold(acc, v), |acc|, orig, a, b, q)
    decreases |acc| - v
  {
    if v < |acc| {
      var next := RowFold(acc, v, acc[v].outs);
      RowFoldSimple(acc, v, acc[v].outs);
      MoveStepEdges(acc, v, orig);
      RecordsAreEdges(orig);
      forall a: nat, b: nat, q: E ensures HasRecord(next, a, b, q) <==>
        HasRecord(orig, a, b, q) || (b < v + 1 && !HasEdge(orig, a, b) && HasRecord(orig, b, a, q))
      {
        MoveStepRecord(acc, v, orig, a, b, q);
      }
      MoveFoldRecords(next, v + 1, orig);
    }
  }

  // The payloads to_undirected() && writes: every record stays as it was, and a
  // missing reverse record a -> b takes the payload of b -> a. A pair of
  // records a -> b and b -> a with different payloads stays as it is.
  lemma ToUndirectedMoveRecords<V, E>(vs: seq<Vertex<V, E>>)
    requires Simple(vs)
    ensures forall a: nat, b: nat, q: E :: HasRecord(ToUndirectedMove(vs), a, b, q) <==>
      HasRecord(vs, a, b, q) || (!HasEdge(vs, a, b) && HasRecord(vs, b, a, q))
  {
    MoveFoldRecords(vs, 0, vs);
    forall a: nat, b: nat, q: E ensures HasRecord(ToUndirectedMove(vs), a, b, q) <==>
      HasRecord(vs, a, b, q) || (!HasEdge(vs, a, b) && HasRecord(vs, b, a, q))
    {
      assert MovedRecord(MoveFold(vs, 0), |vs|, vs, a, b, q);
    }
  }

  // ---------------------------------------------------------------------------
  // Growing the vertex sequence and counting.

  // vertex_emplace of a vertex without records: nothing else changes, and the
  // storage invariants still hold.
  lemma AppendIsolated<V, E>(vs: seq<Vertex<V, E>>, directed: bool, x: Vertex<V, E>)
    requires WellFormed(vs, directed) && x.outs == []
    ensures forall a: nat, b: nat :: HasEdge(vs + [x], a, b) <==> HasEdge(vs, a, b)
    ensures WellFormed(vs + [x], directed)
  {
    var r := vs + [x];
    forall a: nat, b: nat ensures HasEdge(r, a, b) <==> HasEdge(vs, a, b) {
      if a < |vs| { assert r[a] == vs[a]; }
    }
    forall u | 0 <= u < |vs| ensures r[u] == vs[u] {}
  }

  // The directed in_degree loop: the number of the first n vertices holding a
  // record to t.
  function InCount<V, E>(vs: seq<Vertex<V, E>>, n: nat, t: nat): (r: nat)
    requires n <= |vs|
    ensures r <= n
  {
    if n == 0 then 0 else InCount(vs, n - 1, t) + (if AnyTo(vs[n - 1].outs, t) then 1 else 0)
  }

  // The vertices with an edge to t.
  ghost function InNeighbours<V, E>(vs: seq<Vertex<V, E>>, n: nat, t: nat): set<nat>
  {
    set a: nat | a < n && HasEdge(vs, a, t)
  }

  // The targets of u's records.
  function OutNeighbours<V, E>(vs: seq<Vertex<V, E>>, u: nat): set<nat>
    requires u < |vs|
  {
    set i | 0 <= i < |vs[u].outs| :: vs[u].outs[i].to
  }

  lemma {:induction false} InCountCounts<V, E>(vs: seq<Vertex<V, E>>, n: nat, t: nat)
    requires n <= |vs|
    ensures InCount(vs, n, t) == |InNeighbours(vs, n, t)|
  {
    if n > 0 {
      InCountCounts(vs, n - 1, t);
      assert HasEdge(vs, n - 1, t) == AnyTo(vs[n - 1].outs, t);
      if AnyTo(vs[n - 1].outs, t) {
        assert InNeighbours(vs, n, t) == InNeighbours(vs, n - 1, t) + {n - 1};
      } else {
        assert InNeighbours(vs, n, t) == InNeighbours(vs, n - 1, t);
      }
    }
  }

  // Without multi-edges, a vertex's out-degree is its number of neighbours.
  lemma OutDegreeCounts<V, E>(vs: seq<Vertex<V, E>>, u: nat)
    requires u < |vs| && DistinctTargets(vs[u].outs)
    ensures |OutNeighbours(vs, u)| == |vs[u].outs|
    ensures forall b: nat :: b in OutNeighbours(vs, u) <==> HasEdge(vs, u, b)
  {
    var outs := vs[u].outs;
    var ts := seq(|outs|, i requires 0 <= i < |outs| => outs[i].to);
    assert Distinct(ts);
    DistinctCard(ts);
    assert (set x | x in ts) == OutNeighbours(vs, u) by {
      forall x ensures x in ts <==> x in OutNeighbours(vs, u) {
        if x in ts {
          var i :| 0 <= i < |ts| && ts[i] == x;
        }
        if x in OutNeighbours(vs, u) {
          var i :| 0 <= i < |outs| && outs[i].to == x;
          assert ts[i] == x;
        }
      }
    }
    forall b: nat ensures b in OutNeighbours(vs, u) <==> HasEdge(vs, u, b) {
      if HasEdge(vs, u, b) {
        var i :| 0 <= i < |outs| && outs[i].to == b;
      }
    }
  }

  // In the mirrored storage of an undirected graph, in-degree equals out-degree:
  // the reason in_degree of an undirected graph returns out_degree.
  lemma UndirectedInDegree<V, E>(vs: seq<Vertex<V, E>>, t: nat)
    requires Simple(vs) && Symmetric(vs) && t < |vs|
    ensures InCount(vs, |vs|, t) == |vs[t].outs|
  {
    InCountCounts(vs, |vs|, t);
    OutDegreeCounts(vs, t);
    assert InNeighbours(vs, |vs|, t) == OutNeighbours(vs, t) by {
      forall a: nat ensures a in InNeighbours(vs, |vs|, t) <==> a in OutNeighbours(vs, t) {
        if HasEdge(vs, t, a) {
          var i :| 0 <= i < |vs[t].outs| && vs[t].outs[i].to == a;
          assert a < |vs|;
        }
      }
    }
  }

  // ---------------------------------------------------------------------------
  // The iteration of to_undirected() const&, one edge at a time.

  lemma RowEdgesPrefix<E>(u: nat, outs: seq<OutEdge<E>>, j: nat)
    requires j < |outs|
    ensures RowEdges(u, outs[..j + 1]) == RowEdges(u, outs[..j]) + [EdgeOf(u, outs[j])]
  {
  }

  lemma EdgesUpToNext<V, E>(vs: seq<Vertex<V, E>>, v: nat)
    requires v < |vs|
    ensures EdgesUpTo(vs, v + 1) == EdgesUpTo(vs, v) + RowEdges(v, vs[v].outs[..|vs[v].outs|])
  {
    assert vs[v].outs[..|vs[v].outs|] == vs[v].outs;
  }

  // Every edge of es joins two distinct vertices below n.
  predicate Joinable<E>(es: seq<Edge<E>>, n: nat)
  {
    forall k :: 0 <= k < |es| ==> es[k].from < n && es[k].to < n && es[k].from != es[k].to
  }

  lemma JoinableTail<E>(es: seq<Edge<E>>, n: nat)
    requires es != [] && Joinable(es, n)
    ensures es[0].from < n && es[0].to < n && es[0].from != es[0].to && Joinable(es[1..], n)
  {
    assert forall k :: 0 <= k < |es[1..]| ==> es[1..][k] == es[k + 1];
  }

  // Every edge of a simple graph joins two distinct existing vertices.
  lemma {:induction false} EdgesUpToBounds<V, E>(vs: seq<Vertex<V, E>>, n: nat)
    requires n <= |vs| && Simple(vs)
    ensures Joinable(EdgesUpTo(vs, n), |vs|)
  {
    if n > 0 {
      EdgesUpToBounds(vs, n - 1);
      var pre := EdgesUpTo(vs, n - 1);
      var all := EdgesUpTo(vs, n);
      forall k | 0 <= k < |all| ensures all[k].from < |vs| && all[k].to < |vs| && all[k].from != all[k].to {
        if k >= |pre| {
          assert all[k] == EdgeOf(n - 1, vs[n - 1].outs[k - |pre|]);
        } else {
          assert all[k] == pre[k];
        }
      }
    }
  }

  // The edges the copying loop has visited: all rows before v, and the first
  // j records of row v.
  lemma EdgesBeforeBounds<V, E>(vs: seq<Vertex<V, E>>, v: nat, j: nat)
    requires Simple(vs) && v < |vs| && j <= |vs[v].outs|
    ensures Joinable(EdgesUpTo(vs, v) + RowEdges(v, vs[v].outs[..j]), |vs|)
  {
    EdgesUpToBounds(vs, v);
    var pre := EdgesUpTo(vs, v);
    var es := pre + RowEdges(v, vs[v].outs[..j]);
    forall k | 0 <= k < |es| ensures es[k].from < |vs| && es[k].to < |vs| && es[k].from != es[k].to {
      if k < |pre| {
        assert es[k] == pre[k];
      }
    }
  }

  lemma {:induction false} UndirectedFoldSnoc<V, E>(acc: seq<Vertex<V, E>>, es: seq<Edge<E>>, e: Edge<E>)
    requires forall k :: 0 <= k < |es| ==> es[k].from < |acc| && es[k].to < |acc|
    requires e.from < |acc| && e.to < |acc|
    ensures UndirectedFold(acc, es + [e]) == Emplace(UndirectedFold(acc, es), false, e.from, e.to, e.payload).0
    decreases |es|
  {
    if es == [] {
      assert es + [e] == [e];
      assert [e][1..] == [];
    } else {
      var next := Emplace(acc, false, es[0].from, es[0].to, es[0].payload).0;
      assert (es + [e])[1..] == es[1..] + [e];
      UndirectedFoldSnoc(next, es[1..], e);
    }
  }

  lemma {:induction false} UndirectedFoldConcat<V, E>(acc: seq<Vertex<V, E>>, a: seq<Edge<E>>, b: seq<Edge<E>>)
    requires forall k :: 0 <= k < |a| ==> a[k].from < |acc| && a[k].to < |acc|
    requires forall k :: 0 <= k < |b| ==> b[k].from < |acc| && b[k].to < |acc|
    ensures UndirectedFold(acc, a + b) == UndirectedFold(UndirectedFold(acc, a), b)
    decreases |a|
  {
    if a == [] {
      assert a + b == b;
    } else {
      var next := Emplace(acc, false, a[0].from, a[0].to, a[0].payload).0;
      assert (a + b)[0] == a[0];
      assert (a + b)[1..] == a[1..] + b;
      UndirectedFoldConcat(next, a[1..], b);
    }
  }

  // The records of one vertex whose targets are distinct from it and below n.
  lemma RowEdgesJoinable<E>(v: nat, outs: seq<OutEdge<E>>, n: nat)
    requires v < n && forall i :: 0 <= i < |outs| ==> outs[i].to < n && outs[i].to != v
    ensures Joinable(RowEdges(v, outs), n)
  {
  }

  // The inner copying loop of to_undirected() const& after the first j records
  // of vertex v.
  function PrefixFold<V, E>(acc: seq<Vertex<V, E>>, v: nat, outs: seq<OutEdge<E>>, j: nat): (r: seq<Vertex<V, E>>)
    requires j <= |outs| && Joinable(RowEdges(v, outs), |acc|)
    ensures |r| == |acc|
  {
    var es := RowEdges(v, outs[..j]);
    assert forall k :: 0 <= k < |es| ==> es[k] == RowEdges(v, outs)[k];
    UndirectedFold(acc, es)
  }

  lemma PrefixFoldEnds<V, E>(acc: seq<Vertex<V, E>>, v: nat, outs: seq<OutEdge<E>>)
    requires Joinable(RowEdges(v, outs), |acc|)
    ensures PrefixFold(acc, v, outs, 0) == acc
    ensures PrefixFold(acc, v, outs, |outs|) == UndirectedFold(acc, RowEdges(v, outs))
  {
    assert outs[..0] == [] && outs[..|outs|] == outs;
  }

  lemma PrefixFoldNext<V, E>(acc: seq<Vertex<V, E>>, v: nat, outs: seq<OutEdge<E>>, j: nat)
    requires j < |outs| && Joinable(RowEdges(v, outs), |acc|)
    ensures v < |acc| && outs[j].to < |acc| && v != outs[j].to
    ensures PrefixFold(acc, v, outs, j + 1) == Emplace(PrefixFold(acc, v, outs, j), false, v, outs[j].to, outs[j].payload).0
  {
    var e := EdgeOf(v, outs[j]);
    assert RowEdges(v, outs)[j] == e;
    RowEdgesPrefix(v, outs, j);
    var es := RowEdges(v, outs[..j]);
    assert forall k :: 0 <= k < |es| ==> es[k] == RowEdges(v, outs)[k];
    UndirectedFoldSnoc(acc, es, e);
  }

  // The copy after the copying loop of to_undirected() const& has visited the
  // rows before v.
  function CopiedRows<V, E>(base: seq<Vertex<V, E>>, vs: seq<Vertex<V, E>>, v: nat): (r: seq<Vertex<V, E>>)
    requires Simple(vs) && v <= |vs| == |base|
    ensures |r| == |base|
  {
    EdgesUpToBounds(vs, v);
    UndirectedFold(base, EdgesUpTo(vs, v))
  }

  // One outer step of that loop: row v is emplaced, edge by edge.
  lemma CopiedRowsNext<V, E>(base: seq<Vertex<V, E>>, vs: seq<Vertex<V, E>>, v: nat)
    requires Simple(vs) && v < |vs| == |base|
    ensures Joinable(RowEdges(v, vs[v].outs), |vs|)
    ensures CopiedRows(base, vs, v + 1) == UndirectedFold(CopiedRows(base, vs, v), RowEdges(v, vs[v].outs))
  {
    EdgesUpToBounds(vs, v);
    EdgesUpToBounds(vs, v + 1);
    RowEdgesJoinable(v, vs[v].outs, |vs|);
    EdgesUpToNext(vs, v);
    assert vs[v].outs[..|vs[v].outs|] == vs[v].outs;
    UndirectedFoldConcat(base, EdgesUpTo(vs, v), RowEdges(v, vs[v].outs));
  }

  // ---------------------------------------------------------------------------
  // to_undirected() && keeps the graph simple.

  lemma {:induction false} RowFoldSimple<V, E>(acc: seq<Vertex<V, E>>, v: nat, outs: seq<OutEdge<E>>)
    requires Simple(acc) && v < |acc|
    requires forall i :: 0 <= i < |outs| ==> outs[i].to < |acc| && outs[i].to != v
    ensures Simple(RowFold(acc, v, outs))
    decreases |outs|
  {
    if outs != [] {
      EmplaceSimplePreservesSimple(acc, outs[0].to, v, outs[0].payload);
      var next := EmplaceSimple(acc, outs[0].to, v, outs[0].payload).0;
      RowFoldSimple(next, v, outs[1..]);
    }
  }

  lemma {:induction false} MoveFoldSimple<V, E>(acc: seq<Vertex<V, E>>, v: nat)
    requires Simple(acc) && v <= |acc|
    ensures Simple(MoveFold(acc, v))
    decreases |acc| - v
  {
    if v < |acc| {
      RowFoldSimple(acc, v, acc[v].outs);
      MoveFoldSimple(RowFold(acc, v, acc[v].outs), v + 1);
    }
  }

  // The moving conversion yields valid undirected storage.
  lemma ToUndirectedMoveValid<V, E>(vs: seq<Vertex<V, E>>)
    requires Simple(vs)
    ensures WellFormed(ToUndirectedMove(vs), false)
  {
    MoveFoldSimple(vs, 0);
    ToUndirectedMoveEffect(vs);
  }
  // to_undirected() && does not keep the two records of an edge at one payload:
  // a directed graph with both 0 -> 1 ('a') and 1 -> 0 ('b') already has every
  // reverse record, so nothing is added and the undirected edge keeps both.
  lemma ToUndirectedMoveUnmirrored()
    ensures var vs := [Vertex(0, [OutEdge(1, 'a')]), Vertex(1, [OutEdge(0, 'b')])];
      && InRange(vs) && ToUndirectedMove(vs) == vs && !Mirrored(vs)
  {
    var vs := [Vertex(0, [OutEdge(1, 'a')]), Vertex(1, [OutEdge(0, 'b')])];
    assert vs[0].outs[0].to == 1 && vs[1].outs[0].to == 0;
    assert HasEdge(vs, 1, 0) && HasEdge(vs, 0, 1);
    assert RowFold(vs, 0, vs[0].outs) == vs;
    assert RowFold(vs, 1, vs[1].outs) == vs;
    assert MoveFold(vs, 2) == vs;
    assert !HasRecord(vs, vs[0].outs[0].to, 0, vs[0].outs[0].payload);
  }


  // ---------------------------------------------------------------------------
  // transform_outs.

  function MapOuts<E>(outs: seq<OutEdge<E>>, f: nat -> nat): (r: seq<OutEdge<E>>)
    ensures |r| == |outs|
  {
    seq(|outs|, i requires 0 <= i < |outs| => OutEdge(f(outs[i].to), outs[i].payload))
  }

  // Every record's target replaced by its image under f; payloads stay.
  function MapTargets<V, E>(vs: seq<Vertex<V, E>>, f: nat -> nat): (r: seq<Vertex<V, E>>)
    ensures |r| == |vs|
  {
    seq(|vs|, k requires 0 <= k < |vs| => Vertex(vs[k].payload, MapOuts(vs[k].outs, f)))
  }

  lemma {:induction false} RecordsSameShape<V, E>(vs: seq<Vertex<V, E>>, ws: seq<Vertex<V, E>>)
    requires |vs| == |ws|
    requires forall k :: 0 <= k < |vs| ==> |vs[k].outs| == |ws[k].outs|
    ensures Records(vs) == Records(ws)
  {
    if vs != [] {
      RecordsSameShape(vs[..|vs| - 1], ws[..|ws| - 1]);
    }
  }

  // transform_outs keeps every record (only its target changes): a -> f(c)
  // exists exactly where a -> c did.
  lemma TransformOutsEffect<V, E>(vs: seq<Vertex<V, E>>, f: nat -> nat)
    ensures Records(MapTargets(vs, f)) == Records(vs)
    ensures forall a: nat, b: nat :: HasEdge(MapTargets(vs, f), a, b) <==> exists c: nat :: HasEdge(vs, a, c) && f(c) == b
  {
    var r := MapTargets(vs, f);
    RecordsSameShape(r, vs);
    forall a: nat, b: nat ensures HasEdge(r, a, b) <==> exists c: nat :: HasEdge(vs, a, c) && f(c) == b {
      if HasEdge(r, a, b) {
        var i :| 0 <= i < |r[a].outs| && r[a].outs[i].to == b;
        assert HasEdge(vs, a, vs[a].outs[i].to);
      }
      if exists c: nat :: HasEdge(vs, a, c) && f(c) == b {
        var c: nat :| HasEdge(vs, a, c) && f(c) == b;
        var i :| 0 <= i < |vs[a].outs| && vs[a].outs[i].to == c;
        assert r[a].outs[i].to == b;
      }
    }
  }

  // Two transformations in a row are one transformation by the composition.
  lemma TransformOutsCompose<V, E>(vs: seq<Vertex<V, E>>, f: nat -> nat, g: nat -> nat)
    ensures MapTargets(MapTargets(vs, f), g) == MapTargets(vs, x => g(f(x)))
  {
    var l := MapTargets(MapTargets(vs, f), g);
    var r := MapTargets(vs, x => g(f(x)));
    forall k | 0 <= k < |vs| ensures l[k] == r[k] {
      assert l[k].outs == r[k].outs;
    }
  }

  lemma TransformOutsIdentity<V, E>(vs: seq<Vertex<V, E>>)
    ensures MapTargets(vs, x => x) == vs
  {
    var r := MapTargets(vs, x => x);
    forall k | 0 <= k < |vs| ensures r[k] == vs[k] {
      forall i | 0 <= i < |vs[k].outs| ensures r[k].outs[i] == vs[k].outs[i] {
        assert r[k].outs[i] == OutEdge(vs[k].outs[i].to, vs[k].outs[i].payload);
      }
      assert r[k].outs == vs[k].outs;
    }
  }

  // ---------------------------------------------------------------------------
  // sort_edges.

  function SortedRows<V, E>(vs: seq<Vertex<V, E>>): (r: seq<Vertex<V, E>>)
    ensures |r| == |vs|
  {
    seq(|vs|, k requires 0 <= k < |vs| => Vertex(vs[k].payload, SortByTarget(vs[k].outs)))
  }

  // Sorting reorders each list only: the same edges, the same count, the same
  // invariants; and with distinct targets the sorted lists are the only ones
  // with these records in target order, whatever sort algorithm produced them.
  lemma SortEdgesEffect<V, E>(vs: seq<Vertex<V, E>>, directed: bool)
    ensures Records(SortedRows(vs)) == Records(vs)
    ensures forall a: nat, b: nat :: HasEdge(SortedRows(vs), a, b) <==> HasEdge(vs, a, b)
    ensures WellFormed(vs, directed) ==> WellFormed(SortedRows(vs), directed)
  {
    var r := SortedRows(vs);
    forall k | 0 <= k < |vs| ensures |r[k].outs| == |vs[k].outs| {
      assert |multiset(r[k].outs)| == |multiset(vs[k].outs)|;
    }
    RecordsSameShape(r, vs);
    forall a: nat, b: nat ensures HasEdge(r, a, b) <==> HasEdge(vs, a, b) {
      if a < |vs| {
        SortAny(vs[a].outs, b);
        assert HasEdge(r, a, b) == AnyTo(r[a].outs, b);
        assert HasEdge(vs, a, b) == AnyTo(vs[a].outs, b);
      }
    }
    if WellFormed(vs, directed) {
      forall u | 0 <= u < |r| ensures DistinctTargets(r[u].outs) {
        SortDistinct(vs[u].outs);
      }
      forall u, i | 0 <= u < |r| && 0 <= i < |r[u].outs| ensures r[u].outs[i].to < |r| && r[u].outs[i].to != u {
        assert HasEdge(r, u, r[u].outs[i].to);
      }
    }
  }
  // sort_edges keeps every record's partner at the same payload: each list
  // holds the same records afterwards.
  lemma SortMirrored<V, E>(vs: seq<Vertex<V, E>>)
    requires Mirrored(vs)
    ensures Mirrored(SortedRows(vs))
  {
    var r := SortedRows(vs);
    forall u, i | 0 <= u < |r| && 0 <= i < |r[u].outs| ensures HasRecord(r, r[u].outs[i].to, u, r[u].outs[i].payload) {
      var y := r[u].outs[i];
      assert y in multiset(r[u].outs);
      assert y in vs[u].outs;
      var j :| 0 <= j < |vs[u].outs| && vs[u].outs[j] == y;
      assert HasRecord(vs, y.to, u, y.payload);
      assert OutEdge(u, y.payload) in multiset(vs[y.to].outs);
      assert OutEdge(u, y.payload) in multiset(r[y.to].outs);
    }
  }


  lemma SortedRowsUnique<V, E>(vs: seq<Vertex<V, E>>, ws: seq<Vertex<V, E>>)
    requires NoMultiEdges(vs) && |ws| == |vs|
    requires forall k :: 0 <= k < |vs| ==> ws[k].payload == vs[k].payload
    requires forall k :: 0 <= k < |vs| ==> SortedByTarget(ws[k].outs) && multiset(ws[k].outs) == multiset(vs[k].outs)
    ensures ws == SortedRows(vs)
  {
    var r := SortedRows(vs);
    forall k | 0 <= k < |vs| ensures ws[k] == r[k] {
      SortDistinct(vs[k].outs);
      SortedPermutationUnique(r[k].outs, ws[k].outs);
    }
  }

  // ---------------------------------------------------------------------------
  // cleave.

  // A record to v of vertex i becomes an additional record i -> n.
  function CleavedRow<E>(outs: seq<OutEdge<E>>, v: nat, n: nat): seq<OutEdge<E>>
  {
    match FirstTo(outs, v)
      case None => outs
      case Some(k) => outs + [OutEdge(n, outs[k].payload)]
  }

  // The graph after cleave(v): a copy n of v with v's payload and records, and
  // a record to n beside every other vertex's record to v.
  function Cleaved<V, E>(vs: seq<Vertex<V, E>>, v: nat): (r: seq<Vertex<V, E>>)
    requires v < |vs|
    ensures |r| == |vs| + 1
  {
    var n := |vs|;
    seq(n + 1, i requires 0 <= i <= n =>
      if i == n then vs[v]
      else if i == v then vs[i]
      else Vertex(vs[i].payload, CleavedRow(vs[i].outs, v, n)))
  }

  lemma CleavedRowAny<E>(outs: seq<OutEdge<E>>, v: nat, n: nat, t: nat)
    ensures AnyTo(CleavedRow(outs, v, n), t) == (AnyTo(outs, t) || (t == n && AnyTo(outs, v)))
  {
    if FirstTo(outs, v).Some? {
      var k := FirstTo(outs, v).value;
      var r := outs + [OutEdge(n, outs[k].payload)];
      if AnyTo(r, t) {
        var i :| 0 <= i < |r| && r[i].to == t;
        if i < |outs| { assert outs[i].to == t; }
      }
      if AnyTo(outs, t) {
        var i :| 0 <= i < |outs| && outs[i].to == t;
        assert r[i].to == t;
      }
      if t == n { assert r[|outs|].to == t; }
    }
  }

  lemma CleavedRowDistinct<E>(outs: seq<OutEdge<E>>, v: nat, n: nat)
    requires DistinctTargets(outs) && !AnyTo(outs, n)
    ensures DistinctTargets(CleavedRow(outs, v, n))
  {
    if FirstTo(outs, v).Some? {
      var k := FirstTo(outs, v).value;
      var r := outs + [OutEdge(n, outs[k].payload)];
      forall i, j | 0 <= i < j < |r| ensures r[i].to != r[j].to {
        if j == |outs| { assert r[i] == outs[i]; }
      }
    }
  }

  // What cleave promises: the new vertex n = |vs| has v's payload and v's
  // neighbours, every vertex with an edge to v gains one to n, nothing else
  // changes, and the storage invariants are kept.
  lemma CleaveEffect<V, E>(vs: seq<Vertex<V, E>>, directed: bool, v: nat)
    requires v < |vs| && WellFormed(vs, directed)
    ensures var r := Cleaved(vs, v);
      && r[|vs|] == vs[v]
      && (forall k :: 0 <= k < |vs| ==> r[k].payload == vs[k].payload)
      && (forall a: nat, b: nat :: HasEdge(r, a, b) <==>
            || HasEdge(vs, a, b)
            || (a == |vs| && HasEdge(vs, v, b))
            || (b == |vs| && a != v && HasEdge(vs, a, v)))
      && WellFormed(r, directed)
  {
    var n := |vs|;
    var r := Cleaved(vs, v);
    forall a: nat, b: nat ensures HasEdge(r, a, b) <==>
      HasEdge(vs, a, b) || (a == n && HasEdge(vs, v, b)) || (b == n && a != v && HasEdge(vs, a, v))
    {
      if a < n && a != v {
        CleavedRowAny(vs[a].outs, v, n, b);
        assert HasEdge(r, a, b) == AnyTo(r[a].outs, b);
        assert HasEdge(vs, a, b) == AnyTo(vs[a].outs, b);
        assert HasEdge(vs, a, v) == AnyTo(vs[a].outs, v);
      } else if a == v {
        assert r[a] == vs[a];
      }
    }
    forall u | 0 <= u < |r| ensures DistinctTargets(r[u].outs) {
      if u < n && u != v {
        assert !AnyTo(vs[u].outs, n);
        CleavedRowDistinct(vs[u].outs, v, n);
      }
    }
    forall u, i | 0 <= u < |r| && 0 <= i < |r[u].outs| ensures r[u].outs[i].to < |r| && r[u].outs[i].to != u {
      assert HasEdge(r, u, r[u].outs[i].to);
      if u < n { assert HasEdge(vs, u, r[u].outs[i].to) || r[u].outs[i].to == n; }
    }
  }
  // A cleaved list holds its old records and, when it had a record to v, one
  // to n with that record's payload.
  lemma CleavedRowRecord<E>(outs: seq<OutEdge<E>>, v: nat, n: nat, y: OutEdge<E>)
    requires DistinctTargets(outs)
    ensures y in CleavedRow(outs, v, n) <==> y in outs || (y.to == n && OutEdge(v, y.payload) in outs)
  {
    if OutEdge(v, y.payload) in outs {
      var j :| 0 <= j < |outs| && outs[j] == OutEdge(v, y.payload);
      assert FirstTo(outs, v) == Some(j);
    }
    if FirstTo(outs, v).Some? {
      var k := FirstTo(outs, v).value;
      assert outs[k] == OutEdge(v, outs[k].payload);
    }
  }

  // cleave keeps every record's partner at the same payload: the copy's records
  // v -> b and the new records b -> n come in pairs.
  lemma CleaveMirrored<V, E>(vs: seq<Vertex<V, E>>, v: nat)
    requires v < |vs| && Simple(vs) && Mirrored(vs)
    ensures Mirrored(Cleaved(vs, v))
  {
    var n := |vs|;
    var r := Cleaved(vs, v);
    forall b | 0 <= b < n && b != v ensures r[b].outs == CleavedRow(vs[b].outs, v, n) {
    }
    forall u, i | 0 <= u < |r| && 0 <= i < |r[u].outs| ensures HasRecord(r, r[u].outs[i].to, u, r[u].outs[i].payload) {
      var y := r[u].outs[i];
      var w := if u == n then v else u;
      if u < n && u != v {
        CleavedRowRecord(vs[u].outs, v, n, y);
      } else {
        assert y == vs[w].outs[i];
      }
      if y in vs[w].outs {
        var j :| 0 <= j < |vs[w].outs| && vs[w].outs[j] == y;
        assert HasRecord(vs, y.to, w, y.payload);
        assert y.to != w && y.to < n;
        if y.to != v {
          CleavedRowRecord(vs[y.to].outs, v, n, OutEdge(u, y.payload));
        } else {
          assert r[y.to] == vs[v];
        }
      } else {
        assert y.to == n && OutEdge(v, y.payload) in vs[u].outs;
        var j :| 0 <= j < |vs[u].outs| && vs[u].outs[j] == OutEdge(v, y.payload);
        assert HasRecord(vs, v, u, y.payload);
        assert r[n] == vs[v];
      }
    }
  }

}
