// Regularity: is_regular(graph, degree), regular_degree(graph) and
// is_regular(graph). A directed graph is regular with degree d when every
// vertex has d outgoing and d incoming edges; an undirected graph when every
// vertex has d neighbours.
module Regularity {
  import opened Util
  import opened GraphTypes
  import opened AdjacencyOps
  import opened AdjacencyList

  // Every vertex has out-degree d and, when directed, in-degree d.
  ghost predicate Regular<V, E>(vs: seq<Vertex<V, E>>, directed: bool, d: nat)
  {
    forall v :: 0 <= v < |vs| ==> |vs[v].outs| == d && (directed ==> InCount(vs, |vs|, v) == d)
  }

  // The std::all_of over the vertices: every out-degree is d.
  predicate AllOutDegrees<V, E>(vs: seq<Vertex<V, E>>, d: nat)
  {
    forall v :: 0 <= v < |vs| ==> |vs[v].outs| == d
  }

  // The number of records of outs with target t.
  function TargetCount<E>(outs: seq<OutEdge<E>>, t: nat): nat
  {
    if outs == [] then 0 else TargetCount(outs[..|outs| - 1], t) + (if outs[|outs| - 1].to == t then 1 else 0)
  }

  // is_regular(graph, degree). A directed graph is rejected when the edge
  // count is not V * degree or some out-degree differs from degree; then the
  // records are tallied per target, and the search fails as soon as a tally
  // exceeds degree. An undirected graph compares the edge count with
  // V * degree / 2 (rounded down) and then checks every degree.
  method IsRegular<V, E>(g: Graph<V, E>, degree: nat) returns (r: bool)
    requires g.Valid()
    ensures r <==> Regular(g.vertices, g.directed, degree)
  {
    var n := |g.vertices|;
    if g.directed {
      if g.EdgeSize() != n * degree {
        UniformRecords(g.vertices, degree);
        return false;
      }
      if !AllOutDegrees(g.vertices, degree) {
        return false;
      }
      var inDegrees := seq(n, _ => 0);
      for v := 0 to n
        invariant |inDegrees| == n && g.Valid()
        invariant forall t :: 0 <= t < n ==> inDegrees[t] == InCount(g.vertices, v, t) && inDegrees[t] <= degree
      {
        var outs := g.vertices[v].outs;
        for j := 0 to |outs|
          invariant |inDegrees| == n
          invariant forall t :: 0 <= t < n ==> inDegrees[t] == InCount(g.vertices, v, t) + TargetCount(outs[..j], t)
          invariant forall t :: 0 <= t < n ==> inDegrees[t] <= degree
        {
          var t := outs[j].to;
          TallyStep(g.vertices, v, j);
          inDegrees := inDegrees[t := inDegrees[t] + 1];
          if inDegrees[t] > degree {
            TallyBound(g.vertices, v, j + 1, t);
            return false;
          }
        }
        TallyRow(g.vertices, v);
      }
      InDegreesFull(g.vertices, degree);
      return true;
    } else {
      if g.EdgeSize() != n * degree / 2 {
        UniformRecords(g.vertices, degree);
        return false;
      }
      return AllOutDegrees(g.vertices, degree);
    }
  }

  // regular_degree: nothing for a graph without vertices; otherwise the
  // out-degree of vertex 0 when the graph is regular with it.
  method RegularDegree<V, E>(g: Graph<V, E>) returns (r: Option<nat>)
    requires g.Valid()
    ensures r.Some? ==> g.vertices != [] && Regular(g.vertices, g.directed, r.value)
    ensures r.None? ==> g.vertices == [] || forall d: nat :: !Regular(g.vertices, g.directed, d)
  {
    if g.vertices == [] {
      return None;
    }
    var hypothesis := |g.vertices[0].outs|;
    var regular := IsRegular(g, hypothesis);
    if regular {
      return Some(hypothesis);
    }
    return None;
  }

  // is_regular(graph): whether regular_degree has a value, so a graph without
  // vertices is not regular.
  method IsRegularGraph<V, E>(g: Graph<V, E>) returns (r: bool)
    requires g.Valid()
    ensures r <==> g.vertices != [] && exists d: nat :: Regular(g.vertices, g.directed, d)
  {
    var degree := RegularDegree(g);
    r := degree.Some?;
  }

  // ---------------------------------------------------------------------------
  // Tallying the records per target.

  lemma TargetCountSnoc<E>(outs: seq<OutEdge<E>>, j: nat, t: nat)
    requires j < |outs|
    ensures TargetCount(outs[..j + 1], t) == TargetCount(outs[..j], t) + (if outs[j].to == t then 1 else 0)
  {
    assert outs[..j + 1][..j] == outs[..j];
  }

  lemma TallyStep<V, E>(vs: seq<Vertex<V, E>>, v: nat, j: nat)
    requires v < |vs| && j < |vs[v].outs|
    ensures forall t :: TargetCount(vs[v].outs[..j + 1], t) == TargetCount(vs[v].outs[..j], t) + (if vs[v].outs[j].to == t then 1 else 0)
  {
    forall t ensures TargetCount(vs[v].outs[..j + 1], t) == TargetCount(vs[v].outs[..j], t) + (if vs[v].outs[j].to == t then 1 else 0) {
      TargetCountSnoc(vs[v].outs, j, t);
    }
  }

  // Without repeated targets, a list holds one record to t or none.
  lemma {:induction false} TargetCountAny<E>(outs: seq<OutEdge<E>>, t: nat)
    requires DistinctTargets(outs)
    ensures TargetCount(outs, t) == if AnyTo(outs, t) then 1 else 0
    decreases |outs|
  {
    if outs != [] {
      var pre := outs[..|outs| - 1];
      assert DistinctTargets(pre) by {
        forall i, j | 0 <= i < j < |pre| ensures pre[i].to != pre[j].to {
          assert pre[i] == outs[i] && pre[j] == outs[j];
        }
      }
      TargetCountAny(pre, t);
      assert AnyTo(outs, t) <==> AnyTo(pre, t) || outs[|outs| - 1].to == t by {
        if AnyTo(outs, t) {
          var i :| 0 <= i < |outs| && outs[i].to == t;
          if i < |pre| { assert pre[i] == outs[i]; }
        }
        if AnyTo(pre, t) {
          var i :| 0 <= i < |pre| && pre[i].to == t;
          assert outs[i] == pre[i];
        }
      }
      if AnyTo(pre, t) {
        var i :| 0 <= i < |pre| && pre[i].to == t;
        assert outs[i] == pre[i];
      }
    }
  }

  lemma TallyRow<V, E>(vs: seq<Vertex<V, E>>, v: nat)
    requires Simple(vs) && v < |vs|
    ensures forall t :: InCount(vs, v, t) + TargetCount(vs[v].outs[..|vs[v].outs|], t) == InCount(vs, v + 1, t)
  {
    assert vs[v].outs[..|vs[v].outs|] == vs[v].outs;
    forall t ensures TargetCount(vs[v].outs, t) == if AnyTo(vs[v].outs, t) then 1 else 0 {
      TargetCountAny(vs[v].outs, t);
    }
  }

  // A tally never exceeds the full in-degree.
  lemma TallyBound<V, E>(vs: seq<Vertex<V, E>>, v: nat, j: nat, t: nat)
    requires Simple(vs) && v < |vs| && j <= |vs[v].outs|
    ensures InCount(vs, v, t) + TargetCount(vs[v].outs[..j], t) <= InCount(vs, |vs|, t)
  {
    TargetCountMonotone(vs[v].outs, j, t);
    TallyRow(vs, v);
    assert vs[v].outs[..|vs[v].outs|] == vs[v].outs;
    InCountMonotone(vs, v + 1, |vs|, t);
  }

  lemma {:induction false} TargetCountMonotone<E>(outs: seq<OutEdge<E>>, j: nat, t: nat)
    requires j <= |outs|
    ensures TargetCount(outs[..j], t) <= TargetCount(outs, t)
    decreases |outs| - j
  {
    if j < |outs| {
      TargetCountSnoc(outs, j, t);
      TargetCountMonotone(outs, j + 1, t);
    } else {
      assert outs[..j] == outs;
    }
  }

  lemma {:induction false} InCountMonotone<V, E>(vs: seq<Vertex<V, E>>, m: nat, n: nat, t: nat)
    requires m <= n <= |vs|
    ensures InCount(vs, m, t) <= InCount(vs, n, t)
    decreases n - m
  {
    if m < n {
      InCountMonotone(vs, m, n - 1, t);
    }
  }

  // ---------------------------------------------------------------------------
  // Why the in-degrees need not be compared with degree: they add up to the
  // edge count.

  // The sum of the in-degrees (counted over the first n vertices) of the
  // targets below m.
  function InTotal<V, E>(vs: seq<Vertex<V, E>>, n: nat, m: nat): nat
    requires n <= |vs|
  {
    if m == 0 then 0 else InTotal(vs, n, m - 1) + InCount(vs, n, m - 1)
  }

  // The number of targets below m that outs reaches.
  function AnyTotal<E>(outs: seq<OutEdge<E>>, m: nat): nat
  {
    if m == 0 then 0 else AnyTotal(outs, m - 1) + (if AnyTo(outs, m - 1) then 1 else 0)
  }

  lemma {:induction false} InTotalStep<V, E>(vs: seq<Vertex<V, E>>, n: nat, m: nat)
    requires 0 < n <= |vs|
    ensures InTotal(vs, n, m) == InTotal(vs, n - 1, m) + AnyTotal(vs[n - 1].outs, m)
    decreases m
  {
    if m > 0 {
      InTotalStep(vs, n, m - 1);
    }
  }

  // The targets below m that outs reaches.
  ghost function Reached<E>(outs: seq<OutEdge<E>>, m: nat): set<nat>
  {
    set t: nat | t < m && AnyTo(outs, t)
  }

  lemma ReachedStep<E>(outs: seq<OutEdge<E>>, m: nat)
    requires m > 0
    ensures Reached(outs, m) == Reached(outs, m - 1) + (if AnyTo(outs, m - 1) then {m - 1} else {})
  {
  }

  lemma {:induction false} AnyTotalSet<E>(outs: seq<OutEdge<E>>, m: nat)
    ensures AnyTotal(outs, m) == |Reached(outs, m)|
    decreases m
  {
    if m > 0 {
      AnyTotalSet(outs, m - 1);
      ReachedStep(outs, m);
      assert m - 1 !in Reached(outs, m - 1);
    }
  }

  // A list of a simple graph reaches exactly as many targets as it has records.
  lemma AnyTotalRow<V, E>(vs: seq<Vertex<V, E>>, u: nat)
    requires Simple(vs) && u < |vs|
    ensures AnyTotal(vs[u].outs, |vs|) == |vs[u].outs|
  {
    AnyTotalSet(vs[u].outs, |vs|);
    OutDegreeCounts(vs, u);
    assert Reached(vs[u].outs, |vs|) == OutNeighbours(vs, u) by {
      forall t: nat ensures t < |vs| && AnyTo(vs[u].outs, t) <==> t in OutNeighbours(vs, u) {
        assert AnyTo(vs[u].outs, t) <==> HasEdge(vs, u, t);
      }
    }
  }

  lemma {:induction false} InTotalRecords<V, E>(vs: seq<Vertex<V, E>>, n: nat)
    requires Simple(vs) && n <= |vs|
    ensures InTotal(vs, n, |vs|) == Records(vs[..n])
    decreases n
  {
    if n == 0 {
      InTotalZero(vs, |vs|);
    } else {
      InTotalRecords(vs, n - 1);
      InTotalStep(vs, n, |vs|);
      AnyTotalRow(vs, n - 1);
      assert vs[..n][..n - 1] == vs[..n - 1];
    }
  }

  lemma {:induction false} InTotalZero<V, E>(vs: seq<Vertex<V, E>>, m: nat)
    ensures InTotal(vs, 0, m) == 0
    decreases m
  {
    if m > 0 {
      InTotalZero(vs, m - 1);
    }
  }

  // Values bounded by d that add up to m * d are all d.
  lemma {:induction false} SaturatedTotal<V, E>(vs: seq<Vertex<V, E>>, m: nat, d: nat)
    requires m <= |vs|
    requires forall t :: 0 <= t < m ==> InCount(vs, |vs|, t) <= d
    requires InTotal(vs, |vs|, m) >= m * d
    ensures forall t :: 0 <= t < m ==> InCount(vs, |vs|, t) == d
    decreases m
  {
    if m > 0 {
      InTotalBound(vs, m - 1, d);
      assert m * d == (m - 1) * d + d;
      SaturatedTotal(vs, m - 1, d);
    }
  }

  lemma {:induction false} InTotalBound<V, E>(vs: seq<Vertex<V, E>>, m: nat, d: nat)
    requires m <= |vs|
    requires forall t :: 0 <= t < m ==> InCount(vs, |vs|, t) <= d
    ensures InTotal(vs, |vs|, m) <= m * d
    decreases m
  {
    if m > 0 {
      InTotalBound(vs, m - 1, d);
      assert m * d == (m - 1) * d + d;
    }
  }

  // When the tallies end at most degree and the edge count is V * degree,
  // every in-degree is degree.
  lemma InDegreesFull<V, E>(vs: seq<Vertex<V, E>>, d: nat)
    requires Simple(vs) && Records(vs) == |vs| * d && AllOutDegrees(vs, d)
    requires forall t :: 0 <= t < |vs| ==> InCount(vs, |vs|, t) <= d
    ensures Regular(vs, true, d)
  {
    InTotalRecords(vs, |vs|);
    assert vs[..|vs|] == vs;
    SaturatedTotal(vs, |vs|, d);
  }

  // A regular graph stores V * d records, and conversely its edge count is
  // what is_regular compares with.
  lemma UniformRecords<V, E>(vs: seq<Vertex<V, E>>, d: nat)
    ensures AllOutDegrees(vs, d) ==> Records(vs) == |vs| * d
  {
    if AllOutDegrees(vs, d) {
      UniformPrefix(vs, |vs|, d);
      assert vs[..|vs|] == vs;
    }
  }

  lemma {:induction false} UniformPrefix<V, E>(vs: seq<Vertex<V, E>>, n: nat, d: nat)
    requires n <= |vs| && AllOutDegrees(vs, d)
    ensures Records(vs[..n]) == n * d
    decreases n
  {
    if n > 0 {
      UniformPrefix(vs, n - 1, d);
      assert vs[..n][..n - 1] == vs[..n - 1];
    }
  }
}
