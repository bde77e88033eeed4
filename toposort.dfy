// toposort_kahn: Kahn's algorithm. The in-degree of every vertex is tallied,
// the vertices of in-degree 0 are stacked in index order, and the search
// repeatedly pops the top of the stack, writes it out and lowers the in-degree
// of its targets, stacking each target whose in-degree reaches 0. When fewer
// than V vertices were written the graph has a cycle and cyclic_graph is
// thrown. The proofs show that a complete output is a topological order and
// that the exception is thrown exactly when no topological order exists.
module Toposort {
  import opened Util
  import opened GraphTypes
  import opened AdjacencyOps
  import opened AdjacencyList
  import opened Regularity

  // The exception cyclic_graph.
  datatype ToposortError = CyclicGraph

  // ord lists every vertex once, and every edge leads from an earlier to a
  // later entry.
  ghost predicate TopologicalOrder<V, E>(vs: seq<Vertex<V, E>>, ord: seq<nat>)
  {
    && |ord| == |vs| && Distinct(ord)
    && (forall i :: 0 <= i < |ord| ==> ord[i] < |vs|)
    && forall i, j :: 0 <= i < |ord| && 0 <= j < |ord| && HasEdge(vs, ord[i], ord[j]) ==> i < j
  }

  // Every vertex written out follows all of its predecessors.
  ghost predicate PredecessorsFirst<V, E>(vs: seq<Vertex<V, E>>, out: seq<nat>)
  {
    forall i, u: nat :: 0 <= i < |out| && HasEdge(vs, u, out[i]) ==> u in out[..i]
  }

  function Gone(out: seq<nat>): set<nat>
  {
    set x | x in out
  }

  // The predecessors of t that have not been written out.
  ghost function Pending<V, E>(vs: seq<Vertex<V, E>>, gone: set<nat>, t: nat): set<nat>
  {
    InNeighbours(vs, |vs|, t) - gone
  }

  // The vertices written out so far: distinct, in range, each after all of
  // its predecessors.
  ghost predicate Written<V, E>(vs: seq<Vertex<V, E>>, out: seq<nat>)
  {
    Distinct(out) && (forall i :: 0 <= i < |out| ==> out[i] < |vs|) && PredecessorsFirst(vs, out)
  }

  // Every in-degree counts the predecessors that are not in gone.
  ghost predicate Tallied<V, E>(vs: seq<Vertex<V, E>>, inDeg: seq<nat>, gone: set<nat>)
  {
    |inDeg| == |vs| && forall t :: 0 <= t < |vs| ==> inDeg[t] == |Pending(vs, gone, t)|
  }

  ghost predicate ZeroOn(inDeg: seq<nat>, gone: set<nat>)
  {
    forall t :: t in gone ==> t < |inDeg| && inDeg[t] == 0
  }

  // The stack holds, once each, exactly the vertices outside excl whose
  // in-degree is 0.
  ghost predicate Stacked(n: nat, inDeg: seq<nat>, starts: seq<nat>, excl: set<nat>)
    requires |inDeg| == n
  {
    && Distinct(starts) && (forall t :: t in starts ==> t < n)
    && forall t :: 0 <= t < n ==> (t in starts <==> t !in excl && inDeg[t] == 0)
  }

  // The state of the main loop once the vertices out are written out.
  ghost predicate KahnState<V, E>(vs: seq<Vertex<V, E>>, inDeg: seq<nat>, starts: seq<nat>, out: seq<nat>)
  {
    && Written(vs, out) && Tallied(vs, inDeg, Gone(out)) && ZeroOn(inDeg, Gone(out))
    && Stacked(|vs|, inDeg, starts, Gone(out))
  }

  // toposort_kahn, the iterator form: out is what was written through the
  // iterator and ok is false when cyclic_graph was thrown after writing it.
  method ToposortKahnInto<V, E>(g: Graph<V, E>) returns (out: seq<nat>, ok: bool)
    requires g.Valid()
    ensures ok <==> |out| == |g.vertices|
    ensures ok ==> TopologicalOrder(g.vertices, out)
    ensures !ok <==> !exists ord :: TopologicalOrder(g.vertices, ord)
    ensures Written(g.vertices, out)
  {
    var n := |g.vertices|;
    var inDeg := InDegrees(g.vertices);
    var starts := Seeds(g.vertices, inDeg);
    out := [];
    while starts != []
      invariant KahnState(g.vertices, inDeg, starts, out)
      decreases n - |out|
    {
      var next := starts[|starts| - 1];
      ghost var gone := Gone(out);
      Emit(g.vertices, inDeg, starts, out);
      out := out + [next];
      starts := starts[..|starts| - 1];
      inDeg, starts := Release(g.vertices, next, inDeg, starts, gone);
    }
    ok := |out| == n;
    if ok {
      Complete(g.vertices, out);
    } else {
      DistinctBounded(out, n);
      Stuck(g.vertices, inDeg, out);
    }
  }

  // toposort_kahn, the vector form: the written vertices, or cyclic_graph.
  method ToposortKahn<V, E>(g: Graph<V, E>) returns (r: Result<seq<nat>, ToposortError>)
    requires g.Valid()
    ensures r.Ok? ==> TopologicalOrder(g.vertices, r.value)
    ensures r.Fail? <==> !exists ord :: TopologicalOrder(g.vertices, ord)
  {
    var out, ok := ToposortKahnInto(g);
    if ok {
      r := Ok(out);
    } else {
      r := Fail(CyclicGraph);
    }
  }

  // toposort: toposort_kahn.
  method TopoSort<V, E>(g: Graph<V, E>) returns (r: Result<seq<nat>, ToposortError>)
    requires g.Valid()
    ensures r.Ok? ==> TopologicalOrder(g.vertices, r.value)
    ensures r.Fail? <==> !exists ord :: TopologicalOrder(g.vertices, ord)
  {
    r := ToposortKahn(g);
  }

  // The in_deg tally: in_deg[t] is the number of edges into t.
  method InDegrees<V, E>(vs: seq<Vertex<V, E>>) returns (inDeg: seq<nat>)
    requires Simple(vs)
    ensures Tallied(vs, inDeg, {})
  {
    var n := |vs|;
    inDeg := seq(n, _ => 0);
    for v := 0 to n
      invariant |inDeg| == n
      invariant forall t :: 0 <= t < n ==> inDeg[t] == InCount(vs, v, t)
    {
      var outs := vs[v].outs;
      for j := 0 to |outs|
        invariant |inDeg| == n
        invariant forall t :: 0 <= t < n ==> inDeg[t] == InCount(vs, v, t) + TargetCount(outs[..j], t)
      {
        var t := outs[j].to;
        TallyStep(vs, v, j);
        inDeg := inDeg[t := inDeg[t] + 1];
      }
      TallyRow(vs, v);
    }
    forall t | 0 <= t < n ensures inDeg[t] == |Pending(vs, {}, t)| {
      InCountCounts(vs, n, t);
      assert Pending(vs, {}, t) == InNeighbours(vs, n, t);
    }
  }

  // The vertices of in-degree 0, stacked in index order.
  method Seeds<V, E>(vs: seq<Vertex<V, E>>, inDeg: seq<nat>) returns (starts: seq<nat>)
    requires Tallied(vs, inDeg, {})
    ensures KahnState(vs, inDeg, starts, [])
    ensures forall i, j :: 0 <= i < j < |starts| ==> starts[i] < starts[j]
  {
    starts := [];
    for i := 0 to |vs|
      invariant forall a :: 0 <= a < |starts| ==> starts[a] < i
      invariant forall a, b :: 0 <= a < b < |starts| ==> starts[a] < starts[b]
      invariant forall t :: 0 <= t < i ==> (t in starts <==> inDeg[t] == 0)
    {
      if inDeg[i] == 0 {
        starts := starts + [i];
      }
    }
    assert Gone([]) == {};
  }

  // ---------------------------------------------------------------------------
  // One turn of the main loop.

  // The top of the stack is not written out yet and has no pending
  // predecessor; writing it out keeps every vertex behind its predecessors,
  // and the rest of the stack is what Release expects.
  lemma Emit<V, E>(vs: seq<Vertex<V, E>>, inDeg: seq<nat>, starts: seq<nat>, out: seq<nat>)
    requires KahnState(vs, inDeg, starts, out) && starts != []
    ensures var next := starts[|starts| - 1];
      && next < |vs| && next !in Gone(out) && inDeg[next] == 0 && |out| < |vs|
      && Written(vs, out + [next]) && Gone(out + [next]) == Gone(out) + {next}
      && Stacked(|vs|, inDeg, starts[..|starts| - 1], Gone(out) + {next})
  {
    var next := starts[|starts| - 1];
    assert next in starts;
    NoPending(vs, Gone(out), next);
    Append(vs, out, next);
    RoomLeft(vs, out, next);
    Pop(|vs|, inDeg, starts, Gone(out));
  }

  // In-degree 0: every predecessor is in gone.
  lemma NoPending<V, E>(vs: seq<Vertex<V, E>>, gone: set<nat>, t: nat)
    requires |Pending(vs, gone, t)| == 0
    ensures InNeighbours(vs, |vs|, t) <= gone
  {
    forall u | u in InNeighbours(vs, |vs|, t) ensures u in gone {
      assert u !in Pending(vs, gone, t);
    }
  }

  // Writing out a vertex whose predecessors are all written out.
  lemma Append<V, E>(vs: seq<Vertex<V, E>>, out: seq<nat>, next: nat)
    requires Written(vs, out) && next < |vs| && next !in Gone(out)
    requires InNeighbours(vs, |vs|, next) <= Gone(out)
    ensures Written(vs, out + [next]) && Gone(out + [next]) == Gone(out) + {next}
  {
    var o := out + [next];
    assert o[..|out|] == out;
    forall i, u: nat | 0 <= i < |o| && HasEdge(vs, u, o[i]) ensures u in o[..i] {
      if i < |out| {
        assert o[..i] == out[..i];
      } else {
        assert u in InNeighbours(vs, |vs|, next);
      }
    }
    assert Gone(o) == Gone(out) + {next};
  }

  // Popping the top of the stack.
  lemma Pop(n: nat, inDeg: seq<nat>, starts: seq<nat>, gone: set<nat>)
    requires |inDeg| == n && Stacked(n, inDeg, starts, gone) && starts != []
    ensures Stacked(n, inDeg, starts[..|starts| - 1], gone + {starts[|starts| - 1]})
  {
    var rest := starts[..|starts| - 1];
    var top := starts[|starts| - 1];
    assert starts == rest + [top];
    forall k | 0 <= k < |rest| ensures rest[k] == starts[k] && rest[k] != top {
      assert rest[k] == starts[k];
    }
    assert Distinct(rest);
    forall t | t in rest ensures t < n {
      var k :| 0 <= k < |rest| && rest[k] == t;
      assert starts[k] == t;
      assert t in starts;
      assert Stacked(n, inDeg, starts, gone);
    }
    forall t | 0 <= t < n ensures t in rest <==> t !in gone + {top} && inDeg[t] == 0 {
      assert t in starts <==> t in rest || t == top;
    }
  }

  // A vertex not yet written out shows that fewer than V were.
  lemma RoomLeft<V, E>(vs: seq<Vertex<V, E>>, out: seq<nat>, next: nat)
    requires Written(vs, out) && next < |vs| && next !in Gone(out)
    ensures |out| < |vs|
  {
    DistinctCard(out);
    assert Gone(out) + {next} <= Below(|vs|);
    SubsetCard(Gone(out) + {next}, Below(|vs|));
    BelowCard(|vs|);
  }

  // The loop over the records of next: lower the in-degree of each target and
  // stack it when it reaches 0.
  method Release<V, E>(vs: seq<Vertex<V, E>>, next: nat, inDeg: seq<nat>, starts: seq<nat>, ghost gone: set<nat>)
    returns (degs: seq<nat>, stack: seq<nat>)
    requires Simple(vs) && next < |vs| && next !in gone
    requires Tallied(vs, inDeg, gone) && ZeroOn(inDeg, gone) && inDeg[next] == 0
    requires Stacked(|vs|, inDeg, starts, gone + {next})
    ensures Tallied(vs, degs, gone + {next}) && ZeroOn(degs, gone + {next})
    ensures Stacked(|vs|, degs, stack, gone + {next})
  {
    var outs := vs[next].outs;
    ReleaseStart(vs, inDeg, gone, next);
    degs, stack := inDeg, starts;
    for j := 0 to |outs|
      invariant ReleasedTally(vs, degs, gone, next, j) && ZeroOn(degs, gone + {next})
      invariant Stacked(|vs|, degs, stack, gone + {next})
    {
      var t := outs[j].to;
      Lower(vs, degs, gone, next, j);
      Lowered(|vs|, degs, stack, gone + {next}, t);
      degs := degs[t := degs[t] - 1];
      if degs[t] == 0 {
        stack := stack + [t];
      }
    }
    ReleaseEnd(vs, degs, gone, next);
  }

  // Lowering the in-degree of the target of record j of next.
  lemma Lower<V, E>(vs: seq<Vertex<V, E>>, degs: seq<nat>, gone: set<nat>, next: nat, j: nat)
    requires Simple(vs) && next < |vs| && next !in gone && j < |vs[next].outs|
    requires ReleasedTally(vs, degs, gone, next, j) && ZeroOn(degs, gone + {next})
    ensures var t := vs[next].outs[j].to;
      && t < |vs| && t !in gone + {next} && degs[t] > 0
      && ReleasedTally(vs, degs[t := degs[t] - 1], gone, next, j + 1)
      && ZeroOn(degs[t := degs[t] - 1], gone + {next})
  {
    var t := vs[next].outs[j].to;
    ReleaseStep(vs, gone, next, j);
    LowerTally(vs, degs, gone, next, j);
    LowerZero(degs, gone + {next}, t);
  }

  lemma LowerTally<V, E>(vs: seq<Vertex<V, E>>, degs: seq<nat>, gone: set<nat>, next: nat, j: nat)
    requires next < |vs| && j < |vs[next].outs| && ReleasedTally(vs, degs, gone, next, j)
    requires var outs := vs[next].outs; var t := outs[j].to;
      && t < |vs|
      && next in Pending(vs, Released(gone, outs, j, next, t), t)
      && Pending(vs, Released(gone, outs, j + 1, next, t), t) == Pending(vs, Released(gone, outs, j, next, t), t) - {next}
      && forall s :: s != t ==> Released(gone, outs, j + 1, next, s) == Released(gone, outs, j, next, s)
    ensures var t := vs[next].outs[j].to;
      degs[t] > 0 && ReleasedTally(vs, degs[t := degs[t] - 1], gone, next, j + 1)
  {
    var outs := vs[next].outs;
    var t := outs[j].to;
    var P := Pending(vs, Released(gone, outs, j, next, t), t);
    assert P == (P - {next}) + {next};
    var after := degs[t := degs[t] - 1];
    forall s | 0 <= s < |vs| ensures after[s] == |Pending(vs, Released(gone, outs, j + 1, next, s), s)| {
      if s != t {
        assert after[s] == degs[s];
      }
    }
  }

  // A positive in-degree is outside excl, and lowering it keeps excl at 0.
  lemma LowerZero(degs: seq<nat>, excl: set<nat>, t: nat)
    requires ZeroOn(degs, excl) && t < |degs| && degs[t] > 0
    ensures t !in excl && ZeroOn(degs[t := degs[t] - 1], excl)
  {
  }

  // The in-degrees once the first j records of next are processed.
  ghost predicate ReleasedTally<V, E>(vs: seq<Vertex<V, E>>, degs: seq<nat>, gone: set<nat>, next: nat, j: nat)
    requires next < |vs| && j <= |vs[next].outs|
  {
    |degs| == |vs| && forall t :: 0 <= t < |vs| ==> degs[t] == |Pending(vs, Released(gone, vs[next].outs, j, next, t), t)|
  }

  lemma ReleaseStart<V, E>(vs: seq<Vertex<V, E>>, inDeg: seq<nat>, gone: set<nat>, next: nat)
    requires next < |vs| && Tallied(vs, inDeg, gone) && ZeroOn(inDeg, gone) && inDeg[next] == 0
    ensures ReleasedTally(vs, inDeg, gone, next, 0) && ZeroOn(inDeg, gone + {next})
  {
    forall t | 0 <= t < |vs| ensures Released(gone, vs[next].outs, 0, next, t) == gone {
      assert !AnyTo(vs[next].outs[..0], t);
    }
    forall t | t in gone + {next} ensures t < |inDeg| && inDeg[t] == 0 {
      if t != next {
        assert t in gone;
      }
    }
  }

  // The vertices counted as written out while the first j records of next
  // have been processed.
  ghost function Released<E>(gone: set<nat>, outs: seq<OutEdge<E>>, j: nat, next: nat, t: nat): set<nat>
    requires j <= |outs|
  {
    if AnyTo(outs[..j], t) then gone + {next} else gone
  }

  lemma ReleaseStep<V, E>(vs: seq<Vertex<V, E>>, gone: set<nat>, next: nat, j: nat)
    requires Simple(vs) && next < |vs| && next !in gone && j < |vs[next].outs|
    ensures var outs := vs[next].outs; var t := outs[j].to;
      && t < |vs| && t != next
      && next in Pending(vs, Released(gone, outs, j, next, t), t)
      && Pending(vs, Released(gone, outs, j + 1, next, t), t) == Pending(vs, Released(gone, outs, j, next, t), t) - {next}
      && forall s :: s != t ==> Released(gone, outs, j + 1, next, s) == Released(gone, outs, j, next, s)
  {
    var outs := vs[next].outs;
    var t := outs[j].to;
    forall i | 0 <= i < j ensures outs[..j][i].to != t {
      assert outs[..j][i] == outs[i];
    }
    assert AnyTo(outs[..j + 1], t) by {
      assert outs[..j + 1][j].to == t;
    }
    assert HasEdge(vs, next, t);
    forall s | s != t ensures AnyTo(outs[..j + 1], s) == AnyTo(outs[..j], s) {
      if AnyTo(outs[..j + 1], s) {
        var i :| 0 <= i < j + 1 && outs[..j + 1][i].to == s;
        assert outs[..j][i].to == s;
      }
      if AnyTo(outs[..j], s) {
        var i :| 0 <= i < j && outs[..j][i].to == s;
        assert outs[..j + 1][i].to == s;
      }
    }
  }

  // Once every record of next is processed, next counts as written out.
  lemma ReleaseEnd<V, E>(vs: seq<Vertex<V, E>>, degs: seq<nat>, gone: set<nat>, next: nat)
    requires next < |vs| && ReleasedTally(vs, degs, gone, next, |vs[next].outs|)
    ensures Tallied(vs, degs, gone + {next})
  {
    var outs := vs[next].outs;
    assert outs[..|outs|] == outs;
    forall t ensures Pending(vs, Released(gone, outs, |outs|, next, t), t) == Pending(vs, gone + {next}, t) {
      if !AnyTo(outs, t) {
        assert next !in InNeighbours(vs, |vs|, t);
      }
    }
  }

  // Lowering an in-degree, and stacking the vertex when it reaches 0.
  lemma Lowered(n: nat, before: seq<nat>, stack: seq<nat>, excl: set<nat>, t: nat)
    requires |before| == n && t < n && t !in excl && before[t] > 0
    requires Stacked(n, before, stack, excl)
    ensures Stacked(n, before[t := before[t] - 1], if before[t] == 1 then stack + [t] else stack, excl)
  {
  }

  // ---------------------------------------------------------------------------
  // When the stack runs dry.

  // All V vertices were written out: a topological order.
  lemma Complete<V, E>(vs: seq<Vertex<V, E>>, out: seq<nat>)
    requires |out| == |vs| && Written(vs, out)
    ensures TopologicalOrder(vs, out)
  {
    forall i, j | 0 <= i < |out| && 0 <= j < |out| && HasEdge(vs, out[i], out[j]) ensures i < j {
      assert out[i] in out[..j];
      var k :| 0 <= k < j && out[..j][k] == out[i];
      assert out[k] == out[i];
    }
  }

  // u in rest has an edge to t.
  ghost predicate Blocked<V, E>(vs: seq<Vertex<V, E>>, rest: set<nat>, t: nat)
  {
    exists u :: u in rest && HasEdge(vs, u, t)
  }

  // Fewer than V vertices were written out: every remaining vertex has a
  // remaining predecessor, so no topological order exists.
  lemma Stuck<V, E>(vs: seq<Vertex<V, E>>, inDeg: seq<nat>, out: seq<nat>)
    requires KahnState(vs, inDeg, [], out) && |out| < |vs|
    ensures !exists ord :: TopologicalOrder(vs, ord)
  {
    var rest := Below(|vs|) - Gone(out);
    Remaining(vs, out);
    RemainingBlocked(vs, inDeg, Gone(out));
    if ord :| TopologicalOrder(vs, ord) {
      NoOrder(vs, rest, ord);
    }
  }

  lemma Remaining<V, E>(vs: seq<Vertex<V, E>>, out: seq<nat>)
    requires Distinct(out) && |out| < |vs|
    ensures Below(|vs|) - Gone(out) != {}
  {
    DistinctCard(out);
    assert Gone(out) == set x | x in out;
    BelowCard(|vs|);
    var rest := Below(|vs|) - Gone(out);
    SubsetCard(Below(|vs|), rest + Gone(out));
    assert |rest + Gone(out)| <= |rest| + |Gone(out)|;
  }

  // With an empty stack, every vertex outside gone has a predecessor outside gone.
  lemma RemainingBlocked<V, E>(vs: seq<Vertex<V, E>>, inDeg: seq<nat>, gone: set<nat>)
    requires Tallied(vs, inDeg, gone) && Stacked(|vs|, inDeg, [], gone)
    ensures forall t {:trigger Blocked(vs, Below(|vs|) - gone, t)} :: t in Below(|vs|) - gone ==> Blocked(vs, Below(|vs|) - gone, t)
  {
    var rest := Below(|vs|) - gone;
    forall t | t in rest ensures Blocked(vs, rest, t) {
      assert inDeg[t] != 0;
      var u :| u in Pending(vs, gone, t);
      assert u in rest;
    }
  }

  // A non-empty set of vertices in which each has a predecessor admits no
  // topological order: its earliest member in the order would have an earlier
  // one.
  lemma NoOrder<V, E>(vs: seq<Vertex<V, E>>, rest: set<nat>, ord: seq<nat>)
    requires rest != {} && forall t :: t in rest ==> t < |vs|
    requires forall t {:trigger Blocked(vs, rest, t)} :: t in rest ==> Blocked(vs, rest, t)
    ensures !TopologicalOrder(vs, ord)
  {
    if TopologicalOrder(vs, ord) {
      Covers(vs, ord);
      var t :| t in rest;
      assert t in ord;
      var i :| 0 <= i < |ord| && ord[i] == t;
      NotEarliest(vs, rest, ord, i);
    }
  }

  // No entry of the order lies in rest, by induction on its position.
  lemma {:induction false} NotEarliest<V, E>(vs: seq<Vertex<V, E>>, rest: set<nat>, ord: seq<nat>, i: nat)
    requires TopologicalOrder(vs, ord) && i < |ord|
    requires forall t: nat :: t < |vs| ==> t in ord
    requires forall t {:trigger Blocked(vs, rest, t)} :: t in rest ==> Blocked(vs, rest, t)
    ensures ord[i] !in rest
    decreases i
  {
    if ord[i] in rest {
      assert Blocked(vs, rest, ord[i]);
      var u :| u in rest && HasEdge(vs, u, ord[i]);
      assert u in ord;
      var k :| 0 <= k < |ord| && ord[k] == u;
      NotEarliest(vs, rest, ord, k);
    }
  }

  // A topological order lists every vertex.
  lemma Covers<V, E>(vs: seq<Vertex<V, E>>, ord: seq<nat>)
    requires TopologicalOrder(vs, ord)
    ensures forall t: nat :: t < |vs| ==> t in ord
  {
    DistinctCovers(ord, |vs|);
  }
}
