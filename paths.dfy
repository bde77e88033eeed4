// Walks along out-edge records and the vertices they reach: the vocabulary in
// which the searches (breadth-first, depth-first, Dijkstra) and the component
// algorithms state what they find.
module Paths {
  import opened GraphTypes

  // The targets of a list of out-edge records.
  function Targets<E>(outs: seq<OutEdge<E>>): (r: set<nat>)
    ensures forall w :: w in r <==> exists j :: 0 <= j < |outs| && outs[j].to == w
  {
    set j | 0 <= j < |outs| :: outs[j].to
  }

  // The marks after the records outs have been walked: every target is marked.
  function Mark<E>(marked: seq<bool>, outs: seq<OutEdge<E>>): (r: seq<bool>)
    ensures |r| == |marked|
    ensures forall x :: 0 <= x < |marked| ==> (r[x] <==> marked[x] || x in Targets(outs))
  {
    seq(|marked|, x requires 0 <= x < |marked| => marked[x] || x in Targets(outs))
  }

  lemma TargetsSnoc<E>(outs: seq<OutEdge<E>>, j: nat)
    requires j < |outs|
    ensures Targets(outs[..j + 1]) == Targets(outs[..j]) + {outs[j].to}
  {
    assert outs[..j + 1] == outs[..j] + [outs[j]];
  }

  lemma TargetsEdges<V, E>(vs: seq<Vertex<V, E>>, u: nat)
    requires u < |vs|
    ensures forall w :: w in Targets(vs[u].outs) <==> HasEdge(vs, u, w)
  {
  }

  // A non-empty walk in which each vertex has a record to the next.
  predicate IsPath<V, E>(vs: seq<Vertex<V, E>>, p: seq<nat>)
  {
    |p| > 0 && forall i :: 0 <= i < |p| - 1 ==> HasEdge(vs, p[i], p[i + 1])
  }

  // w lies on a walk that starts at one of the seeds.
  ghost predicate Reachable<V, E>(vs: seq<Vertex<V, E>>, seeds: seq<nat>, w: nat)
  {
    exists p :: IsPath(vs, p) && p[0] in seeds && p[|p| - 1] == w
  }

  // Every vertex is reached from vertex 0 (for an undirected graph: the graph
  // is connected). The graph without vertices counts as connected.
  ghost predicate Connected<V, E>(vs: seq<Vertex<V, E>>)
  {
    forall w :: 0 <= w < |vs| ==> Reachable(vs, [0], w)
  }

  // w is the end of a walk with k steps that starts at one of the seeds.
  ghost predicate WalkOf<V, E>(vs: seq<Vertex<V, E>>, seeds: seq<nat>, w: nat, k: nat)
  {
    exists p :: IsPath(vs, p) && |p| == k + 1 && p[0] in seeds && p[|p| - 1] == w
  }

  lemma WalkSeed<V, E>(vs: seq<Vertex<V, E>>, seeds: seq<nat>, s: nat)
    requires s in seeds
    ensures WalkOf(vs, seeds, s, 0)
  {
    assert IsPath(vs, [s]);
  }

  lemma WalkStep<V, E>(vs: seq<Vertex<V, E>>, seeds: seq<nat>, u: nat, w: nat, k: nat)
    requires WalkOf(vs, seeds, u, k) && HasEdge(vs, u, w)
    ensures WalkOf(vs, seeds, w, k + 1)
  {
    var p :| IsPath(vs, p) && |p| == k + 1 && p[0] in seeds && p[|p| - 1] == u;
    var q := p + [w];
    assert forall i :: 0 <= i < |q| - 1 ==> q[i] == p[i] || i == |p| - 1;
    assert IsPath(vs, q);
  }

  // The last step of a walk.
  lemma WalkBack<V, E>(vs: seq<Vertex<V, E>>, seeds: seq<nat>, w: nat, k: nat) returns (u: nat)
    requires WalkOf(vs, seeds, w, k + 1)
    ensures WalkOf(vs, seeds, u, k) && HasEdge(vs, u, w)
  {
    var p :| IsPath(vs, p) && |p| == k + 2 && p[0] in seeds && p[|p| - 1] == w;
    var q := p[..k + 1];
    assert IsPath(vs, q);
    u := q[k];
    assert HasEdge(vs, p[k], p[k + 1]);
  }

  // No record leaves s.
  ghost predicate Closed<V, E>(vs: seq<Vertex<V, E>>, s: set<nat>)
  {
    forall u: nat, w: nat :: u in s && HasEdge(vs, u, w) ==> w in s
  }

  lemma ReachableSeed<V, E>(vs: seq<Vertex<V, E>>, seeds: seq<nat>, s: nat)
    requires s in seeds
    ensures Reachable(vs, seeds, s)
  {
    assert IsPath(vs, [s]);
  }

  lemma ReachableStep<V, E>(vs: seq<Vertex<V, E>>, seeds: seq<nat>, u: nat, w: nat)
    requires Reachable(vs, seeds, u) && HasEdge(vs, u, w)
    ensures Reachable(vs, seeds, w)
  {
    var p :| IsPath(vs, p) && p[0] in seeds && p[|p| - 1] == u;
    var q := p + [w];
    assert forall i :: 0 <= i < |q| - 1 ==> q[i] == p[i] || i == |p| - 1;
    assert IsPath(vs, q);
  }

  // A walk that starts inside a closed set never leaves it.
  lemma {:induction false} ClosedPath<V, E>(vs: seq<Vertex<V, E>>, s: set<nat>, p: seq<nat>)
    requires Closed(vs, s) && IsPath(vs, p) && p[0] in s
    ensures p[|p| - 1] in s
    decreases |p|
  {
    if |p| > 1 {
      var q := p[..|p| - 1];
      assert IsPath(vs, q);
      ClosedPath(vs, s, q);
      assert HasEdge(vs, q[|q| - 1], p[|p| - 1]);
    }
  }

  // A closed set that holds every seed holds every vertex the seeds reach.
  lemma ClosedReachable<V, E>(vs: seq<Vertex<V, E>>, seeds: seq<nat>, s: set<nat>)
    requires Closed(vs, s) && forall x :: x in seeds ==> x in s
    ensures forall w :: Reachable(vs, seeds, w) ==> w in s
  {
    forall w | Reachable(vs, seeds, w) ensures w in s {
      var p :| IsPath(vs, p) && p[0] in seeds && p[|p| - 1] == w;
      ClosedPath(vs, s, p);
    }
  }

  // A walk together with the record it takes at each step.
  predicate RecordWalk<V, E>(vs: seq<Vertex<V, E>>, p: seq<nat>, js: seq<nat>)
  {
    |p| == |js| + 1
    && forall i :: 0 <= i < |js| ==> p[i] < |vs| && js[i] < |vs[p[i]].outs| && vs[p[i]].outs[js[i]].to == p[i + 1]
  }

  lemma RecordWalkPrefix<V, E>(vs: seq<Vertex<V, E>>, p: seq<nat>, js: seq<nat>, k: nat)
    requires RecordWalk(vs, p, js) && k <= |js|
    ensures RecordWalk(vs, p[..k + 1], js[..k])
  {
  }

  // The sum of the weights of the records a walk takes.
  function Cost<V, E>(vs: seq<Vertex<V, E>>, weight: (nat, OutEdge<E>) -> int, p: seq<nat>, js: seq<nat>): int
    requires RecordWalk(vs, p, js)
    decreases |js|
  {
    if js == [] then 0
    else
      var k := |js| - 1;
      RecordWalkPrefix(vs, p, js, k);
      Cost(vs, weight, p[..k + 1], js[..k]) + weight(p[k], vs[p[k]].outs[js[k]])
  }

  // Some walk from the seeds to w costs c.
  ghost predicate CostOf<V, E>(vs: seq<Vertex<V, E>>, seeds: seq<nat>, weight: (nat, OutEdge<E>) -> int, w: nat, c: int)
  {
    exists p, js :: RecordWalk(vs, p, js) && p[0] in seeds && p[|p| - 1] == w && Cost(vs, weight, p, js) == c
  }

  lemma CostSeed<V, E>(vs: seq<Vertex<V, E>>, seeds: seq<nat>, weight: (nat, OutEdge<E>) -> int, s: nat)
    requires s in seeds
    ensures CostOf(vs, seeds, weight, s, 0)
  {
    assert RecordWalk(vs, [s], []);
  }

  lemma CostStep<V, E>(vs: seq<Vertex<V, E>>, seeds: seq<nat>, weight: (nat, OutEdge<E>) -> int, u: nat, c: int, j: nat)
    requires CostOf(vs, seeds, weight, u, c) && u < |vs| && j < |vs[u].outs|
    ensures CostOf(vs, seeds, weight, vs[u].outs[j].to, c + weight(u, vs[u].outs[j]))
  {
    var p, js :| RecordWalk(vs, p, js) && p[0] in seeds && p[|p| - 1] == u && Cost(vs, weight, p, js) == c;
    var p', js' := p + [vs[u].outs[j].to], js + [j];
    assert RecordWalk(vs, p', js') by {
      forall i | 0 <= i < |js'|
        ensures p'[i] < |vs| && js'[i] < |vs[p'[i]].outs| && vs[p'[i]].outs[js'[i]].to == p'[i + 1]
      {
        if i < |js| {
          assert p'[i] == p[i] && js'[i] == js[i] && p'[i + 1] == p[i + 1];
        }
      }
    }
    assert p'[..|js'|] == p && js'[..|js|] == js;
  }

  // Every walk has its records.
  lemma {:induction false} PathRecords<V, E>(vs: seq<Vertex<V, E>>, p: seq<nat>) returns (js: seq<nat>)
    requires IsPath(vs, p)
    ensures RecordWalk(vs, p, js)
    decreases |p|
  {
    if |p| == 1 {
      js := [];
    } else {
      var q := p[..|p| - 1];
      assert IsPath(vs, q);
      var qs := PathRecords(vs, q);
      assert HasEdge(vs, p[|p| - 2], p[|p| - 1]);
      var j :| 0 <= j < |vs[p[|p| - 2]].outs| && vs[p[|p| - 2]].outs[j].to == p[|p| - 1];
      js := qs + [j];
      forall i | 0 <= i < |js| ensures p[i] < |vs| && js[i] < |vs[p[i]].outs| && vs[p[i]].outs[js[i]].to == p[i + 1] {
        if i < |qs| {
          assert q[i] == p[i] && q[i + 1] == p[i + 1];
        }
      }
    }
  }

  lemma ReachableCost<V, E>(vs: seq<Vertex<V, E>>, seeds: seq<nat>, weight: (nat, OutEdge<E>) -> int, w: nat)
    requires Reachable(vs, seeds, w)
    ensures exists c :: CostOf(vs, seeds, weight, w, c)
  {
    var p :| IsPath(vs, p) && p[0] in seeds && p[|p| - 1] == w;
    var js := PathRecords(vs, p);
    assert CostOf(vs, seeds, weight, w, Cost(vs, weight, p, js));
  }

  lemma CostReachable<V, E>(vs: seq<Vertex<V, E>>, seeds: seq<nat>, weight: (nat, OutEdge<E>) -> int, w: nat, c: int)
    requires CostOf(vs, seeds, weight, w, c)
    ensures Reachable(vs, seeds, w)
  {
    var p, js :| RecordWalk(vs, p, js) && p[0] in seeds && p[|p| - 1] == w && Cost(vs, weight, p, js) == c;
    forall i | 0 <= i < |p| - 1 ensures HasEdge(vs, p[i], p[i + 1]) {
      assert vs[p[i]].outs[js[i]].to == p[i + 1];
    }
    assert IsPath(vs, p);
  }
}
