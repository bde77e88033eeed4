// Connected components of an undirected graph: get_disjoint_set unites the two
// ends of every edge, ccs counts the sets that remain, and split_ccs cuts the
// graph into one graph per component, renumbering the vertices of each part.
module ConnectedComponents {
  import opened Util
  import opened GraphTypes
  import opened Paths
  import opened DisjointSets
  import opened AdjacencyList

  // ---------------------------------------------------------------------------
  // Reachability in an undirected graph is an equivalence.

  lemma ReachSelf<V, E>(vs: seq<Vertex<V, E>>, a: nat)
    ensures Reachable(vs, [a], a)
  {
    ReachableSeed(vs, [a], a);
  }

  lemma ReachTrans<V, E>(vs: seq<Vertex<V, E>>, a: nat, b: nat, c: nat)
    requires Reachable(vs, [a], b) && Reachable(vs, [b], c)
    ensures Reachable(vs, [a], c)
  {
    var p :| IsPath(vs, p) && p[0] in [a] && p[|p| - 1] == b;
    var q :| IsPath(vs, q) && q[0] in [b] && q[|q| - 1] == c;
    var w := p + q[1..];
    forall i | 0 <= i < |w| - 1 ensures HasEdge(vs, w[i], w[i + 1]) {
      if i < |p| - 1 {
        assert w[i] == p[i] && w[i + 1] == p[i + 1];
      } else {
        assert w[i] == q[i - |p| + 1] && w[i + 1] == q[i - |p| + 2];
      }
    }
    assert IsPath(vs, w) && w[0] == a;
    assert w[|w| - 1] == c by {
      if |q| == 1 {
        assert w == p;
      } else {
        assert w[|w| - 1] == q[|q| - 1];
      }
    }
  }

  lemma ReachSym<V, E>(vs: seq<Vertex<V, E>>, a: nat, b: nat)
    requires Symmetric(vs) && Reachable(vs, [a], b)
    ensures Reachable(vs, [b], a)
  {
    var p :| IsPath(vs, p) && p[0] in [a] && p[|p| - 1] == b;
    var w := seq(|p|, i requires 0 <= i < |p| => p[|p| - 1 - i]);
    forall i | 0 <= i < |w| - 1 ensures HasEdge(vs, w[i], w[i + 1]) {
      assert HasEdge(vs, p[|p| - 2 - i], p[|p| - 1 - i]);
    }
    assert IsPath(vs, w) && w[0] == b && w[|w| - 1] == a;
  }

  lemma ReachEdge<V, E>(vs: seq<Vertex<V, E>>, a: nat, b: nat)
    requires HasEdge(vs, a, b)
    ensures Reachable(vs, [a], b)
  {
    ReachSelf(vs, a);
    ReachableStep(vs, [a], a, b);
  }

  // ---------------------------------------------------------------------------
  // Components.

  // The vertices reached from a.
  ghost function Component<V, E>(vs: seq<Vertex<V, E>>, a: nat): set<nat>
  {
    set b: nat | b < |vs| && Reachable(vs, [a], b)
  }

  // The components of the graph, each as the set of its vertices.
  ghost function Components<V, E>(vs: seq<Vertex<V, E>>): set<set<nat>>
  {
    set a: nat | a < |vs| :: Component(vs, a)
  }

  // Two vertices share a root exactly when one reaches the other.
  ghost predicate Classes<V, E>(vs: seq<Vertex<V, E>>, roots: seq<nat>)
  {
    |roots| == |vs|
    && forall a, b :: 0 <= a < |roots| && 0 <= b < |roots| ==> (roots[a] == roots[b] <==> Reachable(vs, [a], b))
  }

  // Roots shared only by vertices that reach each other.
  ghost predicate Sound<V, E>(vs: seq<Vertex<V, E>>, roots: seq<nat>)
  {
    |roots| == |vs|
    && forall a, b :: 0 <= a < |roots| && 0 <= b < |roots| && roots[a] == roots[b] ==> Reachable(vs, [a], b)
  }

  // Every record v -> t with v < t of the rows before u, and of row u before
  // position j, joins two vertices of one set.
  ghost predicate UnitedUpTo<V, E>(vs: seq<Vertex<V, E>>, roots: seq<nat>, u: nat, j: nat)
  {
    |roots| == |vs|
    && forall v, k ::
         (0 <= v < |vs| && 0 <= k < |vs[v].outs| && (v < u || (v == u && k < j)) && v < vs[v].outs[k].to < |vs|)
         ==> roots[v] == roots[vs[v].outs[k].to]
  }

  // Before any unite, every vertex is a set of its own.
  lemma SingletonsSound<V, E>(vs: seq<Vertex<V, E>>, roots: seq<nat>)
    requires |roots| == |vs| && forall i :: 0 <= i < |roots| ==> roots[i] == i
    ensures Sound(vs, roots) && UnitedUpTo(vs, roots, 0, 0)
  {
    forall a | 0 <= a < |roots| ensures Reachable(vs, [a], a) {
      ReachSelf(vs, a);
    }
  }

  // Joining the sets of the two ends of an edge under one of their roots keeps
  // Sound.
  lemma MergeSound<V, E>(vs: seq<Vertex<V, E>>, roots: seq<nat>, x: nat, y: nat, w: nat)
    requires Symmetric(vs) && Sound(vs, roots) && x < |roots| && y < |roots| && HasEdge(vs, x, y)
    requires w == roots[x] || w == roots[y]
    ensures Sound(vs, Merged(roots, roots[x], roots[y], w))
  {
    var m := Merged(roots, roots[x], roots[y], w);
    forall a, b | 0 <= a < |m| && 0 <= b < |m| && m[a] == m[b] ensures Reachable(vs, [a], b) {
      var inA := roots[a] == roots[x] || roots[a] == roots[y];
      var inB := roots[b] == roots[x] || roots[b] == roots[y];
      if inA && inB {
        // a reaches x, x reaches y, and y reaches b (or a and b lie on one side).
        ReachEdge(vs, x, y);
        ReachSym(vs, x, y);
        var ea := if roots[a] == roots[x] then x else y;
        var eb := if roots[b] == roots[x] then x else y;
        assert Reachable(vs, [a], ea);
        assert Reachable(vs, [eb], b);
        if ea == eb {
          ReachTrans(vs, a, ea, b);
        } else {
          ReachTrans(vs, a, ea, eb);
          ReachTrans(vs, a, eb, b);
        }
      } else {
        assert roots[a] == roots[b];
      }
    }
  }

  // Joining sets never separates two vertices of one set.
  lemma MergeUnited<V, E>(vs: seq<Vertex<V, E>>, roots: seq<nat>, x: nat, y: nat, w: nat, u: nat, j: nat)
    requires UnitedUpTo(vs, roots, u, j) && x < |roots| && y < |roots|
    requires Merged(roots, roots[x], roots[y], w)[x] == Merged(roots, roots[x], roots[y], w)[y]
    requires u < |vs| && j < |vs[u].outs| && x == u && y == vs[u].outs[j].to
    ensures UnitedUpTo(vs, Merged(roots, roots[x], roots[y], w), u, j + 1)
  {
  }

  // Once every edge is done, the sets are exactly the components.
  lemma UnitedClasses<V, E>(vs: seq<Vertex<V, E>>, roots: seq<nat>)
    requires WellFormed(vs, false) && Sound(vs, roots) && UnitedUpTo(vs, roots, |vs|, 0)
    ensures Classes(vs, roots)
  {
    forall u: nat, w: nat | HasEdge(vs, u, w) ensures roots[u] == roots[w] {
      if u < w {
        var k :| 0 <= k < |vs[u].outs| && vs[u].outs[k].to == w;
      } else {
        assert HasEdge(vs, w, u);
        var k :| 0 <= k < |vs[w].outs| && vs[w].outs[k].to == u;
        assert u != w;
      }
    }
    forall a, b | 0 <= a < |roots| && 0 <= b < |roots| && Reachable(vs, [a], b) ensures roots[a] == roots[b] {
      var s := set c: nat | c < |roots| && roots[c] == roots[a];
      ClosedReachable(vs, [a], s);
    }
  }

  // ---------------------------------------------------------------------------
  // get_disjoint_set and ccs.

  // get_disjoint_set: a fresh disjoint set (with the default path-splitting
  // strategy) in which unite was called on the two ends of every edge, once
  // per edge (from its smaller end).
  method GetDisjointSet<V, E>(g: Graph<V, E>) returns (ds: DisjointSet)
    requires g.Valid() && !g.directed
    ensures fresh(ds) && ds.Valid() && ds.strategy == PathSplitting
    ensures Classes(g.vertices, Roots(ds.parent, ds.rank))
  {
    var vs := g.vertices;
    ds := new DisjointSet(PathSplitting, |vs|);
    forall i | 0 <= i < |vs| ensures Roots(ds.parent, ds.rank)[i] == i {
      assert ds.RootOf(i) == i;
    }
    SingletonsSound(vs, Roots(ds.parent, ds.rank));
    var u := 0;
    while u < |vs|
      invariant 0 <= u <= |vs| && Uniting(ds, vs, u, 0)
    {
      UniteRow(ds, vs, u);
      u := u + 1;
    }
    UnitedClasses(vs, Roots(ds.parent, ds.rank));
  }

  // The inner loop of get_disjoint_set over the records of u.
  method UniteRow<V, E>(ds: DisjointSet, vs: seq<Vertex<V, E>>, u: nat)
    requires WellFormed(vs, false) && u < |vs| && Uniting(ds, vs, u, 0)
    modifies ds
    ensures Uniting(ds, vs, u + 1, 0)
  {
    var j := 0;
    while j < |vs[u].outs|
      invariant 0 <= j <= |vs[u].outs| && Uniting(ds, vs, u, j)
    {
      UniteRecord(ds, vs, u, j);
      j := j + 1;
    }
  }

  // The disjoint set after the records before position j of row u.
  ghost predicate Uniting<V, E>(ds: DisjointSet, vs: seq<Vertex<V, E>>, u: nat, j: nat)
    reads ds
  {
    ds.Valid() && |ds.parent| == |vs| && ds.strategy == PathSplitting
    && Sound(vs, Roots(ds.parent, ds.rank)) && UnitedUpTo(vs, Roots(ds.parent, ds.rank), u, j)
  }

  // One step of the inner loop: unite the ends of record j of u, once per edge.
  method UniteRecord<V, E>(ds: DisjointSet, vs: seq<Vertex<V, E>>, u: nat, j: nat)
    requires WellFormed(vs, false) && u < |vs| && j < |vs[u].outs| && Uniting(ds, vs, u, j)
    modifies ds
    ensures Uniting(ds, vs, u, j + 1)
  {
    var to := vs[u].outs[j].to;
    if u < to {
      ghost var roots := Roots(ds.parent, ds.rank);
      var united := ds.Unite(u, to);
      if united {
        MergeSound(vs, roots, u, to, ds.RootOf(u));
        MergeUnited(vs, roots, u, to, ds.RootOf(u), u, j);
      }
    }
  }

  // Vertices of one set have one component.
  lemma SameComponent<V, E>(vs: seq<Vertex<V, E>>, roots: seq<nat>, a: nat, b: nat)
    requires Classes(vs, roots) && a < |roots| && b < |roots| && roots[a] == roots[b]
    ensures Component(vs, a) == Component(vs, b)
  {
    forall c: nat | c < |vs| ensures Reachable(vs, [a], c) <==> Reachable(vs, [b], c) {
      assert Reachable(vs, [a], c) <==> roots[a] == roots[c];
      assert Reachable(vs, [b], c) <==> roots[b] == roots[c];
    }
  }

  // A root stands for the component of any of its members, and different
  // roots for different components: there are as many sets as components.
  lemma SetsAreComponents<V, E>(vs: seq<Vertex<V, E>>, parent: seq<nat>, rank: seq<nat>)
    requires Ranked(parent, rank) && Classes(vs, Roots(parent, rank))
    ensures |RootSet(parent)| == |Components(vs)|
  {
    var roots := Roots(parent, rank);
    var rs := RootSet(parent);
    var f: nat -> set<nat> := r => Component(vs, r);
    forall x, y | x in rs && y in rs && f(x) == f(y) ensures x == y {
      assert roots[x] == x && roots[y] == y;
      ReachSelf(vs, y);
      assert y in Component(vs, x);
    }
    InjectiveImageCard(rs, f);
    var image := set x | x in rs :: f(x);
    forall c | c in image ensures c in Components(vs) {
      var r :| r in rs && c == Component(vs, r);
      assert r < |vs|;
    }
    forall c | c in Components(vs) ensures c in image {
      var a: nat :| a < |vs| && c == Component(vs, a);
      var r := roots[a];
      assert roots[r] == r;
      SameComponent(vs, roots, a, r);
      assert r in rs;
    }
    assert image == Components(vs);
  }

  // ccs: the number of sets left by get_disjoint_set.
  method Ccs<V, E>(g: Graph<V, E>) returns (r: nat)
    requires g.Valid() && !g.directed
    ensures r == |Components(g.vertices)|
  {
    var ds := GetDisjointSet(g);
    SetsAreComponents(g.vertices, ds.parent, ds.rank);
    r := ds.Sets();
  }

  // ---------------------------------------------------------------------------
  // split_ccs.

  // The number of vertices u < v placed in part c.
  function CountBelow(cc: seq<nat>, c: nat, v: nat): (r: nat)
    requires v <= |cc|
    ensures r <= v
  {
    if v == 0 then 0 else CountBelow(cc, c, v - 1) + (if cc[v - 1] == c then 1 else 0)
  }

  lemma {:induction false} CountBelowMono(cc: seq<nat>, c: nat, u: nat, w: nat)
    requires u <= w <= |cc|
    ensures CountBelow(cc, c, u) <= CountBelow(cc, c, w)
    decreases w
  {
    if u < w {
      CountBelowMono(cc, c, u, w - 1);
    }
  }

  // Each count below the total is the number of vertices before some vertex
  // of the part.
  lemma {:induction false} CountBelowHit(cc: seq<nat>, c: nat, i: nat, v: nat)
    requires v <= |cc| && i < CountBelow(cc, c, v)
    ensures exists u :: 0 <= u < v && cc[u] == c && CountBelow(cc, c, u) == i
    decreases v
  {
    if i < CountBelow(cc, c, v - 1) {
      CountBelowHit(cc, c, i, v - 1);
    } else {
      assert cc[v - 1] == c && CountBelow(cc, c, v - 1) == i;
    }
  }

  // The records of a vertex with every target renumbered through rel.
  function RelabeledOuts<E>(outs: seq<OutEdge<E>>, rel: seq<nat>): (r: seq<OutEdge<E>>)
    requires forall k :: 0 <= k < |outs| ==> outs[k].to < |rel|
    ensures |r| == |outs|
  {
    seq(|outs|, k requires 0 <= k < |outs| => OutEdge(rel[outs[k].to], outs[k].payload))
  }

  // The copy of vertex x that split_ccs stores in x's part.
  function Relabeled<V, E>(x: Vertex<V, E>, rel: seq<nat>): Vertex<V, E>
    requires forall k :: 0 <= k < |x.outs| ==> x.outs[k].to < |rel|
  {
    Vertex(x.payload, RelabeledOuts(x.outs, rel))
  }

  // parts splits vs: vertex v is stored, renumbered, at position rel[v] of
  // part cc[v]; every position of every part holds exactly one vertex, and no
  // part is empty.
  ghost predicate SplitInto<V, E>(vs: seq<Vertex<V, E>>, parts: seq<seq<Vertex<V, E>>>, cc: seq<nat>, rel: seq<nat>)
  {
    InRange(vs) && |cc| == |vs| && |rel| == |vs|
    && (forall v :: 0 <= v < |vs| ==> cc[v] < |parts| && rel[v] < |parts[cc[v]]|)
    && (forall v :: 0 <= v < |vs| ==> parts[cc[v]][rel[v]] == Relabeled(vs[v], rel))
    && (forall c, i :: 0 <= c < |parts| && 0 <= i < |parts[c]| ==> Filled(cc, rel, c, i))
    && (forall u, w :: 0 <= u < |vs| && 0 <= w < |vs| && cc[u] == cc[w] && rel[u] == rel[w] ==> u == w)
    && (forall c :: 0 <= c < |parts| ==> parts[c] != [])
  }

  // Some vertex is stored at position i of part c.
  ghost predicate Filled(cc: seq<nat>, rel: seq<nat>, c: nat, i: nat)
  {
    exists v :: 0 <= v < |cc| && v < |rel| && cc[v] == c && rel[v] == i
  }

  // split_ccs: one part per component, in the order in which the components'
  // first vertices appear; within a part the vertices keep their order, and
  // each record's target is renumbered to the target's position in the part.
  // A part is returned as its vertex sequence.
  method SplitCcs<V, E>(g: Graph<V, E>) returns (parts: seq<seq<Vertex<V, E>>>, ghost cc: seq<nat>, ghost rel: seq<nat>)
    requires g.Valid() && !g.directed
    ensures |parts| == |Components(g.vertices)|
    ensures SplitInto(g.vertices, parts, cc, rel)
    ensures forall u, w :: 0 <= u < |cc| && 0 <= w < |cc| ==> (cc[u] == cc[w] <==> Reachable(g.vertices, [u], w))
    ensures InOrder(cc, rel)
  {
    var vs := g.vertices;
    var ds := GetDisjointSet(g);
    ghost var roots := Roots(ds.parent, ds.rank);
    SetsAreComponents(vs, ds.parent, ds.rank);
    ghost var leaders;
    var index;
    index, leaders := CompressRoots(ds, |vs|);
    cc := PartIndices(roots, index);
    NumberedIndexed(roots, index, leaders, ds.sets);
    var relative := Relative(ds, index, cc);
    rel := relative;
    parts := BuildParts(ds, vs, index, cc, relative);
    SplitDone(vs, roots, index, leaders, parts, cc, rel);
  }

  // What the three loops of split_ccs have built is the split.
  lemma SplitDone<V, E>(vs: seq<Vertex<V, E>>, roots: seq<nat>, index: map<nat, nat>, leaders: seq<nat>,
                        parts: seq<seq<Vertex<V, E>>>, cc: seq<nat>, rel: seq<nat>)
    requires InRange(vs) && Classes(vs, roots) && Numbered(roots, index, leaders, |roots|)
    requires cc == PartIndices(roots, index) && |rel| == |vs| && |parts| == |index|
    requires Built(vs, parts, cc, rel, |vs|) && Positions(cc, rel)
    ensures SplitInto(vs, parts, cc, rel)
    ensures forall u, w :: 0 <= u < |cc| && 0 <= w < |cc| ==> (cc[u] == cc[w] <==> Reachable(vs, [u], w))
    ensures InOrder(cc, rel)
  {
    NumberedIndexed(roots, index, leaders, |index|);
    SplitCounts(vs, parts, cc, rel, leaders);
    SameParts(vs, roots, index, cc);
    SplitOrder(roots, index, leaders, cc, rel);
  }

  // The order split_ccs keeps: parts in the order their first vertices
  // appear, each vertex at its position in its part, and within a part the
  // vertices in their original order.
  ghost predicate InOrder(cc: seq<nat>, rel: seq<nat>)
  {
    MetInOrder(cc) && Positions(cc, rel)
    && forall u, w :: 0 <= u < w < |cc| && cc[u] == cc[w] ==> rel[u] < rel[w]
  }

  lemma SplitOrder(roots: seq<nat>, index: map<nat, nat>, leaders: seq<nat>, cc: seq<nat>, rel: seq<nat>)
    requires Numbered(roots, index, leaders, |roots|) && cc == PartIndices(roots, index) && Positions(cc, rel)
    ensures InOrder(cc, rel)
  {
    LeadersInOrder(roots, index, leaders);
    PositionsInOrder(cc, rel);
  }

  // w is the first vertex of its part.
  ghost predicate FirstOfPart(cc: seq<nat>, w: nat)
    requires w < |cc|
  {
    forall x :: 0 <= x < w ==> cc[x] != cc[w]
  }

  // The parts are numbered in the order in which their first vertices
  // appear: every vertex before the first vertex of a part lies in a part
  // numbered lower, so vertex 0 lies in part 0.
  ghost predicate MetInOrder(cc: seq<nat>)
  {
    (|cc| > 0 ==> cc[0] == 0)
    && forall u, w :: 0 <= u < w < |cc| && FirstOfPart(cc, w) ==> cc[u] < cc[w]
  }

  // Numbering the roots as they are met numbers the parts in order.
  lemma LeadersInOrder(roots: seq<nat>, index: map<nat, nat>, leaders: seq<nat>)
    requires Numbered(roots, index, leaders, |roots|)
    ensures MetInOrder(PartIndices(roots, index))
  {
    var cc := PartIndices(roots, index);
    forall w | 0 <= w < |cc|
      ensures leaders[cc[w]] <= w && roots[leaders[cc[w]]] == roots[w]
    {
      LeaderOf(roots, index, leaders, w);
    }
    if |cc| > 0 {
      // Vertex 0 leads its part, and no leader comes before it.
      LeaderOf(roots, index, leaders, 0);
      var first, leader := leaders[0], leaders[cc[0]];
    }
    forall u, w | 0 <= u < w < |cc| && FirstOfPart(cc, w)
      ensures cc[u] < cc[w]
    {
      // u's leader comes no later than u, so before w, which leads its part.
      LeaderFirst(roots, index, leaders, w);
      var earlier, later := leaders[cc[u]], leaders[cc[w]];
    }
  }

  // The leader of w's part is no later than w and has w's root.
  lemma LeaderOf(roots: seq<nat>, index: map<nat, nat>, leaders: seq<nat>, w: nat)
    requires Numbered(roots, index, leaders, |roots|) && w < |roots|
    ensures index[roots[w]] < |leaders|
    ensures leaders[index[roots[w]]] <= w && roots[leaders[index[roots[w]]]] == roots[w]
  {
    var c := index[roots[w]];
    assert index[roots[leaders[c]]] == c;
    assert roots[leaders[c]] == roots[w];
  }

  // The first vertex of a part is the part's leader.
  lemma LeaderFirst(roots: seq<nat>, index: map<nat, nat>, leaders: seq<nat>, w: nat)
    requires Numbered(roots, index, leaders, |roots|) && w < |roots|
    requires FirstOfPart(PartIndices(roots, index), w)
    ensures index[roots[w]] < |leaders| && leaders[index[roots[w]]] == w
  {
    LeaderOf(roots, index, leaders, w);
    var l := leaders[index[roots[w]]];
    // A leader before w would put w's part before w.
    var part := PartIndices(roots, index)[l];
  }

  // Within a part, the vertices keep their order.
  lemma PositionsInOrder(cc: seq<nat>, rel: seq<nat>)
    requires Positions(cc, rel)
    ensures forall u, w :: 0 <= u < w < |cc| && cc[u] == cc[w] ==> rel[u] < rel[w]
  {
    forall u, w | 0 <= u < w < |cc| && cc[u] == cc[w]
      ensures rel[u] < rel[w]
    {
      CountBelowMono(cc, cc[u], u + 1, w);
    }
  }

  // The part index of every vertex.
  ghost function PartIndices(roots: seq<nat>, index: map<nat, nat>): (cc: seq<nat>)
    requires forall v :: 0 <= v < |roots| ==> roots[v] in index
    ensures |cc| == |roots| && forall v :: 0 <= v < |roots| ==> cc[v] == index[roots[v]]
  {
    seq(|roots|, v requires 0 <= v < |roots| => index[roots[v]])
  }

  lemma NumberedIndexed(roots: seq<nat>, index: map<nat, nat>, leaders: seq<nat>, sets: nat)
    requires Numbered(roots, index, leaders, |roots|) && |index| == sets
    ensures Indexed(roots, index, PartIndices(roots, index), sets)
    ensures |leaders| == sets
    ensures forall c :: 0 <= c < |leaders| ==> leaders[c] < |roots| && PartIndices(roots, index)[leaders[c]] == c
  {
  }

  // Vertices share a part exactly when they share a root, that is, when one
  // reaches the other.
  lemma SameParts<V, E>(vs: seq<Vertex<V, E>>, roots: seq<nat>, index: map<nat, nat>, cc: seq<nat>)
    requires Classes(vs, roots) && |cc| == |roots|
    requires forall v :: 0 <= v < |cc| ==> roots[v] in index && cc[v] == index[roots[v]]
    requires forall r, q :: r in index && q in index && index[r] == index[q] ==> r == q
    ensures forall u, w :: 0 <= u < |cc| && 0 <= w < |cc| ==> (cc[u] == cc[w] <==> Reachable(vs, [u], w))
  {
  }

  // Every root is the root of itself.
  ghost predicate Settled(roots: seq<nat>)
  {
    forall u :: 0 <= u < |roots| ==> roots[u] < |roots| && roots[roots[u]] == roots[u]
  }

  lemma RootsSettled(parent: seq<nat>, rank: seq<nat>)
    requires Ranked(parent, rank)
    ensures Settled(Roots(parent, rank))
    ensures RootSet(parent) == set r: nat | r < |parent| && Roots(parent, rank)[r] == r
  {
  }

  // After the vertices before v: index numbers the roots met so far 0, 1, ...
  // in the order they were met, and leaders[c] is the first vertex of root c.
  ghost predicate Numbered(roots: seq<nat>, index: map<nat, nat>, leaders: seq<nat>, v: nat)
  {
    v <= |roots|
    && (forall u :: 0 <= u < v ==> roots[u] in index)
    && (forall r :: r in index ==> r < |roots| && roots[r] == r && index[r] < |index|)
    && (forall r, q :: r in index && q in index && index[r] == index[q] ==> r == q)
    && |leaders| == |index|
    && (forall c :: 0 <= c < |leaders| ==> leaders[c] < v && roots[leaders[c]] in index && index[roots[leaders[c]]] == c)
    && (forall c, d :: 0 <= c < d < |leaders| ==> leaders[c] < leaders[d])
    && (forall c, u :: 0 <= c < |leaders| && 0 <= u < leaders[c] ==> roots[u] != roots[leaders[c]])
  }

  lemma NumberedStep(roots: seq<nat>, index: map<nat, nat>, leaders: seq<nat>, v: nat)
    requires Settled(roots) && Numbered(roots, index, leaders, v) && v < |roots|
    ensures roots[v] in index ==> Numbered(roots, index, leaders, v + 1)
    ensures roots[v] !in index ==> Numbered(roots, index[roots[v] := |index|], leaders + [v], v + 1)
  {
  }

  // Once every vertex is met, the numbered roots are all the roots.
  lemma NumberedAll(roots: seq<nat>, index: map<nat, nat>, leaders: seq<nat>)
    requires Settled(roots) && Numbered(roots, index, leaders, |roots|)
    ensures index.Keys == set r: nat | r < |roots| && roots[r] == r
  {
  }

  // The first loop of split_ccs: every root gets the next free part index
  // when it is met first.
  method CompressRoots(ds: DisjointSet, n: nat) returns (index: map<nat, nat>, ghost leaders: seq<nat>)
    requires ds.Valid() && |ds.parent| == n
    modifies ds
    ensures ds.Valid() && |ds.parent| == n && ds.sets == old(ds.sets)
    ensures Roots(ds.parent, ds.rank) == old(Roots(ds.parent, ds.rank))
    ensures Numbered(Roots(ds.parent, ds.rank), index, leaders, n) && |index| == ds.sets
  {
    ghost var roots := Roots(ds.parent, ds.rank);
    RootsSettled(ds.parent, ds.rank);
    index := map[];
    leaders := [];
    var v := 0;
    while v < n
      invariant 0 <= v <= n && ds.Valid() && |ds.parent| == n && ds.sets == old(ds.sets)
      invariant Roots(ds.parent, ds.rank) == roots && Settled(roots) && Numbered(roots, index, leaders, v)
    {
      index, leaders := NumberVertex(ds, roots, index, leaders, v);
      v := v + 1;
    }
    NumberedSets(ds.parent, ds.rank, index, leaders);
  }

  // One step of the first loop: try_emplace(ds.find(v), size()).
  method NumberVertex(ds: DisjointSet, ghost roots: seq<nat>, index: map<nat, nat>, ghost leaders: seq<nat>, v: nat)
    returns (index': map<nat, nat>, ghost leaders': seq<nat>)
    requires ds.Valid() && Roots(ds.parent, ds.rank) == roots && v < |roots|
    requires Settled(roots) && Numbered(roots, index, leaders, v)
    modifies ds
    ensures ds.Valid() && |ds.parent| == old(|ds.parent|) && ds.sets == old(ds.sets)
    ensures Roots(ds.parent, ds.rank) == roots && Numbered(roots, index', leaders', v + 1)
  {
    var r := ds.Find(v);
    assert r == roots[v];
    NumberedStep(roots, index, leaders, v);
    index', leaders' := index, leaders;
    if r !in index {
      leaders' := leaders + [v];
      index' := index[r := |index|];
    }
  }

  // Once every vertex is met, there is one number per set.
  lemma NumberedSets(parent: seq<nat>, rank: seq<nat>, index: map<nat, nat>, leaders: seq<nat>)
    requires Ranked(parent, rank) && Numbered(Roots(parent, rank), index, leaders, |parent|)
    ensures |index| == |RootSet(parent)|
  {
    RootsSettled(parent, rank);
    NumberedAll(Roots(parent, rank), index, leaders);
    assert index.Keys == RootSet(parent);
  }

  // cc[v] is the part index of v's root, and every part index is below sets.
  ghost predicate Indexed(roots: seq<nat>, index: map<nat, nat>, cc: seq<nat>, sets: nat)
  {
    |cc| == |roots|
    && (forall v :: 0 <= v < |cc| ==> roots[v] in index && cc[v] == index[roots[v]])
    && forall r :: r in index ==> index[r] < sets
  }

  // The disjoint set still has the roots that index numbers as cc says.
  ghost predicate Finds(ds: DisjointSet, index: map<nat, nat>, cc: seq<nat>)
    reads ds
  {
    ds.Valid() && Indexed(Roots(ds.parent, ds.rank), index, cc, ds.sets)
  }

  // compressed_cc_index[ds.find(v)]: the part of vertex v.
  method PartOf(ds: DisjointSet, index: map<nat, nat>, ghost cc: seq<nat>, v: nat) returns (c: nat)
    requires Finds(ds, index, cc) && v < |cc|
    modifies ds
    ensures Finds(ds, index, cc) && ds.sets == old(ds.sets)
    ensures c == cc[v] && c < ds.sets
  {
    var r := ds.Find(v);
    c := index[r];
  }

  // rel[v] is the number of vertices before v in v's part: v's position there.
  ghost predicate Positions(cc: seq<nat>, rel: seq<nat>)
  {
    |rel| == |cc| && forall v {:trigger rel[v]} :: 0 <= v < |cc| ==> rel[v] == CountBelow(cc, cc[v], v)
  }

  // After the vertices before v: one counter per part holds the number of
  // vertices met in it, and each vertex met has its position in its part.
  ghost predicate Counting(cc: seq<nat>, counters: seq<nat>, rel: seq<nat>, v: nat)
  {
    v <= |cc| && |rel| == |cc|
    && (forall c :: 0 <= c < |counters| ==> counters[c] == CountBelow(cc, c, v))
    && forall u {:trigger rel[u]} :: 0 <= u < v ==> rel[u] == CountBelow(cc, cc[u], u)
  }

  lemma CountingStep(cc: seq<nat>, counters: seq<nat>, rel: seq<nat>, v: nat)
    requires Counting(cc, counters, rel, v) && v < |cc| && cc[v] < |counters|
    ensures Counting(cc, counters[cc[v] := counters[cc[v]] + 1], rel[v := counters[cc[v]]], v + 1)
  {
  }

  lemma CountingStart(cc: seq<nat>, counters: seq<nat>, rel: seq<nat>)
    requires |rel| == |cc| && forall c :: 0 <= c < |counters| ==> counters[c] == 0
    ensures Counting(cc, counters, rel, 0)
  {
  }

  lemma CountingDone(cc: seq<nat>, counters: seq<nat>, rel: seq<nat>)
    requires Counting(cc, counters, rel, |cc|)
    ensures Positions(cc, rel)
  {
  }

  // The second loop of split_ccs: cc_relative, each vertex's position in its
  // part, counted with one counter per part.
  method Relative(ds: DisjointSet, index: map<nat, nat>, ghost cc: seq<nat>) returns (rel: seq<nat>)
    requires Finds(ds, index, cc)
    modifies ds
    ensures Finds(ds, index, cc) && ds.sets == old(ds.sets)
    ensures Positions(cc, rel)
  {
    var counters := seq(ds.Sets(), _ => 0);
    var n := ds.Size();
    rel := seq(n, _ => 0);
    CountingStart(cc, counters, rel);
    var v := 0;
    while v < n
      invariant 0 <= v <= n == |cc| && Finds(ds, index, cc) && ds.sets == old(ds.sets)
      invariant |counters| == ds.sets && Counting(cc, counters, rel, v)
    {
      counters, rel := CountVertex(ds, index, cc, counters, rel, v);
      v := v + 1;
    }
    CountingDone(cc, counters, rel);
  }

  // One step of the second loop: cc_relative[v] = counters[part of v]++.
  method CountVertex(ds: DisjointSet, index: map<nat, nat>, ghost cc: seq<nat>, counters: seq<nat>, rel: seq<nat>, v: nat)
    returns (counters': seq<nat>, rel': seq<nat>)
    requires Finds(ds, index, cc) && v < |cc| && |counters| == ds.sets && Counting(cc, counters, rel, v)
    modifies ds
    ensures Finds(ds, index, cc) && ds.sets == old(ds.sets)
    ensures |counters'| == ds.sets && Counting(cc, counters', rel', v + 1)
  {
    var c := PartOf(ds, index, cc, v);
    CountingStep(cc, counters, rel, v);
    rel' := rel[v := counters[c]];
    counters' := counters[c := counters[c] + 1];
  }

  // After the vertices before v: each part holds the copies of its vertices
  // so far, each at its position.
  ghost predicate Built<V, E>(vs: seq<Vertex<V, E>>, parts: seq<seq<Vertex<V, E>>>, cc: seq<nat>, rel: seq<nat>, v: nat)
    requires InRange(vs) && |cc| == |vs| && |rel| == |vs| && v <= |vs|
  {
    (forall c :: 0 <= c < |parts| ==> |parts[c]| == CountBelow(cc, c, v))
    && forall u {:trigger rel[u]} :: 0 <= u < v ==> cc[u] < |parts| && rel[u] < |parts[cc[u]]| && parts[cc[u]][rel[u]] == Relabeled(vs[u], rel)
  }

  lemma BuiltStep<V, E>(vs: seq<Vertex<V, E>>, parts: seq<seq<Vertex<V, E>>>, cc: seq<nat>, rel: seq<nat>, v: nat,
                        c: nat, outs: seq<OutEdge<E>>)
    requires InRange(vs) && |cc| == |vs| && |rel| == |vs| && v < |vs| && c == cc[v] && c < |parts|
    requires Built(vs, parts, cc, rel, v) && rel[v] == CountBelow(cc, c, v) && outs == RelabeledOuts(vs[v].outs, rel)
    ensures Built(vs, parts[c := parts[c] + [Vertex(vs[v].payload, outs)]], cc, rel, v + 1)
  {
    var next := parts[c := parts[c] + [Vertex(vs[v].payload, outs)]];
    assert Vertex(vs[v].payload, outs) == Relabeled(vs[v], rel);
    forall u | 0 <= u < v + 1 ensures cc[u] < |next| && rel[u] < |next[cc[u]]| && next[cc[u]][rel[u]] == Relabeled(vs[u], rel) {
      if u == v {
        assert rel[u] == |parts[c]|;
      } else if cc[u] == c {
        assert rel[u] < |parts[c]|;
        assert next[cc[u]][rel[u]] == parts[cc[u]][rel[u]];
      } else {
        assert next[cc[u]] == parts[cc[u]];
      }
    }
  }

  // The third loop of split_ccs: each vertex is copied into its part and its
  // records are renumbered.
  lemma BuiltStart<V, E>(vs: seq<Vertex<V, E>>, parts: seq<seq<Vertex<V, E>>>, cc: seq<nat>, rel: seq<nat>)
    requires InRange(vs) && |cc| == |vs| && |rel| == |vs| && forall c :: 0 <= c < |parts| ==> parts[c] == []
    ensures Built(vs, parts, cc, rel, 0)
  {
  }

  method BuildParts<V, E>(ds: DisjointSet, vs: seq<Vertex<V, E>>, index: map<nat, nat>, ghost cc: seq<nat>, rel: seq<nat>)
    returns (parts: seq<seq<Vertex<V, E>>>)
    requires Finds(ds, index, cc) && |cc| == |vs| && |rel| == |vs| && InRange(vs)
    requires Positions(cc, rel)
    modifies ds
    ensures |parts| == old(ds.sets) && Built(vs, parts, cc, rel, |vs|)
  {
    parts := seq(ds.Sets(), _ => []);
    BuiltStart(vs, parts, cc, rel);
    var v := 0;
    while v < |vs|
      invariant 0 <= v <= |vs| && Copying(ds, vs, index, cc, rel, parts, v) && ds.sets == old(ds.sets)
    {
      parts := CopyVertex(ds, vs, index, cc, rel, parts, v);
      v := v + 1;
    }
  }

  // The state of the third loop of split_ccs before vertex v.
  ghost predicate Copying<V, E>(ds: DisjointSet, vs: seq<Vertex<V, E>>, index: map<nat, nat>, cc: seq<nat>, rel: seq<nat>,
                                parts: seq<seq<Vertex<V, E>>>, v: nat)
    reads ds
  {
    Finds(ds, index, cc) && |cc| == |vs| && |rel| == |vs| && InRange(vs) && Positions(cc, rel)
    && v <= |vs| && |parts| == ds.sets && Built(vs, parts, cc, rel, v)
  }

  // One step of the third loop: v's copy is appended to its part.
  method CopyVertex<V, E>(ds: DisjointSet, vs: seq<Vertex<V, E>>, index: map<nat, nat>, ghost cc: seq<nat>, rel: seq<nat>,
                          parts: seq<seq<Vertex<V, E>>>, v: nat) returns (parts': seq<seq<Vertex<V, E>>>)
    requires v < |vs| && Copying(ds, vs, index, cc, rel, parts, v)
    modifies ds
    ensures Copying(ds, vs, index, cc, rel, parts', v + 1) && ds.sets == old(ds.sets)
  {
    var c := PartOf(ds, index, cc, v);
    var outs := RelabelRow(vs[v].outs, rel);
    BuiltStep(vs, parts, cc, rel, v, c, outs);
    parts' := parts[c := parts[c] + [Vertex(vs[v].payload, outs)]];
  }

  // The renumbering loop over the records of one copied vertex.
  method RelabelRow<E>(outs: seq<OutEdge<E>>, rel: seq<nat>) returns (r: seq<OutEdge<E>>)
    requires forall k :: 0 <= k < |outs| ==> outs[k].to < |rel|
    ensures r == RelabeledOuts(outs, rel)
  {
    r := outs;
    var k := 0;
    while k < |r|
      invariant 0 <= k <= |r| == |outs|
      invariant forall i :: 0 <= i < k ==> r[i] == OutEdge(rel[outs[i].to], outs[i].payload)
      invariant forall i :: k <= i < |r| ==> r[i] == outs[i]
    {
      r := r[k := OutEdge(rel[r[k].to], r[k].payload)];
      k := k + 1;
    }
  }

  // The counts make the parts a split: positions below the part's size,
  // distinct within a part, every position used, and every part non-empty.
  lemma SplitCounts<V, E>(vs: seq<Vertex<V, E>>, parts: seq<seq<Vertex<V, E>>>, cc: seq<nat>, rel: seq<nat>, leaders: seq<nat>)
    requires InRange(vs) && |cc| == |vs| && |rel| == |vs| && |leaders| == |parts|
    requires Built(vs, parts, cc, rel, |vs|)
    requires Positions(cc, rel)
    requires forall c :: 0 <= c < |leaders| ==> leaders[c] < |vs| && cc[leaders[c]] == c
    ensures SplitInto(vs, parts, cc, rel)
  {
    SplitFilled(vs, parts, cc, rel);
    SplitUnique(cc, rel);
    SplitNonEmpty(parts, cc, leaders);
  }

  lemma SplitNonEmpty<V, E>(parts: seq<seq<Vertex<V, E>>>, cc: seq<nat>, leaders: seq<nat>)
    requires |leaders| == |parts|
    requires forall c :: 0 <= c < |parts| ==> |parts[c]| == CountBelow(cc, c, |cc|)
    requires forall c :: 0 <= c < |leaders| ==> leaders[c] < |cc| && cc[leaders[c]] == c
    ensures forall c :: 0 <= c < |parts| ==> parts[c] != []
  {
    forall c | 0 <= c < |parts| ensures parts[c] != [] {
      CountBelowMono(cc, c, leaders[c] + 1, |cc|);
    }
  }

  lemma SplitFilled<V, E>(vs: seq<Vertex<V, E>>, parts: seq<seq<Vertex<V, E>>>, cc: seq<nat>, rel: seq<nat>)
    requires |cc| == |vs| && |rel| == |vs|
    requires forall c :: 0 <= c < |parts| ==> |parts[c]| == CountBelow(cc, c, |vs|)
    requires Positions(cc, rel)
    ensures forall c, i :: 0 <= c < |parts| && 0 <= i < |parts[c]| ==> Filled(cc, rel, c, i)
  {
    forall c, i | 0 <= c < |parts| && 0 <= i < |parts[c]| ensures Filled(cc, rel, c, i) {
      CountBelowHit(cc, c, i, |vs|);
    }
  }

  lemma SplitUnique(cc: seq<nat>, rel: seq<nat>)
    requires Positions(cc, rel)
    ensures forall u, w :: 0 <= u < |cc| && 0 <= w < |cc| && cc[u] == cc[w] && rel[u] == rel[w] ==> u == w
  {
    forall u, w | 0 <= u < |cc| && 0 <= w < |cc| && cc[u] == cc[w] && rel[u] == rel[w] ensures u == w {
      if u < w {
        CountBelowMono(cc, cc[u], u + 1, w);
      } else if w < u {
        CountBelowMono(cc, cc[u], w + 1, u);
      }
    }
  }

  // split_ccs keeps every edge: u -> w is an edge exactly when u and w lie in
  // one part and the copy of u there has a record to the copy of w.
  lemma SplitKeepsEdges<V, E>(vs: seq<Vertex<V, E>>, parts: seq<seq<Vertex<V, E>>>, cc: seq<nat>, rel: seq<nat>)
    requires WellFormed(vs, false) && SplitInto(vs, parts, cc, rel)
    requires forall u, w :: 0 <= u < |cc| && 0 <= w < |cc| ==> (cc[u] == cc[w] <==> Reachable(vs, [u], w))
    ensures forall u, w :: 0 <= u < |vs| && 0 <= w < |vs| ==>
      (HasEdge(vs, u, w) <==> cc[u] == cc[w] && HasEdge(parts[cc[u]], rel[u], rel[w]))
  {
    forall u, w | 0 <= u < |vs| && 0 <= w < |vs|
      ensures HasEdge(vs, u, w) <==> cc[u] == cc[w] && HasEdge(parts[cc[u]], rel[u], rel[w])
    {
      var copy := parts[cc[u]][rel[u]];
      assert copy == Relabeled(vs[u], rel);
      if HasEdge(vs, u, w) {
        ReachEdge(vs, u, w);
        var k :| 0 <= k < |vs[u].outs| && vs[u].outs[k].to == w;
        assert copy.outs[k].to == rel[w];
      }
      if cc[u] == cc[w] && HasEdge(parts[cc[u]], rel[u], rel[w]) {
        var k :| 0 <= k < |copy.outs| && copy.outs[k].to == rel[w];
        var t := vs[u].outs[k].to;
        assert rel[t] == rel[w];
        ReachEdge(vs, u, t);
        assert cc[t] == cc[u];
      }
    }
  }
}
