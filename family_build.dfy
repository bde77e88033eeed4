// What every generator of a named graph family relies on: it starts from n
// vertices with the default payload and no edges, and emplaces undirected edges
// between pairs that are not yet joined, each with the default edge payload.
// The lemmas here say what one such emplace does and how a vertex's degree
// follows from the set of its neighbours.
module FamilyBuild {
  import opened Util
  import opened GraphTypes
  import opened AdjacencyOps
  import opened AdjacencyList

  // Every vertex carries the payload vp and every record the payload p.
  ghost predicate Uniform<V, E>(vs: seq<Vertex<V, E>>, vp: V, p: E)
  {
    && (forall k :: 0 <= k < |vs| ==> vs[k].payload == vp)
    && forall a, i :: 0 <= a < |vs| && 0 <= i < |vs[a].outs| ==> vs[a].outs[i].payload == p
  }

  // The n vertices a generator starts from.
  lemma UniformStart<V, E>(vs: seq<Vertex<V, E>>, vp: V, p: E)
    requires forall k :: 0 <= k < |vs| ==> vs[k] == Vertex(vp, [])
    ensures Uniform(vs, vp, p) && Records(vs) == 0
    ensures forall a: nat, b: nat :: !HasEdge(vs, a, b)
  {
    StrippedRecords(vs);
    assert Stripped(vs) == vs;
  }

  // Emplacing a pair that is not yet joined into an undirected graph adds its
  // two records and nothing else.
  lemma AddPair<V, E>(vs: seq<Vertex<V, E>>, from: nat, to: nat, vp: V, p: E)
    requires WellFormed(vs, false) && Uniform(vs, vp, p)
    requires from < |vs| && to < |vs| && from != to && !HasEdge(vs, from, to)
    ensures var r := Emplace(vs, false, from, to, p).0;
      && |r| == |vs| && WellFormed(r, false) && Uniform(r, vp, p)
      && Records(r) == Records(vs) + 2
      && forall a: nat, b: nat :: HasEdge(r, a, b) <==>
           HasEdge(vs, a, b) || (a == from && b == to) || (a == to && b == from)
  {
    EmplaceEffect(vs, false, from, to, p);
    AddPairPayloads(vs, to, from, vp, p);
    AddPairPayloads(EmplaceSimple(vs, to, from, p).0, from, to, vp, p);
  }

  lemma AddPairPayloads<V, E>(vs: seq<Vertex<V, E>>, from: nat, to: nat, vp: V, p: E)
    requires from < |vs| && Uniform(vs, vp, p)
    ensures Uniform(EmplaceSimple(vs, from, to, p).0, vp, p)
  {
    var r := EmplaceSimple(vs, from, to, p).0;
    if r != vs {
      assert r == vs[from := Vertex(vs[from].payload, vs[from].outs + [OutEdge(to, p)])];
      forall a, i | 0 <= a < |r| && 0 <= i < |r[a].outs| ensures r[a].outs[i].payload == p {
        if a == from && i < |vs[from].outs| {
          assert r[a].outs[i] == vs[a].outs[i];
        }
      }
    }
  }

  // The numbers lo, ..., hi - 1.
  function Interval(lo: nat, hi: nat): (r: set<nat>)
    ensures forall x: nat :: x in r <==> lo <= x < hi
    decreases hi
  {
    if hi <= lo then {} else Interval(lo, hi - 1) + {hi - 1}
  }

  lemma {:induction false} IntervalCard(lo: nat, hi: nat)
    requires lo <= hi
    ensures |Interval(lo, hi)| == hi - lo
    decreases hi
  {
    if lo < hi {
      IntervalCard(lo, hi - 1);
      var s := Interval(lo, hi - 1);
      assert Interval(lo, hi) == s + {hi - 1} && hi - 1 !in s;
    }
  }

  // The out-degree of u is the number of its neighbours.
  lemma DegreeBy<V, E>(vs: seq<Vertex<V, E>>, u: nat, S: set<nat>)
    requires Simple(vs) && u < |vs|
    requires forall b: nat :: HasEdge(vs, u, b) <==> b in S
    ensures |vs[u].outs| == |S|
  {
    OutDegreeCounts(vs, u);
    assert OutNeighbours(vs, u) == S;
  }

  // A subset as large as its finite superset is the superset.
  lemma {:induction false} SubsetFull<T>(a: set<T>, b: set<T>)
    requires a <= b && |a| == |b|
    ensures a == b
  {
    if a != b {
      var x :| x in b && x !in a;
      SubsetCard(a, b - {x});
    }
  }

  // ---------------------------------------------------------------------------
  // The path 0 - 1 - ... - i that linear and cycle emplace one pair at a time.

  // a and b are consecutive numbers, both at most i.
  ghost predicate Linked(i: nat, a: nat, b: nat)
  {
    (a + 1 == b && b <= i) || (b + 1 == a && a <= i)
  }

  ghost predicate PathUpTo<V, E>(vs: seq<Vertex<V, E>>, i: nat)
  {
    forall a: nat, b: nat :: HasEdge(vs, a, b) <==> Linked(i, a, b)
  }

  // Emplacing the pair (i, i + 1) extends the path to i + 1.
  lemma PathNext<V, E>(vs: seq<Vertex<V, E>>, r: seq<Vertex<V, E>>, i: nat)
    requires PathUpTo(vs, i)
    requires forall a: nat, b: nat :: HasEdge(r, a, b) <==> HasEdge(vs, a, b) || (a == i && b == i + 1) || (a == i + 1 && b == i)
    ensures PathUpTo(r, i + 1)
  {
    forall a: nat, b: nat ensures HasEdge(r, a, b) <==> Linked(i + 1, a, b) {
      assert HasEdge(r, a, b) <==> HasEdge(vs, a, b) || (a == i && b == i + 1) || (a == i + 1 && b == i);
      assert HasEdge(vs, a, b) <==> Linked(i, a, b);
    }
  }

  // The loop shared by linear and cycle: emplace (i, i + 1) for every i < k.
  method EmplacePath<V, E>(result: Graph<V, E>, k: nat, vp: V, p: E)
    requires !result.directed && result.Valid() && k < |result.vertices|
    requires Uniform(result.vertices, vp, p) && PathUpTo(result.vertices, 0)
    modifies result
    ensures result.Valid() && |result.vertices| == old(|result.vertices|)
    ensures Uniform(result.vertices, vp, p) && PathUpTo(result.vertices, k)
    ensures result.mE == old(result.mE) + 2 * k
  {
    var i := 0;
    while i < k
      invariant 0 <= i <= k
      invariant result.Valid() && |result.vertices| == old(|result.vertices|)
      invariant Uniform(result.vertices, vp, p) && PathUpTo(result.vertices, i)
      invariant result.mE == old(result.mE) + 2 * i
    {
      assert !HasEdge(result.vertices, i, i + 1);
      AddPair(result.vertices, i, i + 1, vp, p);
      PathNext(result.vertices, Emplace(result.vertices, false, i, i + 1, p).0, i);
      var _ := result.EdgeEmplace(i, i + 1, p);
      i := i + 1;
    }
  }
}
