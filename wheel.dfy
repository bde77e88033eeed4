// wheel(n), n >= 4: hub 0 joined to every vertex of the rim 1 - 2 - ... -
// (n - 1) - 1. The rim is closed first, with the pair (1, n - 1); then each
// turn of the loop adds one spoke and one rim pair.
module WheelGraphs {
  import opened GraphTypes
  import opened AdjacencyOps
  import opened AdjacencyList
  import opened FamilyBuild

  // The spoke from the hub 0 to the rim vertex b.
  ghost predicate Spoke(n: nat, a: nat, b: nat)
  {
    a == 0 && 1 <= b < n
  }

  // a and b are neighbours around the rim 1, ..., n - 1.
  ghost predicate RimPair(n: nat, a: nat, b: nat)
  {
    (1 <= a && a + 1 == b && b < n) || (a == 1 && b == n - 1)
  }

  ghost predicate OnWheel(n: nat, a: nat, b: nat)
  {
    Spoke(n, a, b) || Spoke(n, b, a) || RimPair(n, a, b) || RimPair(n, b, a)
  }

  // The successor and the predecessor of the rim vertex u around the rim.
  function RimNext(n: nat, u: nat): nat
  {
    if u + 1 == n then 1 else u + 1
  }

  function RimPrev(n: nat, u: nat): nat
    requires 1 <= u < n
  {
    if u == 1 then n - 1 else u - 1
  }

  // wheel. The payloads vp and p stand for the default-constructed vertex and
  // edge payloads; wheel asserts n >= 4, which becomes the precondition.
  method Wheel<V, E>(n: nat, vp: V, p: E) returns (result: Graph<V, E>)
    requires n >= 4
    ensures fresh(result) && !result.directed && result.Valid()
    ensures |result.vertices| == n && Uniform(result.vertices, vp, p)
    ensures forall a: nat, b: nat :: HasEdge(result.vertices, a, b) <==> OnWheel(n, a, b)
    ensures result.EdgeSize() == 2 * (n - 1)
    ensures |result.vertices[0].outs| == n - 1
    ensures forall u :: 1 <= u < n ==> |result.vertices[u].outs| == 3
  {
    result := new Graph.Sized(false, n, vp);
    UniformStart(result.vertices, vp, p);
    WheelClose(result, n, vp, p);
    var i := 1;
    while i < n - 1
      invariant 1 <= i <= n - 1
      invariant fresh(result) && !result.directed && result.Valid()
      invariant |result.vertices| == n && Uniform(result.vertices, vp, p)
      invariant WheelUpTo(result.vertices, n, i, i) && result.mE == 4 * i
    {
      WheelSpoke(result, n, i, vp, p);
      WheelRim(result, n, i, vp, p);
      i := i + 1;
    }
    WheelEnd(result.vertices, n);
    WheelDegrees(result.vertices, n);
  }

  // The two pairs emplaced before the loop: (0, n - 1) and (1, n - 1).
  method WheelClose<V, E>(result: Graph<V, E>, n: nat, vp: V, p: E)
    requires !result.directed && result.Valid() && |result.vertices| == n && n >= 4
    requires Uniform(result.vertices, vp, p) && result.mE == 0
    requires forall a: nat, b: nat :: !HasEdge(result.vertices, a, b)
    modifies result
    ensures result.Valid() && |result.vertices| == n && Uniform(result.vertices, vp, p)
    ensures WheelUpTo(result.vertices, n, 1, 1) && result.mE == 4
  {
    var vs0 := result.vertices;
    AddPair(vs0, 0, n - 1, vp, p);
    var _ := result.EdgeEmplace(0, n - 1, p);
    var vs1 := result.vertices;
    assert !HasEdge(vs1, 1, n - 1);
    AddPair(vs1, 1, n - 1, vp, p);
    var _ := result.EdgeEmplace(1, n - 1, p);
    WheelStart(vs0, vs1, result.vertices, n);
  }

  // The first statement of the loop: emplace the spoke (0, i).
  method WheelSpoke<V, E>(result: Graph<V, E>, n: nat, i: nat, vp: V, p: E)
    requires !result.directed && result.Valid() && |result.vertices| == n && n >= 4 && 1 <= i < n - 1
    requires Uniform(result.vertices, vp, p) && WheelUpTo(result.vertices, n, i, i)
    modifies result
    ensures result.Valid() && |result.vertices| == n && Uniform(result.vertices, vp, p)
    ensures WheelUpTo(result.vertices, n, i + 1, i) && result.mE == old(result.mE) + 2
  {
    assert !HasEdge(result.vertices, 0, i);
    AddPair(result.vertices, 0, i, vp, p);
    SpokeNext(result.vertices, Emplace(result.vertices, false, 0, i, p).0, n, i);
    var _ := result.EdgeEmplace(0, i, p);
  }

  // The second statement of the loop: emplace the rim pair (i, i + 1).
  method WheelRim<V, E>(result: Graph<V, E>, n: nat, i: nat, vp: V, p: E)
    requires !result.directed && result.Valid() && |result.vertices| == n && n >= 4 && 1 <= i < n - 1
    requires Uniform(result.vertices, vp, p) && WheelUpTo(result.vertices, n, i + 1, i)
    modifies result
    ensures result.Valid() && |result.vertices| == n && Uniform(result.vertices, vp, p)
    ensures WheelUpTo(result.vertices, n, i + 1, i + 1) && result.mE == old(result.mE) + 2
  {
    assert !HasEdge(result.vertices, i, i + 1);
    AddPair(result.vertices, i, i + 1, vp, p);
    RimNextPair(result.vertices, Emplace(result.vertices, false, i, i + 1, p).0, n, i);
    var _ := result.EdgeEmplace(i, i + 1, p);
  }

  // ---------------------------------------------------------------------------
  // The loop of wheel.

  // The pair (a, b) has been emplaced once the spokes to 1..s - 1 and the rim
  // pairs (a, a + 1) with a < t are in, besides (0, n - 1) and (1, n - 1).
  ghost predicate Wheeled(n: nat, s: nat, t: nat, a: nat, b: nat)
  {
    (a == 0 && (b == n - 1 || 1 <= b < s)) || (a == 1 && b == n - 1) || (1 <= a < t && b == a + 1)
  }

  ghost predicate WheelUpTo<V, E>(vs: seq<Vertex<V, E>>, n: nat, s: nat, t: nat)
  {
    forall a: nat, b: nat :: HasEdge(vs, a, b) <==> Wheeled(n, s, t, a, b) || Wheeled(n, s, t, b, a)
  }

  // The two pairs emplaced before the loop.
  lemma WheelStart<V, E>(vs0: seq<Vertex<V, E>>, vs1: seq<Vertex<V, E>>, vs2: seq<Vertex<V, E>>, n: nat)
    requires n >= 4 && forall a: nat, b: nat :: !HasEdge(vs0, a, b)
    requires forall a: nat, b: nat :: HasEdge(vs1, a, b) <==> HasEdge(vs0, a, b) || (a == 0 && b == n - 1) || (a == n - 1 && b == 0)
    requires forall a: nat, b: nat :: HasEdge(vs2, a, b) <==> HasEdge(vs1, a, b) || (a == 1 && b == n - 1) || (a == n - 1 && b == 1)
    ensures WheelUpTo(vs2, n, 1, 1)
  {
    forall a: nat, b: nat ensures HasEdge(vs2, a, b) <==> Wheeled(n, 1, 1, a, b) || Wheeled(n, 1, 1, b, a) {
      assert HasEdge(vs2, a, b) <==> HasEdge(vs1, a, b) || (a == 1 && b == n - 1) || (a == n - 1 && b == 1);
      assert HasEdge(vs1, a, b) <==> HasEdge(vs0, a, b) || (a == 0 && b == n - 1) || (a == n - 1 && b == 0);
      assert !HasEdge(vs0, a, b);
    }
  }

  // Emplacing the spoke (0, i).
  lemma SpokeNext<V, E>(vs: seq<Vertex<V, E>>, r: seq<Vertex<V, E>>, n: nat, i: nat)
    requires 1 <= i < n - 1 && WheelUpTo(vs, n, i, i)
    requires forall a: nat, b: nat :: HasEdge(r, a, b) <==> HasEdge(vs, a, b) || (a == 0 && b == i) || (a == i && b == 0)
    ensures WheelUpTo(r, n, i + 1, i)
  {
    forall a: nat, b: nat ensures HasEdge(r, a, b) <==> Wheeled(n, i + 1, i, a, b) || Wheeled(n, i + 1, i, b, a) {
      assert HasEdge(r, a, b) <==> HasEdge(vs, a, b) || (a == 0 && b == i) || (a == i && b == 0);
      assert HasEdge(vs, a, b) <==> Wheeled(n, i, i, a, b) || Wheeled(n, i, i, b, a);
    }
  }

  // Emplacing the rim pair (i, i + 1).
  lemma RimNextPair<V, E>(vs: seq<Vertex<V, E>>, r: seq<Vertex<V, E>>, n: nat, i: nat)
    requires 1 <= i < n - 1 && WheelUpTo(vs, n, i + 1, i)
    requires forall a: nat, b: nat :: HasEdge(r, a, b) <==> HasEdge(vs, a, b) || (a == i && b == i + 1) || (a == i + 1 && b == i)
    ensures WheelUpTo(r, n, i + 1, i + 1)
  {
    forall a: nat, b: nat ensures HasEdge(r, a, b) <==> Wheeled(n, i + 1, i + 1, a, b) || Wheeled(n, i + 1, i + 1, b, a) {
      assert HasEdge(r, a, b) <==> HasEdge(vs, a, b) || (a == i && b == i + 1) || (a == i + 1 && b == i);
      assert HasEdge(vs, a, b) <==> Wheeled(n, i + 1, i, a, b) || Wheeled(n, i + 1, i, b, a);
    }
  }

  // When the loop ends every spoke and every rim pair is in.
  lemma WheelEnd<V, E>(vs: seq<Vertex<V, E>>, n: nat)
    requires n >= 4 && WheelUpTo(vs, n, n - 1, n - 1)
    ensures forall a: nat, b: nat :: HasEdge(vs, a, b) <==> OnWheel(n, a, b)
  {
    forall a: nat, b: nat ensures HasEdge(vs, a, b) <==> OnWheel(n, a, b) {
      assert HasEdge(vs, a, b) <==> Wheeled(n, n - 1, n - 1, a, b) || Wheeled(n, n - 1, n - 1, b, a);
    }
  }

  // ---------------------------------------------------------------------------
  // Degrees.

  // The hub has n - 1 neighbours, every rim vertex three: the hub and its two
  // rim neighbours.
  lemma WheelDegrees<V, E>(vs: seq<Vertex<V, E>>, n: nat)
    requires Simple(vs) && |vs| == n && n >= 4
    requires forall a: nat, b: nat :: HasEdge(vs, a, b) <==> OnWheel(n, a, b)
    ensures |vs[0].outs| == n - 1
    ensures forall u :: 1 <= u < n ==> |vs[u].outs| == 3
  {
    forall b: nat ensures HasEdge(vs, 0, b) <==> b in Interval(1, n) {
      assert HasEdge(vs, 0, b) <==> OnWheel(n, 0, b);
    }
    DegreeBy(vs, 0, Interval(1, n));
    IntervalCard(1, n);
    forall u | 1 <= u < n ensures |vs[u].outs| == 3 {
      RimDegree(vs, n, u);
    }
  }

  lemma RimDegree<V, E>(vs: seq<Vertex<V, E>>, n: nat, u: nat)
    requires Simple(vs) && |vs| == n && n >= 4 && 1 <= u < n
    requires forall a: nat, b: nat :: HasEdge(vs, a, b) <==> OnWheel(n, a, b)
    ensures |vs[u].outs| == 3
  {
    var S := {0, RimPrev(n, u), RimNext(n, u)};
    assert RimPrev(n, u) != RimNext(n, u) && 0 !in {RimPrev(n, u), RimNext(n, u)};
    forall b: nat ensures HasEdge(vs, u, b) <==> b in S {
      assert HasEdge(vs, u, b) <==> OnWheel(n, u, b);
    }
    DegreeBy(vs, u, S);
  }
}
