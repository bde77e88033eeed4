// The strongly connected components test of the library, stated on the
// model: on the eight-vertex graph of the Wikipedia article on Tarjan's
// algorithm, any labelling that meets the contract of tarjan_recursive puts
// {0, 1, 2}, {3, 5}, {4, 6} and {7} in four different components numbered 0 to 3.
module ComponentTests {
  import opened Util
  import opened GraphTypes
  import opened Paths
  import StronglyConnectedComponents

  // The directed graph of the test after its thirteen emplacements (records
  // in emplacement order; a default capacity of 0 on every edge).
  function WikipediaGraph(): (vs: seq<Vertex<(), int>>)
    ensures |vs| == 8 && InRange(vs)
  {
    [ Vertex((), [OutEdge(1, 0)]),
      Vertex((), [OutEdge(2, 0)]),
      Vertex((), [OutEdge(0, 0)]),
      Vertex((), [OutEdge(1, 0), OutEdge(2, 0), OutEdge(5, 0)]),
      Vertex((), [OutEdge(2, 0), OutEdge(6, 0)]),
      Vertex((), [OutEdge(3, 0), OutEdge(4, 0)]),
      Vertex((), [OutEdge(4, 0)]),
      Vertex((), [OutEdge(6, 0), OutEdge(5, 0)]) ]
  }

  // Same label exactly when mutually reachable, and labels contiguous from 0:
  // the two promises of tarjan_recursive that the test checks.
  ghost predicate Labelling(vs: seq<Vertex<(), int>>, r: seq<nat>)
  {
    |r| == |vs|
    && (forall x :: 0 <= x < |r| ==> forall c :: 0 <= c <= r[x] ==> c in r)
    && forall x, y :: 0 <= x < |r| && 0 <= y < |r| ==>
         (r[x] == r[y] <==> Reachable(vs, [x], y) && Reachable(vs, [y], x))
  }

  // Whatever tarjan_recursive returns on the test graph passes the test.
  method WikipediaTest() returns (r: seq<nat>)
    ensures |r| == 8
    ensures r[0] == r[1] && r[0] == r[2] && r[3] == r[5] && r[4] == r[6]
    ensures r[0] != r[3] && r[0] != r[4] && r[0] != r[7]
    ensures r[3] != r[4] && r[3] != r[7] && r[4] != r[7]
    ensures (forall x :: 0 <= x < |r| ==> r[x] <= 3) && 3 in r
  {
    r := StronglyConnectedComponents.TarjanRecursive(WikipediaGraph());
    WikipediaComponents(r);
  }

  lemma WikipediaComponents(r: seq<nat>)
    requires Labelling(WikipediaGraph(), r)
    ensures |r| == 8
    ensures r[0] == r[1] && r[0] == r[2] && r[3] == r[5] && r[4] == r[6]
    ensures r[0] != r[3] && r[0] != r[4] && r[0] != r[7]
    ensures r[3] != r[4] && r[3] != r[7] && r[4] != r[7]
    ensures (forall x :: 0 <= x < |r| ==> r[x] <= 3) && 3 in r
  {
    var vs := WikipediaGraph();
    WikipediaCycles();
    WikipediaOneWay();
    Label(vs, r, 0, 1);
    Label(vs, r, 1, 2);
    Label(vs, r, 3, 5);
    Label(vs, r, 4, 6);
    Label(vs, r, 0, 3);
    Label(vs, r, 0, 4);
    Label(vs, r, 0, 7);
    Label(vs, r, 3, 4);
    Label(vs, r, 3, 7);
    Label(vs, r, 4, 7);
    FourLabels(r);
  }

  // One instance of the if-and-only-if.
  lemma Label(vs: seq<Vertex<(), int>>, r: seq<nat>, x: nat, y: nat)
    requires Labelling(vs, r) && x < |r| && y < |r|
    ensures r[x] == r[y] <==> Reachable(vs, [x], y) && Reachable(vs, [y], x)
  {
  }

  // Four pairwise different labels, every label one of them, labels
  // contiguous from 0: the labels are exactly 0 to 3.
  lemma FourLabels(r: seq<nat>)
    requires |r| == 8 && forall x :: 0 <= x < |r| ==> forall c :: 0 <= c <= r[x] ==> c in r
    requires r[0] == r[1] && r[0] == r[2] && r[3] == r[5] && r[4] == r[6]
    requires r[0] != r[3] && r[0] != r[4] && r[0] != r[7]
    requires r[3] != r[4] && r[3] != r[7] && r[4] != r[7]
    ensures (forall x :: 0 <= x < |r| ==> r[x] <= 3) && 3 in r
  {
    var labels := {r[0], r[3], r[4], r[7]};
    assert |labels| == 4;
    assert forall c :: c in r ==> c in labels;
    forall x | 0 <= x < |r|
      ensures r[x] <= 3
    {
      assert Below(r[x] + 1) <= labels;
      SubsetCard(Below(r[x] + 1), labels);
      BelowCard(r[x] + 1);
    }
  }

  // The records of the test graph, row by row.
  lemma Rows()
    ensures var vs := WikipediaGraph();
      && vs[0].outs == [OutEdge(1, 0)] && vs[1].outs == [OutEdge(2, 0)] && vs[2].outs == [OutEdge(0, 0)]
      && vs[3].outs == [OutEdge(1, 0), OutEdge(2, 0), OutEdge(5, 0)]
      && vs[4].outs == [OutEdge(2, 0), OutEdge(6, 0)] && vs[5].outs == [OutEdge(3, 0), OutEdge(4, 0)]
      && vs[6].outs == [OutEdge(4, 0)] && vs[7].outs == [OutEdge(6, 0), OutEdge(5, 0)]
  {
  }

  // Record i of u is an edge.
  lemma Record<V, E>(vs: seq<Vertex<V, E>>, u: nat, i: nat)
    requires u < |vs| && i < |vs[u].outs|
    ensures HasEdge(vs, u, vs[u].outs[i].to)
  {
  }

  // The cycles 0 -> 1 -> 2 -> 0, 3 -> 5 -> 3 and 4 -> 6 -> 4.
  lemma WikipediaCycles()
    ensures Reachable(WikipediaGraph(), [0], 1) && Reachable(WikipediaGraph(), [1], 0)
    ensures Reachable(WikipediaGraph(), [1], 2) && Reachable(WikipediaGraph(), [2], 1)
    ensures Reachable(WikipediaGraph(), [3], 5) && Reachable(WikipediaGraph(), [5], 3)
    ensures Reachable(WikipediaGraph(), [4], 6) && Reachable(WikipediaGraph(), [6], 4)
  {
    var vs := WikipediaGraph();
    Rows();
    Record(vs, 0, 0);
    Record(vs, 1, 0);
    Record(vs, 2, 0);
    Record(vs, 3, 2);
    Record(vs, 5, 0);
    Record(vs, 4, 1);
    Record(vs, 6, 0);
    ReachableSeed(vs, [0], 0);
    ReachableStep(vs, [0], 0, 1);
    ReachableSeed(vs, [1], 1);
    ReachableStep(vs, [1], 1, 2);
    ReachableStep(vs, [1], 2, 0);
    ReachableSeed(vs, [2], 2);
    ReachableStep(vs, [2], 2, 0);
    ReachableStep(vs, [2], 0, 1);
    ReachableSeed(vs, [3], 3);
    ReachableStep(vs, [3], 3, 5);
    ReachableSeed(vs, [5], 5);
    ReachableStep(vs, [5], 5, 3);
    ReachableSeed(vs, [4], 4);
    ReachableStep(vs, [4], 4, 6);
    ReachableSeed(vs, [6], 6);
    ReachableStep(vs, [6], 6, 4);
  }

  // No record leaves {0, 1, 2}, {0, 1, 2, 4, 6} or {0, 1, 2, 3, 4, 5, 6}, so
  // nothing outside them is reached from inside.
  lemma WikipediaOneWay()
    ensures !Reachable(WikipediaGraph(), [0], 3) && !Reachable(WikipediaGraph(), [0], 4)
    ensures !Reachable(WikipediaGraph(), [0], 7) && !Reachable(WikipediaGraph(), [4], 3)
    ensures !Reachable(WikipediaGraph(), [3], 7) && !Reachable(WikipediaGraph(), [4], 7)
  {
    LeavesFirst();
    LeavesSecond();
    LeavesThird();
  }

  lemma LeavesFirst()
    ensures forall w: nat :: Reachable(WikipediaGraph(), [0], w) ==> w < 3
  {
    assert MaskClosed(WikipediaGraph(), [true, true, true, false, false, false, false, false], 0);
    MaskConfines(WikipediaGraph(), [true, true, true, false, false, false, false, false], [0]);
  }

  lemma LeavesSecond()
    ensures forall w: nat :: Reachable(WikipediaGraph(), [4], w) ==> w < 3 || w == 4 || w == 6
  {
    assert MaskClosed(WikipediaGraph(), [true, true, true, false, true, false, true, false], 0);
    MaskConfines(WikipediaGraph(), [true, true, true, false, true, false, true, false], [4]);
  }

  lemma LeavesThird()
    ensures forall w: nat :: Reachable(WikipediaGraph(), [3], w) ==> w < 7
  {
    assert MaskClosed(WikipediaGraph(), [true, true, true, true, true, true, true, false], 0);
    MaskConfines(WikipediaGraph(), [true, true, true, true, true, true, true, false], [3]);
  }

  // Every target of the records of outs from the i-th on is marked inside.
  function RowInside<E>(outs: seq<OutEdge<E>>, inside: seq<bool>, i: nat): bool
    decreases |outs| - i
  {
    i >= |outs| || (outs[i].to < |inside| && inside[outs[i].to] && RowInside(outs, inside, i + 1))
  }

  // No record leaves the vertices marked inside, from vertex u on.
  function MaskClosed<V, E>(vs: seq<Vertex<V, E>>, inside: seq<bool>, u: nat): bool
    decreases |vs| - u
  {
    u >= |vs| || ((u >= |inside| || !inside[u] || RowInside(vs[u].outs, inside, 0)) && MaskClosed(vs, inside, u + 1))
  }

  lemma {:induction false} RowInsideAt<E>(outs: seq<OutEdge<E>>, inside: seq<bool>, i: nat, j: nat)
    requires RowInside(outs, inside, i) && i <= j < |outs|
    ensures outs[j].to < |inside| && inside[outs[j].to]
    decreases j - i
  {
    if i < j {
      RowInsideAt(outs, inside, i + 1, j);
    }
  }

  lemma {:induction false} MaskClosedAt<V, E>(vs: seq<Vertex<V, E>>, inside: seq<bool>, u: nat, x: nat)
    requires MaskClosed(vs, inside, u) && u <= x < |vs| && x < |inside| && inside[x]
    ensures RowInside(vs[x].outs, inside, 0)
    decreases x - u
  {
    if u < x {
      MaskClosedAt(vs, inside, u + 1, x);
    }
  }

  // Seeds marked inside a closed mask reach only vertices marked inside.
  lemma MaskConfines<V, E>(vs: seq<Vertex<V, E>>, inside: seq<bool>, seeds: seq<nat>)
    requires MaskClosed(vs, inside, 0)
    requires forall x :: x in seeds ==> x < |inside| && inside[x]
    ensures forall w: nat :: Reachable(vs, seeds, w) ==> w < |inside| && inside[w]
  {
    var s := set u | 0 <= u < |inside| && inside[u];
    forall u: nat, w: nat | u in s && HasEdge(vs, u, w)
      ensures w in s
    {
      var i :| 0 <= i < |vs[u].outs| && vs[u].outs[i].to == w;
      MaskClosedAt(vs, inside, 0, u);
      RowInsideAt(vs[u].outs, inside, 0, i);
    }
    ClosedReachable(vs, seeds, s);
  }
}
