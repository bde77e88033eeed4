// The search tests of the library, stated on the model: the order in which
// dfs and bfs visit the five-vertex test graph follows from the depth-first
// and the breadth-first trails alone.
module SearchTests {
  import opened Util
  import opened GraphTypes
  import opened Paths
  import opened Dfs
  import Bfs

  // The directed graph of the dfs and bfs tests (test/quiver/search/), after
  // their seven emplacements (records in emplacement order).
  function TestGraph(): (vs: seq<Vertex<(), ()>>)
    ensures InRange(vs) && NoMultiEdges(vs)
  {
    [ Vertex((), [OutEdge(1, ())]),
      Vertex((), [OutEdge(3, ()), OutEdge(2, ())]),
      Vertex((), [OutEdge(0, ()), OutEdge(4, ())]),
      Vertex((), [OutEdge(4, ())]),
      Vertex((), [OutEdge(1, ())]) ]
  }

  // The depth-first order fixes the visits of the dfs test: from vertex 1 with a
  // visitor that never accepts, dfs visits 1, 3, 4, 2, 0 and returns false.
  lemma DfsTestOrder(found: bool, order: seq<nat>, stacks: seq<seq<nat>>, marks: seq<seq<bool>>)
    requires Outcome(TestGraph(), [1], _ => false, found, order)
    requires DepthFirst(TestGraph(), [1], found, order, stacks, marks)
    ensures !found && order == [1, 3, 4, 2, 0]
  {
    DfsTrail(order, stacks, marks);
  }

  lemma DfsTrail(order: seq<nat>, stacks: seq<seq<nat>>, marks: seq<seq<bool>>)
    requires DepthFirst(TestGraph(), [1], false, order, stacks, marks)
    ensures order == [1, 3, 4, 2, 0]
  {
    DfsTrailStart(order, stacks, marks);
    DfsTrailThree(order, stacks, marks);
    DfsTrailEnd(order, stacks, marks);
  }

  // Visit 1: 3 and 2 are pushed, 3 on top.
  lemma DfsTrailStart(order: seq<nat>, stacks: seq<seq<nat>>, marks: seq<seq<bool>>)
    requires DepthFirst(TestGraph(), [1], false, order, stacks, marks)
    ensures |order| >= 1 && order[0] == 1 && stacks[1] == [3, 2]
    ensures forall x :: 0 <= x < 5 ==> (marks[1][x] <==> x in {1, 2, 3})
  {
    assert Reversed([1]) == [1];
    DfsVisit(TestGraph(), order, stacks, marks, 0, {1}, {1, 2, 3});
    Unseen2(3, 2, marks[0]);
  }

  // Visit 3: 4 is pushed above 2.
  lemma DfsTrailThree(order: seq<nat>, stacks: seq<seq<nat>>, marks: seq<seq<bool>>)
    requires Trail(TestGraph(), order, stacks, marks) && |stacks| == |order| + 1 && stacks[|order|] == []
    requires 1 < |stacks| && stacks[1] == [3, 2]
    requires forall x :: 0 <= x < 5 ==> (marks[1][x] <==> x in {1, 2, 3})
    ensures |order| >= 2 && order[1] == 3 && stacks[2] == [4, 2]
    ensures forall x :: 0 <= x < 5 ==> (marks[2][x] <==> x in {1, 2, 3, 4})
  {
    DfsVisit(TestGraph(), order, stacks, marks, 1, {1, 2, 3}, {1, 2, 3, 4});
    Unseen1(4, marks[1]);
  }

  // Visits 4, 2 and 0: only 0 is still unmarked, and the stack runs dry.
  lemma DfsTrailEnd(order: seq<nat>, stacks: seq<seq<nat>>, marks: seq<seq<bool>>)
    requires Trail(TestGraph(), order, stacks, marks) && |stacks| == |order| + 1 && stacks[|order|] == []
    requires 2 < |stacks| && stacks[2] == [4, 2]
    requires forall x :: 0 <= x < 5 ==> (marks[2][x] <==> x in {1, 2, 3, 4})
    ensures |order| == 5 && order[2] == 4 && order[3] == 2 && order[4] == 0
  {
    var vs := TestGraph();
    DfsVisit(vs, order, stacks, marks, 2, {1, 2, 3, 4}, {1, 2, 3, 4});
    Unseen1(1, marks[2]);
    assert stacks[3] == [2];
    DfsVisit(vs, order, stacks, marks, 3, {1, 2, 3, 4}, {0, 1, 2, 3, 4});
    Unseen2(0, 4, marks[3]);
    assert stacks[4] == [0];
    DfsVisit(vs, order, stacks, marks, 4, {0, 1, 2, 3, 4}, {0, 1, 2, 3, 4});
    Unseen1(1, marks[4]);
    assert stacks[5] == [];
  }

  // One visit of a depth-first trail that does not stop: with marks[i] the
  // set m, the visit takes the top of stacks[i], and the next marks add the
  // targets of the visited vertex.
  lemma DfsVisit(vs: seq<Vertex<(), ()>>, order: seq<nat>, stacks: seq<seq<nat>>, marks: seq<seq<bool>>,
               i: nat, m: set<nat>, m': set<nat>)
    requires vs == TestGraph() && Trail(vs, order, stacks, marks) && |stacks| == |order| + 1 && stacks[|order|] == []
    requires i < |stacks| && stacks[i] != [] && stacks[i][0] < 5
    requires forall x :: 0 <= x < |vs| ==> (marks[i][x] <==> x in m)
    requires m' == m + TestTargets(stacks[i][0])
    ensures i < |order| && i + 1 < |stacks| && order[i] == stacks[i][0]
    ensures stacks[i + 1] == Unseen(vs[order[i]].outs, marks[i]) + stacks[i][1..]
    ensures forall x :: 0 <= x < |vs| ==> (marks[i + 1][x] <==> x in m')
  {
    TestTargetsAre(stacks[i][0]);
  }

  // The targets of each vertex of the test graph.
  function TestTargets(v: nat): set<nat>
  {
    match v
    case 0 => {1}
    case 1 => {3, 2}
    case 2 => {0, 4}
    case 3 => {4}
    case _ => {1}
  }

  lemma TestTargetsAre(v: nat)
    requires v < 5
    ensures Targets(TestGraph()[v].outs) == TestTargets(v)
  {
    var outs := TestGraph()[v].outs;
    assert outs[0].to in Targets(outs);
    assert |outs| == 2 ==> outs[1].to in Targets(outs);
  }

  lemma Unseen1(t: nat, marked: seq<bool>)
    requires t < |marked|
    ensures Unseen([OutEdge(t, ())], marked) == if marked[t] then [] else [t]
  {
  }

  lemma Unseen2(t: nat, u: nat, marked: seq<bool>)
    requires t < |marked| && u < |marked|
    ensures Unseen([OutEdge(t, ()), OutEdge(u, ())], marked) == (if marked[t] then [] else [t]) + (if marked[u] then [] else [u])
  {
    var outs := [OutEdge(t, ()), OutEdge(u, ())];
    assert outs[1..] == [OutEdge(u, ())];
    Unseen1(u, marked);
    assert Unseen(outs, marked) == (if marked[t] then [] else [t]) + Unseen(outs[1..], marked);
  }

  // The breadth-first order fixes the visits of the bfs test: from vertex 1,
  // with a visitor that never accepts (so that bfs returns false), bfs visits
  // 1, 3, 2, 4, 0.
  lemma BfsTestOrder(order: seq<nat>, queues: seq<seq<nat>>, marks: seq<seq<bool>>)
    requires Bfs.BreadthFirst(TestGraph(), [1], false, order, queues, marks)
    ensures order == [1, 3, 2, 4, 0]
  {
    BfsTrailStart(order, queues, marks);
    BfsTrailTwo(order, queues, marks);
    BfsTrailEnd(order, queues, marks);
  }

  // Visit 1 queues 3 and 2; visit 3 queues 4 behind 2.
  lemma BfsTrailStart(order: seq<nat>, queues: seq<seq<nat>>, marks: seq<seq<bool>>)
    requires Bfs.BreadthFirst(TestGraph(), [1], false, order, queues, marks)
    ensures |order| >= 2 && order[0] == 1 && order[1] == 3 && queues[2] == [2, 4]
    ensures forall x :: 0 <= x < 5 ==> (marks[2][x] <==> x in {1, 2, 3, 4})
  {
    BfsVisit(order, queues, marks, 0, {1}, {1, 2, 3});
    Fresh2(3, 2, marks[0]);
    BfsVisit(order, queues, marks, 1, {1, 2, 3}, {1, 2, 3, 4});
    Fresh1(4, marks[1]);
  }

  // Visit 2 queues 0 behind 4; its other target is marked.
  lemma BfsTrailTwo(order: seq<nat>, queues: seq<seq<nat>>, marks: seq<seq<bool>>)
    requires Bfs.BreadthFirst(TestGraph(), [1], false, order, queues, marks)
    requires 2 < |queues| && queues[2] == [2, 4]
    requires forall x :: 0 <= x < 5 ==> (marks[2][x] <==> x in {1, 2, 3, 4})
    ensures |order| >= 3 && order[2] == 2 && queues[3] == [4, 0]
    ensures forall x :: 0 <= x < 5 ==> marks[3][x]
  {
    BfsVisit(order, queues, marks, 2, {1, 2, 3, 4}, {0, 1, 2, 3, 4});
    Fresh2(0, 4, marks[2]);
  }

  // Visits 4 and 0 queue nothing, and the queue runs dry.
  lemma BfsTrailEnd(order: seq<nat>, queues: seq<seq<nat>>, marks: seq<seq<bool>>)
    requires Bfs.BreadthFirst(TestGraph(), [1], false, order, queues, marks)
    requires 3 < |queues| && queues[3] == [4, 0]
    requires forall x :: 0 <= x < 5 ==> marks[3][x]
    ensures |order| == 5 && order[3] == 4 && order[4] == 0
  {
    var all := {0, 1, 2, 3, 4};
    BfsVisit(order, queues, marks, 3, all, all);
    Fresh1(1, marks[3]);
    assert queues[4] == [0];
    BfsVisit(order, queues, marks, 4, all, all);
    Fresh1(1, marks[4]);
    assert queues[5] == [];
  }

  // One visit of a breadth-first trail that does not stop: with marks[i] the
  // set m, the visit takes the front of queues[i], and the next marks add the
  // targets of the visited vertex.
  lemma BfsVisit(order: seq<nat>, queues: seq<seq<nat>>, marks: seq<seq<bool>>, i: nat, m: set<nat>, m': set<nat>)
    requires Bfs.BreadthFirst(TestGraph(), [1], false, order, queues, marks)
    requires i < |queues| && queues[i] != [] && queues[i][0] < 5
    requires forall x :: 0 <= x < 5 ==> (marks[i][x] <==> x in m)
    requires m' == m + TestTargets(queues[i][0])
    ensures i < |order| && i + 1 < |queues| && order[i] == queues[i][0]
    ensures queues[i + 1] == queues[i][1..] + Bfs.Fresh(TestGraph()[order[i]].outs, marks[i])
    ensures forall x :: 0 <= x < 5 ==> (marks[i + 1][x] <==> x in m')
  {
    TestTargetsAre(queues[i][0]);
  }

  lemma Fresh1(t: nat, marked: seq<bool>)
    requires t < |marked|
    ensures Bfs.Fresh([OutEdge(t, ())], marked) == if marked[t] then [] else [t]
  {
  }

  lemma Fresh2(t: nat, u: nat, marked: seq<bool>)
    requires t < |marked| && u < |marked| && t != u
    ensures Bfs.Fresh([OutEdge(t, ()), OutEdge(u, ())], marked) == (if marked[t] then [] else [t]) + (if marked[u] then [] else [u])
  {
    var outs := [OutEdge(t, ()), OutEdge(u, ())];
    assert outs[1..] == [OutEdge(u, ())];
    Fresh1(u, marked);
    Fresh1(u, marked[t := true]);
  }
}
