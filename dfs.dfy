// Depth-first search with an explicit stack (dfs). A vertex is marked when it
// is pushed, not when it is visited; the children of a visited vertex are
// pushed in reverse record order, so the first-listed unseen child is on top.
//
// The stack is a sequence whose first element is the top: a push prepends,
// a pop drops the first element.
module Dfs {
  import opened Util
  import opened GraphTypes
  import opened Paths
  import opened AdjacencyList

  // The targets of outs that are not marked, in record order.
  function Unseen<E>(outs: seq<OutEdge<E>>, marked: seq<bool>): (r: seq<nat>)
    requires forall j :: 0 <= j < |outs| ==> outs[j].to < |marked|
  {
    if outs == [] then []
    else (if marked[outs[0].to] then [] else [outs[0].to]) + Unseen(outs[1..], marked)
  }

  // f is the first record whose target is not marked.
  predicate FirstUnmarked<E>(outs: seq<OutEdge<E>>, marked: seq<bool>, f: nat)
    requires forall j :: 0 <= j < |outs| ==> outs[j].to < |marked|
  {
    f < |outs| && !marked[outs[f].to] && forall j :: 0 <= j < f ==> marked[outs[j].to]
  }

  // Unseen is empty exactly when every target is marked, and otherwise
  // starts with the target of the first record whose target is not marked.
  lemma {:induction false} UnseenFirst<E>(outs: seq<OutEdge<E>>, marked: seq<bool>)
    requires forall j :: 0 <= j < |outs| ==> outs[j].to < |marked|
    ensures Unseen(outs, marked) == [] <==> forall j :: 0 <= j < |outs| ==> marked[outs[j].to]
    ensures Unseen(outs, marked) != [] ==>
      exists f: nat :: FirstUnmarked(outs, marked, f) && Unseen(outs, marked)[0] == outs[f].to
  {
    if outs != [] {
      var tail := outs[1..];
      UnseenFirst(tail, marked);
      assert forall j :: 1 <= j < |outs| ==> outs[j] == tail[j - 1];
      if marked[outs[0].to] {
        if Unseen(outs, marked) != [] {
          var f: nat :| FirstUnmarked(tail, marked, f) && Unseen(tail, marked)[0] == tail[f].to;
          assert FirstUnmarked(outs, marked, f + 1);
        }
      } else {
        assert FirstUnmarked(outs, marked, 0);
      }
    }
  }

  lemma UnseenCons<E>(outs: seq<OutEdge<E>>, marked: seq<bool>, j: nat)
    requires forall j :: 0 <= j < |outs| ==> outs[j].to < |marked|
    requires j < |outs|
    ensures Unseen(outs[j..], marked) == (if marked[outs[j].to] then [] else [outs[j].to]) + Unseen(outs[j + 1..], marked)
  {
    assert outs[j..][1..] == outs[j + 1..];
  }

  lemma TargetsCons<E>(outs: seq<OutEdge<E>>, j: nat)
    requires j < |outs| && DistinctTargets(outs)
    ensures Targets(outs[j..]) == {outs[j].to} + Targets(outs[j + 1..])
    ensures outs[j].to !in Targets(outs[j + 1..])
  {
    assert outs[j..] == [outs[j]] + outs[j + 1..];
    var rest := outs[j + 1..];
    forall k | 0 <= k < |rest| ensures rest[k].to != outs[j].to {
      assert rest[k] == outs[j + 1 + k];
    }
  }

  // The inner loop of dfs: walking the records of the visited vertex from the
  // last to the first, every target not marked yet is marked and pushed.
  // pushed is what ends up above the rest of the stack, top first.
  method PushChildren<E>(outs: seq<OutEdge<E>>, enqueued: seq<bool>) returns (pushed: seq<nat>, marked: seq<bool>)
    requires forall j :: 0 <= j < |outs| ==> outs[j].to < |enqueued|
    requires DistinctTargets(outs)
    ensures |marked| == |enqueued|
    ensures forall x :: 0 <= x < |enqueued| ==> (marked[x] <==> enqueued[x] || x in Targets(outs))
    ensures pushed == Unseen(outs, enqueued)
    ensures forall i :: 0 <= i < |pushed| ==> pushed[i] in Targets(outs) && !enqueued[pushed[i]]
    ensures forall x :: 0 <= x < |enqueued| && marked[x] && !enqueued[x] ==> x in pushed
    ensures Distinct(pushed)
    ensures CountTrue(marked) == CountTrue(enqueued) + |pushed|
    ensures marked == Mark(enqueued, outs)
  {
    pushed, marked := [], enqueued;
    for j := |outs| downto 0
      invariant |marked| == |enqueued|
      invariant forall x :: 0 <= x < |enqueued| ==> (marked[x] <==> enqueued[x] || x in Targets(outs[j..]))
      invariant pushed == Unseen(outs[j..], enqueued)
      invariant CountTrue(marked) == CountTrue(enqueued) + |pushed|
    {
      var t := outs[j].to;
      TargetsCons(outs, j);
      UnseenCons(outs, enqueued, j);
      if !marked[t] {
        CountTrueSet(marked, t);
        pushed := [t] + pushed;
        marked := marked[t := true];
      }
    }
    assert outs[0..] == outs;
    UnseenMembers(outs, enqueued);
    assert marked == Mark(enqueued, outs);
  }

  // With distinct targets, Unseen lists each unmarked target once.
  lemma {:induction false} UnseenMembers<E>(outs: seq<OutEdge<E>>, marked: seq<bool>)
    requires forall j :: 0 <= j < |outs| ==> outs[j].to < |marked|
    requires DistinctTargets(outs)
    ensures forall x :: x in Unseen(outs, marked) <==> x in Targets(outs) && !marked[x]
    ensures Distinct(Unseen(outs, marked))
  {
    if outs != [] {
      TargetsCons(outs, 0);
      assert outs[0..] == outs;
      var tail := outs[1..];
      assert DistinctTargets(tail) by {
        forall a, b | 0 <= a < b < |tail| ensures tail[a].to != tail[b].to {
          assert tail[a] == outs[a + 1] && tail[b] == outs[b + 1];
        }
      }
      UnseenMembers(tail, marked);
    }
  }

  // The loop invariant of dfs. order is the vertices handed to the visitor so
  // far; every vertex ever pushed is in order or on the stack.
  ghost predicate Inv<V, E>(vs: seq<Vertex<V, E>>, start: seq<nat>, order: seq<nat>, stack: seq<nat>, enqueued: seq<bool>)
  {
    InRange(vs) && |enqueued| == |vs| && Visits(vs, start, order, stack)
    && (forall x :: 0 <= x < |vs| ==> (enqueued[x] <==> x in order + stack))
    && (forall k :: 0 <= k < |start| ==> start[k] in order + stack)
    && (forall i, j :: 0 <= i < |order| && 0 <= j < |vs[order[i]].outs| ==> enqueued[vs[order[i]].outs[j].to])
  }

  // The part of the loop invariant about the visited vertices and the stack
  // alone: the first visit is the last seed, every entry is a vertex, and
  // each is a seed or a target of a record of a vertex visited earlier.
  ghost predicate Visits<V, E>(vs: seq<Vertex<V, E>>, start: seq<nat>, order: seq<nat>, stack: seq<nat>)
  {
    start != []
    && (order == [] ==> stack == Reversed(start))
    && (order != [] ==> order[0] == start[|start| - 1])
    && (forall i :: 0 <= i < |order + stack| ==> (order + stack)[i] < |vs|)
    && (Distinct(start) ==> Distinct(order + stack))
    && (forall i :: 0 <= i < |order| ==> order[i] in start || exists k :: 0 <= k < i && HasEdge(vs, order[k], order[i]))
    && (forall i :: 0 <= i < |stack| ==> stack[i] in start || exists k :: 0 <= k < |order| && HasEdge(vs, order[k], stack[i]))
  }

  function Reversed(s: seq<nat>): (r: seq<nat>)
    ensures |r| == |s| && forall i :: 0 <= i < |s| ==> r[i] == s[|s| - 1 - i]
  {
    if s == [] then [] else Reversed(s[1..]) + [s[0]]
  }

  // What dfs promises about the vertices it hands to the visitor (order) and
  // its answer (found): the search starts at the seed pushed last and stops
  // at the first vertex the visitor accepts; every vertex is a seed or a
  // target of a record of a vertex visited earlier; with distinct seeds no
  // vertex is visited twice; when the visitor never accepts, the visited
  // vertices are exactly those the seeds reach.
  ghost predicate Outcome<V, E>(vs: seq<Vertex<V, E>>, start: seq<nat>, visitor: nat -> bool, found: bool, order: seq<nat>)
    requires start != []
  {
    order != [] && order[0] == start[|start| - 1]
    && (found <==> visitor(order[|order| - 1]))
    && (forall i :: 0 <= i < |order| - 1 ==> !visitor(order[i]))
    && (forall i :: 0 <= i < |order| ==> order[i] < |vs|)
    && (forall i :: 0 <= i < |order| ==> order[i] in start || exists k :: 0 <= k < i && HasEdge(vs, order[k], order[i]))
    && (forall i :: 0 <= i < |order| ==> Reachable(vs, start, order[i]))
    && (Distinct(start) ==> Distinct(order) && |order| <= |vs|)
    && (!found ==> forall w: nat :: w in order <==> Reachable(vs, start, w))
  }

  // The stacks and marks dfs goes through, as a trail: stacks[i] and marks[i]
  // are the stack (top first) and the marks before the i-th visit. Each visit
  // takes the top of the stack, and the next stack is the unmarked children of
  // the visited vertex, in record order, above the rest of the stack.
  ghost predicate Trail<V, E>(vs: seq<Vertex<V, E>>, order: seq<nat>, stacks: seq<seq<nat>>, marks: seq<seq<bool>>)
    requires InRange(vs)
  {
    |marks| == |stacks| && |order| <= |stacks| <= |order| + 1
    && (forall i :: 0 <= i < |marks| ==> |marks[i]| == |vs|)
    && (forall i :: 0 <= i < |order| ==> order[i] < |vs| && stacks[i] != [] && order[i] == stacks[i][0])
    && (forall i :: 0 <= i < |stacks| - 1 ==>
          stacks[i + 1] == Unseen(vs[order[i]].outs, marks[i]) + stacks[i][1..]
          && marks[i + 1] == Mark(marks[i], vs[order[i]].outs))
  }

  // The depth-first order of dfs: the trail starts from the seeds, pushed in
  // order (the last seed on top) and marked; when the search is not stopped
  // by the visitor it ends with the stack empty.
  ghost predicate DepthFirst<V, E>(vs: seq<Vertex<V, E>>, start: seq<nat>, found: bool, order: seq<nat>,
                                   stacks: seq<seq<nat>>, marks: seq<seq<bool>>)
    requires InRange(vs)
  {
    Trail(vs, order, stacks, marks)
    && |stacks| == |order| + (if found then 0 else 1) && stacks != []
    && stacks[0] == Reversed(start)
    && (forall x :: 0 <= x < |vs| ==> (marks[0][x] <==> x in start))
    && (!found ==> stacks[|order|] == [])
  }

  // dfs(graph, start, visitor).
  method Dfs<V, E>(g: Graph<V, E>, start: seq<nat>, visitor: nat -> bool)
    returns (found: bool, order: seq<nat>, ghost stacks: seq<seq<nat>>, ghost marks: seq<seq<bool>>)
    requires InRange(g.vertices) && NoMultiEdges(g.vertices) && start != []
    requires forall k :: 0 <= k < |start| ==> start[k] < |g.vertices|
    ensures Outcome(g.vertices, start, visitor, found, order)
    ensures DepthFirst(g.vertices, start, found, order, stacks, marks)
  {
    var stack, enqueued := Seed(|g.vertices|, start);
    SeedInv(g.vertices, start, stack, enqueued);
    found, order, stacks, marks := Search(g.vertices, start, visitor, stack, enqueued);
  }

  // The do-while loop of dfs, from the seeded stack and marks.
  method Search<V, E>(vs: seq<Vertex<V, E>>, start: seq<nat>, visitor: nat -> bool, stack0: seq<nat>, enqueued0: seq<bool>)
    returns (found: bool, order: seq<nat>, ghost stacks: seq<seq<nat>>, ghost marks: seq<seq<bool>>)
    requires NoMultiEdges(vs) && Inv(vs, start, [], stack0, enqueued0)
    requires forall x :: 0 <= x < |vs| ==> (enqueued0[x] <==> x in start)
    ensures Outcome(vs, start, visitor, found, order)
    ensures DepthFirst(vs, start, found, order, stacks, marks)
  {
    var n := |vs|;
    var stack, enqueued := stack0, enqueued0;
    order := [];
    stacks, marks := [stack], [enqueued];
    while stack != []
      invariant Searching(vs, start, visitor, order, stack, enqueued, stacks, marks)
      decreases 2 * (n - CountTrue(enqueued)) + |stack|
    {
      var top := stack[0];
      ghost var before := order;
      order := order + [top];
      TopInRange(vs, start, visitor, before, stack, enqueued, stacks, marks);
      if visitor(top) {
        Stopped(vs, start, visitor, before, stack, enqueued, stacks, marks);
        return true, order, stacks, marks;
      }
      var pushed, marked := PushChildren(vs[top].outs, enqueued);
      Advance(vs, start, visitor, before, stack, enqueued, stacks, marks, pushed, marked);
      stack, enqueued := pushed + stack[1..], marked;
      stacks, marks := stacks + [stack], marks + [enqueued];
    }
    Finished(vs, start, visitor, order, enqueued, stacks, marks);
    return false, order, stacks, marks;
  }

  // The loop invariant of dfs, with the visitor not yet accepting and the
  // trail so far.
  ghost predicate Searching<V, E>(vs: seq<Vertex<V, E>>, start: seq<nat>, visitor: nat -> bool, order: seq<nat>,
                                  stack: seq<nat>, enqueued: seq<bool>, stacks: seq<seq<nat>>, marks: seq<seq<bool>>)
  {
    Inv(vs, start, order, stack, enqueued)
    && (forall i :: 0 <= i < |order| ==> !visitor(order[i]))
    && Walked(vs, start, order, stack, enqueued, stacks, marks)
  }

  lemma TopInRange<V, E>(vs: seq<Vertex<V, E>>, start: seq<nat>, visitor: nat -> bool, order: seq<nat>,
                         stack: seq<nat>, enqueued: seq<bool>, stacks: seq<seq<nat>>, marks: seq<seq<bool>>)
    requires Searching(vs, start, visitor, order, stack, enqueued, stacks, marks) && stack != []
    ensures stack[0] < |vs|
  {
    assert (order + stack)[|order|] == stack[0];
  }

  // The loop of dfs stops at the top of the stack.
  lemma Stopped<V, E>(vs: seq<Vertex<V, E>>, start: seq<nat>, visitor: nat -> bool, before: seq<nat>,
                      stack: seq<nat>, enqueued: seq<bool>, stacks: seq<seq<nat>>, marks: seq<seq<bool>>)
    requires Searching(vs, start, visitor, before, stack, enqueued, stacks, marks)
    requires stack != [] && stack[0] < |vs| && visitor(stack[0])
    ensures Outcome(vs, start, visitor, true, before + [stack[0]])
    ensures DepthFirst(vs, start, true, before + [stack[0]], stacks, marks)
  {
    StoppedAt(vs, start, visitor, before, stack);
    WalkedStop(vs, start, before, stack, enqueued, stacks, marks);
  }

  // The loop of dfs runs dry.
  lemma Finished<V, E>(vs: seq<Vertex<V, E>>, start: seq<nat>, visitor: nat -> bool, order: seq<nat>,
                       enqueued: seq<bool>, stacks: seq<seq<nat>>, marks: seq<seq<bool>>)
    requires Searching(vs, start, visitor, order, [], enqueued, stacks, marks)
    ensures Outcome(vs, start, visitor, false, order)
    ensures DepthFirst(vs, start, false, order, stacks, marks)
  {
    Drained(vs, start, visitor, order, enqueued);
  }

  // One round of the loop of dfs that does not stop keeps its invariant.
  lemma Advance<V, E>(vs: seq<Vertex<V, E>>, start: seq<nat>, visitor: nat -> bool, before: seq<nat>, stack: seq<nat>,
                      enqueued: seq<bool>, stacks: seq<seq<nat>>, marks: seq<seq<bool>>, pushed: seq<nat>, marked: seq<bool>)
    requires Searching(vs, start, visitor, before, stack, enqueued, stacks, marks)
    requires stack != [] && stack[0] < |vs| && !visitor(stack[0])
    requires |marked| == |enqueued|
    requires forall x :: 0 <= x < |enqueued| ==> (marked[x] <==> enqueued[x] || x in Targets(vs[stack[0]].outs))
    requires forall i :: 0 <= i < |pushed| ==> pushed[i] in Targets(vs[stack[0]].outs) && !enqueued[pushed[i]]
    requires forall x :: 0 <= x < |enqueued| && marked[x] && !enqueued[x] ==> x in pushed
    requires Distinct(pushed)
    requires pushed == Unseen(vs[stack[0]].outs, enqueued) && marked == Mark(enqueued, vs[stack[0]].outs)
    ensures Searching(vs, start, visitor, before + [stack[0]], pushed + stack[1..], marked,
                      stacks + [pushed + stack[1..]], marks + [marked])
  {
    Unstopped(before, stack[0], visitor);
    Step(vs, start, before, stack, enqueued, pushed, marked);
    WalkedStep(vs, start, before, stack, enqueued, stacks, marks, pushed, marked);
  }

  // The trail invariant of the loop of dfs: the trail so far ends in the
  // current stack and marks.
  ghost predicate Walked<V, E>(vs: seq<Vertex<V, E>>, start: seq<nat>, order: seq<nat>, stack: seq<nat>,
                               enqueued: seq<bool>, stacks: seq<seq<nat>>, marks: seq<seq<bool>>)
    requires InRange(vs)
  {
    Trail(vs, order, stacks, marks) && |stacks| == |order| + 1
    && stacks[|order|] == stack && marks[|order|] == enqueued
    && stacks[0] == Reversed(start)
    && (forall x :: 0 <= x < |vs| ==> (marks[0][x] <==> x in start))
  }

  lemma WalkedStop<V, E>(vs: seq<Vertex<V, E>>, start: seq<nat>, before: seq<nat>, stack: seq<nat>,
                         enqueued: seq<bool>, stacks: seq<seq<nat>>, marks: seq<seq<bool>>)
    requires InRange(vs) && stack != [] && stack[0] < |vs|
    requires Walked(vs, start, before, stack, enqueued, stacks, marks)
    ensures DepthFirst(vs, start, true, before + [stack[0]], stacks, marks)
  {
    var order := before + [stack[0]];
    forall i | 0 <= i < |order| ensures order[i] < |vs| && stacks[i] != [] && order[i] == stacks[i][0] {
      if i < |before| {
        assert order[i] == before[i];
      }
    }
    forall i | 0 <= i < |stacks| - 1
      ensures stacks[i + 1] == Unseen(vs[order[i]].outs, marks[i]) + stacks[i][1..]
      ensures marks[i + 1] == Mark(marks[i], vs[order[i]].outs)
    {
      assert order[i] == before[i];
    }
  }

  lemma WalkedStep<V, E>(vs: seq<Vertex<V, E>>, start: seq<nat>, before: seq<nat>, stack: seq<nat>,
                         enqueued: seq<bool>, stacks: seq<seq<nat>>, marks: seq<seq<bool>>,
                         pushed: seq<nat>, marked: seq<bool>)
    requires InRange(vs) && stack != [] && stack[0] < |vs|
    requires Walked(vs, start, before, stack, enqueued, stacks, marks)
    requires pushed == Unseen(vs[stack[0]].outs, enqueued) && marked == Mark(enqueued, vs[stack[0]].outs)
    ensures Walked(vs, start, before + [stack[0]], pushed + stack[1..], marked,
                   stacks + [pushed + stack[1..]], marks + [marked])
  {
    var order, stacks', marks' := before + [stack[0]], stacks + [pushed + stack[1..]], marks + [marked];
    forall i | 0 <= i < |marks'| ensures |marks'[i]| == |vs| {
      if i < |marks| {
        assert marks'[i] == marks[i];
      }
    }
    forall i | 0 <= i < |order| ensures order[i] < |vs| && stacks'[i] != [] && order[i] == stacks'[i][0] {
      if i < |before| {
        assert order[i] == before[i] && stacks'[i] == stacks[i];
      }
    }
    forall i | 0 <= i < |stacks'| - 1
      ensures stacks'[i + 1] == Unseen(vs[order[i]].outs, marks'[i]) + stacks'[i][1..]
      ensures marks'[i + 1] == Mark(marks'[i], vs[order[i]].outs)
    {
      if i < |before| {
        assert order[i] == before[i] && stacks'[i] == stacks[i] && marks'[i] == marks[i];
        assert stacks'[i + 1] == stacks[i + 1] && marks'[i + 1] == marks[i + 1];
      }
    }
  }

  // dfs(graph, start, visitor) with a single start vertex.
  method DfsFrom<V, E>(g: Graph<V, E>, start: nat, visitor: nat -> bool)
    returns (found: bool, order: seq<nat>, ghost stacks: seq<seq<nat>>, ghost marks: seq<seq<bool>>)
    requires InRange(g.vertices) && NoMultiEdges(g.vertices) && start < |g.vertices|
    ensures order != [] && order[0] == start
    ensures found <==> visitor(order[|order| - 1])
    ensures forall i :: 0 <= i < |order| - 1 ==> !visitor(order[i])
    ensures Distinct(order) && forall i :: 0 <= i < |order| ==> order[i] < |g.vertices|
    ensures !found ==> forall w: nat :: w in order <==> Reachable(g.vertices, [start], w)
    ensures DepthFirst(g.vertices, [start], found, order, stacks, marks)
  {
    found, order, stacks, marks := Dfs(g, [start], visitor);
    SingleSeed(g.vertices, start, visitor, found, order);
  }

  // Outcome with a single seed.
  lemma SingleSeed<V, E>(vs: seq<Vertex<V, E>>, start: nat, visitor: nat -> bool, found: bool, order: seq<nat>)
    requires Outcome(vs, [start], visitor, found, order)
    ensures order != [] && order[0] == start
    ensures Distinct(order)
  {
  }

  // Connectivity by one dfs from vertex 0 with a visitor that never accepts:
  // the graph is connected exactly when the search visits every vertex. The
  // corrected is_linear and is_cycle_graph use it.
  method IsConnected<V, E>(g: Graph<V, E>) returns (r: bool)
    requires InRange(g.vertices) && NoMultiEdges(g.vertices)
    ensures r <==> Connected(g.vertices)
  {
    if |g.vertices| == 0 {
      return true;
    }
    var found, order;
    ghost var stacks, marks;
    found, order, stacks, marks := DfsFrom(g, 0, _ => false);
    CoverCount(order, |g.vertices|);
    r := |order| == |g.vertices|;
  }

  // The seeding loop of dfs: every start index is marked and pushed, so the
  // last one ends on top.
  method Seed(n: nat, start: seq<nat>) returns (stack: seq<nat>, enqueued: seq<bool>)
    requires forall k :: 0 <= k < |start| ==> start[k] < n
    ensures stack == Reversed(start) && |enqueued| == n
    ensures forall x :: 0 <= x < n ==> (enqueued[x] <==> x in start)
    ensures CountTrue(enqueued) <= |stack|
  {
    enqueued := seq(n, _ => false);
    CountTrueAll(n);
    stack := [];
    for k := 0 to |start|
      invariant stack == Reversed(start[..k]) && |enqueued| == n
      invariant forall x :: 0 <= x < n ==> (enqueued[x] <==> x in start[..k])
      invariant CountTrue(enqueued) <= k
    {
      if !enqueued[start[k]] {
        CountTrueSet(enqueued, start[k]);
      } else {
        assert enqueued[start[k] := true] == enqueued;
      }
      enqueued := enqueued[start[k] := true];
      stack := [start[k]] + stack;
      assert start[..k + 1] == start[..k] + [start[k]];
      assert Reversed(start[..k + 1]) == [start[k]] + Reversed(start[..k]);
    }
    assert start[..|start|] == start;
  }

  lemma SeedInv<V, E>(vs: seq<Vertex<V, E>>, start: seq<nat>, stack: seq<nat>, enqueued: seq<bool>)
    requires InRange(vs) && start != [] && forall k :: 0 <= k < |start| ==> start[k] < |vs|
    requires stack == Reversed(start) && |enqueued| == |vs|
    requires forall x :: 0 <= x < |vs| ==> (enqueued[x] <==> x in start)
    ensures Inv(vs, start, [], stack, enqueued)
  {
    assert [] + stack == stack;
    ReversedMembers(start);
  }

  lemma ReversedMembers(s: seq<nat>)
    ensures forall x :: x in Reversed(s) <==> x in s
    ensures Distinct(s) ==> Distinct(Reversed(s))
  {
    var r := Reversed(s);
    forall x | x in s ensures x in r {
      var k :| 0 <= k < |s| && s[k] == x;
      assert r[|s| - 1 - k] == x;
    }
    if Distinct(s) {
      forall i, j | 0 <= i < j < |r| ensures r[i] != r[j] {
        assert r[i] == s[|s| - 1 - i];
      }
    }
  }

  lemma Unstopped(before: seq<nat>, top: nat, visitor: nat -> bool)
    requires forall i :: 0 <= i < |before| ==> !visitor(before[i])
    requires !visitor(top)
    ensures forall i :: 0 <= i < |before + [top]| ==> !visitor((before + [top])[i])
  {
  }

  // The search stopped at the top of the stack: what dfs promises then.
  lemma StoppedAt<V, E>(vs: seq<Vertex<V, E>>, start: seq<nat>, visitor: nat -> bool, before: seq<nat>, stack: seq<nat>)
    requires InRange(vs) && Visits(vs, start, before, stack) && stack != [] && visitor(stack[0])
    requires forall i :: 0 <= i < |before| ==> !visitor(before[i])
    ensures Outcome(vs, start, visitor, true, before + [stack[0]])
  {
    var order := before + [stack[0]];
    assert order[0] == start[|start| - 1] by {
      if before == [] {
        assert stack[0] == start[|start| - 1];
      }
    }
    assert before + stack == order + stack[1..];
    forall i | 0 <= i < |order| ensures order[i] < |vs| {
      assert order[i] == (before + stack)[i];
    }
    assert (before + stack)[|before|] == stack[0];
    StepDerived(vs, start, before, stack, []);
    OrderReachable(vs, start, order);
    if Distinct(start) {
      DistinctPrefix(order + stack[1..], |order|);
      assert (order + stack[1..])[..|order|] == order;
      DistinctBounded(order, |vs|);
    }
  }

  lemma Drained<V, E>(vs: seq<Vertex<V, E>>, start: seq<nat>, visitor: nat -> bool, order: seq<nat>, enqueued: seq<bool>)
    requires Inv(vs, start, order, [], enqueued)
    requires forall i :: 0 <= i < |order| ==> !visitor(order[i])
    ensures Outcome(vs, start, visitor, false, order)
  {
    assert order + [] == order;
    OrderReachable(vs, start, order);
    if Distinct(start) {
      DistinctBounded(order, |vs|);
    }
    DrainedClosed(vs, start, order, enqueued);
  }

  // With the stack empty, the visited vertices are closed under the records
  // of the graph, so they are exactly the vertices the seeds reach.
  lemma DrainedClosed<V, E>(vs: seq<Vertex<V, E>>, start: seq<nat>, order: seq<nat>, enqueued: seq<bool>)
    requires InRange(vs) && |enqueued| == |vs|
    requires forall i :: 0 <= i < |order| ==> order[i] < |vs|
    requires forall x :: 0 <= x < |vs| ==> (enqueued[x] <==> x in order)
    requires forall k :: 0 <= k < |start| ==> start[k] in order
    requires forall i :: 0 <= i < |order| ==> Reachable(vs, start, order[i])
    requires forall i, j :: 0 <= i < |order| && 0 <= j < |vs[order[i]].outs| ==> enqueued[vs[order[i]].outs[j].to]
    ensures forall w: nat :: w in order <==> Reachable(vs, start, w)
  {
    var s := set i | 0 <= i < |order| :: order[i];
    forall u: nat, w: nat | u in s && HasEdge(vs, u, w) ensures w in s {
      var i :| 0 <= i < |order| && order[i] == u;
      var j :| 0 <= j < |vs[u].outs| && vs[u].outs[j].to == w;
      assert enqueued[vs[order[i]].outs[j].to];
    }
    ClosedReachable(vs, start, s);
  }

  lemma DistinctPrefix(s: seq<nat>, m: nat)
    requires m <= |s| && Distinct(s)
    ensures Distinct(s[..m])
  {
  }

  // Every visited vertex is reached from the seeds.
  lemma OrderReachable<V, E>(vs: seq<Vertex<V, E>>, start: seq<nat>, order: seq<nat>)
    requires forall i :: 0 <= i < |order| ==> order[i] in start || exists k :: 0 <= k < i && HasEdge(vs, order[k], order[i])
    ensures forall i :: 0 <= i < |order| ==> Reachable(vs, start, order[i])
  {
    forall i | 0 <= i < |order| ensures Reachable(vs, start, order[i]) {
      OrderReachableAt(vs, start, order, i);
    }
  }

  lemma {:induction false} OrderReachableAt<V, E>(vs: seq<Vertex<V, E>>, start: seq<nat>, order: seq<nat>, i: nat)
    requires forall i :: 0 <= i < |order| ==> order[i] in start || exists k :: 0 <= k < i && HasEdge(vs, order[k], order[i])
    requires i < |order|
    ensures Reachable(vs, start, order[i])
    decreases i
  {
    if order[i] in start {
      ReachableSeed(vs, start, order[i]);
    } else {
      var k :| 0 <= k < i && HasEdge(vs, order[k], order[i]);
      OrderReachableAt(vs, start, order, k);
      ReachableStep(vs, start, order[k], order[i]);
    }
  }

  // One round of dfs keeps the loop invariant.
  lemma Step<V, E>(vs: seq<Vertex<V, E>>, start: seq<nat>, before: seq<nat>, stack: seq<nat>,
                   enqueued: seq<bool>, pushed: seq<nat>, marked: seq<bool>)
    requires Inv(vs, start, before, stack, enqueued) && stack != [] && stack[0] < |vs|
    requires |marked| == |enqueued|
    requires forall x :: 0 <= x < |enqueued| ==> (marked[x] <==> enqueued[x] || x in Targets(vs[stack[0]].outs))
    requires forall i :: 0 <= i < |pushed| ==> pushed[i] in Targets(vs[stack[0]].outs) && !enqueued[pushed[i]]
    requires forall x :: 0 <= x < |enqueued| && marked[x] && !enqueued[x] ==> x in pushed
    requires Distinct(pushed)
    ensures Inv(vs, start, before + [stack[0]], pushed + stack[1..], marked)
  {
    var top := stack[0];
    var order := before + [top];
    TargetsEdges(vs, top);
    StepSets(vs, start, before, stack, enqueued, pushed, marked);
    StepDerived(vs, start, before, stack, pushed);
    StepExpanded(vs, before, top, enqueued, marked);
    assert order[0] == start[|start| - 1] by {
      if before == [] {
        assert stack[0] == start[|start| - 1];
      }
    }
  }

  lemma StepSets<V, E>(vs: seq<Vertex<V, E>>, start: seq<nat>, before: seq<nat>, stack: seq<nat>,
                       enqueued: seq<bool>, pushed: seq<nat>, marked: seq<bool>)
    requires |enqueued| == |vs| == |marked| && stack != [] && stack[0] < |vs|
    requires forall i :: 0 <= i < |before + stack| ==> (before + stack)[i] < |vs|
    requires forall x :: 0 <= x < |vs| ==> (enqueued[x] <==> x in before + stack)
    requires forall k :: 0 <= k < |start| ==> start[k] in before + stack
    requires Distinct(start) ==> Distinct(before + stack)
    requires InRange(vs)
    requires forall x :: 0 <= x < |enqueued| ==> (marked[x] <==> enqueued[x] || x in Targets(vs[stack[0]].outs))
    requires forall i :: 0 <= i < |pushed| ==> pushed[i] in Targets(vs[stack[0]].outs) && !enqueued[pushed[i]]
    requires forall x :: 0 <= x < |enqueued| && marked[x] && !enqueued[x] ==> x in pushed
    requires Distinct(pushed)
    ensures var s := (before + [stack[0]]) + (pushed + stack[1..]);
      (forall i :: 0 <= i < |s| ==> s[i] < |vs|)
      && (forall x :: 0 <= x < |vs| ==> (marked[x] <==> x in s))
      && (forall k :: 0 <= k < |start| ==> start[k] in s)
      && (Distinct(start) ==> Distinct(s))
  {
    var old' := before + stack;
    var s := (before + [stack[0]]) + (pushed + stack[1..]);
    assert old' == before + [stack[0]] + stack[1..];
    // s is old' with pushed inserted after the visited prefix and the top.
    assert forall x :: x in s <==> x in old' || x in pushed;
    forall i | 0 <= i < |s| ensures s[i] < |vs| {
      if s[i] in pushed {
        var k :| 0 <= k < |pushed| && pushed[k] == s[i];
        var j :| 0 <= j < |vs[stack[0]].outs| && vs[stack[0]].outs[j].to == pushed[k];
      } else {
        var k :| 0 <= k < |old'| && old'[k] == s[i];
      }
    }
    forall x | 0 <= x < |vs| ensures marked[x] <==> x in s {
      if x in pushed {
        var k :| 0 <= k < |pushed| && pushed[k] == x;
      }
    }
    if Distinct(start) {
      InsertDistinct(before + [stack[0]], stack[1..], pushed, enqueued);
    }
  }

  // Inserting distinct unmarked vertices into a distinct sequence of marked
  // ones keeps it distinct.
  lemma InsertDistinct(a: seq<nat>, b: seq<nat>, p: seq<nat>, enqueued: seq<bool>)
    requires Distinct(a + b) && Distinct(p)
    requires forall x :: x in a + b ==> x < |enqueued| && enqueued[x]
    requires forall i :: 0 <= i < |p| ==> p[i] < |enqueued| && !enqueued[p[i]]
    ensures Distinct(a + (p + b))
  {
    var s := a + (p + b);
    forall i, j | 0 <= i < j < |s| ensures s[i] != s[j] {
      var inP := (k: int) => |a| <= k < |a| + |p|;
      if inP(i) && !inP(j) {
        assert s[j] in a + b;
        assert s[i] == p[i - |a|];
      } else if !inP(i) && inP(j) {
        assert s[i] in a + b;
        assert s[j] == p[j - |a|];
      } else if inP(i) && inP(j) {
        assert s[i] == p[i - |a|] && s[j] == p[j - |a|];
      } else {
        var m := (k: int) requires 0 <= k < |s| && !inP(k) => if k < |a| then k else k - |p|;
        assert s[i] == (a + b)[m(i)] && s[j] == (a + b)[m(j)];
      }
    }
  }

  lemma StepDerived<V, E>(vs: seq<Vertex<V, E>>, start: seq<nat>, before: seq<nat>, stack: seq<nat>, pushed: seq<nat>)
    requires stack != [] && stack[0] < |vs|
    requires forall i :: 0 <= i < |before| ==> before[i] in start || exists k :: 0 <= k < i && HasEdge(vs, before[k], before[i])
    requires forall i :: 0 <= i < |stack| ==> stack[i] in start || exists k :: 0 <= k < |before| && HasEdge(vs, before[k], stack[i])
    requires forall i :: 0 <= i < |pushed| ==> HasEdge(vs, stack[0], pushed[i])
    ensures var order := before + [stack[0]];
      forall i :: 0 <= i < |order| ==> order[i] in start || exists k :: 0 <= k < i && HasEdge(vs, order[k], order[i])
    ensures var order, rest := before + [stack[0]], pushed + stack[1..];
      forall i :: 0 <= i < |rest| ==> rest[i] in start || exists k :: 0 <= k < |order| && HasEdge(vs, order[k], rest[i])
  {
    var order := before + [stack[0]];
    forall i | 0 <= i < |order| ensures order[i] in start || exists k :: 0 <= k < i && HasEdge(vs, order[k], order[i]) {
      if i < |before| {
        if !(before[i] in start) {
          var k :| 0 <= k < i && HasEdge(vs, before[k], before[i]);
          assert order[k] == before[k];
        }
      } else if !(stack[0] in start) {
        var k :| 0 <= k < |before| && HasEdge(vs, before[k], stack[0]);
        assert order[k] == before[k];
      }
    }
    var rest := pushed + stack[1..];
    forall i | 0 <= i < |rest| ensures rest[i] in start || exists k :: 0 <= k < |order| && HasEdge(vs, order[k], rest[i]) {
      if i < |pushed| {
        assert order[|before|] == stack[0];
      } else {
        assert rest[i] == stack[i - |pushed| + 1];
        if !(rest[i] in start) {
          var k :| 0 <= k < |before| && HasEdge(vs, before[k], rest[i]);
          assert order[k] == before[k];
        }
      }
    }
  }

  lemma StepExpanded<V, E>(vs: seq<Vertex<V, E>>, before: seq<nat>, top: nat, enqueued: seq<bool>, marked: seq<bool>)
    requires InRange(vs) && |enqueued| == |vs| == |marked| && top < |vs|
    requires forall i :: 0 <= i < |before| ==> before[i] < |vs|
    requires forall i, j :: 0 <= i < |before| && 0 <= j < |vs[before[i]].outs| ==> enqueued[vs[before[i]].outs[j].to]
    requires forall x :: 0 <= x < |enqueued| ==> (marked[x] <==> enqueued[x] || x in Targets(vs[top].outs))
    ensures var order := before + [top];
      forall i, j :: 0 <= i < |order| && 0 <= j < |vs[order[i]].outs| ==> marked[vs[order[i]].outs[j].to]
  {
    var order := before + [top];
    forall i, j | 0 <= i < |order| && 0 <= j < |vs[order[i]].outs| ensures marked[vs[order[i]].outs[j].to] {
      if i < |before| {
        assert order[i] == before[i];
        assert enqueued[vs[before[i]].outs[j].to];
      } else {
        assert vs[top].outs[j].to in Targets(vs[top].outs);
      }
    }
  }
}
