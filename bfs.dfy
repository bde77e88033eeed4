// Breadth-first search (basic_bfs and the bfs / bfs_shortest_path front ends).
// A first-in first-out queue of entries starts with one entry per seed; each
// round hands the front entry to the visitor, stops if the visitor says so,
// and otherwise queues every target of the front's records that was never
// queued before. Entries carry the two decorations of bfs_shortest_path: the
// distance from the seeds and the predecessor.
module Bfs {
  import opened Util
  import opened GraphTypes
  import opened Paths
  import opened AdjacencyList

  // A queue entry with both decorations (bfs_distance_t, bfs_predecessor_t).
  datatype Entry = Entry(index: nat, distance: nat, predecessor: nat)

  // The entry of a seed: distance 0, its own predecessor.
  function SeedEntry(index: nat): Entry
  {
    Entry(index, 0, index)
  }

  // The entry queued for the target `to` of a record of previous.
  function ChildEntry(to: nat, previous: Entry): Entry
  {
    Entry(to, previous.distance + 1, previous.index)
  }

  function Indices(s: seq<Entry>): (r: seq<nat>)
    ensures |r| == |s| && forall i :: 0 <= i < |s| ==> r[i] == s[i].index
  {
    seq(|s|, i requires 0 <= i < |s| => s[i].index)
  }

  // How an entry can come about once `visited` have been handed to the
  // visitor: as a seed, or as the child of a visited entry through a record.
  ghost predicate Derived<V, E>(vs: seq<Vertex<V, E>>, seeds: seq<nat>, visited: seq<Entry>, e: Entry)
  {
    (e.index in seeds && e == SeedEntry(e.index))
    || exists k :: 0 <= k < |visited| && e == ChildEntry(e.index, visited[k]) && HasEdge(vs, visited[k].index, e.index)
  }

  // Entries with the same index are the same entry.
  ghost predicate Coherent(s: seq<Entry>)
  {
    forall i, j :: 0 <= i < |s| && 0 <= j < |s| && s[i].index == s[j].index ==> s[i] == s[j]
  }

  ghost predicate Nondecreasing(s: seq<Entry>)
  {
    forall i, j :: 0 <= i < j < |s| ==> s[i].distance <= s[j].distance
  }

  lemma DerivedGrow<V, E>(vs: seq<Vertex<V, E>>, seeds: seq<nat>, visited: seq<Entry>, more: seq<Entry>, e: Entry)
    requires Derived(vs, seeds, visited, e)
    ensures Derived(vs, seeds, visited + more, e)
  {
    if !(e.index in seeds && e == SeedEntry(e.index)) {
      var k :| 0 <= k < |visited| && e == ChildEntry(e.index, visited[k]) && HasEdge(vs, visited[k].index, e.index);
      assert (visited + more)[k] == visited[k];
    }
  }

  // Every entry of a trace in which each entry is derived from the ones before
  // it stands for a vertex the seeds reach.
  lemma {:induction false} DerivedReachable<V, E>(vs: seq<Vertex<V, E>>, seeds: seq<nat>, trace: seq<Entry>, i: nat)
    requires forall j :: 0 <= j < |trace| ==> Derived(vs, seeds, trace[..j], trace[j])
    requires i < |trace|
    ensures Reachable(vs, seeds, trace[i].index)
    decreases i
  {
    var e := trace[i];
    if e.index in seeds && e == SeedEntry(e.index) {
      ReachableSeed(vs, seeds, e.index);
    } else {
      assert Derived(vs, seeds, trace[..i], e);
      var k :| 0 <= k < |trace[..i]| && e == ChildEntry(e.index, trace[..i][k]) && HasEdge(vs, trace[..i][k].index, e.index);
      assert trace[..i][k] == trace[k];
      DerivedReachable(vs, seeds, trace, k);
      ReachableStep(vs, seeds, trace[k].index, e.index);
    }
  }

  // The distance decoration of every entry of such a trace is the length of
  // a walk from the seeds to its vertex.
  lemma {:induction false} DerivedWalk<V, E>(vs: seq<Vertex<V, E>>, seeds: seq<nat>, trace: seq<Entry>, i: nat)
    requires forall j :: 0 <= j < |trace| ==> Derived(vs, seeds, trace[..j], trace[j])
    requires i < |trace|
    ensures WalkOf(vs, seeds, trace[i].index, trace[i].distance)
    decreases i
  {
    var e := trace[i];
    if e.index in seeds && e == SeedEntry(e.index) {
      WalkSeed(vs, seeds, e.index);
    } else {
      assert Derived(vs, seeds, trace[..i], e);
      var k :| 0 <= k < |trace[..i]| && e == ChildEntry(e.index, trace[..i][k]) && HasEdge(vs, trace[..i][k].index, e.index);
      assert trace[..i][k] == trace[k];
      DerivedWalk(vs, seeds, trace, k);
      WalkStep(vs, seeds, trace[k].index, e.index, trace[k].distance);
    }
  }

  // The targets the inner loop of basic_bfs queues, in record order: every
  // target not marked yet, which it marks on the spot, so that a target listed
  // twice is queued once.
  function Fresh<E>(outs: seq<OutEdge<E>>, marked: seq<bool>): seq<nat>
    requires forall j :: 0 <= j < |outs| ==> outs[j].to < |marked|
  {
    if outs == [] then []
    else if marked[outs[0].to] then Fresh(outs[1..], marked)
    else [outs[0].to] + Fresh(outs[1..], marked[outs[0].to := true])
  }

  // The queued targets are exactly the unmarked targets, each once.
  lemma {:induction false} FreshMembers<E>(outs: seq<OutEdge<E>>, marked: seq<bool>)
    requires forall j :: 0 <= j < |outs| ==> outs[j].to < |marked|
    ensures forall x :: x in Fresh(outs, marked) <==> 0 <= x < |marked| && !marked[x] && x in Targets(outs)
    ensures Distinct(Fresh(outs, marked))
  {
    if outs != [] {
      var t := outs[0].to;
      var tail := outs[1..];
      assert Targets(outs) == {t} + Targets(tail) by {
        assert forall j :: 1 <= j < |outs| ==> outs[j] == tail[j - 1];
      }
      if marked[t] {
        FreshMembers(tail, marked);
      } else {
        var m := marked[t := true];
        FreshMembers(tail, m);
        var r := [t] + Fresh(tail, m);
        assert forall i :: 1 <= i < |r| ==> r[i] == Fresh(tail, m)[i - 1];
      }
    }
  }

  // The seeding loop of basic_bfs: one seed entry per start index, in order,
  // each start index marked.
  method Seed(n: nat, start: seq<nat>) returns (queue: seq<Entry>, enqueued: seq<bool>)
    requires forall k :: 0 <= k < |start| ==> start[k] < n
    ensures |queue| == |start| && |enqueued| == n
    ensures forall k :: 0 <= k < |start| ==> queue[k] == SeedEntry(start[k])
    ensures forall x :: 0 <= x < n ==> (enqueued[x] <==> x in start)
    ensures CountTrue(enqueued) <= |queue|
  {
    enqueued := seq(n, _ => false);
    CountTrueAll(n);
    queue := [];
    for k := 0 to |start|
      invariant |queue| == k && |enqueued| == n
      invariant forall i :: 0 <= i < k ==> queue[i] == SeedEntry(start[i])
      invariant forall x :: 0 <= x < n ==> (enqueued[x] <==> x in start[..k])
      invariant CountTrue(enqueued) <= k
    {
      if !enqueued[start[k]] {
        CountTrueSet(enqueued, start[k]);
      } else {
        assert enqueued[start[k] := true] == enqueued;
      }
      enqueued := enqueued[start[k] := true];
      queue := queue + [SeedEntry(start[k])];
      assert start[..k + 1] == start[..k] + [start[k]];
    }
    assert start[..|start|] == start;
  }

  // The inner loop of basic_bfs: every target of the front's records that is
  // not marked yet is marked and becomes a child entry of the front, in record
  // order. The entries come back in the order the loop queues them.
  method Expand<E>(outs: seq<OutEdge<E>>, front: Entry, enqueued: seq<bool>) returns (added: seq<Entry>, marked: seq<bool>)
    requires forall j :: 0 <= j < |outs| ==> outs[j].to < |enqueued|
    ensures |marked| == |enqueued|
    ensures forall x :: 0 <= x < |enqueued| ==> (marked[x] <==> enqueued[x] || x in Targets(outs))
    ensures forall i :: 0 <= i < |added| ==>
      added[i] == ChildEntry(added[i].index, front) && added[i].index in Targets(outs) && !enqueued[added[i].index]
    ensures forall x :: 0 <= x < |enqueued| && marked[x] && !enqueued[x] ==> x in Indices(added)
    ensures Distinct(Indices(added))
    ensures CountTrue(marked) == CountTrue(enqueued) + |added|
    ensures Indices(added) == Fresh(outs, enqueued) && marked == Mark(enqueued, outs)
  {
    added, marked := [], enqueued;
    assert outs[..0] == [] && outs[0..] == outs;
    for j := 0 to |outs|
      invariant Expanding(outs, front, enqueued, j, added, marked)
    {
      var t := outs[j].to;
      ExpandStep(outs, front, enqueued, j, added, marked);
      if !marked[t] {
        added := added + [ChildEntry(t, front)];
        marked := marked[t := true];
      }
    }
    assert outs[|outs|..] == [];
    ExpandEnds(outs, front, enqueued, added, marked);
  }

  // The loop invariant of Expand after the first j records.
  ghost predicate Expanding<E>(outs: seq<OutEdge<E>>, front: Entry, enqueued: seq<bool>, j: nat, added: seq<Entry>, marked: seq<bool>)
    requires forall j :: 0 <= j < |outs| ==> outs[j].to < |enqueued|
  {
    && j <= |outs| && |marked| == |enqueued|
    && (forall x :: 0 <= x < |enqueued| ==> (marked[x] <==> enqueued[x] || x in Targets(outs[..j])))
    && (forall i :: 0 <= i < |added| ==> added[i] == ChildEntry(added[i].index, front))
    && CountTrue(marked) == CountTrue(enqueued) + |added|
    && Indices(added) + Fresh(outs[j..], marked) == Fresh(outs, enqueued)
  }

  // One round of the loop of Expand keeps its invariant.
  lemma ExpandStep<E>(outs: seq<OutEdge<E>>, front: Entry, enqueued: seq<bool>, j: nat, added: seq<Entry>, marked: seq<bool>)
    requires forall j :: 0 <= j < |outs| ==> outs[j].to < |enqueued|
    requires j < |outs| && Expanding(outs, front, enqueued, j, added, marked)
    ensures var t := outs[j].to;
      if marked[t] then Expanding(outs, front, enqueued, j + 1, added, marked)
      else Expanding(outs, front, enqueued, j + 1, added + [ChildEntry(t, front)], marked[t := true])
  {
    TargetsSnoc(outs, j);
    var t := outs[j].to;
    FreshCons(outs, j, marked);
    if !marked[t] {
      CountTrueSet(marked, t);
      var added' := added + [ChildEntry(t, front)];
      assert Indices(added') == Indices(added) + [t];
      assert Indices(added') + Fresh(outs[j + 1..], marked[t := true]) == Indices(added) + ([t] + Fresh(outs[j + 1..], marked[t := true]));
    }
  }

  // What the loop of Expand leaves once it has walked every record.
  lemma ExpandEnds<E>(outs: seq<OutEdge<E>>, front: Entry, enqueued: seq<bool>, added: seq<Entry>, marked: seq<bool>)
    requires forall j :: 0 <= j < |outs| ==> outs[j].to < |enqueued|
    requires |marked| == |enqueued|
    requires forall x :: 0 <= x < |enqueued| ==> (marked[x] <==> enqueued[x] || x in Targets(outs[..|outs|]))
    requires forall i :: 0 <= i < |added| ==> added[i] == ChildEntry(added[i].index, front)
    requires Indices(added) == Fresh(outs, enqueued)
    ensures forall x :: 0 <= x < |enqueued| ==> (marked[x] <==> enqueued[x] || x in Targets(outs))
    ensures forall i :: 0 <= i < |added| ==>
      added[i] == ChildEntry(added[i].index, front) && added[i].index in Targets(outs) && !enqueued[added[i].index]
    ensures forall x :: 0 <= x < |enqueued| && marked[x] && !enqueued[x] ==> x in Indices(added)
    ensures Distinct(Indices(added))
    ensures marked == Mark(enqueued, outs)
  {
    assert outs[..|outs|] == outs;
    FreshMembers(outs, enqueued);
    forall i | 0 <= i < |added| ensures added[i].index in Targets(outs) && !enqueued[added[i].index] {
      assert Indices(added)[i] in Fresh(outs, enqueued);
    }
    assert marked == Mark(enqueued, outs);
  }

  lemma FreshCons<E>(outs: seq<OutEdge<E>>, j: nat, marked: seq<bool>)
    requires forall j :: 0 <= j < |outs| ==> outs[j].to < |marked|
    requires j < |outs|
    ensures var t := outs[j].to;
      Fresh(outs[j..], marked) == if marked[t] then Fresh(outs[j + 1..], marked) else [t] + Fresh(outs[j + 1..], marked[t := true])
  {
    assert outs[j..][1..] == outs[j + 1..];
  }

  // Every target of the records of the visited entries is marked.
  ghost predicate Expanded<V, E>(vs: seq<Vertex<V, E>>, trace: seq<Entry>, enqueued: seq<bool>)
    requires InRange(vs) && |enqueued| == |vs| && forall i :: 0 <= i < |trace| ==> trace[i].index < |vs|
  {
    forall i, j :: 0 <= i < |trace| && 0 <= j < |vs[trace[i].index].outs| ==> enqueued[vs[trace[i].index].outs[j].to]
  }

  // The loop invariant of basic_bfs. `all` is every entry queued so far: the
  // visited ones (trace) followed by the queue.
  ghost predicate Inv<V, E>(vs: seq<Vertex<V, E>>, start: seq<nat>, trace: seq<Entry>, queue: seq<Entry>,
                            enqueued: seq<bool>, all: seq<Entry>)
  {
    InRange(vs) && |enqueued| == |vs| && all == trace + queue && start != [] && |start| <= |all|
    && (forall k :: 0 <= k < |start| ==> all[k] == SeedEntry(start[k]))
    && (forall i :: 0 <= i < |all| ==> all[i].index < |vs|)
    && (forall x :: 0 <= x < |vs| ==> (enqueued[x] <==> x in Indices(all)))
    && (Distinct(start) ==> Distinct(Indices(all)))
    && Coherent(all) && Nondecreasing(all)
    && (forall i :: 0 <= i < |queue| ==> queue[i].distance <= queue[0].distance + 1)
    && (forall i :: 0 <= i < |trace| ==> Derived(vs, start, trace[..i], trace[i]))
    && (forall i :: 0 <= i < |queue| ==> Derived(vs, start, trace, queue[i]))
    && Expanded(vs, trace, enqueued)
    && Tight(vs, trace, all)
  }

  // Every queued entry for a target of a visited entry is at most one step
  // further from the seeds than the visited entry.
  ghost predicate Tight<V, E>(vs: seq<Vertex<V, E>>, trace: seq<Entry>, all: seq<Entry>)
  {
    forall i, k :: 0 <= i < |trace| && 0 <= k < |all| && HasEdge(vs, trace[i].index, all[k].index) ==>
      all[k].distance <= trace[i].distance + 1
  }

  // What basic_bfs promises about the entries it hands to the visitor (trace,
  // in order) and its answer (found):
  // - the first entry is the first seed's, and the search stops at the first
  //   entry the visitor accepts, if any;
  // - every entry is a seed entry or the child of an earlier entry through a
  //   record, and its distance decoration is the length of a walk from the
  //   seeds to its vertex;
  // - distances never decrease, and a vertex is always handed over with the
  //   same decorations; with distinct seeds no vertex is handed over twice;
  // - when the visitor never accepts, the visited vertices are exactly those
  //   the seeds reach, and each distance is the length of a shortest walk.
  ghost predicate Outcome<V, E>(vs: seq<Vertex<V, E>>, start: seq<nat>, stop: Entry -> bool, found: bool, trace: seq<Entry>)
    requires start != []
  {
    trace != [] && trace[0] == SeedEntry(start[0])
    && (found <==> stop(trace[|trace| - 1]))
    && (forall i :: 0 <= i < |trace| - 1 ==> !stop(trace[i]))
    && (forall i :: 0 <= i < |trace| ==> trace[i].index < |vs| && Derived(vs, start, trace[..i], trace[i]))
    && (forall i :: 0 <= i < |trace| ==> WalkOf(vs, start, trace[i].index, trace[i].distance))
    && Nondecreasing(trace) && Coherent(trace)
    && (Distinct(start) ==> Distinct(Indices(trace)) && |trace| <= |vs|)
    && (!found ==> forall w: nat :: w in Indices(trace) <==> Reachable(vs, start, w))
    && (!found ==> forall i, k :: 0 <= i < |trace| && WalkOf(vs, start, trace[i].index, k) ==> trace[i].distance <= k)
  }

  // The queues and marks basic_bfs goes through, as a trail: queues[i] and
  // marks[i] are the queue (front first) and the marks before the i-th visit.
  // Each visit takes the front of the queue, and the next queue is the rest of
  // it followed by the fresh targets of the visited vertex, in record order.
  ghost predicate Fifo<V, E>(vs: seq<Vertex<V, E>>, order: seq<nat>, queues: seq<seq<nat>>, marks: seq<seq<bool>>)
    requires InRange(vs)
  {
    |marks| == |queues| && |order| <= |queues| <= |order| + 1
    && (forall i :: 0 <= i < |marks| ==> |marks[i]| == |vs|)
    && (forall i :: 0 <= i < |order| ==> order[i] < |vs| && queues[i] != [] && order[i] == queues[i][0])
    && (forall i :: 0 <= i < |queues| - 1 ==>
          queues[i + 1] == queues[i][1..] + Fresh(vs[order[i]].outs, marks[i])
          && marks[i + 1] == Mark(marks[i], vs[order[i]].outs))
  }

  // The breadth-first order of basic_bfs: the trail starts from the seeds, in
  // order, all marked; when the search is not stopped by the visitor it ends
  // with the queue empty.
  ghost predicate BreadthFirst<V, E>(vs: seq<Vertex<V, E>>, start: seq<nat>, found: bool, order: seq<nat>,
                                     queues: seq<seq<nat>>, marks: seq<seq<bool>>)
    requires InRange(vs)
  {
    Fifo(vs, order, queues, marks)
    && |queues| == |order| + (if found then 0 else 1) && queues != []
    && queues[0] == start
    && (forall x :: 0 <= x < |vs| ==> (marks[0][x] <==> x in start))
    && (!found ==> queues[|order|] == [])
  }

  // The trail so far, while the loop runs: one queue and one set of marks per
  // visit, and the current ones last.
  ghost predicate Traced<V, E>(vs: seq<Vertex<V, E>>, start: seq<nat>, trace: seq<Entry>, queue: seq<Entry>,
                               enqueued: seq<bool>, queues: seq<seq<nat>>, marks: seq<seq<bool>>)
    requires InRange(vs)
  {
    Fifo(vs, Indices(trace), queues, marks)
    && |queues| == |trace| + 1 && queues[0] == start
    && (forall x :: 0 <= x < |vs| ==> (marks[0][x] <==> x in start))
    && queues[|trace|] == Indices(queue) && marks[|trace|] == enqueued
  }

  // basic_bfs with both decorations, that is bfs_shortest_path with a
  // visitor.
  method BasicBfs<V, E>(g: Graph<V, E>, start: seq<nat>, stop: Entry -> bool)
    returns (found: bool, trace: seq<Entry>, ghost queues: seq<seq<nat>>, ghost marks: seq<seq<bool>>)
    requires InRange(g.vertices) && start != []
    requires forall k :: 0 <= k < |start| ==> start[k] < |g.vertices|
    ensures Outcome(g.vertices, start, stop, found, trace)
    ensures BreadthFirst(g.vertices, start, found, Indices(trace), queues, marks)
  {
    var vs := g.vertices;
    var n := |vs|;
    var queue, enqueued := Seed(n, start);
    trace := [];
    ghost var all := queue;
    queues, marks := [Indices(queue)], [enqueued];
    SeedInv(vs, start, stop, queue, enqueued);
    while queue != []
      invariant Searching(vs, start, stop, trace, queue, enqueued, all, queues, marks)
      decreases 2 * (n - CountTrue(enqueued)) + |queue|
    {
      var front := queue[0];
      ghost var before := trace;
      trace := trace + [front];
      FrontInRange(vs, start, stop, before, queue, enqueued, all, queues, marks);
      if stop(front) {
        StoppedAt(vs, start, stop, before, queue, enqueued, all, queues, marks);
        return true, trace, queues, marks;
      }
      var added, marked := Expand(vs[front.index].outs, front, enqueued);
      Advance(vs, start, stop, before, queue, enqueued, all, queues, marks, added, marked);
      queue, enqueued := queue[1..] + added, marked;
      all := all + added;
      queues, marks := queues + [Indices(queue)], marks + [marked];
    }
    Drained(vs, start, stop, trace, enqueued, all, queues, marks);
    return false, trace, queues, marks;
  }

  // The loop invariant of basic_bfs, with the visitor not yet accepting and
  // the trail so far.
  ghost predicate Searching<V, E>(vs: seq<Vertex<V, E>>, start: seq<nat>, stop: Entry -> bool, trace: seq<Entry>,
                                  queue: seq<Entry>, enqueued: seq<bool>, all: seq<Entry>,
                                  queues: seq<seq<nat>>, marks: seq<seq<bool>>)
  {
    Inv(vs, start, trace, queue, enqueued, all)
    && (forall i :: 0 <= i < |trace| ==> !stop(trace[i]))
    && Traced(vs, start, trace, queue, enqueued, queues, marks)
  }

  lemma FrontInRange<V, E>(vs: seq<Vertex<V, E>>, start: seq<nat>, stop: Entry -> bool, trace: seq<Entry>,
                           queue: seq<Entry>, enqueued: seq<bool>, all: seq<Entry>,
                           queues: seq<seq<nat>>, marks: seq<seq<bool>>)
    requires Searching(vs, start, stop, trace, queue, enqueued, all, queues, marks) && queue != []
    ensures queue[0].index < |vs| && |enqueued| == |vs|
  {
    assert all[|trace|] == queue[0];
  }

  // One round that the visitor does not stop keeps the loop invariant.
  lemma Advance<V, E>(vs: seq<Vertex<V, E>>, start: seq<nat>, stop: Entry -> bool, before: seq<Entry>,
                      queue: seq<Entry>, enqueued: seq<bool>, all: seq<Entry>,
                      queues: seq<seq<nat>>, marks: seq<seq<bool>>, added: seq<Entry>, marked: seq<bool>)
    requires Searching(vs, start, stop, before, queue, enqueued, all, queues, marks)
    requires queue != [] && queue[0].index < |vs| && !stop(queue[0])
    requires |marked| == |enqueued|
    requires forall x :: 0 <= x < |enqueued| ==> (marked[x] <==> enqueued[x] || x in Targets(vs[queue[0].index].outs))
    requires forall i :: 0 <= i < |added| ==>
      added[i] == ChildEntry(added[i].index, queue[0]) && added[i].index in Targets(vs[queue[0].index].outs)
      && !enqueued[added[i].index]
    requires forall x :: 0 <= x < |enqueued| && marked[x] && !enqueued[x] ==> x in Indices(added)
    requires Distinct(Indices(added))
    requires CountTrue(marked) == CountTrue(enqueued) + |added|
    requires Indices(added) == Fresh(vs[queue[0].index].outs, enqueued) && marked == Mark(enqueued, vs[queue[0].index].outs)
    ensures Searching(vs, start, stop, before + [queue[0]], queue[1..] + added, marked, all + added,
                      queues + [Indices(queue[1..] + added)], marks + [marked])
    ensures |marked| == |vs|
  {
    Unstopped(before, queue[0], stop);
    Step(vs, start, before, queue, enqueued, all, added, marked);
    TracedStep(vs, start, before, queue, enqueued, queues, marks, added, marked);
  }

  // Visiting the front of the last queue of a trail extends the trail.
  lemma FifoSnoc<V, E>(vs: seq<Vertex<V, E>>, order: seq<nat>, queues: seq<seq<nat>>, marks: seq<seq<bool>>,
                       v: nat, q: seq<nat>, m: seq<bool>)
    requires InRange(vs) && Fifo(vs, order, queues, marks) && |queues| == |order| + 1
    requires v < |vs| && queues[|order|] != [] && queues[|order|][0] == v
    requires q == queues[|order|][1..] + Fresh(vs[v].outs, marks[|order|]) && m == Mark(marks[|order|], vs[v].outs)
    ensures Fifo(vs, order + [v], queues + [q], marks + [m])
  {
    var order', queues', marks' := order + [v], queues + [q], marks + [m];
    forall i | 0 <= i < |queues'| - 1
      ensures queues'[i + 1] == queues'[i][1..] + Fresh(vs[order'[i]].outs, marks'[i])
      ensures marks'[i + 1] == Mark(marks'[i], vs[order'[i]].outs)
    {
      if i < |order| {
        assert queues'[i] == queues[i] && marks'[i] == marks[i] && order'[i] == order[i];
      } else {
        assert queues'[i + 1] == q && marks'[i + 1] == m && order'[i] == v;
      }
    }
  }

  // Visiting the front and queueing its fresh targets extends the trail.
  lemma TracedStep<V, E>(vs: seq<Vertex<V, E>>, start: seq<nat>, trace: seq<Entry>, queue: seq<Entry>,
                         enqueued: seq<bool>, queues: seq<seq<nat>>, marks: seq<seq<bool>>, added: seq<Entry>, marked: seq<bool>)
    requires InRange(vs) && |enqueued| == |vs| && queue != [] && queue[0].index < |vs|
    requires Traced(vs, start, trace, queue, enqueued, queues, marks)
    requires Indices(added) == Fresh(vs[queue[0].index].outs, enqueued) && marked == Mark(enqueued, vs[queue[0].index].outs)
    ensures Traced(vs, start, trace + [queue[0]], queue[1..] + added, marked,
                   queues + [Indices(queue[1..] + added)], marks + [marked])
  {
    assert Indices(trace + [queue[0]]) == Indices(trace) + [queue[0].index];
    assert Indices(queue[1..] + added) == Indices(queue)[1..] + Indices(added);
    FifoSnoc(vs, Indices(trace), queues, marks, queue[0].index, Indices(queue[1..] + added), marked);
  }

  // When the visitor accepts the front, the trail ends at the front's visit.
  lemma TracedStop<V, E>(vs: seq<Vertex<V, E>>, start: seq<nat>, trace: seq<Entry>, queue: seq<Entry>,
                         enqueued: seq<bool>, queues: seq<seq<nat>>, marks: seq<seq<bool>>)
    requires InRange(vs) && queue != [] && queue[0].index < |vs|
    requires Traced(vs, start, trace, queue, enqueued, queues, marks)
    ensures BreadthFirst(vs, start, true, Indices(trace + [queue[0]]), queues, marks)
  {
    assert Indices(trace + [queue[0]]) == Indices(trace) + [queue[0].index];
  }

  lemma StoppedAt<V, E>(vs: seq<Vertex<V, E>>, start: seq<nat>, stop: Entry -> bool, before: seq<Entry>,
                        queue: seq<Entry>, enqueued: seq<bool>, all: seq<Entry>,
                        queues: seq<seq<nat>>, marks: seq<seq<bool>>)
    requires Searching(vs, start, stop, before, queue, enqueued, all, queues, marks) && queue != [] && stop(queue[0])
    ensures Outcome(vs, start, stop, true, before + [queue[0]])
    ensures BreadthFirst(vs, start, true, Indices(before + [queue[0]]), queues, marks)
  {
    FrontInRange(vs, start, stop, before, queue, enqueued, all, queues, marks);
    TracedStop(vs, start, before, queue, enqueued, queues, marks);
    SettleFront(vs, start, before, queue, enqueued, all);
    Stopped(before, queue[0], stop);
    Walks(vs, start, before + [queue[0]]);
  }

  lemma Drained<V, E>(vs: seq<Vertex<V, E>>, start: seq<nat>, stop: Entry -> bool, trace: seq<Entry>,
                      enqueued: seq<bool>, all: seq<Entry>, queues: seq<seq<nat>>, marks: seq<seq<bool>>)
    requires Searching(vs, start, stop, trace, [], enqueued, all, queues, marks)
    ensures Outcome(vs, start, stop, false, trace)
    ensures BreadthFirst(vs, start, false, Indices(trace), queues, marks)
  {
    Settle(vs, start, trace, enqueued, all);
    assert all == trace;
    Closure(vs, start, trace, enqueued);
    Walks(vs, start, trace);
    ShortestAll(vs, start, trace, enqueued);
  }

  lemma Unstopped(before: seq<Entry>, front: Entry, stop: Entry -> bool)
    requires forall i :: 0 <= i < |before| ==> !stop(before[i])
    requires !stop(front)
    ensures forall i :: 0 <= i < |before + [front]| ==> !stop((before + [front])[i])
  {
  }

  lemma Walks<V, E>(vs: seq<Vertex<V, E>>, start: seq<nat>, trace: seq<Entry>)
    requires forall j :: 0 <= j < |trace| ==> Derived(vs, start, trace[..j], trace[j])
    ensures forall i :: 0 <= i < |trace| ==> WalkOf(vs, start, trace[i].index, trace[i].distance)
  {
    forall i | 0 <= i < |trace| ensures WalkOf(vs, start, trace[i].index, trace[i].distance) {
      DerivedWalk(vs, start, trace, i);
    }
  }

  lemma Stopped(before: seq<Entry>, front: Entry, stop: Entry -> bool)
    requires forall i :: 0 <= i < |before| ==> !stop(before[i])
    ensures var trace := before + [front];
      trace[|trace| - 1] == front && forall i :: 0 <= i < |trace| - 1 ==> !stop(trace[i])
  {
  }

  lemma SeedInv<V, E>(vs: seq<Vertex<V, E>>, start: seq<nat>, stop: Entry -> bool, queue: seq<Entry>, enqueued: seq<bool>)
    requires InRange(vs) && start != [] && forall k :: 0 <= k < |start| ==> start[k] < |vs|
    requires |queue| == |start| && |enqueued| == |vs|
    requires forall k :: 0 <= k < |start| ==> queue[k] == SeedEntry(start[k])
    requires forall x :: 0 <= x < |vs| ==> (enqueued[x] <==> x in start)
    ensures Searching(vs, start, stop, [], queue, enqueued, queue, [Indices(queue)], [enqueued])
  {
    SeedStart(vs, start, queue, enqueued);
    SeedTraced(vs, start, queue, enqueued);
  }

  lemma SeedStart<V, E>(vs: seq<Vertex<V, E>>, start: seq<nat>, queue: seq<Entry>, enqueued: seq<bool>)
    requires InRange(vs) && start != [] && forall k :: 0 <= k < |start| ==> start[k] < |vs|
    requires |queue| == |start| && |enqueued| == |vs|
    requires forall k :: 0 <= k < |start| ==> queue[k] == SeedEntry(start[k])
    requires forall x :: 0 <= x < |vs| ==> (enqueued[x] <==> x in start)
    ensures Inv(vs, start, [], queue, enqueued, queue)
  {
    SeedIndices(start, queue);
    assert [] + queue == queue;
    assert forall i :: 0 <= i < |queue| ==> queue[i].index < |vs| && Derived(vs, start, [], queue[i]);
  }

  lemma SeedTraced<V, E>(vs: seq<Vertex<V, E>>, start: seq<nat>, queue: seq<Entry>, enqueued: seq<bool>)
    requires InRange(vs) && |queue| == |start| && |enqueued| == |vs|
    requires forall k :: 0 <= k < |start| ==> queue[k] == SeedEntry(start[k])
    requires forall x :: 0 <= x < |vs| ==> (enqueued[x] <==> x in start)
    ensures Traced(vs, start, [], queue, enqueued, [Indices(queue)], [enqueued])
  {
    SeedIndices(start, queue);
  }

  lemma SeedIndices(start: seq<nat>, queue: seq<Entry>)
    requires |queue| == |start| && forall k :: 0 <= k < |start| ==> queue[k] == SeedEntry(start[k])
    ensures Indices(queue) == start
    ensures Coherent(queue) && Nondecreasing(queue)
    ensures forall i :: 0 <= i < |queue| ==> queue[i].distance == 0
  {
  }

  // What a prefix of the queued entries inherits from them.
  lemma Prefix(all: seq<Entry>, m: nat)
    requires m <= |all| && Coherent(all) && Nondecreasing(all)
    ensures Coherent(all[..m]) && Nondecreasing(all[..m])
    ensures Distinct(Indices(all)) ==> Distinct(Indices(all[..m]))
  {
    if Distinct(Indices(all)) {
      assert Indices(all[..m]) == Indices(all)[..m];
    }
  }

  // What the visited entries inherit from the invariant once the queue is dry.
  lemma Settle<V, E>(vs: seq<Vertex<V, E>>, start: seq<nat>, trace: seq<Entry>, enqueued: seq<bool>, all: seq<Entry>)
    requires Inv(vs, start, trace, [], enqueued, all)
    ensures trace[0] == SeedEntry(start[0])
    ensures forall i :: 0 <= i < |trace| ==> trace[i].index < |vs| && Derived(vs, start, trace[..i], trace[i])
    ensures Coherent(trace) && Nondecreasing(trace)
    ensures Distinct(start) ==> Distinct(Indices(trace)) && |trace| <= |vs|
  {
    assert all == trace;
    if Distinct(start) {
      DistinctBounded(Indices(trace), |vs|);
    }
  }

  // What the visited entries and the front inherit from the invariant when
  // the visitor stops the search at the front.
  lemma SettleFront<V, E>(vs: seq<Vertex<V, E>>, start: seq<nat>, before: seq<Entry>, queue: seq<Entry>,
                          enqueued: seq<bool>, all: seq<Entry>)
    requires Inv(vs, start, before, queue, enqueued, all) && queue != []
    ensures var trace := before + [queue[0]];
      trace[0] == SeedEntry(start[0])
      && (forall i :: 0 <= i < |trace| ==> trace[i].index < |vs| && Derived(vs, start, trace[..i], trace[i]))
      && Coherent(trace) && Nondecreasing(trace)
      && (Distinct(start) ==> Distinct(Indices(trace)) && |trace| <= |vs|)
  {
    var trace := before + [queue[0]];
    assert trace == all[..|before| + 1];
    Prefix(all, |before| + 1);
    assert forall i :: 0 <= i < |before| ==> before[i] == all[i];
    FrontDerived(vs, start, before, queue[0]);
    if Distinct(start) {
      DistinctBounded(Indices(trace), |vs|);
    }
  }

  // Appending the front entry, derived from all visited entries, keeps every
  // entry derived from the ones before it.
  lemma FrontDerived<V, E>(vs: seq<Vertex<V, E>>, start: seq<nat>, before: seq<Entry>, front: Entry)
    requires forall i :: 0 <= i < |before| ==> before[i].index < |vs| && Derived(vs, start, before[..i], before[i])
    requires front.index < |vs| && Derived(vs, start, before, front)
    ensures var trace := before + [front];
      forall i :: 0 <= i < |trace| ==> trace[i].index < |vs| && Derived(vs, start, trace[..i], trace[i])
  {
    var trace := before + [front];
    forall i | 0 <= i < |trace| ensures trace[i].index < |vs| && Derived(vs, start, trace[..i], trace[i]) {
      if i < |before| {
        assert trace[..i] == before[..i];
      } else {
        assert trace[..i] == before;
      }
    }
  }

  // When the queue runs dry, the visited vertices are the reachable ones.
  lemma Closure<V, E>(vs: seq<Vertex<V, E>>, start: seq<nat>, trace: seq<Entry>, enqueued: seq<bool>)
    requires Inv(vs, start, trace, [], enqueued, trace)
    ensures forall w: nat :: w in Indices(trace) <==> Reachable(vs, start, w)
  {
    var s := set i | 0 <= i < |trace| :: trace[i].index;
    forall u: nat, w: nat | u in s && HasEdge(vs, u, w) ensures w in s {
      var i :| 0 <= i < |trace| && trace[i].index == u;
      var j :| 0 <= j < |vs[u].outs| && vs[u].outs[j].to == w;
      assert enqueued[vs[trace[i].index].outs[j].to];
      assert w in Indices(trace);
    }
    forall x | x in start ensures x in s {
      var k :| 0 <= k < |start| && start[k] == x;
      assert Indices(trace)[k] == x;
    }
    ClosedReachable(vs, start, s);
    forall w: nat | w in Indices(trace) ensures Reachable(vs, start, w) {
      var i :| 0 <= i < |trace| && Indices(trace)[i] == w;
      DerivedReachable(vs, start, trace, i);
    }
  }

  // Once the queue runs dry, no walk from the seeds is shorter than the
  // distance decoration of the entry of its end.
  lemma {:induction false} Shortest<V, E>(vs: seq<Vertex<V, E>>, start: seq<nat>, trace: seq<Entry>, enqueued: seq<bool>,
                                          w: nat, k: nat) returns (i: nat)
    requires Inv(vs, start, trace, [], enqueued, trace)
    requires WalkOf(vs, start, w, k)
    ensures i < |trace| && trace[i].index == w && trace[i].distance <= k
    decreases k
  {
    if k == 0 {
      var p :| IsPath(vs, p) && |p| == 1 && p[0] in start && p[0] == w;
      var m :| 0 <= m < |start| && start[m] == w;
      i := m;
    } else {
      var u := WalkBack(vs, start, w, k - 1);
      var iu := Shortest(vs, start, trace, enqueued, u, k - 1);
      var j :| 0 <= j < |vs[u].outs| && vs[u].outs[j].to == w;
      assert enqueued[vs[trace[iu].index].outs[j].to];
      assert w in Indices(trace);
      var m :| 0 <= m < |trace| && Indices(trace)[m] == w;
      assert HasEdge(vs, trace[iu].index, trace[m].index);
      i := m;
    }
  }

  lemma ShortestAll<V, E>(vs: seq<Vertex<V, E>>, start: seq<nat>, trace: seq<Entry>, enqueued: seq<bool>)
    requires Inv(vs, start, trace, [], enqueued, trace)
    ensures forall i, k :: 0 <= i < |trace| && WalkOf(vs, start, trace[i].index, k) ==> trace[i].distance <= k
  {
    forall i, k | 0 <= i < |trace| && WalkOf(vs, start, trace[i].index, k) ensures trace[i].distance <= k {
      var m := Shortest(vs, start, trace, enqueued, trace[i].index, k);
    }
  }

  // One round of basic_bfs keeps the loop invariant.
  lemma Step<V, E>(vs: seq<Vertex<V, E>>, start: seq<nat>, before: seq<Entry>, queue: seq<Entry>,
                   enqueued: seq<bool>, all: seq<Entry>, added: seq<Entry>, marked: seq<bool>)
    requires Inv(vs, start, before, queue, enqueued, all) && queue != [] && queue[0].index < |vs|
    requires |marked| == |enqueued|
    requires forall x :: 0 <= x < |enqueued| ==> (marked[x] <==> enqueued[x] || x in Targets(vs[queue[0].index].outs))
    requires forall i :: 0 <= i < |added| ==>
      added[i] == ChildEntry(added[i].index, queue[0]) && added[i].index in Targets(vs[queue[0].index].outs)
      && !enqueued[added[i].index]
    requires forall x :: 0 <= x < |enqueued| && marked[x] && !enqueued[x] ==> x in Indices(added)
    requires Distinct(Indices(added))
    requires CountTrue(marked) == CountTrue(enqueued) + |added|
    ensures Inv(vs, start, before + [queue[0]], queue[1..] + added, marked, all + added)
  {
    var front := queue[0];
    var all' := all + added;
    TargetsEdges(vs, front.index);
    StepMarks(vs, all, enqueued, added, marked, front);
    StepIndices(vs, start, all, enqueued, added);
    StepDistances(before, queue, all, added);
    StepDerived(vs, start, before, queue, added);
    StepExpanded(vs, before, front, enqueued, marked);
    StepTight(vs, before, queue, enqueued, all, added);
    Regroup(before, queue, added);
    assert forall k :: 0 <= k < |start| ==> all'[k] == all[k];
  }

  lemma StepTight<V, E>(vs: seq<Vertex<V, E>>, before: seq<Entry>, queue: seq<Entry>, enqueued: seq<bool>,
                        all: seq<Entry>, added: seq<Entry>)
    requires InRange(vs) && |enqueued| == |vs| && all == before + queue && queue != []
    requires forall i :: 0 <= i < |before| ==> before[i].index < |vs|
    requires Expanded(vs, before, enqueued) && Tight(vs, before, all) && Nondecreasing(all)
    requires forall i :: 0 <= i < |queue| ==> queue[i].distance <= queue[0].distance + 1
    requires forall i :: 0 <= i < |added| ==> added[i].distance == queue[0].distance + 1 && added[i].index < |vs| && !enqueued[added[i].index]
    ensures Tight(vs, before + [queue[0]], all + added)
  {
    var trace, all' := before + [queue[0]], all + added;
    forall i, k | 0 <= i < |trace| && 0 <= k < |all'| && HasEdge(vs, trace[i].index, all'[k].index)
      ensures all'[k].distance <= trace[i].distance + 1
    {
      if i < |before| {
        assert trace[i] == before[i];
        // A target of an entry visited earlier was queued back then, so it
        // is not among the entries queued now.
        var j :| 0 <= j < |vs[before[i].index].outs| && vs[before[i].index].outs[j].to == all'[k].index;
        assert enqueued[vs[before[i].index].outs[j].to];
        assert k < |all|;
      } else if k < |before| {
        assert all'[k] == all[k] && all[|before|] == queue[0];
      } else if k < |all| {
        assert all'[k] == queue[k - |before|];
      } else {
        assert all'[k] == added[k - |all|];
      }
    }
  }

  lemma Regroup(before: seq<Entry>, queue: seq<Entry>, added: seq<Entry>)
    requires queue != []
    ensures before + [queue[0]] + (queue[1..] + added) == before + queue + added
  {
    assert queue == [queue[0]] + queue[1..];
  }

  lemma StepExpanded<V, E>(vs: seq<Vertex<V, E>>, before: seq<Entry>, front: Entry, enqueued: seq<bool>, marked: seq<bool>)
    requires InRange(vs) && |enqueued| == |vs| == |marked| && front.index < |vs|
    requires forall i :: 0 <= i < |before| ==> before[i].index < |vs|
    requires Expanded(vs, before, enqueued)
    requires forall x :: 0 <= x < |enqueued| ==> (marked[x] <==> enqueued[x] || x in Targets(vs[front.index].outs))
    ensures forall i :: 0 <= i < |before + [front]| ==> (before + [front])[i].index < |vs|
    ensures Expanded(vs, before + [front], marked)
  {
    var trace := before + [front];
    forall i, j | 0 <= i < |trace| && 0 <= j < |vs[trace[i].index].outs|
      ensures marked[vs[trace[i].index].outs[j].to]
    {
      if i < |before| {
        assert trace[i] == before[i];
        assert enqueued[vs[before[i].index].outs[j].to];
      } else {
        assert vs[front.index].outs[j].to in Targets(vs[front.index].outs);
      }
    }
  }

  lemma StepMarks<V, E>(vs: seq<Vertex<V, E>>, all: seq<Entry>, enqueued: seq<bool>, added: seq<Entry>,
                        marked: seq<bool>, front: Entry)
    requires |enqueued| == |vs| == |marked| && front.index < |vs|
    requires forall x :: 0 <= x < |vs| ==> (enqueued[x] <==> x in Indices(all))
    requires forall x :: 0 <= x < |enqueued| ==> (marked[x] <==> enqueued[x] || x in Targets(vs[front.index].outs))
    requires forall x :: 0 <= x < |enqueued| && marked[x] && !enqueued[x] ==> x in Indices(added)
    requires forall i :: 0 <= i < |added| ==> added[i].index in Targets(vs[front.index].outs)
    requires forall i :: 0 <= i < |added| ==> added[i].index < |vs|
    ensures forall x :: 0 <= x < |vs| ==> (marked[x] <==> x in Indices(all + added))
  {
    assert Indices(all + added) == Indices(all) + Indices(added);
    forall x | 0 <= x < |vs| && x in Indices(added) ensures marked[x] {
      var i :| 0 <= i < |added| && Indices(added)[i] == x;
    }
  }

  lemma StepIndices<V, E>(vs: seq<Vertex<V, E>>, start: seq<nat>, all: seq<Entry>, enqueued: seq<bool>, added: seq<Entry>)
    requires |enqueued| == |vs|
    requires forall i :: 0 <= i < |all| ==> all[i].index < |vs|
    requires forall x :: 0 <= x < |vs| ==> (enqueued[x] <==> x in Indices(all))
    requires Distinct(start) ==> Distinct(Indices(all))
    requires Coherent(all)
    requires forall i :: 0 <= i < |added| ==> added[i].index < |vs| && !enqueued[added[i].index]
    requires Distinct(Indices(added))
    ensures forall i :: 0 <= i < |all + added| ==> (all + added)[i].index < |vs|
    ensures Distinct(start) ==> Distinct(Indices(all + added))
    ensures Coherent(all + added)
  {
    var all' := all + added;
    assert Indices(all') == Indices(all) + Indices(added);
    // No new index occurs among the old ones.
    assert forall i, j :: 0 <= i < |all| && 0 <= j < |added| ==> all[i].index != added[j].index by {
      forall i, j | 0 <= i < |all| && 0 <= j < |added| ensures all[i].index != added[j].index {
        assert Indices(all)[i] == all[i].index;
      }
    }
    forall i, j | 0 <= i < |all'| && 0 <= j < |all'| && all'[i].index == all'[j].index ensures all'[i] == all'[j] {
      if i >= |all| && j >= |all| {
        assert Indices(added)[i - |all|] == Indices(added)[j - |all|];
      }
    }
  }

  lemma StepDistances(before: seq<Entry>, queue: seq<Entry>, all: seq<Entry>, added: seq<Entry>)
    requires all == before + queue && queue != []
    requires Nondecreasing(all)
    requires forall i :: 0 <= i < |queue| ==> queue[i].distance <= queue[0].distance + 1
    requires forall i :: 0 <= i < |added| ==> added[i].distance == queue[0].distance + 1
    ensures Nondecreasing(all + added)
    ensures var q := queue[1..] + added; forall i :: 0 <= i < |q| ==> q[i].distance <= q[0].distance + 1
  {
    var all' := all + added;
    var front := queue[0];
    assert all[|before|] == front;
    forall i | 0 <= i < |all| ensures all[i].distance <= front.distance + 1 {
      if i >= |before| {
        assert all[i] == queue[i - |before|];
      }
    }
    forall i, j | 0 <= i < j < |all'| ensures all'[i].distance <= all'[j].distance {
      if j >= |all| {
        assert all'[j] == added[j - |all|];
        if i >= |all| {
          assert all'[i] == added[i - |all|];
        }
      }
    }
    var q := queue[1..] + added;
    if q != [] {
      assert q[0].distance >= front.distance by {
        if |queue| > 1 {
          assert q[0] == queue[1] == all[|before| + 1];
        }
      }
      forall i | 0 <= i < |q| ensures q[i].distance <= q[0].distance + 1 {
        if i < |queue| - 1 {
          assert q[i] == queue[i + 1];
        }
      }
    }
  }

  lemma StepDerived<V, E>(vs: seq<Vertex<V, E>>, start: seq<nat>, before: seq<Entry>, queue: seq<Entry>, added: seq<Entry>)
    requires queue != [] && queue[0].index < |vs|
    requires forall i :: 0 <= i < |before| ==> Derived(vs, start, before[..i], before[i])
    requires forall i :: 0 <= i < |queue| ==> Derived(vs, start, before, queue[i])
    requires forall i :: 0 <= i < |added| ==>
      added[i] == ChildEntry(added[i].index, queue[0]) && HasEdge(vs, queue[0].index, added[i].index)
    ensures var trace := before + [queue[0]];
      forall i :: 0 <= i < |trace| ==> Derived(vs, start, trace[..i], trace[i])
    ensures forall i :: 0 <= i < |queue[1..] + added| ==> Derived(vs, start, before + [queue[0]], (queue[1..] + added)[i])
  {
    var trace := before + [queue[0]];
    forall i | 0 <= i < |trace| ensures Derived(vs, start, trace[..i], trace[i]) {
      if i < |before| {
        assert trace[..i] == before[..i] && trace[i] == before[i];
      } else {
        assert trace[..i] == before;
      }
    }
    var q := queue[1..] + added;
    forall i | 0 <= i < |q| ensures Derived(vs, start, trace, q[i]) {
      if i < |queue| - 1 {
        assert q[i] == queue[i + 1];
        DerivedGrow(vs, start, before, [queue[0]], q[i]);
      } else {
        assert q[i] == added[i - (|queue| - 1)];
        assert trace[|before|] == queue[0];
      }
    }
  }

  // What bfs promises about the vertices it hands the visitor, in order, and
  // the distances (levels) at which it found them:
  // - the first is the first seed; the search stops at the first vertex the
  //   visitor accepts, and found says whether it did;
  // - every vertex handed over is reachable from the seeds, and with distinct
  //   seeds none is handed over twice;
  // - when the visitor never accepts, the vertices handed over are exactly
  //   those the seeds reach;
  // - levels never decrease, each is the length of a walk from the seeds,
  //   and when the visitor never accepts, of a shortest one.
  ghost predicate Handed<V, E>(vs: seq<Vertex<V, E>>, start: seq<nat>, visitor: nat -> bool, found: bool,
                               order: seq<nat>, levels: seq<nat>)
    requires start != []
  {
    order != [] && order[0] == start[0]
    && (found <==> visitor(order[|order| - 1]))
    && (forall i :: 0 <= i < |order| - 1 ==> !visitor(order[i]))
    && (forall i :: 0 <= i < |order| ==> order[i] < |vs| && Reachable(vs, start, order[i]))
    && (Distinct(start) ==> Distinct(order))
    && (!found ==> forall w: nat :: w in order <==> Reachable(vs, start, w))
    && |levels| == |order| && (forall i, j :: 0 <= i < j < |levels| ==> levels[i] <= levels[j])
    && (forall i :: 0 <= i < |order| ==> WalkOf(vs, start, order[i], levels[i]))
    && (!found ==> forall i, k :: 0 <= i < |order| && WalkOf(vs, start, order[i], k) ==> levels[i] <= k)
  }

  // bfs(graph, start, visitor): basic_bfs without decorations. The visitor
  // sees only vertex indices; order is the sequence of indices it is handed,
  // and levels (ghost) the distance from the seeds at which each was queued.
  method Bfs<V, E>(g: Graph<V, E>, start: seq<nat>, visitor: nat -> bool)
    returns (found: bool, order: seq<nat>, ghost levels: seq<nat>, ghost queues: seq<seq<nat>>, ghost marks: seq<seq<bool>>)
    requires InRange(g.vertices) && start != []
    requires forall k :: 0 <= k < |start| ==> start[k] < |g.vertices|
    ensures Handed(g.vertices, start, visitor, found, order, levels)
    ensures BreadthFirst(g.vertices, start, found, order, queues, marks)
  {
    var trace;
    var stop := (e: Entry) => visitor(e.index);
    found, trace, queues, marks := BasicBfs(g, start, stop);
    order := Indices(trace);
    levels := seq(|trace|, i requires 0 <= i < |trace| => trace[i].distance);
    Projected(g.vertices, start, stop, visitor, found, trace, order, levels);
  }

  // What the visitor of bfs is handed, read off the entries of basic_bfs.
  lemma Projected<V, E>(vs: seq<Vertex<V, E>>, start: seq<nat>, stop: Entry -> bool, visitor: nat -> bool,
                        found: bool, trace: seq<Entry>, order: seq<nat>, levels: seq<nat>)
    requires start != [] && Outcome(vs, start, stop, found, trace)
    requires forall e :: stop(e) == visitor(e.index)
    requires order == Indices(trace) && |levels| == |trace|
    requires forall i :: 0 <= i < |trace| ==> levels[i] == trace[i].distance
    ensures Handed(vs, start, visitor, found, order, levels)
  {
    forall i | 0 <= i < |order| ensures Reachable(vs, start, order[i]) {
      DerivedReachable(vs, start, trace, i);
    }
  }

  // bfs(graph, start, visitor) with a single start vertex.
  method BfsFrom<V, E>(g: Graph<V, E>, start: nat, visitor: nat -> bool)
    returns (found: bool, order: seq<nat>, ghost levels: seq<nat>, ghost queues: seq<seq<nat>>, ghost marks: seq<seq<bool>>)
    requires InRange(g.vertices) && start < |g.vertices|
    ensures order != [] && order[0] == start
    ensures found <==> visitor(order[|order| - 1])
    ensures forall i :: 0 <= i < |order| - 1 ==> !visitor(order[i])
    ensures Distinct(order)
    ensures !found ==> forall w: nat :: w in order <==> Reachable(g.vertices, [start], w)
    ensures BreadthFirst(g.vertices, [start], found, order, queues, marks)
    ensures |levels| == |order| && forall i, j :: 0 <= i < j < |levels| ==> levels[i] <= levels[j]
    ensures forall i :: 0 <= i < |order| ==> WalkOf(g.vertices, [start], order[i], levels[i])
    ensures !found ==> forall i, k :: 0 <= i < |order| && WalkOf(g.vertices, [start], order[i], k) ==> levels[i] <= k
  {
    found, order, levels, queues, marks := Bfs(g, [start], visitor);
  }

  // A row of the table bfs_shortest_path(graph, start) returns.
  datatype Decoration = Decoration(distance: nat, predecessor: nat)

  // The row of a vertex the search never reaches: (inf, ~0).
  const Unreached := Decoration(UintInfinity, NoPredecessor)

  function Decorate(e: Entry): Decoration
  {
    Decoration(e.distance, e.predecessor)
  }

  // bfs_shortest_path(graph, start): the visitor records the decorations of
  // every vertex it is handed and never stops the search.
  method ShortestPathTable<V, E>(g: Graph<V, E>, start: seq<nat>) returns (result: seq<Decoration>)
    requires InRange(g.vertices) && start != []
    requires forall k :: 0 <= k < |start| ==> start[k] < |g.vertices|
    ensures |result| == |g.vertices|
    ensures forall v :: 0 <= v < |result| && !Reachable(g.vertices, start, v) ==> result[v] == Unreached
    ensures forall v :: 0 <= v < |result| && Reachable(g.vertices, start, v) ==>
      WalkOf(g.vertices, start, v, result[v].distance)
      && (forall k :: WalkOf(g.vertices, start, v, k) ==> result[v].distance <= k)
    ensures forall v :: 0 <= v < |result| && Reachable(g.vertices, start, v) ==>
      (v in start && result[v] == Decoration(0, v))
      || (result[v].predecessor < |result| && HasEdge(g.vertices, result[v].predecessor, v)
          && Reachable(g.vertices, start, result[v].predecessor)
          && result[v].distance == result[result[v].predecessor].distance + 1)
  {
    var stop: Entry -> bool := _ => false;
    var found, trace, _, _ := BasicBfs(g, start, stop);
    result := Tabulate(|g.vertices|, trace);
    Table(g.vertices, start, stop, trace, result);
  }

  // The visitor of bfs_shortest_path over the entries the search hands it:
  // a table of n rows starting at (inf, ~0), where each entry overwrites the
  // row of its vertex.
  method Tabulate(n: nat, trace: seq<Entry>) returns (result: seq<Decoration>)
    requires forall j :: 0 <= j < |trace| ==> trace[j].index < n
    ensures |result| == n
    ensures Coherent(trace) ==> forall j :: 0 <= j < |trace| ==> result[trace[j].index] == Decorate(trace[j])
    ensures forall v :: 0 <= v < n && v !in Indices(trace) ==> result[v] == Unreached
  {
    result := seq(n, _ => Unreached);
    for i := 0 to |trace|
      invariant |result| == n
      invariant Coherent(trace) ==> forall j :: 0 <= j < i ==> result[trace[j].index] == Decorate(trace[j])
      invariant forall v :: 0 <= v < n && (forall j :: 0 <= j < i ==> trace[j].index != v) ==> result[v] == Unreached
    {
      result := result[trace[i].index := Decorate(trace[i])];
    }
  }

  lemma Table<V, E>(vs: seq<Vertex<V, E>>, start: seq<nat>, stop: Entry -> bool, trace: seq<Entry>, result: seq<Decoration>)
    requires start != [] && Outcome(vs, start, stop, false, trace) && |result| == |vs|
    requires forall j :: 0 <= j < |trace| ==> result[trace[j].index] == Decorate(trace[j])
    requires forall v :: 0 <= v < |vs| && (forall j :: 0 <= j < |trace| ==> trace[j].index != v) ==> result[v] == Unreached
    ensures forall v :: 0 <= v < |vs| && !Reachable(vs, start, v) ==> result[v] == Unreached
    ensures forall v :: 0 <= v < |vs| && Reachable(vs, start, v) ==>
      WalkOf(vs, start, v, result[v].distance) && (forall k :: WalkOf(vs, start, v, k) ==> result[v].distance <= k)
    ensures forall v :: 0 <= v < |vs| && Reachable(vs, start, v) ==>
      (v in start && result[v] == Decoration(0, v))
      || (result[v].predecessor < |vs| && HasEdge(vs, result[v].predecessor, v) && Reachable(vs, start, result[v].predecessor)
          && result[v].distance == result[result[v].predecessor].distance + 1)
  {
    forall v | 0 <= v < |vs| && !Reachable(vs, start, v) ensures result[v] == Unreached {
      forall j | 0 <= j < |trace| ensures trace[j].index != v {
        assert Indices(trace)[j] == trace[j].index;
      }
    }
    forall v | 0 <= v < |vs| && Reachable(vs, start, v)
      ensures WalkOf(vs, start, v, result[v].distance) && (forall k :: WalkOf(vs, start, v, k) ==> result[v].distance <= k)
      ensures (v in start && result[v] == Decoration(0, v))
        || (result[v].predecessor < |vs| && HasEdge(vs, result[v].predecessor, v) && Reachable(vs, start, result[v].predecessor)
            && result[v].distance == result[result[v].predecessor].distance + 1)
    {
      TableReached(vs, start, stop, trace, result, v);
    }
  }

  // The row of one reached vertex: it comes from the entry the search handed
  // to the visitor for it.
  lemma TableReached<V, E>(vs: seq<Vertex<V, E>>, start: seq<nat>, stop: Entry -> bool, trace: seq<Entry>, result: seq<Decoration>, v: nat)
    requires start != [] && Outcome(vs, start, stop, false, trace) && |result| == |vs|
    requires forall j :: 0 <= j < |trace| ==> result[trace[j].index] == Decorate(trace[j])
    requires v < |vs| && Reachable(vs, start, v)
    ensures WalkOf(vs, start, v, result[v].distance) && (forall k :: WalkOf(vs, start, v, k) ==> result[v].distance <= k)
    ensures (v in start && result[v] == Decoration(0, v))
      || (result[v].predecessor < |vs| && HasEdge(vs, result[v].predecessor, v) && Reachable(vs, start, result[v].predecessor)
          && result[v].distance == result[result[v].predecessor].distance + 1)
  {
    assert v in Indices(trace);
    var j :| 0 <= j < |trace| && Indices(trace)[j] == v;
    assert result[v] == Decorate(trace[j]);
    var e := trace[j];
    if !(e.index in start && e == SeedEntry(e.index)) {
      assert Derived(vs, start, trace[..j], e);
      var k :| 0 <= k < |trace[..j]| && e == ChildEntry(e.index, trace[..j][k]) && HasEdge(vs, trace[..j][k].index, e.index);
      assert trace[..j][k] == trace[k];
      assert Indices(trace)[k] == trace[k].index;
    }
  }
}
