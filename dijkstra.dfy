// Dijkstra's search in its "always insert" form (basic_dijkstra): a binary
// heap of entries ordered by distance starts with one entry per seed; the top
// entry is dropped if its vertex was visited already, and otherwise handed to
// the visitor (which marks the vertex visited), extracted, and every record
// of its vertex whose target is not visited yet pushes a new entry. Edge
// weights come from a weight function and must not be negative.
module DijkstraSearch {
  import opened Util
  import opened GraphTypes
  import opened Paths
  import opened AdjacencyList
  import opened BinaryHeaps
  import opened VisitationTables

  // dijkstra_queue_entry_t with the predecessor decoration.
  datatype Entry = Entry(index: nat, distance: int, predecessor: nat)

  // The entry of a seed: distance 0, its own predecessor.
  function SeedEntry(index: nat): Entry
  {
    Entry(index, 0, index)
  }

  // The entry pushed for record j of the vertex of an extracted entry.
  function ChildEntry<V, E>(vs: seq<Vertex<V, E>>, weight: (nat, OutEdge<E>) -> int, from: Entry, j: nat): Entry
    requires from.index < |vs| && j < |vs[from.index].outs|
  {
    var out := vs[from.index].outs[j];
    Entry(out.to, from.distance + weight(from.index, out), from.index)
  }

  // operator<: entries compare by distance only.
  function DistanceKey(e: Entry): int
  {
    e.distance
  }

  function Indices(s: seq<Entry>): (r: seq<nat>)
    ensures |r| == |s| && forall i :: 0 <= i < |s| ==> r[i] == s[i].index
  {
    seq(|s|, i requires 0 <= i < |s| => s[i].index)
  }

  ghost predicate NonNegative<V, E>(vs: seq<Vertex<V, E>>, weight: (nat, OutEdge<E>) -> int)
  {
    forall u, j :: 0 <= u < |vs| && 0 <= j < |vs[u].outs| ==> weight(u, vs[u].outs[j]) >= 0
  }

  ghost predicate Nondecreasing(s: seq<Entry>)
  {
    forall i, j :: 0 <= i < j < |s| ==> s[i].distance <= s[j].distance
  }

  // How an entry can come about once `visited` have been handed to the
  // visitor: as a seed, or through a record of a visited entry's vertex.
  ghost predicate Derived<V, E>(vs: seq<Vertex<V, E>>, start: seq<nat>, weight: (nat, OutEdge<E>) -> int,
                                visited: seq<Entry>, e: Entry)
  {
    (e.index in start && e == SeedEntry(e.index))
    || exists k, j :: 0 <= k < |visited| && visited[k].index < |vs| && 0 <= j < |vs[visited[k].index].outs|
         && e == ChildEntry(vs, weight, visited[k], j)
  }

  // v was visited at a distance of at most bound, or an entry in the heap
  // promises it.
  ghost predicate Covered(trace: seq<Entry>, heap: multiset<Entry>, v: nat, bound: int)
  {
    (exists i :: 0 <= i < |trace| && trace[i].index == v && trace[i].distance <= bound)
    || (exists e :: e in heap && e.index == v && e.distance <= bound)
  }

  // Every record of every visited vertex has been relaxed.
  ghost predicate Relaxed<V, E>(vs: seq<Vertex<V, E>>, weight: (nat, OutEdge<E>) -> int, trace: seq<Entry>, heap: multiset<Entry>)
  {
    forall i, j :: 0 <= i < |trace| && trace[i].index < |vs| && 0 <= j < |vs[trace[i].index].outs| ==>
      Covered(trace, heap, vs[trace[i].index].outs[j].to, trace[i].distance + weight(trace[i].index, vs[trace[i].index].outs[j]))
  }

  // The loop invariant of basic_dijkstra over the visited entries (trace),
  // the heap's entries and the visitation flags.
  ghost predicate Inv<V, E>(vs: seq<Vertex<V, E>>, start: seq<nat>, weight: (nat, OutEdge<E>) -> int,
                            trace: seq<Entry>, heap: multiset<Entry>, visited: seq<bool>)
  {
    InRange(vs) && NonNegative(vs, weight) && start != [] && |visited| == |vs|
    && Bookkept(vs, trace, heap, visited)
    && Ordered(trace, heap)
    && Origins(vs, start, weight, trace, heap)
    && Promises(vs, start, weight, trace, heap)
  }

  // Indices are in range, and the flags mark exactly the visited vertices,
  // each visited once.
  ghost predicate Bookkept<V, E>(vs: seq<Vertex<V, E>>, trace: seq<Entry>, heap: multiset<Entry>, visited: seq<bool>)
    requires |visited| == |vs|
  {
    (forall i :: 0 <= i < |trace| ==> trace[i].index < |vs|)
    && (forall e :: e in heap ==> e.index < |vs|)
    && (forall x :: 0 <= x < |vs| ==> (visited[x] <==> x in Indices(trace)))
    && Distinct(Indices(trace))
  }

  // Entries are visited in order of distance, none farther than the heap's.
  ghost predicate Ordered(trace: seq<Entry>, heap: multiset<Entry>)
  {
    Nondecreasing(trace)
    && (forall i, e :: 0 <= i < |trace| && e in heap ==> trace[i].distance <= e.distance)
  }

  // Every entry comes from a seed or from an entry visited before it.
  ghost predicate Origins<V, E>(vs: seq<Vertex<V, E>>, start: seq<nat>, weight: (nat, OutEdge<E>) -> int,
                                trace: seq<Entry>, heap: multiset<Entry>)
  {
    (forall i :: 0 <= i < |trace| ==> Derived(vs, start, weight, trace[..i], trace[i]))
    && (forall e :: e in heap ==> Derived(vs, start, weight, trace, e))
  }

  // The seeds and the records of the visited vertices are accounted for,
  // and every visit was at the least cost.
  ghost predicate Promises<V, E>(vs: seq<Vertex<V, E>>, start: seq<nat>, weight: (nat, OutEdge<E>) -> int,
                                 trace: seq<Entry>, heap: multiset<Entry>)
  {
    (forall k :: 0 <= k < |start| ==> Covered(trace, heap, start[k], 0))
    && Relaxed(vs, weight, trace, heap)
    && Shortest(vs, start, weight, trace)
  }

  // Every visited entry carries the least cost of a walk from the seeds to
  // its vertex.
  ghost predicate Shortest<V, E>(vs: seq<Vertex<V, E>>, start: seq<nat>, weight: (nat, OutEdge<E>) -> int, trace: seq<Entry>)
  {
    forall i, c :: 0 <= i < |trace| && CostOf(vs, start, weight, trace[i].index, c) ==> trace[i].distance <= c
  }

  // What basic_dijkstra promises about the entries it hands to the visitor
  // (trace, in order) and its answer (found):
  // - the first entry is a seed's, and the search stops at the first entry
  //   the visitor accepts, if any;
  // - every entry is a seed entry or comes through a record of an earlier
  //   entry's vertex, and its distance is the least cost of a walk from the
  //   seeds to its vertex;
  // - no vertex is visited twice, and distances never decrease;
  // - when the visitor never accepts, the visited vertices are exactly those
  //   the seeds reach.
  ghost predicate Outcome<V, E>(vs: seq<Vertex<V, E>>, start: seq<nat>, weight: (nat, OutEdge<E>) -> int,
                                stop: Entry -> bool, found: bool, trace: seq<Entry>)
  {
    trace != [] && trace[0].index in start && trace[0] == SeedEntry(trace[0].index)
    && (found <==> stop(trace[|trace| - 1]))
    && (forall i :: 0 <= i < |trace| - 1 ==> !stop(trace[i]))
    && Settled(vs, start, weight, trace)
    && (!found ==> forall w: nat :: w in Indices(trace) <==> Reachable(vs, start, w))
  }

  // What holds of the entries handed to the visitor, whether or not it
  // stopped the search.
  ghost predicate Settled<V, E>(vs: seq<Vertex<V, E>>, start: seq<nat>, weight: (nat, OutEdge<E>) -> int, trace: seq<Entry>)
  {
    (forall i :: 0 <= i < |trace| ==> trace[i].index < |vs| && Derived(vs, start, weight, trace[..i], trace[i]))
    && (forall i :: 0 <= i < |trace| ==> CostOf(vs, start, weight, trace[i].index, trace[i].distance))
    && Distinct(Indices(trace)) && |trace| <= |vs|
    && Nondecreasing(trace)
    && Shortest(vs, start, weight, trace)
  }

  // The entries the relaxation loop pushes for the records outs of the
  // vertex of from: one per record whose target is not visited.
  function Children<E>(outs: seq<OutEdge<E>>, weight: (nat, OutEdge<E>) -> int, from: Entry, visited: seq<bool>): (r: seq<Entry>)
    requires forall j :: 0 <= j < |outs| ==> outs[j].to < |visited|
  {
    if outs == [] then []
    else
      var out := outs[|outs| - 1];
      Children(outs[..|outs| - 1], weight, from, visited)
      + (if visited[out.to] then [] else [Entry(out.to, from.distance + weight(from.index, out), from.index)])
  }

  lemma {:induction false} ChildrenMembers<E>(outs: seq<OutEdge<E>>, weight: (nat, OutEdge<E>) -> int, from: Entry, visited: seq<bool>)
    requires forall j :: 0 <= j < |outs| ==> outs[j].to < |visited|
    ensures ChildrenOf(outs, weight, from, visited, Children(outs, weight, from, visited))
    decreases |outs|
  {
    if outs != [] {
      var init := outs[..|outs| - 1];
      ChildrenMembers(init, weight, from, visited);
      assert forall j :: 0 <= j < |init| ==> init[j] == outs[j];
    }
  }

  // Extract the top entry, then relax the records of its vertex: push one
  // entry per record whose target is not visited, in record order.
  method Advance<V, E>(heap: BinaryHeap<Entry>, vs: seq<Vertex<V, E>>, weight: (nat, OutEdge<E>) -> int, top: Entry, visited: seq<bool>)
    requires heap.Valid() && heap.container != [] && heap.Top() == top
    requires InRange(vs) && top.index < |vs| && |visited| == |vs|
    modifies heap
    ensures heap.Valid()
    ensures multiset(heap.container)
      == old(multiset(heap.container)) - multiset{top} + multiset(Children(vs[top.index].outs, weight, top, visited))
  {
    var extracted := heap.ExtractTop();
    PushAll(heap, Children(vs[extracted.index].outs, weight, extracted, visited));
  }

  // Push the entries of es, in order.
  method PushAll(heap: BinaryHeap<Entry>, es: seq<Entry>)
    requires heap.Valid()
    modifies heap
    ensures heap.Valid()
    ensures multiset(heap.container) == old(multiset(heap.container)) + multiset(es)
  {
    for k := 0 to |es|
      invariant heap.Valid()
      invariant multiset(heap.container) == old(multiset(heap.container)) + multiset(es[..k])
    {
      var _ := heap.Push(es[k]);
      assert es[..k + 1] == es[..k] + [es[k]];
    }
    assert es[..|es|] == es;
  }

  // The entries the seeding loop pushes, one per start index.
  function Seeds(start: seq<nat>): (r: seq<Entry>)
    ensures |r| == |start| && forall k :: 0 <= k < |start| ==> r[k] == SeedEntry(start[k])
  {
    if start == [] then [] else Seeds(start[..|start| - 1]) + [SeedEntry(start[|start| - 1])]
  }

  // basic_dijkstra with the predecessor decoration, with a visitation table
  // as has_been_visited that the visitor marks (the three-argument dijkstra
  // and the table form of dijkstra_shortest_path both do this).
  method BasicDijkstra<V, E>(g: Graph<V, E>, start: seq<nat>, stop: Entry -> bool, weight: (nat, OutEdge<E>) -> int)
    returns (found: bool, trace: seq<Entry>)
    requires InRange(g.vertices) && NonNegative(g.vertices, weight) && start != []
    requires forall k :: 0 <= k < |start| ==> start[k] < |g.vertices|
    ensures Outcome(g.vertices, start, weight, stop, found, trace)
  {
    var n := |g.vertices|;
    var heap := new BinaryHeap<Entry>(DistanceKey);
    var table := new VisitationTable(n);
    // The seeding loop: one seed entry per start index.
    PushAll(heap, Seeds(start));
    trace := [];
    ghost var h, marks := multiset(heap.container), table.visited;
    SeedInv(g.vertices, start, weight, marks, h);
    while heap.container != []
      invariant fresh(heap) && fresh(table)
      invariant heap.Valid() && heap.key == DistanceKey
      invariant h == multiset(heap.container) && marks == table.visited
      invariant Inv(g.vertices, start, weight, trace, h, marks)
      invariant NoStop(stop, trace)
      decreases n - CountTrue(table.visited), |heap.container|
    {
      var top := heap.Top();
      Least(heap.container, top, heap.key);
      if table.Visited(top.index) {
        heap.Pop();
        ghost var h' := multiset(heap.container);
        Skip(g.vertices, start, weight, trace, h, marks, top, h');
        h := h';
      } else {
        ghost var before := trace;
        // hook_visitor: mark, then ask the visitor.
        table.Set(top.index);
        trace := trace + [top];
        if stop(top) {
          StoppedAt(g.vertices, start, weight, stop, before, h, marks, top, trace);
          return true, trace;
        }
        Unstopped(before, top, stop);
        Advance(heap, g.vertices, weight, top, table.visited);
        ghost var h', marks' := multiset(heap.container), table.visited;
        Visit(g.vertices, start, weight, before, h, marks, top, trace, h', marks');
        h, marks := h', marks';
      }
    }
    Drained(g.vertices, start, weight, stop, trace, h, marks);
    return false, trace;
  }

  lemma Least(container: seq<Entry>, top: Entry, key: Entry -> int)
    requires key == DistanceKey && forall x :: x in container ==> key(top) <= key(x)
    ensures forall e :: e in multiset(container) ==> top.distance <= e.distance
  {
    forall e | e in multiset(container) ensures top.distance <= e.distance {
      assert e in container && key(top) <= key(e);
    }
  }

  // The visitor accepted none of the entries of trace.
  ghost predicate NoStop(stop: Entry -> bool, trace: seq<Entry>)
  {
    forall i :: 0 <= i < |trace| ==> !stop(trace[i])
  }

  lemma Unstopped(before: seq<Entry>, top: Entry, stop: Entry -> bool)
    requires NoStop(stop, before) && !stop(top)
    ensures NoStop(stop, before + [top])
  {
    assert forall i :: 0 <= i < |before| ==> (before + [top])[i] == before[i];
  }

  lemma SeedInv<V, E>(vs: seq<Vertex<V, E>>, start: seq<nat>, weight: (nat, OutEdge<E>) -> int, visited: seq<bool>, h: multiset<Entry>)
    requires InRange(vs) && NonNegative(vs, weight) && start != [] && forall k :: 0 <= k < |start| ==> start[k] < |vs|
    requires |visited| == |vs| && forall x :: 0 <= x < |visited| ==> !visited[x]
    requires h == multiset{} + multiset(Seeds(start))
    ensures Inv(vs, start, weight, [], h, visited)
  {
    SeedEntries(vs, start, weight, h);
    assert Indices([]) == [];
  }

  lemma SeedEntries<V, E>(vs: seq<Vertex<V, E>>, start: seq<nat>, weight: (nat, OutEdge<E>) -> int, h: multiset<Entry>)
    requires forall k :: 0 <= k < |start| ==> start[k] < |vs|
    requires h == multiset{} + multiset(Seeds(start))
    ensures forall e :: e in h ==> e.index < |vs| && Derived(vs, start, weight, [], e)
    ensures forall k :: 0 <= k < |start| ==> Covered([], h, start[k], 0)
  {
    var seeds := Seeds(start);
    assert h == multiset(seeds);
    forall e: Entry | e in h ensures e.index < |vs| && Derived(vs, start, weight, [], e) {
      var k :| 0 <= k < |seeds| && seeds[k] == e;
    }
    forall k | 0 <= k < |start| ensures Covered([], h, start[k], 0) {
      assert seeds[k] in h;
    }
  }

  // Dropping a top entry whose vertex was visited already keeps the
  // invariant: the visit was at a distance no greater.
  lemma Skip<V, E>(vs: seq<Vertex<V, E>>, start: seq<nat>, weight: (nat, OutEdge<E>) -> int,
                   trace: seq<Entry>, heap: multiset<Entry>, visited: seq<bool>, top: Entry, heap': multiset<Entry>)
    requires top in heap && top.index < |visited| && visited[top.index]
    requires heap' == heap - multiset{top}
    ensures Inv(vs, start, weight, trace, heap, visited) ==> Inv(vs, start, weight, trace, heap', visited)
  {
    if Inv(vs, start, weight, trace, heap, visited) {
      assert top.index in Indices(trace);
      var t :| 0 <= t < |trace| && Indices(trace)[t] == top.index;
      forall v, bound | Covered(trace, heap, v, bound) ensures Covered(trace, heap - multiset{top}, v, bound) {
        CoveredSkip(trace, heap, top, t, v, bound);
      }
    }
  }

  lemma CoveredSkip(trace: seq<Entry>, heap: multiset<Entry>, top: Entry, t: nat, v: nat, bound: int)
    requires t < |trace| && trace[t].index == top.index && trace[t].distance <= top.distance
    requires Covered(trace, heap, v, bound)
    ensures Covered(trace, heap - multiset{top}, v, bound)
  {
    if !(exists i :: 0 <= i < |trace| && trace[i].index == v && trace[i].distance <= bound) {
      var e :| e in heap && e.index == v && e.distance <= bound;
      if e != top {
        assert e in heap - multiset{top};
      }
    }
  }

  // Visiting the top entry (whose vertex was not visited), extracting it and
  // relaxing its records keeps the invariant.
  lemma Visit<V, E>(vs: seq<Vertex<V, E>>, start: seq<nat>, weight: (nat, OutEdge<E>) -> int,
                    trace: seq<Entry>, heap: multiset<Entry>, visited: seq<bool>, top: Entry,
                    trace': seq<Entry>, heap': multiset<Entry>, marks: seq<bool>)
    requires InRange(vs) && |visited| == |vs| && top in heap && top.index < |vs| && !visited[top.index]
    requires forall e :: e in heap ==> top.distance <= e.distance
    requires trace' == trace + [top] && marks == visited[top.index := true]
    requires heap' == heap - multiset{top} + multiset(Children(vs[top.index].outs, weight, top, marks))
    ensures Inv(vs, start, weight, trace, heap, visited) ==> Inv(vs, start, weight, trace', heap', marks)
  {
    if Inv(vs, start, weight, trace, heap, visited) {
      var children := Children(vs[top.index].outs, weight, top, marks);
      ChildrenMembers(vs[top.index].outs, weight, top, marks);
      Regroup(heap, top, children, heap');
      VisitMarks(vs, trace, visited, top, trace', marks);
      VisitOrder(vs, weight, trace, heap, top, children, marks, trace', heap');
      VisitDerived(vs, start, weight, trace, heap, top, children, marks, trace', heap');
      VisitCovered(vs, start, weight, trace, heap, visited, top, children, trace', heap', marks);
      VisitShortest(vs, start, weight, trace, heap, visited, top, trace');
    }
  }

  // The entry visited next is the least of the heap, so no walk to its
  // vertex, which is not visited, costs less than its distance.
  lemma VisitShortest<V, E>(vs: seq<Vertex<V, E>>, start: seq<nat>, weight: (nat, OutEdge<E>) -> int,
                            trace: seq<Entry>, heap: multiset<Entry>, visited: seq<bool>, top: Entry, trace': seq<Entry>)
    requires NonNegative(vs, weight) && |visited| == |vs| && top.index < |vs| && !visited[top.index]
    requires forall e :: e in heap ==> top.distance <= e.distance
    requires trace' == trace + [top]
    requires forall x :: 0 <= x < |vs| ==> (visited[x] <==> x in Indices(trace))
    requires forall k :: 0 <= k < |start| ==> Covered(trace, heap, start[k], 0)
    requires Relaxed(vs, weight, trace, heap)
    requires Shortest(vs, start, weight, trace)
    ensures Shortest(vs, start, weight, trace')
  {
    forall i, c | 0 <= i < |trace'| && CostOf(vs, start, weight, trace'[i].index, c) ensures trace'[i].distance <= c {
      if i < |trace| {
        assert trace'[i] == trace[i];
      } else {
        assert trace'[i] == top;
        var p, js :| RecordWalk(vs, p, js) && p[0] in start && p[|p| - 1] == top.index && Cost(vs, weight, p, js) == c;
        Frontier(vs, start, weight, trace, heap, p, js);
        forall m | 0 <= m < |trace|
          ensures trace[m].index != top.index
        {
          assert Indices(trace)[m] == trace[m].index;
        }
      }
    }
  }

  // The entries of children are exactly those pushed for the records outs of
  // the vertex of top whose targets are not marked.
  ghost predicate ChildrenOf<E>(outs: seq<OutEdge<E>>, weight: (nat, OutEdge<E>) -> int, top: Entry, marks: seq<bool>, children: seq<Entry>)
  {
    forall e :: e in children <==>
      exists j :: 0 <= j < |outs| && outs[j].to < |marks| && !marks[outs[j].to]
        && e == Entry(outs[j].to, top.distance + weight(top.index, outs[j]), top.index)
  }

  // Membership in the heap after top is extracted and children are pushed.
  ghost predicate Replaces(heap: multiset<Entry>, top: Entry, children: seq<Entry>, heap': multiset<Entry>)
  {
    (forall e :: e in heap' ==> e in children || e in heap)
    && (forall e :: e in heap && e != top ==> e in heap')
    && (forall e :: e in children ==> e in heap')
  }

  lemma Regroup(heap: multiset<Entry>, top: Entry, children: seq<Entry>, heap': multiset<Entry>)
    requires heap' == heap - multiset{top} + multiset(children)
    ensures Replaces(heap, top, children, heap')
  {
    forall e | e in heap' ensures e in children || e in heap {
      if e !in children {
        assert e in heap - multiset{top};
      }
    }
    forall e | e in heap && e != top ensures e in heap' {
      assert e in heap - multiset{top};
    }
  }

  lemma VisitMarks<V, E>(vs: seq<Vertex<V, E>>, trace: seq<Entry>, visited: seq<bool>, top: Entry, trace': seq<Entry>, marks: seq<bool>)
    requires |visited| == |vs| && top.index < |vs| && !visited[top.index]
    requires trace' == trace + [top] && marks == visited[top.index := true]
    requires forall x :: 0 <= x < |vs| ==> (visited[x] <==> x in Indices(trace))
    requires Distinct(Indices(trace))
    ensures forall x :: 0 <= x < |vs| ==> (marks[x] <==> x in Indices(trace'))
    ensures Distinct(Indices(trace'))
  {
    assert Indices(trace') == Indices(trace) + [top.index];
  }

  lemma VisitOrder<V, E>(vs: seq<Vertex<V, E>>, weight: (nat, OutEdge<E>) -> int, trace: seq<Entry>, heap: multiset<Entry>,
                         top: Entry, children: seq<Entry>, marks: seq<bool>, trace': seq<Entry>, heap': multiset<Entry>)
    requires top in heap && top.index < |vs| && NonNegative(vs, weight)
    requires trace' == trace + [top] && Replaces(heap, top, children, heap')
    requires ChildrenOf(vs[top.index].outs, weight, top, marks, children)
    requires forall e :: e in heap ==> top.distance <= e.distance
    requires Nondecreasing(trace)
    requires forall i, e :: 0 <= i < |trace| && e in heap ==> trace[i].distance <= e.distance
    ensures Nondecreasing(trace')
    ensures forall i, e :: 0 <= i < |trace'| && e in heap' ==> trace'[i].distance <= e.distance
  {
    forall i, j | 0 <= i < j < |trace'| ensures trace'[i].distance <= trace'[j].distance {
      assert trace'[i] == trace[i];
      if j < |trace| {
        assert trace'[j] == trace[j];
      }
    }
    forall i, e | 0 <= i < |trace'| && e in heap' ensures trace'[i].distance <= e.distance {
      assert trace'[i].distance <= top.distance by {
        if i < |trace| {
          assert trace'[i] == trace[i];
        }
      }
      if e in children {
        var outs := vs[top.index].outs;
        var j :| 0 <= j < |outs| && outs[j].to < |marks| && !marks[outs[j].to]
          && e == Entry(outs[j].to, top.distance + weight(top.index, outs[j]), top.index);
      }
    }
  }

  lemma VisitDerived<V, E>(vs: seq<Vertex<V, E>>, start: seq<nat>, weight: (nat, OutEdge<E>) -> int,
                           trace: seq<Entry>, heap: multiset<Entry>, top: Entry, children: seq<Entry>, marks: seq<bool>,
                           trace': seq<Entry>, heap': multiset<Entry>)
    requires top in heap && top.index < |vs| && InRange(vs)
    requires trace' == trace + [top] && Replaces(heap, top, children, heap')
    requires ChildrenOf(vs[top.index].outs, weight, top, marks, children)
    requires forall i :: 0 <= i < |trace| ==> trace[i].index < |vs|
    requires forall e :: e in heap ==> e.index < |vs|
    requires forall i :: 0 <= i < |trace| ==> Derived(vs, start, weight, trace[..i], trace[i])
    requires forall e :: e in heap ==> Derived(vs, start, weight, trace, e)
    ensures forall i :: 0 <= i < |trace'| ==> trace'[i].index < |vs|
    ensures forall e :: e in heap' ==> e.index < |vs|
    ensures forall i :: 0 <= i < |trace'| ==> Derived(vs, start, weight, trace'[..i], trace'[i])
    ensures forall e :: e in heap' ==> Derived(vs, start, weight, trace', e)
  {
    forall i | 0 <= i < |trace'| ensures trace'[i].index < |vs| && Derived(vs, start, weight, trace'[..i], trace'[i]) {
      if i < |trace| {
        assert trace'[..i] == trace[..i] && trace'[i] == trace[i];
      } else {
        assert trace'[..i] == trace;
      }
    }
    forall e | e in heap' ensures e.index < |vs| && Derived(vs, start, weight, trace', e) {
      if e in children {
        var outs := vs[top.index].outs;
        var j :| 0 <= j < |outs| && outs[j].to < |marks| && !marks[outs[j].to]
          && e == Entry(outs[j].to, top.distance + weight(top.index, outs[j]), top.index);
        assert trace'[|trace|] == top && e == ChildEntry(vs, weight, top, j);
      } else {
        DerivedGrow(vs, start, weight, trace, top, e);
      }
    }
  }

  lemma DerivedGrow<V, E>(vs: seq<Vertex<V, E>>, start: seq<nat>, weight: (nat, OutEdge<E>) -> int,
                          visited: seq<Entry>, more: Entry, e: Entry)
    requires Derived(vs, start, weight, visited, e)
    ensures Derived(vs, start, weight, visited + [more], e)
  {
    if !(e.index in start && e == SeedEntry(e.index)) {
      var k, j :| 0 <= k < |visited| && visited[k].index < |vs| && 0 <= j < |vs[visited[k].index].outs|
        && e == ChildEntry(vs, weight, visited[k], j);
      assert (visited + [more])[k] == visited[k];
    }
  }

  // Everything the heap promised is still promised, and the records of the
  // newly visited vertex are relaxed.
  lemma VisitCovered<V, E>(vs: seq<Vertex<V, E>>, start: seq<nat>, weight: (nat, OutEdge<E>) -> int,
                           trace: seq<Entry>, heap: multiset<Entry>, visited: seq<bool>, top: Entry, children: seq<Entry>,
                           trace': seq<Entry>, heap': multiset<Entry>, marks: seq<bool>)
    requires InRange(vs) && NonNegative(vs, weight) && |visited| == |vs| && top in heap && top.index < |vs| && !visited[top.index]
    requires trace' == trace + [top] && marks == visited[top.index := true] && Replaces(heap, top, children, heap')
    requires ChildrenOf(vs[top.index].outs, weight, top, marks, children)
    requires forall i, e :: 0 <= i < |trace| && e in heap ==> trace[i].distance <= e.distance
    requires forall i :: 0 <= i < |trace| ==> trace[i].index < |vs|
    requires forall x :: 0 <= x < |vs| ==> (visited[x] <==> x in Indices(trace))
    requires forall k :: 0 <= k < |start| ==> Covered(trace, heap, start[k], 0)
    requires Relaxed(vs, weight, trace, heap)
    ensures forall k :: 0 <= k < |start| ==> Covered(trace', heap', start[k], 0)
    ensures Relaxed(vs, weight, trace', heap')
  {
    forall k | 0 <= k < |start| ensures Covered(trace', heap', start[k], 0) {
      CoveredGrow(trace, heap, top, children, trace', heap', start[k], 0);
    }
    forall i, j | 0 <= i < |trace'| && trace'[i].index < |vs| && 0 <= j < |vs[trace'[i].index].outs|
      ensures Covered(trace', heap', vs[trace'[i].index].outs[j].to,
                      trace'[i].distance + weight(trace'[i].index, vs[trace'[i].index].outs[j]))
    {
      if i < |trace| {
        assert trace'[i] == trace[i];
        CoveredGrow(trace, heap, top, children, trace', heap', vs[trace[i].index].outs[j].to,
                    trace[i].distance + weight(trace[i].index, vs[trace[i].index].outs[j]));
      } else {
        assert trace'[i] == top;
        RelaxedTop(vs, weight, trace, heap, visited, top, children, trace', heap', marks, j);
      }
    }
  }

  // The records of the vertex just visited are relaxed: their targets were
  // visited no later than it, or get a child entry.
  lemma RelaxedTop<V, E>(vs: seq<Vertex<V, E>>, weight: (nat, OutEdge<E>) -> int,
                         trace: seq<Entry>, heap: multiset<Entry>, visited: seq<bool>, top: Entry, children: seq<Entry>,
                         trace': seq<Entry>, heap': multiset<Entry>, marks: seq<bool>, j: nat)
    requires InRange(vs) && NonNegative(vs, weight) && |visited| == |vs| && top in heap && top.index < |vs|
    requires j < |vs[top.index].outs|
    requires trace' == trace + [top] && marks == visited[top.index := true] && Replaces(heap, top, children, heap')
    requires ChildrenOf(vs[top.index].outs, weight, top, marks, children)
    requires forall i, e :: 0 <= i < |trace| && e in heap ==> trace[i].distance <= e.distance
    requires forall x :: 0 <= x < |vs| ==> (visited[x] <==> x in Indices(trace))
    ensures Covered(trace', heap', vs[top.index].outs[j].to, top.distance + weight(top.index, vs[top.index].outs[j]))
  {
    var out := vs[top.index].outs[j];
    var bound := top.distance + weight(top.index, out);
    assert bound >= top.distance;
    if out.to == top.index {
      assert trace'[|trace|].index == out.to && trace'[|trace|].distance <= bound;
    } else if visited[out.to] {
      assert out.to in Indices(trace);
      var m :| 0 <= m < |trace| && Indices(trace)[m] == out.to;
      assert trace'[m] == trace[m] && trace[m].distance <= top.distance;
    } else {
      assert Entry(out.to, bound, top.index) in children;
    }
  }

  lemma CoveredGrow(trace: seq<Entry>, heap: multiset<Entry>, top: Entry, children: seq<Entry>,
                    trace': seq<Entry>, heap': multiset<Entry>, v: nat, bound: int)
    requires trace' == trace + [top] && Replaces(heap, top, children, heap')
    requires Covered(trace, heap, v, bound)
    ensures Covered(trace', heap', v, bound)
  {
    if exists i :: 0 <= i < |trace| && trace[i].index == v && trace[i].distance <= bound {
      var i :| 0 <= i < |trace| && trace[i].index == v && trace[i].distance <= bound;
      assert trace'[i] == trace[i];
    } else {
      var e :| e in heap && e.index == v && e.distance <= bound;
      if e == top {
        assert trace'[|trace|] == top;
      }
    }
  }

  lemma StoppedAt<V, E>(vs: seq<Vertex<V, E>>, start: seq<nat>, weight: (nat, OutEdge<E>) -> int, stop: Entry -> bool,
                        trace: seq<Entry>, heap: multiset<Entry>, visited: seq<bool>, top: Entry, trace': seq<Entry>)
    requires InRange(vs) && |visited| == |vs| && top in heap && top.index < |vs| && !visited[top.index]
    requires forall e :: e in heap ==> top.distance <= e.distance
    requires stop(top) && trace' == trace + [top]
    ensures Inv(vs, start, weight, trace, heap, visited) && NoStop(stop, trace) ==> Outcome(vs, start, weight, stop, true, trace')
  {
    if Inv(vs, start, weight, trace, heap, visited) && NoStop(stop, trace) {
      var marks := visited[top.index := true];
      Visit(vs, start, weight, trace, heap, visited, top, trace',
            heap - multiset{top} + multiset(Children(vs[top.index].outs, weight, top, marks)), marks);
      Settle(vs, start, weight, trace');
    }
  }

  lemma Drained<V, E>(vs: seq<Vertex<V, E>>, start: seq<nat>, weight: (nat, OutEdge<E>) -> int, stop: Entry -> bool,
                      trace: seq<Entry>, heap: multiset<Entry>, visited: seq<bool>)
    requires heap == multiset{}
    ensures Inv(vs, start, weight, trace, heap, visited) && NoStop(stop, trace) ==> Outcome(vs, start, weight, stop, false, trace)
  {
    if Inv(vs, start, weight, trace, heap, visited) && NoStop(stop, trace) {
      assert Covered(trace, multiset{}, start[0], 0);
      Settle(vs, start, weight, trace);
      Complete(vs, start, weight, trace);
    }
  }

  // Once the heap runs dry, every vertex the seeds reach was visited.
  lemma Complete<V, E>(vs: seq<Vertex<V, E>>, start: seq<nat>, weight: (nat, OutEdge<E>) -> int, trace: seq<Entry>)
    requires NonNegative(vs, weight)
    requires forall k :: 0 <= k < |start| ==> Covered(trace, multiset{}, start[k], 0)
    requires Relaxed(vs, weight, trace, multiset{})
    ensures forall w: nat :: Reachable(vs, start, w) ==> w in Indices(trace)
  {
    forall w: nat | Reachable(vs, start, w) ensures w in Indices(trace) {
      var p :| IsPath(vs, p) && p[0] in start && p[|p| - 1] == w;
      var js := PathRecords(vs, p);
      Frontier(vs, start, weight, trace, multiset{}, p, js);
      var i :| 0 <= i < |trace| && trace[i].index == w;
      assert Indices(trace)[i] == w;
    }
  }

  // What the visited entries inherit from the invariant.
  lemma Settle<V, E>(vs: seq<Vertex<V, E>>, start: seq<nat>, weight: (nat, OutEdge<E>) -> int, trace: seq<Entry>)
    requires trace != [] && forall i :: 0 <= i < |trace| ==> trace[i].index < |vs|
    requires forall i :: 0 <= i < |trace| ==> Derived(vs, start, weight, trace[..i], trace[i])
    requires Distinct(Indices(trace))
    ensures trace[0].index in start && trace[0] == SeedEntry(trace[0].index)
    ensures |trace| <= |vs|
    ensures forall i :: 0 <= i < |trace| ==> CostOf(vs, start, weight, trace[i].index, trace[i].distance)
    ensures forall w: nat :: w in Indices(trace) ==> Reachable(vs, start, w)
  {
    assert Derived(vs, start, weight, trace[..0], trace[0]);
    DistinctBounded(Indices(trace), |vs|);
    forall i | 0 <= i < |trace| ensures CostOf(vs, start, weight, trace[i].index, trace[i].distance) {
      DerivedCost(vs, start, weight, trace, i);
    }
    forall w: nat | w in Indices(trace) ensures Reachable(vs, start, w) {
      var i :| 0 <= i < |trace| && Indices(trace)[i] == w;
      CostReachable(vs, start, weight, w, trace[i].distance);
    }
  }

  // The distance of every visited entry is the cost of a walk from the seeds.
  lemma {:induction false} DerivedCost<V, E>(vs: seq<Vertex<V, E>>, start: seq<nat>, weight: (nat, OutEdge<E>) -> int,
                                             trace: seq<Entry>, i: nat)
    requires forall j :: 0 <= j < |trace| ==> Derived(vs, start, weight, trace[..j], trace[j])
    requires i < |trace|
    ensures CostOf(vs, start, weight, trace[i].index, trace[i].distance)
    decreases i
  {
    var e := trace[i];
    if e.index in start && e == SeedEntry(e.index) {
      CostSeed(vs, start, weight, e.index);
    } else {
      assert Derived(vs, start, weight, trace[..i], e);
      var k, j :| 0 <= k < i && trace[..i][k].index < |vs| && 0 <= j < |vs[trace[..i][k].index].outs|
        && e == ChildEntry(vs, weight, trace[..i][k], j);
      assert trace[..i][k] == trace[k];
      DerivedCost(vs, start, weight, trace, k);
      CostStep(vs, start, weight, trace[k].index, trace[k].distance, j);
    }
  }

  // The end of a walk from the seeds was visited at a distance no greater
  // than the walk's cost, or the heap holds an entry no farther than that.
  ghost predicate Ahead(trace: seq<Entry>, heap: multiset<Entry>, w: nat, c: int)
  {
    (exists i :: 0 <= i < |trace| && trace[i].index == w && trace[i].distance <= c)
    || (exists e :: e in heap && e.distance <= c)
  }

  lemma {:induction false} Frontier<V, E>(vs: seq<Vertex<V, E>>, start: seq<nat>, weight: (nat, OutEdge<E>) -> int,
                                          trace: seq<Entry>, heap: multiset<Entry>, p: seq<nat>, js: seq<nat>)
    requires NonNegative(vs, weight)
    requires forall k :: 0 <= k < |start| ==> Covered(trace, heap, start[k], 0)
    requires Relaxed(vs, weight, trace, heap)
    requires RecordWalk(vs, p, js) && p[0] in start
    ensures Ahead(trace, heap, p[|p| - 1], Cost(vs, weight, p, js))
    decreases |js|
  {
    if js == [] {
      var k :| 0 <= k < |start| && start[k] == p[0];
      assert Covered(trace, heap, start[k], 0);
    } else {
      var k := |js| - 1;
      RecordWalkPrefix(vs, p, js, k);
      var q, qs := p[..k + 1], js[..k];
      Frontier(vs, start, weight, trace, heap, q, qs);
      var out := vs[p[k]].outs[js[k]];
      assert Cost(vs, weight, p, js) == Cost(vs, weight, q, qs) + weight(p[k], out) && weight(p[k], out) >= 0;
      if exists u :: 0 <= u < |trace| && trace[u].index == p[k] && trace[u].distance <= Cost(vs, weight, q, qs) {
        var u :| 0 <= u < |trace| && trace[u].index == p[k] && trace[u].distance <= Cost(vs, weight, q, qs);
        assert Covered(trace, heap, vs[trace[u].index].outs[js[k]].to,
                       trace[u].distance + weight(trace[u].index, vs[trace[u].index].outs[js[k]]));
      }
    }
  }

  // dijkstra_default_weight_invokable: the weight of a record is the
  // weight stored in it (here, the payload of an int-weighted graph).
  function DefaultWeight(u: nat, out: OutEdge<int>): int
  {
    out.payload
  }

  // c is the least cost of a walk from the seeds to v.
  ghost predicate LeastCost<V, E>(vs: seq<Vertex<V, E>>, start: seq<nat>, weight: (nat, OutEdge<E>) -> int, v: nat, c: int)
  {
    CostOf(vs, start, weight, v, c) && forall c' :: CostOf(vs, start, weight, v, c') ==> c <= c'
  }

  // The visitor of dijkstra, which sees a vertex and its distance.
  function Asks(visitor: (nat, int) -> bool): Entry -> bool
  {
    (e: Entry) => visitor(e.index, e.distance)
  }

  // dijkstra(graph, start, visitor, weight_invokable) with its own
  // visitation table: the answer is whether the visitor accepts some vertex
  // the seeds reach together with the least cost of a walk there.
  method Dijkstra<V, E>(g: Graph<V, E>, start: seq<nat>, visitor: (nat, int) -> bool, weight: (nat, OutEdge<E>) -> int)
    returns (found: bool)
    requires InRange(g.vertices) && NonNegative(g.vertices, weight) && start != []
    requires forall k :: 0 <= k < |start| ==> start[k] < |g.vertices|
    ensures found <==> exists v: nat, c :: LeastCost(g.vertices, start, weight, v, c) && visitor(v, c)
  {
    var trace;
    found, trace := BasicDijkstra(g, start, Asks(visitor), weight);
    Answer(g.vertices, start, weight, visitor, found, trace);
  }

  // dijkstra(graph, start, visitor): the weights are those stored in the records.
  method DijkstraByWeight<V>(g: Graph<V, int>, start: seq<nat>, visitor: (nat, int) -> bool)
    returns (found: bool)
    requires InRange(g.vertices) && NonNegative(g.vertices, DefaultWeight) && start != []
    requires forall k :: 0 <= k < |start| ==> start[k] < |g.vertices|
    ensures found <==> exists v: nat, c :: LeastCost(g.vertices, start, DefaultWeight, v, c) && visitor(v, c)
  {
    found := Dijkstra(g, start, visitor, DefaultWeight);
  }

  lemma Answer<V, E>(vs: seq<Vertex<V, E>>, start: seq<nat>, weight: (nat, OutEdge<E>) -> int, visitor: (nat, int) -> bool,
                     found: bool, trace: seq<Entry>)
    requires Outcome(vs, start, weight, Asks(visitor), found, trace)
    ensures found <==> exists v: nat, c :: LeastCost(vs, start, weight, v, c) && visitor(v, c)
  {
    var last := trace[|trace| - 1];
    if found {
      assert Asks(visitor)(last);
      assert LeastCost(vs, start, weight, last.index, last.distance);
    } else {
      forall v: nat, c | LeastCost(vs, start, weight, v, c) ensures !visitor(v, c) {
        CostReachable(vs, start, weight, v, c);
        assert v in Indices(trace);
        var i :| 0 <= i < |trace| && Indices(trace)[i] == v;
        assert trace[i].distance == c;
        assert !Asks(visitor)(trace[i]);
      }
    }
  }

  // The visitor of dijkstra_shortest_path(graph, start, weight_invokable):
  // it records the entry and never stops the search.
  function NeverStop(e: Entry): bool
  {
    false
  }

  // The row of a reached vertex v in a shortest-path table: the least cost
  // of a walk to v, and either v is a seed at distance 0 that is its own
  // predecessor, or its predecessor is a reached vertex with a record to v
  // whose weight makes up the difference of their distances.
  ghost predicate Row<V, E>(vs: seq<Vertex<V, E>>, start: seq<nat>, weight: (nat, OutEdge<E>) -> int,
                            result: seq<(int, nat)>, v: nat)
    requires |result| == |vs| && v < |vs|
  {
    var (distance, predecessor) := result[v];
    LeastCost(vs, start, weight, v, distance)
    && ((v in start && distance == 0 && predecessor == v)
        || (predecessor < |vs| && Reachable(vs, start, predecessor)
            && exists j :: 0 <= j < |vs[predecessor].outs| && vs[predecessor].outs[j].to == v
                 && distance == result[predecessor].0 + weight(predecessor, vs[predecessor].outs[j])))
  }

  // dijkstra_shortest_path(graph, start, weight_invokable): one row per
  // vertex, (IntInfinity, NoPredecessor) for a vertex the seeds do not reach.
  // The visitor's writes into the table are replayed in visiting order once
  // the search is over.
  method ShortestPathTable<V, E>(g: Graph<V, E>, start: seq<nat>, weight: (nat, OutEdge<E>) -> int)
    returns (result: seq<(int, nat)>)
    requires InRange(g.vertices) && NonNegative(g.vertices, weight) && start != []
    requires forall k :: 0 <= k < |start| ==> start[k] < |g.vertices|
    ensures |result| == |g.vertices|
    ensures forall v: nat :: v < |g.vertices| && !Reachable(g.vertices, start, v) ==> result[v] == (IntInfinity, NoPredecessor)
    ensures forall v: nat :: v < |g.vertices| && Reachable(g.vertices, start, v) ==> Row(g.vertices, start, weight, result, v)
  {
    var found, trace := BasicDijkstra(g, start, NeverStop, weight);
    Visits(g.vertices, start, weight, found, trace);
    result := Fill(|g.vertices|, trace);
    Table(g.vertices, start, weight, trace, result);
  }

  // The rows the visitor of dijkstra_shortest_path writes, one per visited
  // entry, into a table whose rows start out as (IntInfinity, NoPredecessor).
  method Fill(n: nat, trace: seq<Entry>) returns (result: seq<(int, nat)>)
    requires forall i :: 0 <= i < |trace| ==> trace[i].index < n
    requires Distinct(Indices(trace))
    ensures |result| == n
    ensures forall i :: 0 <= i < |trace| ==> result[trace[i].index] == (trace[i].distance, trace[i].predecessor)
    ensures forall v: nat :: v < n && v !in Indices(trace) ==> result[v] == (IntInfinity, NoPredecessor)
  {
    result := seq(n, _ => (IntInfinity, NoPredecessor));
    for k := 0 to |trace|
      invariant |result| == n
      invariant forall i :: 0 <= i < k ==> result[trace[i].index] == (trace[i].distance, trace[i].predecessor)
      invariant forall v: nat :: v < n && v !in Indices(trace[..k]) ==> result[v] == (IntInfinity, NoPredecessor)
    {
      assert forall i :: 0 <= i < k ==> Indices(trace)[i] != Indices(trace)[k];
      assert Indices(trace[..k + 1]) == Indices(trace[..k]) + [trace[k].index];
      result := result[trace[k].index := (trace[k].distance, trace[k].predecessor)];
    }
    assert trace[..|trace|] == trace;
  }

  // dijkstra_shortest_path(graph, start): the weights are those stored in the records.
  method ShortestPathTableByWeight<V>(g: Graph<V, int>, start: seq<nat>)
    returns (result: seq<(int, nat)>)
    requires InRange(g.vertices) && NonNegative(g.vertices, DefaultWeight) && start != []
    requires forall k :: 0 <= k < |start| ==> start[k] < |g.vertices|
    ensures |result| == |g.vertices|
    ensures forall v: nat :: v < |g.vertices| && !Reachable(g.vertices, start, v) ==> result[v] == (IntInfinity, NoPredecessor)
    ensures forall v: nat :: v < |g.vertices| && Reachable(g.vertices, start, v) ==> Row(g.vertices, start, DefaultWeight, result, v)
  {
    result := ShortestPathTable(g, start, DefaultWeight);
  }

  lemma Visits<V, E>(vs: seq<Vertex<V, E>>, start: seq<nat>, weight: (nat, OutEdge<E>) -> int, found: bool, trace: seq<Entry>)
    requires Outcome(vs, start, weight, NeverStop, found, trace)
    ensures Settled(vs, start, weight, trace)
    ensures forall w: nat :: w in Indices(trace) <==> Reachable(vs, start, w)
  {
  }

  lemma Table<V, E>(vs: seq<Vertex<V, E>>, start: seq<nat>, weight: (nat, OutEdge<E>) -> int, trace: seq<Entry>,
                    result: seq<(int, nat)>)
    requires Settled(vs, start, weight, trace) && |result| == |vs|
    requires forall w: nat :: w in Indices(trace) <==> Reachable(vs, start, w)
    requires forall i :: 0 <= i < |trace| ==> result[trace[i].index] == (trace[i].distance, trace[i].predecessor)
    requires forall v: nat :: v < |vs| && v !in Indices(trace) ==> result[v] == (IntInfinity, NoPredecessor)
    ensures forall v: nat :: v < |vs| && !Reachable(vs, start, v) ==> result[v] == (IntInfinity, NoPredecessor)
    ensures forall v: nat :: v < |vs| && Reachable(vs, start, v) ==> Row(vs, start, weight, result, v)
  {
    forall v: nat | v < |vs| && Reachable(vs, start, v) ensures Row(vs, start, weight, result, v) {
      TableReached(vs, start, weight, trace, result, v);
    }
  }

  lemma TableReached<V, E>(vs: seq<Vertex<V, E>>, start: seq<nat>, weight: (nat, OutEdge<E>) -> int, trace: seq<Entry>,
                           result: seq<(int, nat)>, v: nat)
    requires Settled(vs, start, weight, trace) && |result| == |vs|
    requires forall w: nat :: w in Indices(trace) <==> Reachable(vs, start, w)
    requires forall i :: 0 <= i < |trace| ==> result[trace[i].index] == (trace[i].distance, trace[i].predecessor)
    requires v < |vs| && Reachable(vs, start, v)
    ensures Row(vs, start, weight, result, v)
  {
    var i :| 0 <= i < |trace| && Indices(trace)[i] == v;
    assert LeastCost(vs, start, weight, trace[i].index, trace[i].distance);
    assert forall k :: 0 <= k < i ==> Indices(trace)[k] in Indices(trace);
    TableRow(vs, start, weight, trace, result, i);
  }

  lemma TableRow<V, E>(vs: seq<Vertex<V, E>>, start: seq<nat>, weight: (nat, OutEdge<E>) -> int, trace: seq<Entry>,
                       result: seq<(int, nat)>, i: nat)
    requires |result| == |vs| && i < |trace| && forall k :: 0 <= k < |trace| ==> trace[k].index < |vs|
    requires LeastCost(vs, start, weight, trace[i].index, trace[i].distance)
    requires Derived(vs, start, weight, trace[..i], trace[i])
    requires forall k :: 0 <= k < i ==> Reachable(vs, start, trace[k].index)
    requires forall k :: 0 <= k < |trace| ==> result[trace[k].index] == (trace[k].distance, trace[k].predecessor)
    ensures Row(vs, start, weight, result, trace[i].index)
  {
    var e := trace[i];
    assert result[e.index] == (e.distance, e.predecessor);
    if !(e.index in start && e == SeedEntry(e.index)) {
      var k, j :| 0 <= k < i && trace[..i][k].index < |vs| && 0 <= j < |vs[trace[..i][k].index].outs|
        && e == ChildEntry(vs, weight, trace[..i][k], j);
      var from := trace[k];
      assert trace[..i][k] == from;
      assert result[from.index] == (from.distance, from.predecessor);
      assert e.predecessor == from.index && vs[from.index].outs[j].to == e.index
        && e.distance == result[from.index].0 + weight(from.index, vs[from.index].outs[j]);
    }
  }
}
