// Tarjan's strongly connected components (tarjan_recursive). A depth-first
// search numbers the vertices in discovery order, keeps for each vertex the
// smallest index it has been seen to reach on the stack (its low-link), and
// keeps a stack of the vertices whose component is not settled yet. When a
// visit ends with a vertex's low-link equal to its own index, the stack is
// popped down to and including that vertex and the popped vertices form the
// next component.
//
// The stack is a sequence whose last element is the top. As in
// tarjan_invariant.dfy, `P(...) == true` in a contract hands the invariant P
// on as one fact.
module StronglyConnectedComponents {
  import opened Util
  import opened GraphTypes
  import opened Paths
  import opened TarjanInvariant

  // ---------------------------------------------------------------------------
  // The search.

  // tarjan_state: the library's bookkeeping, with the discovery order and the
  // component roots alongside as ghost fields.
  class TarjanState {
    var discovered: seq<bool>
    var sccIndex: seq<nat>
    var lowlink: seq<nat>
    var stack: seq<nat>
    var onStack: seq<bool>
    var currentIndex: nat
    var found: nat
    var mapping: seq<nat>
    ghost var order: seq<nat>
    ghost var roots: seq<nat>

    ghost function Snap(): Snapshot
      reads this
    {
      Snapshot(discovered, sccIndex, lowlink, order, stack, onStack, mapping, roots)
    }

    ghost predicate Valid()
      reads this
    {
      |order| == currentIndex && |roots| == found && Sound(Snap())
    }

    // tarjan_state(V): nothing discovered, nothing on the stack, no components.
    constructor(n: nat)
      ensures Valid() == true && |discovered| == n && stack == [] && found == 0
      ensures forall x :: 0 <= x < n ==> !discovered[x] && !onStack[x]
    {
      discovered := seq(n, _ => false);
      sccIndex := seq(n, _ => 0);
      lowlink := seq(n, _ => 0);
      stack := [];
      onStack := seq(n, _ => false);
      currentIndex := 0;
      found := 0;
      mapping := seq(n, _ => 0);
      order := [];
      roots := [];
      new;
      InitialSound(n);
      assert Snap() == Initial(n);
    }

    // One round of the pop loop: take the top off the stack, clear its flag
    // and give it the number of components found so far.
    method PopTop() returns (w: nat)
      requires |stack| > 0 && stack[|stack| - 1] < |onStack| && |mapping| == |onStack|
      modifies this`stack, this`onStack, this`mapping
      ensures w == old(stack[|stack| - 1]) && stack == old(stack[..|stack| - 1])
      ensures onStack == old(onStack)[w := false] && mapping == old(mapping)[w := found]
    {
      w := stack[|stack| - 1];
      stack := stack[..|stack| - 1];
      onStack := onStack[w := false];
      mapping := mapping[w := found];
    }

    // The do-while loop of lines 73-78: pop down to and including v,
    // giving every popped vertex the id found.
    method PopDownTo(v: nat, ghost base: nat)
      requires PopFrom(stack, onStack, mapping) == true && base < |stack| && stack[base] == v
      modifies this`stack, this`onStack, this`mapping
      ensures Popping(old(stack), old(onStack), old(mapping), base, found, stack, onStack, mapping) == true
      ensures stack == old(stack[..base])
      ensures forall x :: 0 <= x < |onStack| && !old(onStack[x]) ==> !onStack[x]
    {
      ghost var s0, on0, m0 := stack, onStack, mapping;
      PopInit(s0, on0, m0, base, found);
      var w := PopTop();
      PopStep(s0, on0, m0, base, found, s0, on0, m0, w, stack, onStack, mapping);
      while w != v
        invariant base < |s0| && s0[base] == v
        invariant Popping(s0, on0, m0, base, found, stack, onStack, mapping) == true && w == s0[|stack|]
        decreases |stack|
      {
        ghost var st, on, mp := stack, onStack, mapping;
        w := PopTop();
        PopStep(s0, on0, m0, base, found, st, on, mp, w, stack, onStack, mapping);
      }
      PopExit(s0, on0, m0, base, found, stack, onStack, mapping);
    }

    // The end of a visit whose low-link is its own index (lines 71-79): the
    // stack is popped down to and including v, every popped vertex gets the
    // next component id, and the count goes up by one.
    method PopComponent(v: nat, ghost base: nat)
      requires PopFrom(stack, onStack, mapping) == true && base < |stack| && stack[base] == v
      modifies this`stack, this`onStack, this`mapping, this`found, this`roots
      ensures Popping(old(stack), old(onStack), old(mapping), base, old(found), stack, onStack, mapping) == true
      ensures stack == old(stack[..base]) && roots == old(roots) + [v] && found == old(found) + 1
      ensures forall x :: 0 <= x < |onStack| && !old(onStack[x]) ==> !onStack[x]
    {
      PopDownTo(v, base);
      found := found + 1;
      roots := roots + [v];
    }

    // Discovering v: v gets the next index as its index and low-link and is
    // pushed on the stack.
    method Discover(v: nat)
      requires v < |discovered| && |sccIndex| == |lowlink| == |onStack| == |discovered|
      requires |order| == currentIndex
      modifies this`sccIndex, this`discovered, this`lowlink, this`order, this`currentIndex
      modifies this`stack, this`onStack
      ensures Snap() == Discovered(old(Snap()), v) && currentIndex == old(currentIndex) + 1
    {
      sccIndex, discovered, lowlink, order, currentIndex, stack, onStack :=
        sccIndex[v := currentIndex], discovered[v := true], lowlink[v := currentIndex], order + [v],
        currentIndex + 1, stack + [v], onStack[v := true];
    }

    // Between steps of the search: the invariant holds, with what it knows
    // about walks, and the ghost order and roots keep count.
    ghost predicate Ready<V, E>(vs: seq<Vertex<V, E>>)
      reads this
    {
      SoundLinked(vs, Snap()) && |order| == currentIndex && |roots| == found
      && InRange(vs) && |discovered| == |vs|
    }

    // The middle of the visit of v, with its first j records accounted for.
    ghost predicate Walking<V, E>(vs: seq<Vertex<V, E>>, v: nat, base: nat, start: Snapshot, j: nat)
      reads this
    {
      Scanning(vs, v, base, start, Snap(), j) && |order| == currentIndex && |roots| == found
      && InRange(vs) && |discovered| == |vs|
    }

    // Between the visits tarjan_recursive starts: the stack is empty as well.
    ghost predicate Idle<V, E>(vs: seq<Vertex<V, E>>)
      reads this
    {
      Ready(vs) && stack == []
    }

    // The second branch of the loop of lines 61-69 (line 67): the target w of
    // record j of v is on the stack, and v takes its index as low-link if
    // that is lower.
    method LowerTo<V, E>(v: nat, w: nat, ghost j: nat, ghost base: nat, ghost vs: seq<Vertex<V, E>>, ghost start: Snapshot)
      requires Walking(vs, v, base, start, j) == true && Record(vs, v, j, w)
      requires w < |discovered| && discovered[w] && onStack[w]
      modifies this`lowlink
      ensures Walking(vs, v, base, start, j + 1) == true
      ensures lowlink == old(lowlink)[v := Min(old(lowlink[v]), sccIndex[w])]
    {
      ghost var s := Snap();
      LowerOnStack(vs, v, w, j, base, start, s);
      lowlink := lowlink[v := Min(lowlink[v], sccIndex[w])];
      assert Snap() == Lowered(s, v, s.sccIndex[w]);
    }

    // The first branch of the loop of lines 61-69: visit the undiscovered
    // target w of record j of v (line 64), then take over its low-link if
    // that is lower (line 65).
    method Descend<V, E>(v: nat, w: nat, ghost j: nat, vs: seq<Vertex<V, E>>, ghost base: nat, ghost start: Snapshot)
      requires Walking(vs, v, base, start, j) == true && Record(vs, v, j, w)
      requires w < |discovered| && !discovered[w] && currentIndex < |vs|
      modifies this
      decreases |vs| - currentIndex, 1
      ensures Walking(vs, v, base, start, j + 1) == true
    {
      ghost var mid := Snap();
      ScanningSound(vs, v, base, start, mid, j);
      Recurse(w, vs);
      Inherit(v, w, j, vs, base, start, mid);
    }

    // Line 65: after the visit of w, v takes w's low-link if that is lower.
    method Inherit<V, E>(v: nat, w: nat, ghost j: nat, ghost vs: seq<Vertex<V, E>>, ghost base: nat,
                         ghost start: Snapshot, ghost mid: Snapshot)
      requires Descended(vs, v, w, j, base, start, mid, Snap()) == true
      requires |order| == currentIndex && |roots| == found && InRange(vs) && |discovered| == |vs|
      modifies this`lowlink
      ensures Walking(vs, v, base, start, j + 1) == true
      ensures lowlink == old(lowlink)[v := Min(old(lowlink[v]), old(lowlink[w]))]
    {
      ghost var s := Snap();
      lowlink := lowlink[v := Min(lowlink[v], lowlink[w])];
      DescendStep(vs, v, w, j, base, start, mid, s, Snap());
    }

    // tarjan_recurse(v): discover v, walk its records (recursing into
    // undiscovered targets and lowering v's low-link), then close v's
    // component if its low-link is its own index. Each call discovers v, so a
    // vertex is visited at most once.
    method Recurse<V, E>(v: nat, vs: seq<Vertex<V, E>>)
      requires Ready(vs) == true && v < |vs| && !discovered[v]
      modifies this
      decreases |vs| - currentIndex, 0
      ensures |order| == currentIndex && |roots| == found && |discovered| == |vs|
      ensures Visited(vs, v, old(Snap()), Snap()) == true
    {
      ghost var start := Snap();
      ghost var base := |stack|;
      Discover(v);
      DiscoverStep(vs, start, v);
      var outs := vs[v].outs;
      for j := 0 to |outs|
        invariant Walking(vs, v, base, start, j) == true
      {
        var w := outs[j].to;
        if !discovered[w] {
          Room(discovered, sccIndex, order, w);
          Descend(v, w, j, vs, base, start);
        } else if onStack[w] {
          LowerTo(v, w, j, base, vs, start);
        } else {
          SkipRecord(vs, v, w, j, base, start, Snap());
        }
      }
      Finish(v, vs, start);
    }

    // One round of the loop of tarjan_recursive: visit u unless it is
    // discovered already.
    method Start<V, E>(u: nat, vs: seq<Vertex<V, E>>)
      requires Idle(vs) == true && u < |vs|
      modifies this
      ensures Idle(vs) == true && discovered[u]
      ensures forall x :: 0 <= x < |old(discovered)| && old(discovered[x]) ==> discovered[x]
    {
      if !discovered[u] {
        ghost var before := Snap();
        Recurse(u, vs);
        RootVisit(vs, u, before, Snap());
      }
    }

    // The end of the visit of v (lines 71-79): if v's low-link is its own
    // index, v's component is closed.
    method Finish<V, E>(v: nat, ghost vs: seq<Vertex<V, E>>, ghost start: Snapshot)
      requires v < |vs| && Scanning(vs, v, |start.stack|, start, Snap(), |vs[v].outs|) == true
      requires |order| == currentIndex && |roots| == found
      modifies this`stack, this`onStack, this`mapping, this`found, this`roots
      ensures Visited(vs, v, start, Snap()) == true && |order| == currentIndex && |roots| == found
    {
      if lowlink[v] == sccIndex[v] {
        ghost var s := Snap();
        StackReach(vs, v, |start.stack|, start, s);
        StackPopFrom(discovered, sccIndex, lowlink, order, stack, onStack, mapping);
        PopComponent(v, |start.stack|);
        PopSnapshot(vs, s, Snap(), |start.stack|);
        PopLinked(vs, v, start, s, Snap());
        CloseStep(vs, v, start, s, Snap());
      } else {
        OpenStep(vs, v, start, Snap());
      }
    }
  }

  // tarjan_recursive: start a visit from every vertex not yet discovered, in
  // index order, and return the component id of each vertex. The ids are
  // 0 .. count - 1 with every one in use, and every component has a vertex
  // that reaches all of its vertices.
  method TarjanRecursive<V, E>(vs: seq<Vertex<V, E>>) returns (r: seq<nat>)
    requires InRange(vs)
    ensures |r| == |vs|
    ensures forall x :: 0 <= x < |r| ==> forall c :: 0 <= c <= r[x] ==> c in r
    ensures forall c :: c in r ==>
              exists y :: 0 <= y < |r| && r[y] == c
                && forall x :: 0 <= x < |r| && r[x] == c ==> Reachable(vs, [y], x)
    ensures forall x, y :: 0 <= x < |r| && 0 <= y < |r| ==>
              (r[x] == r[y] <==> Reachable(vs, [x], y) && Reachable(vs, [y], x))
  {
    var state := new TarjanState(|vs|);
    InitialLinked(vs, state.Snap());
    for s := 0 to |vs|
      invariant state.Idle(vs) == true
      invariant forall x :: 0 <= x < s ==> state.discovered[x]
    {
      state.Start(s, vs);
    }
    r := state.mapping;
    ghost var last := state.Snap();
    Finished(vs, last);
    FinishedComponents(vs, last);
  }
}
