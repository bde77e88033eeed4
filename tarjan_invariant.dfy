// The invariant of Tarjan's strongly connected components search
// (strongly_connected_components.hpp), stated over the values of the search
// state's fields, and what each step of the search does to it.
//
// Where a contract only hands a whole invariant on from one step to the next,
// it is written `P(...) == true`: the verifier then checks it as one fact,
// where for a bare `P(...)` it would check every clause of P's body apart.
module TarjanInvariant {
  import opened Util
  import opened GraphTypes
  import opened Paths

  // v reaches x along records.
  ghost predicate ReachesFrom<V, E>(vs: seq<Vertex<V, E>>, v: nat, x: nat)
  {
    Reachable(vs, [v], x)
  }

  // A walk from w to x becomes a walk from v to x when v has a record to w.
  lemma ReachPrepend<V, E>(vs: seq<Vertex<V, E>>, v: nat, w: nat, x: nat)
    requires HasEdge(vs, v, w) && ReachesFrom(vs, w, x)
    ensures ReachesFrom(vs, v, x)
  {
    var p :| IsPath(vs, p) && p[0] in [w] && p[|p| - 1] == x;
    var q := [v] + p;
    forall i | 0 <= i < |q| - 1
      ensures HasEdge(vs, q[i], q[i + 1])
    {
      if i > 0 {
        assert q[i] == p[i - 1] && q[i + 1] == p[i];
      }
    }
    assert IsPath(vs, q);
  }

  // A walk from u to v followed by a walk from v to w is a walk from u to w.
  lemma ReachTrans<V, E>(vs: seq<Vertex<V, E>>, u: nat, v: nat, w: nat)
    requires ReachesFrom(vs, u, v) && ReachesFrom(vs, v, w)
    ensures ReachesFrom(vs, u, w)
  {
    var p :| IsPath(vs, p) && p[0] in [u] && p[|p| - 1] == v;
    var q :| IsPath(vs, q) && q[0] in [v] && q[|q| - 1] == w;
    var r := p + q[1..];
    forall i | 0 <= i < |r| - 1
      ensures HasEdge(vs, r[i], r[i + 1])
    {
      if i < |p| - 1 {
        assert r[i] == p[i] && r[i + 1] == p[i + 1];
      } else {
        assert r[i] == q[i - |p| + 1] && r[i + 1] == q[i - |p| + 2];
      }
    }
    assert IsPath(vs, r);
  }

  // ---------------------------------------------------------------------------
  // The invariant of the search, over the values of the state's fields. order
  // lists the vertices in discovery order and roots[c] is the vertex whose
  // visit closed component c; neither is kept by the library.

  // The index of a discovered vertex is its position in the discovery order.
  ghost predicate Numbering(discovered: seq<bool>, sccIndex: seq<nat>, order: seq<nat>)
  {
    |sccIndex| == |discovered|
    && (forall k :: 0 <= k < |order| ==> order[k] < |discovered| && sccIndex[order[k]] == k)
    && (forall x {:trigger discovered[x]} :: 0 <= x < |discovered| ==>
          (discovered[x] <==> sccIndex[x] < |order| && order[sccIndex[x]] == x))
  }

  // The stack holds discovered vertices in increasing index order, exactly
  // those with the on-stack flag; a low-link never exceeds the index, and the
  // low-link of a vertex on the stack is the index of a vertex on the stack.
  ghost predicate StackShape(discovered: seq<bool>, sccIndex: seq<nat>, lowlink: seq<nat>, order: seq<nat>,
                             stack: seq<nat>, onStack: seq<bool>)
  {
    var n := |discovered|;
    |sccIndex| == n && |lowlink| == n && |onStack| == n
    && (forall i :: 0 <= i < |stack| ==> stack[i] < n && discovered[stack[i]])
    && (forall x :: 0 <= x < n ==> (onStack[x] <==> x in stack))
    && (forall i, j :: 0 <= i < j < |stack| ==> sccIndex[stack[i]] < sccIndex[stack[j]])
    && (forall x {:trigger lowlink[x]} :: 0 <= x < n && discovered[x] ==> lowlink[x] <= sccIndex[x])
    && (forall x {:trigger lowlink[x]} :: 0 <= x < n && onStack[x] ==>
          lowlink[x] < |order| && order[lowlink[x]] < n && onStack[order[lowlink[x]]])
  }

  // Every discovered vertex off the stack carries the id of a closed
  // component, whose root was discovered no later than it; the root of
  // component c is off the stack with id c.
  ghost predicate Components(discovered: seq<bool>, sccIndex: seq<nat>, onStack: seq<bool>,
                             mapping: seq<nat>, roots: seq<nat>)
  {
    var n := |discovered|;
    |sccIndex| == n && |onStack| == n && |mapping| == n
    && (forall c :: 0 <= c < |roots| ==>
          roots[c] < n && discovered[roots[c]] && !onStack[roots[c]] && mapping[roots[c]] == c)
    && (forall x {:trigger mapping[x]} :: 0 <= x < n && discovered[x] && !onStack[x] ==>
          mapping[x] < |roots| && sccIndex[roots[mapping[x]]] <= sccIndex[x])
  }

  // The root of each closed component reaches every vertex in it.
  ghost predicate RootsReach<V, E>(vs: seq<Vertex<V, E>>, discovered: seq<bool>, onStack: seq<bool>,
                                   mapping: seq<nat>, roots: seq<nat>)
  {
    |onStack| == |discovered| && |mapping| == |discovered|
    && forall x {:trigger ReachesFrom(vs, roots[mapping[x]], x)} ::
         0 <= x < |discovered| && discovered[x] && !onStack[x] && mapping[x] < |roots| ==>
         ReachesFrom(vs, roots[mapping[x]], x)
  }

  // An undiscovered vertex leaves room for one more index, so a search over
  // n vertices starts at most n visits.
  lemma Room(discovered: seq<bool>, sccIndex: seq<nat>, order: seq<nat>, w: nat)
    requires Numbering(discovered, sccIndex, order) && w < |discovered| && !discovered[w]
    ensures |order| < |discovered|
  {
    var s := order + [w];
    assert Distinct(s) by {
      forall i, j | 0 <= i < j < |s| ensures s[i] != s[j] {
        if j < |order| {
          assert sccIndex[s[i]] == i && sccIndex[s[j]] == j;
        }
      }
    }
    DistinctBounded(s, |discovered|);
  }

  // The vertex at the bottom of the stack has its own index as low-link: no
  // vertex on the stack has a smaller index.
  lemma BottomSettles(discovered: seq<bool>, sccIndex: seq<nat>, lowlink: seq<nat>, order: seq<nat>,
                      stack: seq<nat>, onStack: seq<bool>)
    requires Numbering(discovered, sccIndex, order)
    requires StackShape(discovered, sccIndex, lowlink, order, stack, onStack)
    ensures stack != [] ==> lowlink[stack[0]] == sccIndex[stack[0]]
  {
    if stack != [] {
      var v := stack[0];
      assert onStack[v];
      var y := order[lowlink[v]];
      assert y in stack;
      assert forall j :: 0 <= j < |stack| ==> sccIndex[v] <= sccIndex[stack[j]];
      assert sccIndex[y] == lowlink[v];
    }
  }

  // Discovering v (lines 53-59): it gets the next index as index and
  // low-link, and goes on the stack.
  lemma DiscoverNumbering(discovered: seq<bool>, sccIndex: seq<nat>, order: seq<nat>, v: nat)
    requires Numbering(discovered, sccIndex, order) && v < |discovered| && !discovered[v]
    ensures Numbering(discovered[v := true], sccIndex[v := |order|], order + [v])
  {
    var d, si, o := discovered[v := true], sccIndex[v := |order|], order + [v];
    forall k | 0 <= k < |o|
      ensures o[k] < |d| && si[o[k]] == k
    {
      if k < |order| {
        assert o[k] == order[k] && order[k] != v;
      }
    }
  }

  lemma DiscoverStack(discovered: seq<bool>, sccIndex: seq<nat>, lowlink: seq<nat>, order: seq<nat>,
                      stack: seq<nat>, onStack: seq<bool>, v: nat)
    requires Numbering(discovered, sccIndex, order)
    requires StackShape(discovered, sccIndex, lowlink, order, stack, onStack)
    requires v < |discovered| && !discovered[v]
    ensures var i := |order|;
      StackShape(discovered[v := true], sccIndex[v := i], lowlink[v := i], order + [v],
                 stack + [v], onStack[v := true])
  {
    var i := |order|;
    var d, si, ll, o := discovered[v := true], sccIndex[v := i], lowlink[v := i], order + [v];
    var st, on := stack + [v], onStack[v := true];
    assert !onStack[v];
    forall j | 0 <= j < |stack| ensures stack[j] != v && sccIndex[stack[j]] < i {
    }
    forall x | 0 <= x < |d| && on[x]
      ensures ll[x] < |o| && o[ll[x]] < |d| && on[o[ll[x]]]
    {
      if x != v {
        assert lowlink[x] == ll[x] && o[ll[x]] == order[lowlink[x]];
      }
    }
  }

  lemma DiscoverComponents<V, E>(vs: seq<Vertex<V, E>>, discovered: seq<bool>, sccIndex: seq<nat>,
                                 order: seq<nat>, onStack: seq<bool>, mapping: seq<nat>, roots: seq<nat>, v: nat)
    requires Numbering(discovered, sccIndex, order)
    requires Components(discovered, sccIndex, onStack, mapping, roots)
    requires RootsReach(vs, discovered, onStack, mapping, roots)
    requires v < |discovered| && !discovered[v]
    ensures Components(discovered[v := true], sccIndex[v := |order|], onStack[v := true], mapping, roots)
    ensures RootsReach(vs, discovered[v := true], onStack[v := true], mapping, roots)
  {
  }

  // Lowering v's low-link (lines 65 and 67) to the index of a vertex on the
  // stack keeps the shape of the stack.
  lemma LowerLink(discovered: seq<bool>, sccIndex: seq<nat>, lowlink: seq<nat>, order: seq<nat>,
                  stack: seq<nat>, onStack: seq<bool>, v: nat, l: nat)
    requires StackShape(discovered, sccIndex, lowlink, order, stack, onStack)
    requires v < |discovered| && discovered[v]
    requires l < |order| && order[l] < |discovered| && onStack[order[l]]
    ensures StackShape(discovered, sccIndex, lowlink[v := Min(lowlink[v], l)], order, stack, onStack)
  {
    var ll := lowlink[v := Min(lowlink[v], l)];
    forall x | 0 <= x < |discovered| && onStack[x]
      ensures ll[x] < |order| && order[ll[x]] < |discovered| && onStack[order[ll[x]]]
    {
      if x != v {
        assert ll[x] == lowlink[x];
      }
    }
  }

  // In a stack with strictly increasing indices, an entry with a smaller
  // index than the entry at base lies below base.
  lemma SortedBelow(s: seq<nat>, index: seq<nat>, base: nat, k: nat)
    requires forall i :: 0 <= i < |s| ==> s[i] < |index|
    requires forall i, j :: 0 <= i < j < |s| ==> index[s[i]] < index[s[j]]
    requires base < |s| && k < |s| && index[s[k]] < index[s[base]]
    ensures k < base
  {
  }

  // Popping the stack s0 down to position base (lines 71-78): the vertices
  // left keep low-links that point at vertices left on the stack.
  lemma PopLowLinks(discovered: seq<bool>, sccIndex: seq<nat>, lowlink: seq<nat>, order: seq<nat>,
                    s0: seq<nat>, on0: seq<bool>, base: nat, onStack: seq<bool>)
    requires Numbering(discovered, sccIndex, order)
    requires StackShape(discovered, sccIndex, lowlink, order, s0, on0)
    requires base < |s0| && lowlink[s0[base]] == sccIndex[s0[base]]
    requires |onStack| == |discovered| && forall x :: 0 <= x < |discovered| ==> (onStack[x] <==> x in s0[..base])
    ensures forall x :: 0 <= x < |discovered| && onStack[x] ==>
              lowlink[x] < |order| && order[lowlink[x]] < |discovered| && onStack[order[lowlink[x]]]
  {
    forall x | 0 <= x < |discovered| && onStack[x]
      ensures lowlink[x] < |order| && order[lowlink[x]] < |discovered| && onStack[order[lowlink[x]]]
    {
      var i :| 0 <= i < base && s0[..base][i] == x;
      var y := order[lowlink[x]];
      var k :| 0 <= k < |s0| && s0[k] == y;
      SortedBelow(s0, sccIndex, base, i);
      SortedBelow(s0, sccIndex, base, k);
      assert s0[..base][k] == y;
    }
  }

  lemma PopShape(discovered: seq<bool>, sccIndex: seq<nat>, lowlink: seq<nat>, order: seq<nat>,
                 s0: seq<nat>, on0: seq<bool>, base: nat, onStack: seq<bool>)
    requires Numbering(discovered, sccIndex, order)
    requires StackShape(discovered, sccIndex, lowlink, order, s0, on0)
    requires base < |s0| && lowlink[s0[base]] == sccIndex[s0[base]]
    requires |onStack| == |discovered| && forall x :: 0 <= x < |discovered| ==> (onStack[x] <==> x in s0[..base])
    ensures StackShape(discovered, sccIndex, lowlink, order, s0[..base], onStack)
  {
    PopLowLinks(discovered, sccIndex, lowlink, order, s0, on0, base, onStack);
  }

  // The popped vertices get the next id, and s0[base] is the root of the
  // new component.
  lemma PopIds(discovered: seq<bool>, sccIndex: seq<nat>, lowlink: seq<nat>, order: seq<nat>,
               s0: seq<nat>, on0: seq<bool>, m0: seq<nat>, roots: seq<nat>, base: nat,
               onStack: seq<bool>, mapping: seq<nat>)
    requires StackShape(discovered, sccIndex, lowlink, order, s0, on0)
    requires Components(discovered, sccIndex, on0, m0, roots)
    requires base < |s0|
    requires |onStack| == |discovered| && forall x :: 0 <= x < |discovered| ==> (onStack[x] <==> x in s0[..base])
    requires |mapping| == |discovered| && forall i :: base <= i < |s0| ==> mapping[s0[i]] == |roots|
    requires forall x :: 0 <= x < |discovered| && (onStack[x] || !on0[x]) ==> mapping[x] == m0[x]
    ensures forall x :: 0 <= x < |discovered| && discovered[x] && !onStack[x] ==>
              mapping[x] <= |roots| && (mapping[x] < |roots| ==> sccIndex[roots[mapping[x]]] <= sccIndex[x])
              && (mapping[x] == |roots| ==> sccIndex[s0[base]] <= sccIndex[x])
  {
    forall x | 0 <= x < |discovered| && discovered[x] && !onStack[x]
      ensures mapping[x] <= |roots| && (mapping[x] < |roots| ==> sccIndex[roots[mapping[x]]] <= sccIndex[x])
              && (mapping[x] == |roots| ==> sccIndex[s0[base]] <= sccIndex[x])
    {
      if on0[x] {
        var i :| 0 <= i < |s0| && s0[i] == x;
        assert forall j :: 0 <= j < base ==> s0[..base][j] == s0[j];
        assert sccIndex[s0[base]] <= sccIndex[s0[i]];
      }
    }
  }

  lemma PopComponents(discovered: seq<bool>, sccIndex: seq<nat>, lowlink: seq<nat>, order: seq<nat>,
                      s0: seq<nat>, on0: seq<bool>, m0: seq<nat>, roots: seq<nat>, base: nat,
                      onStack: seq<bool>, mapping: seq<nat>)
    requires StackShape(discovered, sccIndex, lowlink, order, s0, on0)
    requires Components(discovered, sccIndex, on0, m0, roots)
    requires base < |s0|
    requires |onStack| == |discovered| && forall x :: 0 <= x < |discovered| ==> (onStack[x] <==> x in s0[..base])
    requires |mapping| == |discovered| && forall i :: base <= i < |s0| ==> mapping[s0[i]] == |roots|
    requires forall x :: 0 <= x < |discovered| && (onStack[x] || !on0[x]) ==> mapping[x] == m0[x]
    ensures Components(discovered, sccIndex, onStack, mapping, roots + [s0[base]])
  {
    PopIds(discovered, sccIndex, lowlink, order, s0, on0, m0, roots, base, onStack, mapping);
    assert !onStack[s0[base]] by {
      forall i | 0 <= i < base ensures s0[i] != s0[base] {
        assert sccIndex[s0[i]] < sccIndex[s0[base]];
      }
    }
  }

  // The stack s0 the pop loop starts from, with its flags and ids: its
  // entries are distinct vertices, exactly the flagged ones.
  ghost predicate PopFrom(s0: seq<nat>, on0: seq<bool>, m0: seq<nat>)
  {
    Distinct(s0) && |m0| == |on0|
    && (forall i :: 0 <= i < |s0| ==> s0[i] < |on0|)
    && (forall x :: 0 <= x < |on0| ==> (on0[x] <==> x in s0))
  }

  lemma StackPopFrom(discovered: seq<bool>, sccIndex: seq<nat>, lowlink: seq<nat>, order: seq<nat>,
                     s0: seq<nat>, on0: seq<bool>, m0: seq<nat>)
    requires StackShape(discovered, sccIndex, lowlink, order, s0, on0) && |m0| == |discovered|
    ensures PopFrom(s0, on0, m0)
  {
    forall i, j | 0 <= i < j < |s0| ensures s0[i] != s0[j] {
      assert sccIndex[s0[i]] < sccIndex[s0[j]];
    }
  }

  // The pop loop has taken s0 down to stack, at or above base: the vertices
  // taken off have the id and no flag, the others keep theirs.
  ghost predicate Popping(s0: seq<nat>, on0: seq<bool>, m0: seq<nat>, base: nat, id: nat,
                          stack: seq<nat>, onStack: seq<bool>, mapping: seq<nat>)
  {
    base <= |stack| <= |s0| && stack == s0[..|stack|]
    && |onStack| == |on0| && |mapping| == |m0|
    && (forall x :: 0 <= x < |on0| ==> (onStack[x] <==> x in stack))
    && (forall i :: |stack| <= i < |s0| ==> s0[i] < |mapping| && mapping[s0[i]] == id)
    && (forall x :: 0 <= x < |on0| && (onStack[x] || !on0[x]) ==> x < |mapping| && mapping[x] == m0[x])
  }

  lemma PopInit(s0: seq<nat>, on0: seq<bool>, m0: seq<nat>, base: nat, id: nat)
    requires PopFrom(s0, on0, m0) == true && base <= |s0|
    ensures Popping(s0, on0, m0, base, id, s0, on0, m0)
  {
    assert s0 == s0[..|s0|];
  }

  // One round of the loop, taken while the stack is above base: the top w
  // of stack comes off, loses its flag and gets the id.
  lemma PopStep(s0: seq<nat>, on0: seq<bool>, m0: seq<nat>, base: nat, id: nat,
                stack: seq<nat>, onStack: seq<bool>, mapping: seq<nat>,
                w: nat, stack': seq<nat>, onStack': seq<bool>, mapping': seq<nat>)
    requires PopFrom(s0, on0, m0) == true && Popping(s0, on0, m0, base, id, stack, onStack, mapping) == true
    requires base < |stack| && w == stack[|stack| - 1] && stack' == stack[..|stack| - 1]
    requires onStack' == onStack[w := false] && mapping' == mapping[w := id]
    ensures Popping(s0, on0, m0, base, id, stack', onStack', mapping') && w == s0[|stack'|]
  {
    var k := |stack| - 1;
    assert w == s0[k];
    assert stack' == s0[..k];
    assert stack == stack' + [w];
    assert forall i :: 0 <= i < k ==> stack'[i] != w;
    assert on0[w];
  }

  // The loop stops exactly when s0[base] has been popped.
  lemma PopExit(s0: seq<nat>, on0: seq<bool>, m0: seq<nat>, base: nat, id: nat,
                stack: seq<nat>, onStack: seq<bool>, mapping: seq<nat>)
    requires PopFrom(s0, on0, m0) == true && Popping(s0, on0, m0, base, id, stack, onStack, mapping) == true
    requires |stack| < |s0| && s0[|stack|] == s0[base]
    ensures stack == s0[..base]
    ensures forall x :: 0 <= x < |on0| && !on0[x] ==> !onStack[x]
  {
    forall x | 0 <= x < |on0| && !on0[x] ensures !onStack[x] {
      assert forall i :: 0 <= i < |stack| ==> stack[i] == s0[i];
    }
  }

  lemma PopReach<V, E>(vs: seq<Vertex<V, E>>, discovered: seq<bool>, s0: seq<nat>, on0: seq<bool>,
                       m0: seq<nat>, roots: seq<nat>, base: nat, onStack: seq<bool>, mapping: seq<nat>)
    requires RootsReach(vs, discovered, on0, m0, roots)
    requires forall x :: 0 <= x < |discovered| && discovered[x] && !on0[x] ==> m0[x] < |roots|
    requires |on0| == |discovered| && forall x :: 0 <= x < |discovered| ==> (on0[x] <==> x in s0)
    requires forall i :: 0 <= i < |s0| ==> s0[i] < |discovered|
    requires base < |s0| && forall i :: base <= i < |s0| ==> ReachesFrom(vs, s0[base], s0[i])
    requires |onStack| == |discovered| && forall x :: 0 <= x < |discovered| ==> (onStack[x] <==> x in s0[..base])
    requires |mapping| == |discovered| && forall i :: base <= i < |s0| ==> mapping[s0[i]] == |roots|
    requires forall x :: 0 <= x < |discovered| && (onStack[x] || !on0[x]) ==> mapping[x] == m0[x]
    ensures RootsReach(vs, discovered, onStack, mapping, roots + [s0[base]])
  {
    var r := roots + [s0[base]];
    forall x | 0 <= x < |discovered| && discovered[x] && !onStack[x] && mapping[x] < |r|
      ensures ReachesFrom(vs, r[mapping[x]], x)
    {
      if on0[x] {
        var i :| 0 <= i < |s0| && s0[i] == x;
        assert forall j :: 0 <= j < base ==> s0[..base][j] == s0[j];
        assert r[mapping[x]] == s0[base];
      } else {
        assert r[mapping[x]] == roots[m0[x]];
      }
    }
  }

  // Closing the component: after the pop loop the state is again valid, with
  // s0[base] as the root of the new component.
  lemma PopClose<V, E>(vs: seq<Vertex<V, E>>, discovered: seq<bool>, sccIndex: seq<nat>, lowlink: seq<nat>,
                       order: seq<nat>, s0: seq<nat>, on0: seq<bool>, m0: seq<nat>, roots: seq<nat>, base: nat,
                       stack: seq<nat>, onStack: seq<bool>, mapping: seq<nat>)
    requires Numbering(discovered, sccIndex, order)
    requires StackShape(discovered, sccIndex, lowlink, order, s0, on0)
    requires Components(discovered, sccIndex, on0, m0, roots)
    requires RootsReach(vs, discovered, on0, m0, roots)
    requires base < |s0| && lowlink[s0[base]] == sccIndex[s0[base]]
    requires forall i :: base <= i < |s0| ==> ReachesFrom(vs, s0[base], s0[i])
    requires Popping(s0, on0, m0, base, |roots|, stack, onStack, mapping) == true && stack == s0[..base]
    ensures StackShape(discovered, sccIndex, lowlink, order, stack, onStack)
    ensures Components(discovered, sccIndex, onStack, mapping, roots + [s0[base]])
    ensures RootsReach(vs, discovered, onStack, mapping, roots + [s0[base]])
  {
    PopShape(discovered, sccIndex, lowlink, order, s0, on0, base, onStack);
    PopComponents(discovered, sccIndex, lowlink, order, s0, on0, m0, roots, base, onStack, mapping);
    PopReach(vs, discovered, s0, on0, m0, roots, base, onStack, mapping);
  }

  // When every vertex is discovered and the stack is empty, the ids are
  // 0 .. |roots| - 1 and every one of them is in use.
  lemma FinishedIds(discovered: seq<bool>, sccIndex: seq<nat>, onStack: seq<bool>,
                    mapping: seq<nat>, roots: seq<nat>)
    requires Components(discovered, sccIndex, onStack, mapping, roots)
    requires forall x :: 0 <= x < |discovered| ==> discovered[x] && !onStack[x]
    ensures forall x :: 0 <= x < |mapping| ==> mapping[x] < |roots|
    ensures forall c :: 0 <= c < |roots| ==> c in mapping
  {
    forall c | 0 <= c < |roots| ensures c in mapping {
      assert mapping[roots[c]] == c;
    }
  }

  // ... and each component has a vertex (its root) that reaches every vertex
  // of the component.
  lemma FinishedReach<V, E>(vs: seq<Vertex<V, E>>, discovered: seq<bool>, sccIndex: seq<nat>,
                            onStack: seq<bool>, mapping: seq<nat>, roots: seq<nat>, c: nat)
    requires Components(discovered, sccIndex, onStack, mapping, roots)
    requires RootsReach(vs, discovered, onStack, mapping, roots)
    requires forall x :: 0 <= x < |discovered| ==> discovered[x] && !onStack[x]
    requires c in mapping
    ensures exists y :: 0 <= y < |mapping| && mapping[y] == c
              && forall x :: 0 <= x < |mapping| && mapping[x] == c ==> Reachable(vs, [y], x)
  {
    var x0 :| 0 <= x0 < |mapping| && mapping[x0] == c;
    var y := roots[c];
    assert mapping[y] == c;
    forall x | 0 <= x < |mapping| && mapping[x] == c
      ensures Reachable(vs, [y], x)
    {
      assert discovered[x] && !onStack[x];
      assert ReachesFrom(vs, roots[mapping[x]], x);
    }
  }

  // ---------------------------------------------------------------------------
  // The search, stated over the values of the state's fields.

  // The values of the search state's fields at one moment. order lists the
  // vertices in discovery order and roots[c] is the vertex whose visit closed
  // component c; neither is kept by the library.
  datatype Snapshot = Snapshot(discovered: seq<bool>, sccIndex: seq<nat>, lowlink: seq<nat>,
                               order: seq<nat>, stack: seq<nat>, onStack: seq<bool>,
                               mapping: seq<nat>, roots: seq<nat>)

  // The invariant of the search.
  ghost predicate Sound(s: Snapshot)
  {
    Numbering(s.discovered, s.sccIndex, s.order)
    && StackShape(s.discovered, s.sccIndex, s.lowlink, s.order, s.stack, s.onStack)
    && Components(s.discovered, s.sccIndex, s.onStack, s.mapping, s.roots)
  }

  ghost predicate SoundReach<V, E>(vs: seq<Vertex<V, E>>, s: Snapshot)
  {
    Sound(s) && RootsReach(vs, s.discovered, s.onStack, s.mapping, s.roots)
  }

  // x is discovered and its component is closed.
  ghost predicate InClosed(s: Snapshot, x: nat)
  {
    x < |s.discovered| && s.discovered[x] && x < |s.onStack| && !s.onStack[x] && x < |s.mapping|
  }

  // Each vertex on the stack reaches the vertex whose index is its low-link.
  ghost predicate LowReach<V, E>(vs: seq<Vertex<V, E>>, s: Snapshot)
  {
    forall x {:trigger s.lowlink[x]} :: 0 <= x < |s.onStack| && s.onStack[x] && x < |s.lowlink| && s.lowlink[x] < |s.order| ==>
      ReachesFrom(vs, x, s.order[s.lowlink[x]])
  }

  // Each vertex of a closed component reaches the root of the component.
  ghost predicate RootsReachBack<V, E>(vs: seq<Vertex<V, E>>, s: Snapshot)
  {
    forall x: nat :: InClosed(s, x) && s.mapping[x] < |s.roots| ==> ReachesFrom(vs, x, s.roots[s.mapping[x]])
  }

  // A record out of a closed component leads into a closed component whose
  // id is no larger.
  ghost predicate ClosedEdges<V, E>(vs: seq<Vertex<V, E>>, s: Snapshot)
  {
    forall x: nat, y: nat :: InClosed(s, x) && HasEdge(vs, x, y) ==> InClosed(s, y) && s.mapping[y] <= s.mapping[x]
  }

  ghost predicate Linked<V, E>(vs: seq<Vertex<V, E>>, s: Snapshot)
  {
    LowReach(vs, s) && RootsReachBack(vs, s) && ClosedEdges(vs, s)
  }

  // The invariant of the search together with what it knows about walks.
  ghost predicate SoundLinked<V, E>(vs: seq<Vertex<V, E>>, s: Snapshot)
  {
    SoundReach(vs, s) && Linked(vs, s)
  }

  // The record of x to y is accounted for: y is discovered, and while y is
  // on the stack the low-link of x is at most the index of y.
  ghost predicate ExitOk(s: Snapshot, x: nat, y: nat)
  {
    y < |s.discovered| && s.discovered[y] && y < |s.onStack| && y < |s.sccIndex| && x < |s.lowlink|
    && (s.onStack[y] ==> s.lowlink[x] <= s.sccIndex[y])
  }

  // The first k records of x are accounted for.
  ghost predicate ExitsUpTo<V, E>(vs: seq<Vertex<V, E>>, s: Snapshot, x: nat, k: nat)
  {
    x < |vs| && k <= |vs[x].outs| && forall j :: 0 <= j < k ==> ExitOk(s, x, vs[x].outs[j].to)
  }

  // x stays on the stack above v after its own visit ended: its low-link is
  // below its index and no smaller than the low-link of v, and all its
  // records are accounted for.
  ghost predicate SettledAbove<V, E>(vs: seq<Vertex<V, E>>, s: Snapshot, v: nat, x: nat)
  {
    x < |s.lowlink| && x < |s.sccIndex| && v < |s.lowlink|
    && s.lowlink[v] <= s.lowlink[x] < s.sccIndex[x]
    && x < |vs| && ExitsUpTo(vs, s, x, |vs[x].outs|)
  }

  // The state with the low-link of v lowered to l (lines 65 and 67).
  function Lowered(s: Snapshot, v: nat, l: nat): Snapshot
    requires v < |s.lowlink|
  {
    s.(lowlink := s.lowlink[v := Min(s.lowlink[v], l)])
  }

  // What the search does from a to b: the discovery order, the stack below
  // where it was and the components already closed only grow, and the
  // index, low-link and id of every vertex discovered at a stay as they were.
  ghost predicate Extends(a: Snapshot, b: Snapshot)
  {
    |b.discovered| == |a.discovered| && |a.order| <= |b.order| && b.order[..|a.order|] == a.order
    && |a.stack| <= |b.stack| && b.stack[..|a.stack|] == a.stack
    && |a.roots| <= |b.roots| && b.roots[..|a.roots|] == a.roots
    && |a.sccIndex| == |b.sccIndex| && |a.lowlink| == |b.lowlink|
    && |a.onStack| == |b.onStack| && |a.mapping| == |b.mapping|
    && (forall x {:trigger a.discovered[x]} :: 0 <= x < |a.discovered| && a.discovered[x] ==>
          b.discovered[x] && x < |b.sccIndex| && x < |b.lowlink|
          && b.sccIndex[x] == a.sccIndex[x] && b.lowlink[x] == a.lowlink[x])
    && (forall x {:trigger a.discovered[x]} :: 0 <= x < |a.discovered| && a.discovered[x] && x < |a.onStack| && !a.onStack[x] ==>
          !b.onStack[x] && x < |b.mapping| && b.mapping[x] == a.mapping[x])
  }

  lemma ExtendsTrans(a: Snapshot, b: Snapshot, c: Snapshot)
    requires Extends(a, b) == true && Extends(b, c) == true
    ensures Extends(a, c)
  {
    assert c.order[..|a.order|] == c.order[..|b.order|][..|a.order|];
    assert c.stack[..|a.stack|] == c.stack[..|b.stack|][..|a.stack|];
    assert c.roots[..|a.roots|] == c.roots[..|b.roots|][..|a.roots|];
  }

  // The middle of the visit of v that started at start: v sits at position
  // base of the stack, and every vertex discovered since start is reachable
  // from v.
  ghost predicate InVisit<V, E>(vs: seq<Vertex<V, E>>, v: nat, base: nat, start: Snapshot, s: Snapshot)
  {
    SoundLinked(vs, s) && Extends(start, s)
    && v < |start.discovered| && !start.discovered[v]
    && base == |start.stack| < |s.stack| && s.stack[base] == v
    && v < |s.discovered| && s.discovered[v] && s.onStack[v]
    && s.sccIndex[v] == |start.order| < |s.order|
    && forall k {:trigger ReachesFrom(vs, v, s.order[k])} :: |start.order| <= k < |s.order| ==> ReachesFrom(vs, v, s.order[k])
  }

  // ... where the vertices above v on the stack are the ones whose visits,
  // nested in that of v, have ended without closing a component.
  ghost predicate Visiting<V, E>(vs: seq<Vertex<V, E>>, v: nat, base: nat, start: Snapshot, s: Snapshot)
  {
    InVisit(vs, v, base, start, s)
    && forall i :: base < i < |s.stack| ==> SettledAbove(vs, s, v, s.stack[i])
  }

  // ... with the first j records of v accounted for.
  ghost predicate Scanning<V, E>(vs: seq<Vertex<V, E>>, v: nat, base: nat, start: Snapshot, s: Snapshot, j: nat)
  {
    Visiting(vs, v, base, start, s) && ExitsUpTo(vs, s, v, j)
  }

  // What the middle of a visit gives the recursive visit of a record's
  // target.
  lemma ScanningSound<V, E>(vs: seq<Vertex<V, E>>, v: nat, base: nat, start: Snapshot, s: Snapshot, j: nat)
    requires Scanning(vs, v, base, start, s, j) == true
    ensures SoundLinked(vs, s) == true && v < |s.discovered| && s.discovered[v]
    ensures |s.lowlink| == |s.sccIndex| == |s.onStack| == |s.mapping| == |s.discovered|
  {
  }

  // The end of the visit of v that started at a: v was discovered with the
  // next index, and either its component is still open (v stays on the stack
  // where the visit put it, with a smaller low-link, and so do the vertices
  // above it) or it was closed (the stack is back to what it was). Every
  // vertex discovered by the visit is reachable from v.
  ghost predicate Visited<V, E>(vs: seq<Vertex<V, E>>, v: nat, a: Snapshot, b: Snapshot)
  {
    SoundLinked(vs, b) && Extends(a, b)
    && v < |b.discovered| && b.discovered[v] && b.sccIndex[v] == |a.order| < |b.order|
    && (b.onStack[v] ==> |a.stack| < |b.stack| && b.stack[|a.stack|] == v && b.lowlink[v] < b.sccIndex[v]
                         && forall i :: |a.stack| <= i < |b.stack| ==> SettledAbove(vs, b, v, b.stack[i]))
    && (!b.onStack[v] ==> b.stack == a.stack && b.lowlink[v] == b.sccIndex[v])
    && forall k {:trigger ReachesFrom(vs, v, b.order[k])} :: |a.order| <= k < |b.order| ==> ReachesFrom(vs, v, b.order[k])
  }

  // The effect of closing the component at position base of the stack of a,
  // whose first vertex is v.
  ghost predicate Popped(a: Snapshot, b: Snapshot, base: nat, v: nat)
  {
    b.discovered == a.discovered && b.sccIndex == a.sccIndex && b.lowlink == a.lowlink && b.order == a.order
    && base <= |a.stack| && b.stack == a.stack[..base] && b.roots == a.roots + [v]
    && |b.onStack| == |a.onStack| && |b.mapping| == |a.mapping|
    && (forall i :: base <= i < |a.stack| ==> a.stack[i] < |b.mapping| && b.mapping[a.stack[i]] == |a.roots|)
    && (forall x :: 0 <= x < |a.discovered| && x < |a.onStack| && !a.onStack[x] ==>
          !b.onStack[x] && x < |b.mapping| && b.mapping[x] == a.mapping[x])
  }

  // Every vertex on the stack from v up was discovered during v's visit, so
  // v reaches it.
  lemma StackReach<V, E>(vs: seq<Vertex<V, E>>, v: nat, base: nat, start: Snapshot, s: Snapshot)
    requires InVisit(vs, v, base, start, s) == true
    ensures forall i :: base <= i < |s.stack| ==> ReachesFrom(vs, v, s.stack[i])
  {
    forall i | base <= i < |s.stack|
      ensures ReachesFrom(vs, v, s.stack[i])
    {
      assert s.sccIndex[v] <= s.sccIndex[s.stack[i]] < |s.order|;
      assert s.order[s.sccIndex[s.stack[i]]] == s.stack[i];
    }
  }

  // Closing the component at position base of the stack of s: after the pop
  // loop and the new root, the state c is again sound, and the step is the
  // one Popped describes.
  lemma PopSnapshot<V, E>(vs: seq<Vertex<V, E>>, s: Snapshot, c: Snapshot, base: nat)
    requires SoundReach(vs, s) == true
    requires base < |s.stack| && s.lowlink[s.stack[base]] == s.sccIndex[s.stack[base]]
    requires forall i :: base <= i < |s.stack| ==> ReachesFrom(vs, s.stack[base], s.stack[i])
    requires c.discovered == s.discovered && c.sccIndex == s.sccIndex && c.lowlink == s.lowlink
    requires c.order == s.order && c.roots == s.roots + [s.stack[base]]
    requires Popping(s.stack, s.onStack, s.mapping, base, |s.roots|, c.stack, c.onStack, c.mapping) == true
    requires c.stack == s.stack[..base]
    requires forall x :: 0 <= x < |c.onStack| && !s.onStack[x] ==> !c.onStack[x]
    ensures SoundReach(vs, c) && Popped(s, c, base, s.stack[base])
  {
    PopClose(vs, s.discovered, s.sccIndex, s.lowlink, s.order, s.stack, s.onStack, s.mapping, s.roots, base,
             c.stack, c.onStack, c.mapping);
  }

  // The state before the search: nothing discovered, nothing on the stack,
  // no components.
  function Initial(n: nat): Snapshot
  {
    Snapshot(seq(n, _ => false), seq(n, _ => 0), seq(n, _ => 0), [], [], seq(n, _ => false),
             seq(n, _ => 0), [])
  }

  lemma InitialSound(n: nat)
    ensures Sound(Initial(n))
  {
  }

  // Before anything is discovered, nothing is on the stack or closed.
  lemma InitialLinked<V, E>(vs: seq<Vertex<V, E>>, s: Snapshot)
    requires Sound(s) == true && forall x :: 0 <= x < |s.discovered| ==> !s.discovered[x]
    ensures SoundLinked(vs, s)
  {
    assert forall x :: 0 <= x < |s.onStack| ==> !s.onStack[x];
  }

  // ---------------------------------------------------------------------------
  // The steps of a visit, over the values of the state's fields.

  // Discovering v (lines 53-59): the next index becomes its index and
  // low-link, and it goes on the stack.
  function Discovered(s: Snapshot, v: nat): Snapshot
    requires v < |s.discovered| && |s.sccIndex| == |s.lowlink| == |s.onStack| == |s.discovered|
  {
    var i := |s.order|;
    s.(discovered := s.discovered[v := true], sccIndex := s.sccIndex[v := i], lowlink := s.lowlink[v := i],
       order := s.order + [v], stack := s.stack + [v], onStack := s.onStack[v := true])
  }

  // Discovering v starts its visit.
  lemma DiscoverStep<V, E>(vs: seq<Vertex<V, E>>, s: Snapshot, v: nat)
    requires SoundLinked(vs, s) == true && v < |s.discovered| && !s.discovered[v] && v < |vs|
    ensures Scanning(vs, v, |s.stack|, s, Discovered(s, v), 0) == true
  {
    var d := Discovered(s, v);
    DiscoverSoundLinked(vs, s, v);
    DiscoverExtends(s, v);
    DiscoverVisit(vs, s, d, v);
    assert |d.stack| == |s.stack| + 1;
    assert ExitsUpTo(vs, d, v, 0);
  }

  // The state d just after v is discovered from s starts the visit of v.
  lemma DiscoverVisit<V, E>(vs: seq<Vertex<V, E>>, s: Snapshot, d: Snapshot, v: nat)
    requires SoundLinked(vs, d) == true && Extends(s, d) == true
    requires v < |s.discovered| && !s.discovered[v] && v < |d.discovered| && d.discovered[v] && d.onStack[v]
    requires |s.stack| < |d.stack| && d.stack[|s.stack|] == v
    requires |d.order| == |s.order| + 1 && d.order[|s.order|] == v && d.sccIndex[v] == |s.order|
    ensures InVisit(vs, v, |s.stack|, s, d) == true
  {
    NewestReached(vs, d.order, |s.order|, v);
  }

  // The one vertex numbered since a visit began is its own root.
  lemma NewestReached<V, E>(vs: seq<Vertex<V, E>>, order: seq<nat>, lo: nat, v: nat)
    requires |order| == lo + 1 && order[lo] == v
    ensures forall k {:trigger ReachesFrom(vs, v, order[k])} :: lo <= k < |order| ==> ReachesFrom(vs, v, order[k])
  {
    ReachableSeed(vs, [v], v);
  }

  lemma DiscoverSoundLinked<V, E>(vs: seq<Vertex<V, E>>, s: Snapshot, v: nat)
    requires SoundLinked(vs, s) == true && v < |s.discovered| && !s.discovered[v]
    ensures SoundLinked(vs, Discovered(s, v)) == true
  {
    DiscoverSound(vs, s, v);
    DiscoverLinked(vs, s, v);
  }

  lemma DiscoverSound<V, E>(vs: seq<Vertex<V, E>>, s: Snapshot, v: nat)
    requires SoundReach(vs, s) == true && v < |s.discovered| && !s.discovered[v]
    ensures SoundReach(vs, Discovered(s, v))
  {
    DiscoverNumbering(s.discovered, s.sccIndex, s.order, v);
    DiscoverStack(s.discovered, s.sccIndex, s.lowlink, s.order, s.stack, s.onStack, v);
    DiscoverComponents(vs, s.discovered, s.sccIndex, s.order, s.onStack, s.mapping, s.roots, v);
  }

  // The new vertex names itself by its low-link, and it is not closed.
  lemma DiscoverLinked<V, E>(vs: seq<Vertex<V, E>>, s: Snapshot, v: nat)
    requires SoundLinked(vs, s) == true && v < |s.discovered| && !s.discovered[v]
    ensures Linked(vs, Discovered(s, v))
  {
    var d := Discovered(s, v);
    ReachableSeed(vs, [v], v);
    forall x | 0 <= x < |d.onStack| && d.onStack[x] && x < |d.lowlink| && d.lowlink[x] < |d.order|
      ensures ReachesFrom(vs, x, d.order[d.lowlink[x]])
    {
      if x != v {
        assert d.order[d.lowlink[x]] == s.order[s.lowlink[x]];
      }
    }
    assert forall x :: InClosed(d, x) ==> InClosed(s, x) && x != v;
    assert forall y :: InClosed(s, y) ==> InClosed(d, y);
  }

  lemma DiscoverExtends(s: Snapshot, v: nat)
    requires Sound(s) == true && v < |s.discovered| && !s.discovered[v]
    ensures Extends(s, Discovered(s, v))
  {
    var r := Discovered(s, v);
    assert r.order[..|s.order|] == s.order;
    assert r.stack[..|s.stack|] == s.stack;
  }

  // Lowering the low-link of a discovered v to l, where l is the index of a
  // vertex on the stack or no lower than the low-link already is, keeps the
  // invariant.
  lemma LowerSound(s: Snapshot, v: nat, l: nat)
    requires Sound(s) == true && v < |s.discovered| && s.discovered[v]
    requires (l < |s.order| && s.order[l] < |s.discovered| && s.onStack[s.order[l]]) || s.lowlink[v] <= l
    ensures Sound(Lowered(s, v, l))
  {
    if s.lowlink[v] <= l {
      assert Lowered(s, v, l).lowlink == s.lowlink;
    } else {
      LowerLink(s.discovered, s.sccIndex, s.lowlink, s.order, s.stack, s.onStack, v, l);
    }
  }

  // ... and, when v reaches the vertex with index l, every vertex on the stack
  // still reaches the vertex its low-link names.
  lemma LowerLinked<V, E>(vs: seq<Vertex<V, E>>, s: Snapshot, v: nat, l: nat)
    requires SoundLinked(vs, s) == true && v < |s.discovered| && s.discovered[v]
    requires (l < |s.order| && ReachesFrom(vs, v, s.order[l])) || s.lowlink[v] <= l
    ensures Linked(vs, Lowered(s, v, l))
  {
    var t := Lowered(s, v, l);
    forall x | 0 <= x < |t.onStack| && t.onStack[x] && x < |t.lowlink| && t.lowlink[x] < |t.order|
      ensures ReachesFrom(vs, x, t.order[t.lowlink[x]])
    {
      if x != v || s.lowlink[v] <= l {
        assert t.lowlink[x] == s.lowlink[x];
      }
    }
    assert forall x :: InClosed(t, x) == InClosed(s, x);
  }

  // ... and keeps the state an extension of one where v was undiscovered.
  lemma ExtendsLowlink(a: Snapshot, b: Snapshot, v: nat, l: nat)
    requires Extends(a, b) == true && v < |a.discovered| && !a.discovered[v] && v < |b.lowlink|
    ensures Extends(a, b.(lowlink := b.lowlink[v := l]))
  {
  }

  // Lowering the low-link of v (lines 65 and 67) to the index of a vertex v
  // reaches keeps the visit of v going.
  lemma LowerOpen<V, E>(vs: seq<Vertex<V, E>>, v: nat, base: nat, start: Snapshot, s: Snapshot, l: nat)
    requires InVisit(vs, v, base, start, s) == true
    requires (l < |s.order| && s.order[l] < |s.discovered| && s.onStack[s.order[l]] && ReachesFrom(vs, v, s.order[l]))
             || s.lowlink[v] <= l
    ensures InVisit(vs, v, base, start, Lowered(s, v, l))
  {
    LowerSound(s, v, l);
    LowerLinked(vs, s, v, l);
    ExtendsLowlink(start, s, v, Min(s.lowlink[v], l));
  }

  // Accounted-for records stay so when the low-link of x does not rise.
  lemma ExitsLowlink<V, E>(vs: seq<Vertex<V, E>>, s: Snapshot, x: nat, k: nat, lowlink: seq<nat>)
    requires ExitsUpTo(vs, s, x, k) == true && |lowlink| == |s.lowlink| && x < |lowlink| && lowlink[x] <= s.lowlink[x]
    ensures ExitsUpTo(vs, s.(lowlink := lowlink), x, k)
  {
    forall j | 0 <= j < k
      ensures ExitOk(s.(lowlink := lowlink), x, vs[x].outs[j].to)
    {
      assert ExitOk(s, x, vs[x].outs[j].to);
    }
  }

  // ... and as the search goes on from a to b with x already discovered.
  lemma ExitsExtend<V, E>(vs: seq<Vertex<V, E>>, a: Snapshot, b: Snapshot, x: nat, k: nat)
    requires Extends(a, b) == true && x < |a.discovered| && a.discovered[x] && ExitsUpTo(vs, a, x, k) == true
    ensures ExitsUpTo(vs, b, x, k)
  {
    forall j | 0 <= j < k
      ensures ExitOk(b, x, vs[x].outs[j].to)
    {
      assert ExitOk(a, x, vs[x].outs[j].to);
    }
  }

  // Lowering the low-link of v leaves the vertices above it settled.
  lemma LowerAbove<V, E>(vs: seq<Vertex<V, E>>, v: nat, base: nat, s: Snapshot, l: nat)
    requires Sound(s) == true && base < |s.stack| && s.stack[base] == v
    requires forall i :: base < i < |s.stack| ==> SettledAbove(vs, s, v, s.stack[i])
    ensures forall i :: base < i < |s.stack| ==> SettledAbove(vs, Lowered(s, v, l), v, s.stack[i])
  {
    forall i | base < i < |s.stack|
      ensures SettledAbove(vs, Lowered(s, v, l), v, s.stack[i])
    {
      var x := s.stack[i];
      assert s.sccIndex[v] < s.sccIndex[x];
      ExitsLowlink(vs, s, x, |vs[x].outs|, Lowered(s, v, l).lowlink);
    }
  }

  // The second branch of the loop of lines 61-69: the target w of record j of
  // v is on the stack, and v takes its index as low-link if that is lower.
  lemma LowerOnStack<V, E>(vs: seq<Vertex<V, E>>, v: nat, w: nat, j: nat, base: nat, start: Snapshot, s: Snapshot)
    requires Scanning(vs, v, base, start, s, j) == true
    requires j < |vs[v].outs| && vs[v].outs[j].to == w && w < |s.discovered| && s.discovered[w] && s.onStack[w]
    ensures Scanning(vs, v, base, start, Lowered(s, v, s.sccIndex[w]), j + 1) == true
  {
    var l := s.sccIndex[w];
    assert HasEdge(vs, v, w);
    ReachableSeed(vs, [w], w);
    ReachPrepend(vs, v, w, w);
    assert s.order[l] == w;
    LowerOpen(vs, v, base, start, s, l);
    LowerAbove(vs, v, base, s, l);
    ExitsLowlink(vs, s, v, j, Lowered(s, v, l).lowlink);
  }

  // The visit of the undiscovered target w of a record of v (line 64) keeps
  // the visit of v going, and w's low-link may then be taken over by v.
  lemma DescendOpen<V, E>(vs: seq<Vertex<V, E>>, v: nat, w: nat, base: nat, start: Snapshot,
                          mid: Snapshot, s: Snapshot)
    requires InVisit(vs, v, base, start, mid) == true && HasEdge(vs, v, w) && w < |mid.discovered| && !mid.discovered[w]
    requires Visited(vs, w, mid, s) == true
    ensures InVisit(vs, v, base, start, s)
    ensures (s.lowlink[w] < |s.order| && s.order[s.lowlink[w]] < |s.discovered| && s.onStack[s.order[s.lowlink[w]]]
             && ReachesFrom(vs, v, s.order[s.lowlink[w]]))
            || s.lowlink[v] <= s.lowlink[w]
  {
    ExtendsTrans(start, mid, s);
    assert s.stack[..|mid.stack|] == mid.stack;
    assert s.stack[base] == mid.stack[base];
    forall k | |start.order| <= k < |s.order|
      ensures ReachesFrom(vs, v, s.order[k])
    {
      if k < |mid.order| {
        assert s.order[k] == s.order[..|mid.order|][k];
      } else {
        ReachPrepend(vs, v, w, s.order[k]);
      }
    }
    if !s.onStack[w] {
      assert s.lowlink[v] <= s.sccIndex[v] < s.sccIndex[w];
    } else {
      ReachPrepend(vs, v, w, s.order[s.lowlink[w]]);
    }
  }

  // The vertices above v stay settled when v takes over the low-link of w:
  // those stacked before the visit of w kept their low-links, and those the
  // visit of w left have low-links no smaller than that of w.
  lemma DescendAbove<V, E>(vs: seq<Vertex<V, E>>, v: nat, w: nat, base: nat, start: Snapshot,
                           mid: Snapshot, s: Snapshot)
    requires Visiting(vs, v, base, start, mid) == true && w < |mid.discovered| && !mid.discovered[w]
    requires Visited(vs, w, mid, s) == true
    ensures forall i :: base < i < |s.stack| ==> SettledAbove(vs, Lowered(s, v, s.lowlink[w]), v, s.stack[i])
  {
    var t := Lowered(s, v, s.lowlink[w]);
    assert s.stack[..|mid.stack|] == mid.stack;
    assert s.stack[base] == v by {
      assert s.stack[base] == mid.stack[base];
    }
    forall i | base < i < |s.stack|
      ensures SettledAbove(vs, t, v, s.stack[i])
    {
      DescendSettled(vs, v, w, base, start, mid, s, i);
    }
  }

  // One vertex above v, at position i of the stack: it was settled above v
  // before the visit of w, or above w during it.
  lemma DescendSettled<V, E>(vs: seq<Vertex<V, E>>, v: nat, w: nat, base: nat, start: Snapshot,
                             mid: Snapshot, s: Snapshot, i: nat)
    requires Visiting(vs, v, base, start, mid) == true && w < |mid.discovered| && !mid.discovered[w]
    requires Visited(vs, w, mid, s) == true
    requires s.stack[..|mid.stack|] == mid.stack && s.stack[base] == v && base < i < |s.stack|
    ensures SettledAbove(vs, Lowered(s, v, s.lowlink[w]), v, s.stack[i])
  {
    if i < |mid.stack| {
      SettledBefore(vs, v, base, start, mid, s, i);
    } else {
      assert SettledAbove(vs, s, w, s.stack[i]) == true;
    }
    SettledLowered(vs, v, w, base, s, i);
  }

  // Lowering the low-link of v to that of w keeps a vertex settled above v
  // or above w settled above v.
  lemma SettledLowered<V, E>(vs: seq<Vertex<V, E>>, v: nat, w: nat, base: nat, s: Snapshot, i: nat)
    requires Sound(s) == true && base < i < |s.stack| && s.stack[base] == v && w < |s.lowlink|
    requires SettledAbove(vs, s, v, s.stack[i]) || SettledAbove(vs, s, w, s.stack[i])
    ensures SettledAbove(vs, Lowered(s, v, s.lowlink[w]), v, s.stack[i])
  {
    var t := Lowered(s, v, s.lowlink[w]);
    var x := s.stack[i];
    assert s.sccIndex[v] < s.sccIndex[x];
    ExitsLowlink(vs, s, x, |vs[x].outs|, t.lowlink);
  }

  // A vertex stacked above v before the visit of w kept its low-link and its
  // records' accounts.
  lemma SettledBefore<V, E>(vs: seq<Vertex<V, E>>, v: nat, base: nat, start: Snapshot,
                            mid: Snapshot, s: Snapshot, i: nat)
    requires Visiting(vs, v, base, start, mid) == true && Extends(mid, s) == true
    requires s.stack[..|mid.stack|] == mid.stack && base < i < |mid.stack|
    ensures SettledAbove(vs, s, v, s.stack[i])
  {
    var x := s.stack[i];
    assert x == mid.stack[i];
    assert SettledAbove(vs, mid, v, x) == true;
    ExitsExtend(vs, mid, s, x, |vs[x].outs|);
  }

  // Record j of v, to w, is accounted for once v has taken over the low-link
  // of w.
  lemma DescendExits<V, E>(vs: seq<Vertex<V, E>>, v: nat, w: nat, j: nat, mid: Snapshot, s: Snapshot)
    requires v < |mid.discovered| && mid.discovered[v] && ExitsUpTo(vs, mid, v, j)
    requires j < |vs[v].outs| && vs[v].outs[j].to == w
    requires Visited(vs, w, mid, s) == true
    ensures ExitsUpTo(vs, Lowered(s, v, s.lowlink[w]), v, j + 1)
  {
    ExitsExtend(vs, mid, s, v, j);
    ExitsLowlink(vs, s, v, j, Lowered(s, v, s.lowlink[w]).lowlink);
    assert s.lowlink[w] <= s.sccIndex[w];
  }

  // The first branch of the loop of lines 61-69: the visit of the
  // undiscovered target w of record j of v (line 64), after which v takes
  // over the low-link of w if that is lower (line 65), keeps the visit of v
  // going.
  // Record j of v leads to w.
  ghost predicate Record<V, E>(vs: seq<Vertex<V, E>>, v: nat, j: nat, w: nat)
  {
    v < |vs| && j < |vs[v].outs| && vs[v].outs[j].to == w
  }

  ghost predicate Descended<V, E>(vs: seq<Vertex<V, E>>, v: nat, w: nat, j: nat, base: nat, start: Snapshot,
                                  mid: Snapshot, s: Snapshot)
  {
    Scanning(vs, v, base, start, mid, j)
    && v < |vs| && j < |vs[v].outs| && vs[v].outs[j].to == w && w < |mid.discovered| && !mid.discovered[w]
    && Visited(vs, w, mid, s)
  }

  lemma DescendStep<V, E>(vs: seq<Vertex<V, E>>, v: nat, w: nat, j: nat, base: nat, start: Snapshot,
                          mid: Snapshot, s: Snapshot, t: Snapshot)
    requires Descended(vs, v, w, j, base, start, mid, s) == true && t == Lowered(s, v, s.lowlink[w])
    ensures Scanning(vs, v, base, start, t, j + 1) == true
  {
    assert HasEdge(vs, v, w);
    DescendOpen(vs, v, w, base, start, mid, s);
    LowerOpen(vs, v, base, start, s, s.lowlink[w]);
    DescendAbove(vs, v, w, base, start, mid, s);
    DescendExits(vs, v, w, j, mid, s);
  }

  // The target of record j of v is discovered and off the stack: nothing
  // changes, and the record is accounted for.
  lemma SkipRecord<V, E>(vs: seq<Vertex<V, E>>, v: nat, w: nat, j: nat, base: nat, start: Snapshot, s: Snapshot)
    requires Scanning(vs, v, base, start, s, j) == true
    requires j < |vs[v].outs| && vs[v].outs[j].to == w
    requires w < |s.discovered| && s.discovered[w] && !s.onStack[w]
    ensures Scanning(vs, v, base, start, s, j + 1) == true
  {
    assert ExitOk(s, v, w);
  }

  // A visit whose low-link ends below its index leaves v on the stack.
  lemma OpenStep<V, E>(vs: seq<Vertex<V, E>>, v: nat, start: Snapshot, s: Snapshot)
    requires v < |vs| && Scanning(vs, v, |start.stack|, start, s, |vs[v].outs|) == true && s.lowlink[v] != s.sccIndex[v]
    ensures Visited(vs, v, start, s)
  {
    assert s.lowlink[v] <= s.sccIndex[v];
  }

  // Every vertex from position base of the stack up reaches the vertex v at
  // base: its low-link names a vertex lower on the stack, but not below v.
  lemma {:induction false} PopReachBack<V, E>(vs: seq<Vertex<V, E>>, s: Snapshot, v: nat, base: nat, i: nat)
    requires Sound(s) == true && LowReach(vs, s)
    requires base < |s.stack| && s.stack[base] == v && s.lowlink[v] == s.sccIndex[v]
    requires forall k :: base < k < |s.stack| ==> SettledAbove(vs, s, v, s.stack[k])
    requires base <= i < |s.stack|
    ensures ReachesFrom(vs, s.stack[i], v)
    decreases i
  {
    if i == base {
      ReachableSeed(vs, [v], v);
    } else {
      var x := s.stack[i];
      assert SettledAbove(vs, s, v, x);
      assert s.onStack[x];
      var y := s.order[s.lowlink[x]];
      var k :| 0 <= k < |s.stack| && s.stack[k] == y;
      assert s.sccIndex[y] == s.lowlink[x];
      assert s.sccIndex[s.stack[base]] <= s.sccIndex[s.stack[k]] < s.sccIndex[s.stack[i]];
      PopReachBack(vs, s, v, base, k);
      ReachTrans(vs, x, y, v);
    }
  }

  // A vertex the pop takes off the stack sat at base or above.
  lemma PoppedAbove(s: Snapshot, c: Snapshot, base: nat, v: nat, x: nat) returns (i: nat)
    requires Sound(s) == true && Sound(c) == true && Popped(s, c, base, v) == true
    requires x < |s.onStack| && s.onStack[x] && !c.onStack[x]
    ensures base <= i < |s.stack| && s.stack[i] == x
  {
    i :| 0 <= i < |s.stack| && s.stack[i] == x;
    assert forall k :: 0 <= k < base ==> c.stack[k] == s.stack[k];
    assert x !in c.stack;
  }

  // After the pop, the vertices left on the stack still reach what their
  // low-links name ...
  lemma PopLowReach<V, E>(vs: seq<Vertex<V, E>>, s: Snapshot, c: Snapshot, base: nat, v: nat)
    requires SoundLinked(vs, s) == true && Sound(c) == true && Popped(s, c, base, v) == true
    ensures LowReach(vs, c)
  {
    forall x | 0 <= x < |c.onStack| && c.onStack[x] && x < |c.lowlink| && c.lowlink[x] < |c.order|
      ensures ReachesFrom(vs, x, c.order[c.lowlink[x]])
    {
      var i :| 0 <= i < |c.stack| && c.stack[i] == x;
      assert s.stack[i] == x;
    }
  }

  // ... the popped vertices reach v, the root of their component ...
  lemma PopRootsBack<V, E>(vs: seq<Vertex<V, E>>, s: Snapshot, c: Snapshot, base: nat, v: nat)
    requires SoundLinked(vs, s) == true && Sound(c) == true && Popped(s, c, base, v) == true
    requires forall i :: base <= i < |s.stack| ==> ReachesFrom(vs, s.stack[i], v)
    ensures RootsReachBack(vs, c)
  {
    forall x: nat | InClosed(c, x) && c.mapping[x] < |c.roots|
      ensures ReachesFrom(vs, x, c.roots[c.mapping[x]])
    {
      if s.onStack[x] {
        var i := PoppedAbove(s, c, base, v, x);
        assert c.mapping[x] == |s.roots| && c.roots[|s.roots|] == v;
      } else {
        assert InClosed(s, x);
        assert c.roots[s.mapping[x]] == s.roots[s.mapping[x]];
      }
    }
  }

  // ... and a record out of a popped vertex leads to a vertex popped with it
  // or closed before: one still on the stack would have an index below that
  // of v, which the low-link of the popped vertex rules out.
  lemma PopClosedEdges<V, E>(vs: seq<Vertex<V, E>>, s: Snapshot, c: Snapshot, base: nat, v: nat)
    requires SoundLinked(vs, s) == true && Sound(c) == true && Popped(s, c, base, v) == true
    requires base < |s.stack| && s.stack[base] == v && s.lowlink[v] == s.sccIndex[v]
    requires forall i :: base <= i < |s.stack| ==>
               s.stack[i] < |vs| && ExitsUpTo(vs, s, s.stack[i], |vs[s.stack[i]].outs|) && s.lowlink[v] <= s.lowlink[s.stack[i]]
    ensures ClosedEdges(vs, c)
  {
    forall x: nat, y: nat | InClosed(c, x) && HasEdge(vs, x, y)
      ensures InClosed(c, y) && c.mapping[y] <= c.mapping[x]
    {
      if s.onStack[x] {
        PopEdge(vs, s, c, base, v, x, y);
      } else {
        assert InClosed(s, x);
      }
    }
  }

  // One record out of a popped vertex x.
  lemma PopEdge<V, E>(vs: seq<Vertex<V, E>>, s: Snapshot, c: Snapshot, base: nat, v: nat, x: nat, y: nat)
    requires Sound(s) == true && ClosedEdges(vs, s) && Sound(c) == true && Popped(s, c, base, v) == true
    requires base < |s.stack| && s.stack[base] == v && s.lowlink[v] == s.sccIndex[v]
    requires forall i :: base <= i < |s.stack| ==>
               s.stack[i] < |vs| && ExitsUpTo(vs, s, s.stack[i], |vs[s.stack[i]].outs|) && s.lowlink[v] <= s.lowlink[s.stack[i]]
    requires InClosed(c, x) && HasEdge(vs, x, y) && s.onStack[x]
    ensures InClosed(c, y) && c.mapping[y] <= c.mapping[x]
  {
    var i := PoppedAbove(s, c, base, v, x);
    var j :| 0 <= j < |vs[x].outs| && vs[x].outs[j].to == y;
    assert ExitOk(s, x, y);
    if s.onStack[y] {
      var k := AboveBase(s, c, base, v, y);
    } else {
      assert InClosed(s, y);
    }
  }

  // A vertex on the stack whose index is no lower than that of v sits at
  // base or above, so the pop takes it off.
  lemma AboveBase(s: Snapshot, c: Snapshot, base: nat, v: nat, y: nat) returns (k: nat)
    requires Sound(s) == true && Popped(s, c, base, v) == true && base < |s.stack| && s.stack[base] == v
    requires y < |s.onStack| && s.onStack[y] && s.sccIndex[v] <= s.sccIndex[y]
    ensures base <= k < |s.stack| && s.stack[k] == y && y !in c.stack
  {
    k :| 0 <= k < |s.stack| && s.stack[k] == y;
    assert forall m :: 0 <= m < base ==> c.stack[m] == s.stack[m] && s.sccIndex[s.stack[m]] < s.sccIndex[v];
  }

  // Closing the component of v keeps what the search knows about walks.
  lemma PopLinked<V, E>(vs: seq<Vertex<V, E>>, v: nat, start: Snapshot, s: Snapshot, c: Snapshot)
    requires v < |vs| && Scanning(vs, v, |start.stack|, start, s, |vs[v].outs|) == true && s.lowlink[v] == s.sccIndex[v]
    requires Sound(c) == true && Popped(s, c, |start.stack|, v) == true
    ensures Linked(vs, c)
  {
    var base := |start.stack|;
    forall i | base <= i < |s.stack|
      ensures ReachesFrom(vs, s.stack[i], v)
    {
      PopReachBack(vs, s, v, base, i);
    }
    forall i | base <= i < |s.stack|
      ensures s.stack[i] < |vs| && ExitsUpTo(vs, s, s.stack[i], |vs[s.stack[i]].outs|) && s.lowlink[v] <= s.lowlink[s.stack[i]]
    {
      if i > base {
        assert SettledAbove(vs, s, v, s.stack[i]);
      }
    }
    PopLowReach(vs, s, c, base, v);
    PopRootsBack(vs, s, c, base, v);
    PopClosedEdges(vs, s, c, base, v);
  }

  // A visit whose low-link ends at its index closes v's component, which
  // takes the stack back to what it was when the visit started.
  lemma CloseStep<V, E>(vs: seq<Vertex<V, E>>, v: nat, start: Snapshot, s: Snapshot, c: Snapshot)
    requires Visiting(vs, v, |start.stack|, start, s) == true && s.lowlink[v] == s.sccIndex[v]
    requires SoundLinked(vs, c) == true && Popped(s, c, |start.stack|, v) == true
    ensures Visited(vs, v, start, c)
  {
    assert c.stack == start.stack;
    assert c.roots[..|start.roots|] == s.roots[..|start.roots|];
    assert c.roots[|s.roots|] == v;
  }

  // A visit started on an empty stack leaves it empty: the vertex at the
  // bottom of the stack always has its own index as low-link.
  lemma RootVisit<V, E>(vs: seq<Vertex<V, E>>, v: nat, a: Snapshot, b: Snapshot)
    requires a.stack == [] && Visited(vs, v, a, b) == true
    ensures SoundLinked(vs, b) && b.stack == [] && b.discovered[v]
    ensures forall x :: 0 <= x < |a.discovered| && a.discovered[x] ==> b.discovered[x]
  {
    BottomSettles(b.discovered, b.sccIndex, b.lowlink, b.order, b.stack, b.onStack);
  }

  // The end of the search: every vertex is discovered and the stack is empty,
  // so the ids are 0 .. |roots| - 1 with every one in use, and each component
  // has a vertex that reaches all of it.
  lemma Finished<V, E>(vs: seq<Vertex<V, E>>, s: Snapshot)
    requires SoundReach(vs, s) == true && s.stack == []
    requires forall x :: 0 <= x < |s.discovered| ==> s.discovered[x]
    ensures |s.mapping| == |s.discovered|
    ensures forall x :: 0 <= x < |s.mapping| ==> forall c :: 0 <= c <= s.mapping[x] ==> c in s.mapping
    ensures forall c :: c in s.mapping ==>
              exists y :: 0 <= y < |s.mapping| && s.mapping[y] == c
                && forall x :: 0 <= x < |s.mapping| && s.mapping[x] == c ==> Reachable(vs, [y], x)
  {
    FinishedNumbers(s);
    FinishedRoots(vs, s);
  }

  lemma FinishedNumbers(s: Snapshot)
    requires Sound(s) == true && s.stack == []
    requires forall x :: 0 <= x < |s.discovered| ==> s.discovered[x]
    ensures |s.mapping| == |s.discovered|
    ensures forall x :: 0 <= x < |s.mapping| ==> forall c :: 0 <= c <= s.mapping[x] ==> c in s.mapping
  {
    AllClosed(s);
    FinishedIds(s.discovered, s.sccIndex, s.onStack, s.mapping, s.roots);
  }

  lemma FinishedRoots<V, E>(vs: seq<Vertex<V, E>>, s: Snapshot)
    requires SoundReach(vs, s) == true && s.stack == []
    requires forall x :: 0 <= x < |s.discovered| ==> s.discovered[x]
    ensures forall c :: c in s.mapping ==>
              exists y :: 0 <= y < |s.mapping| && s.mapping[y] == c
                && forall x :: 0 <= x < |s.mapping| && s.mapping[x] == c ==> Reachable(vs, [y], x)
  {
    AllClosed(s);
    forall c | c in s.mapping
      ensures exists y :: 0 <= y < |s.mapping| && s.mapping[y] == c
                && forall x :: 0 <= x < |s.mapping| && s.mapping[x] == c ==> Reachable(vs, [y], x)
    {
      FinishedReach(vs, s.discovered, s.sccIndex, s.onStack, s.mapping, s.roots, c);
    }
  }

  // With the stack empty and every vertex discovered, every vertex is closed.
  lemma AllClosed(s: Snapshot)
    requires Sound(s) == true && s.stack == []
    requires forall x :: 0 <= x < |s.discovered| ==> s.discovered[x]
    ensures |s.mapping| == |s.discovered|
    ensures Components(s.discovered, s.sccIndex, s.onStack, s.mapping, s.roots)
    ensures forall x :: 0 <= x < |s.discovered| ==> s.discovered[x] && !s.onStack[x]
  {
  }

  // ... and two vertices get the same id exactly when each reaches the other.
  lemma FinishedComponents<V, E>(vs: seq<Vertex<V, E>>, s: Snapshot)
    requires SoundLinked(vs, s) == true && s.stack == []
    requires forall x :: 0 <= x < |s.discovered| ==> s.discovered[x]
    ensures forall x, y :: 0 <= x < |s.mapping| && 0 <= y < |s.mapping| ==>
              (s.mapping[x] == s.mapping[y] <==> Reachable(vs, [x], y) && Reachable(vs, [y], x))
  {
    assert forall x :: 0 <= x < |s.discovered| ==> InClosed(s, x);
    forall x, y | 0 <= x < |s.mapping| && 0 <= y < |s.mapping|
      ensures s.mapping[x] == s.mapping[y] <==> Reachable(vs, [x], y) && Reachable(vs, [y], x)
    {
      SameComponent(vs, s, x, y);
    }
  }

  // One pair of vertices.
  lemma SameComponent<V, E>(vs: seq<Vertex<V, E>>, s: Snapshot, x: nat, y: nat)
    requires Components(s.discovered, s.sccIndex, s.onStack, s.mapping, s.roots)
    requires RootsReach(vs, s.discovered, s.onStack, s.mapping, s.roots)
    requires RootsReachBack(vs, s) && ClosedEdges(vs, s)
    requires forall z :: 0 <= z < |s.discovered| ==> InClosed(s, z)
    requires x < |s.mapping| && y < |s.mapping|
    ensures s.mapping[x] == s.mapping[y] <==> ReachesFrom(vs, x, y) && ReachesFrom(vs, y, x)
  {
    if s.mapping[x] == s.mapping[y] {
      ThroughRoot(vs, s, x, y);
      ThroughRoot(vs, s, y, x);
    }
    if ReachesFrom(vs, x, y) && ReachesFrom(vs, y, x) {
      ReachOrdered(vs, s, x, y);
      ReachOrdered(vs, s, y, x);
    }
  }

  // Two closed vertices with the same id reach each other through the root
  // of their component.
  lemma ThroughRoot<V, E>(vs: seq<Vertex<V, E>>, s: Snapshot, x: nat, y: nat)
    requires Components(s.discovered, s.sccIndex, s.onStack, s.mapping, s.roots)
    requires RootsReach(vs, s.discovered, s.onStack, s.mapping, s.roots) && RootsReachBack(vs, s)
    requires InClosed(s, x) && InClosed(s, y) && s.mapping[x] == s.mapping[y]
    ensures ReachesFrom(vs, x, y)
  {
    var r := s.roots[s.mapping[x]];
    assert ReachesFrom(vs, x, r);
    assert ReachesFrom(vs, r, y);
    ReachTrans(vs, x, r, y);
  }

  // Once every vertex is closed, ids do not grow along a walk.
  lemma ReachOrdered<V, E>(vs: seq<Vertex<V, E>>, s: Snapshot, x: nat, y: nat)
    requires ClosedEdges(vs, s) && |s.mapping| == |s.discovered|
    requires forall z :: 0 <= z < |s.discovered| ==> InClosed(s, z)
    requires x < |s.discovered| && ReachesFrom(vs, x, y)
    ensures y < |s.mapping| && s.mapping[y] <= s.mapping[x]
  {
    var below := set z | 0 <= z < |s.discovered| && s.mapping[z] <= s.mapping[x];
    assert Closed(vs, below) by {
      forall u: nat, w: nat | u in below && HasEdge(vs, u, w)
        ensures w in below
      {
        assert InClosed(s, u);
      }
    }
    ClosedReachable(vs, [x], below);
  }
}
