// contract(u, v) of the adjacency list, stated on the sequence of vertices:
// the higher-numbered vertex v is merged into the lower-numbered u, v is
// removed, and every record is relabelled for the shorter vertex sequence.
// The Graph class runs the same steps in place and is proved to reach
// Contracted's value; the lemmas here say what that value means.
module Contraction {
  import opened Util
  import opened GraphTypes
  import opened AdjacencyOps

  // The merged vertex's records before relabelling: u's own records without the
  // one to v, then every record of v that neither points back at u nor at a
  // target u already has (the u_connectivity test).
  function MergedOuts<V, E>(vs: seq<Vertex<V, E>>, u: nat, v: nat): seq<OutEdge<E>>
    requires u < |vs| && v < |vs|
  {
    var uRem := RemoveFirstTo(vs[u].outs, v);
    uRem + Absorbed(vs[v].outs, uRem, u)
  }

  // The records of v that u takes over.
  function Absorbed<E>(vOuts: seq<OutEdge<E>>, uRem: seq<OutEdge<E>>, u: nat): seq<OutEdge<E>>
  {
    if vOuts == [] then []
    else
      var x := vOuts[0];
      (if x.to != u && !AnyTo(uRem, x.to) then [x] else []) + Absorbed(vOuts[1..], uRem, u)
  }

  // rename applied to every record: the relabelling of the merged vertex's list.
  function RenameOuts<E>(outs: seq<OutEdge<E>>, v: nat): seq<OutEdge<E>>
  {
    seq(|outs|, i requires 0 <= i < |outs| => OutEdge(Shift(outs[i].to, v), outs[i].payload))
  }

  // The relabelling of any other vertex's list: the first record to u or v
  // becomes a record to u, any later one is dropped, and every other target is
  // renamed. `found` says whether the first such record has been met already.
  function RelabelRow<E>(outs: seq<OutEdge<E>>, u: nat, v: nat, found: bool): (r: seq<OutEdge<E>>)
    ensures |r| <= |outs|
  {
    if outs == [] then []
    else
      var x := outs[0];
      if x.to == u || x.to == v then
        (if found then [] else [OutEdge(u, x.payload)]) + RelabelRow(outs[1..], u, v, true)
      else [OutEdge(Shift(x.to, v), x.payload)] + RelabelRow(outs[1..], u, v, found)
  }

  // The graph after contract(u, v) with u < v.
  function Contracted<V, E>(vs: seq<Vertex<V, E>>, u: nat, v: nat): (r: seq<Vertex<V, E>>)
    requires u < v < |vs|
    ensures |r| == |vs| - 1
  {
    var merged := MergedOuts(vs, u, v);
    var rest := RemoveVertex(vs, v);
    seq(|rest|, i requires 0 <= i < |rest| =>
      if i == u then Vertex(vs[u].payload, RenameOuts(merged, v))
      else Vertex(rest[i].payload, RelabelRow(rest[i].outs, u, v, false)))
  }

  // Vertex a of the contracted graph has an edge to b when some vertex merged
  // into a had an edge to some vertex merged into b: u and v are merged into u,
  // every other new index k stands for the old vertex Up(k, v).
  ghost predicate Joined<V, E>(vs: seq<Vertex<V, E>>, u: nat, v: nat, a: nat, b: nat)
  {
    || HasEdge(vs, Up(a, v), Up(b, v))
    || (a == u && HasEdge(vs, v, Up(b, v)))
    || (b == u && HasEdge(vs, Up(a, v), v))
  }

  // ---------------------------------------------------------------------------
  // Targets of the pieces.

  lemma {:induction false} AnyConcat<E>(a: seq<OutEdge<E>>, b: seq<OutEdge<E>>, t: nat)
    ensures AnyTo(a + b, t) == (AnyTo(a, t) || AnyTo(b, t))
  {
    if AnyTo(a + b, t) {
      var i :| 0 <= i < |a + b| && (a + b)[i].to == t;
      if i >= |a| { assert b[i - |a|].to == t; }
    }
    if AnyTo(a, t) {
      var i :| 0 <= i < |a| && a[i].to == t;
      assert (a + b)[i].to == t;
    }
    if AnyTo(b, t) {
      var i :| 0 <= i < |b| && b[i].to == t;
      assert (a + b)[i + |a|].to == t;
    }
  }

  lemma {:induction false} DistinctConcat<E>(a: seq<OutEdge<E>>, b: seq<OutEdge<E>>)
    requires DistinctTargets(a) && DistinctTargets(b)
    requires forall t: nat :: AnyTo(b, t) ==> !AnyTo(a, t)
    ensures DistinctTargets(a + b)
  {
    forall i, j | 0 <= i < j < |a + b| ensures (a + b)[i].to != (a + b)[j].to {
      if i < |a| && j >= |a| {
        assert (a + b)[j] == b[j - |a|];
        assert AnyTo(b, b[j - |a|].to);
      }
    }
  }

  lemma {:induction false} AbsorbedAny<E>(vOuts: seq<OutEdge<E>>, uRem: seq<OutEdge<E>>, u: nat, t: nat)
    ensures AnyTo(Absorbed(vOuts, uRem, u), t) == (t != u && !AnyTo(uRem, t) && AnyTo(vOuts, t))
  {
    if vOuts != [] {
      var x := vOuts[0];
      var head := if x.to != u && !AnyTo(uRem, x.to) then [x] else [];
      AbsorbedAny(vOuts[1..], uRem, u, t);
      AnyConcat(head, Absorbed(vOuts[1..], uRem, u), t);
    }
  }

  lemma {:induction false} AbsorbedDistinct<E>(vOuts: seq<OutEdge<E>>, uRem: seq<OutEdge<E>>, u: nat)
    requires DistinctTargets(vOuts)
    ensures DistinctTargets(Absorbed(vOuts, uRem, u))
  {
    if vOuts != [] {
      var x := vOuts[0];
      var rest := Absorbed(vOuts[1..], uRem, u);
      DistinctHead(vOuts);
      AbsorbedDistinct(vOuts[1..], uRem, u);
      if x.to != u && !AnyTo(uRem, x.to) {
        AbsorbedAny(vOuts[1..], uRem, u, x.to);
        assert ([x] + rest)[1..] == rest;
        DistinctHead([x] + rest);
      }
    }
  }

  // The merge loop of contract reads v's list front to back.
  // Marking the target of one more record keeps the u_connectivity vector in
  // step with the list read so far.
  lemma MarkTarget<E>(pre: seq<OutEdge<E>>, x: OutEdge<E>, conn: seq<bool>)
    requires x.to < |conn| && forall t :: 0 <= t < |conn| ==> conn[t] == AnyTo(pre, t)
    ensures forall t :: 0 <= t < |conn| ==> conn[x.to := true][t] == AnyTo(pre + [x], t)
  {
    forall t | 0 <= t < |conn| ensures conn[x.to := true][t] == AnyTo(pre + [x], t) {
      AnyConcat(pre, [x], t);
    }
  }

  // One round of contract's loop over v's records: the record at m is taken
  // over when it points neither at u nor at a target of u's list, and then
  // no record of the list built so far has its target.
  lemma AbsorbStep<E>(vOuts: seq<OutEdge<E>>, m: nat, uRem: seq<OutEdge<E>>, u: nat)
    requires m < |vOuts| && DistinctTargets(vOuts)
    ensures AnyTo(vOuts[..m + 1], u) == (AnyTo(vOuts[..m], u) || vOuts[m].to == u)
    ensures var x := vOuts[m];
      var before := uRem + Absorbed(vOuts[..m], uRem, u);
      && uRem + Absorbed(vOuts[..m + 1], uRem, u) == (if x.to != u && !AnyTo(uRem, x.to) then before + [x] else before)
      && (x.to != u && !AnyTo(uRem, x.to) ==> !AnyTo(before, x.to))
  {
    var x := vOuts[m];
    assert vOuts[..m + 1] == vOuts[..m] + [x];
    AbsorbedSnoc(vOuts[..m], x, uRem, u);
    AnyConcat(vOuts[..m], [x], u);
    AnyConcat(uRem, Absorbed(vOuts[..m], uRem, u), x.to);
    AbsorbedAny(vOuts[..m], uRem, u, x.to);
    assert !AnyTo(vOuts[..m], x.to) by {
      assert forall l :: 0 <= l < m ==> vOuts[..m][l] == vOuts[l];
    }
  }

  lemma {:induction false} AbsorbedSnoc<E>(a: seq<OutEdge<E>>, x: OutEdge<E>, uRem: seq<OutEdge<E>>, u: nat)
    ensures Absorbed(a + [x], uRem, u) ==
      Absorbed(a, uRem, u) + (if x.to != u && !AnyTo(uRem, x.to) then [x] else [])
  {
    if a == [] {
      assert a + [x] == [x];
      assert [x][1..] == [];
    } else {
      assert (a + [x])[0] == a[0];
      assert (a + [x])[1..] == a[1..] + [x];
      AbsorbedSnoc(a[1..], x, uRem, u);
    }
  }

  // One step of the relabelling loops, at position p.
  lemma RelabelRowStep<E>(outs: seq<OutEdge<E>>, p: nat, u: nat, v: nat, found: bool)
    requires p < |outs|
    ensures RelabelRow(outs[p..], u, v, found) ==
      if outs[p].to == u || outs[p].to == v then
        (if found then [] else [OutEdge(u, outs[p].payload)]) + RelabelRow(outs[p + 1..], u, v, true)
      else [OutEdge(Shift(outs[p].to, v), outs[p].payload)] + RelabelRow(outs[p + 1..], u, v, found)
  {
    assert outs[p..][0] == outs[p];
    assert outs[p..][1..] == outs[p + 1..];
  }

  // The loop invariant of contract's first relabelling loop over outs: the
  // first i records are relabelled, the others untouched, and found says
  // whether a record to u or v has been met.
  ghost predicate UntilFirst<E>(outs: seq<OutEdge<E>>, r: seq<OutEdge<E>>, i: nat, found: bool, u: nat, v: nat)
  {
    i <= |r| == |outs| && r[i..] == outs[i..]
    && r[..i] + RelabelRow(outs[i..], u, v, found) == RelabelRow(outs, u, v, false)
  }

  lemma UntilFirstStep<E>(outs: seq<OutEdge<E>>, r: seq<OutEdge<E>>, i: nat, u: nat, v: nat)
    requires UntilFirst(outs, r, i, false, u, v) && i < |r|
    ensures var x := r[i];
      var y := if x.to == u || x.to == v then OutEdge(u, x.payload) else OutEdge(Shift(x.to, v), x.payload);
      UntilFirst(outs, r[i := y], i + 1, x.to == u || x.to == v, u, v)
  {
    assert outs[i] == r[i] by {
      assert r[i..][0] == r[i] && outs[i..][0] == outs[i];
    }
    RelabelRowStep(outs, i, u, v, false);
    var x := r[i];
    var y := if x.to == u || x.to == v then OutEdge(u, x.payload) else OutEdge(Shift(x.to, v), x.payload);
    var r' := r[i := y];
    assert r'[..i + 1] == r[..i] + [y];
    assert r'[i + 1..] == r[i + 1..] == r[i..][1..];
    assert outs[i + 1..] == outs[i..][1..];
  }

  // The loop invariant of contract's second relabelling loop over rest: the
  // first i entries of r are final, the others are the records of rest not
  // yet read, and erased records have been dropped.
  ghost predicate AfterFirst<E>(rest: seq<OutEdge<E>>, r: seq<OutEdge<E>>, i: nat, erased: nat, u: nat, v: nat)
  {
    i <= |r| && |r| + erased == |rest|
    && r[i..] == rest[i + erased..]
    && r[..i] + RelabelRow(rest[i + erased..], u, v, true) == RelabelRow(rest, u, v, true)
  }

  lemma AfterFirstStart<E>(rest: seq<OutEdge<E>>, u: nat, v: nat)
    ensures AfterFirst(rest, rest, 0, 0, u, v)
  {
    assert rest[..0] == [] && rest[0..] == rest;
  }

  lemma AfterFirstDone<E>(rest: seq<OutEdge<E>>, r: seq<OutEdge<E>>, erased: nat, u: nat, v: nat)
    requires AfterFirst(rest, r, |r|, erased, u, v)
    ensures r == RelabelRow(rest, u, v, true) && |r| + erased == |rest|
  {
    assert r[..|r|] == r;
    assert rest[|r| + erased..] == [];
  }

  lemma AfterFirstDrop<E>(rest: seq<OutEdge<E>>, r: seq<OutEdge<E>>, i: nat, erased: nat, u: nat, v: nat)
    requires AfterFirst(rest, r, i, erased, u, v) && i < |r| && (r[i].to == u || r[i].to == v)
    ensures AfterFirst(rest, r[..i] + r[i + 1..], i, erased + 1, u, v)
  {
    var p := i + erased;
    assert rest[p] == r[i] by {
      assert r[i..][0] == r[i] && rest[p..][0] == rest[p];
    }
    RelabelRowStep(rest, p, u, v, true);
    assert RelabelRow(rest[p..], u, v, true) == RelabelRow(rest[p + 1..], u, v, true);
    var r' := r[..i] + r[i + 1..];
    assert r'[..i] == r[..i];
    assert r'[i..] == r[i + 1..] == r[i..][1..];
    assert rest[p + 1..] == rest[p..][1..];
  }

  lemma AfterFirstRename<E>(rest: seq<OutEdge<E>>, r: seq<OutEdge<E>>, i: nat, erased: nat, u: nat, v: nat)
    requires AfterFirst(rest, r, i, erased, u, v) && i < |r| && r[i].to != u && r[i].to != v
    ensures AfterFirst(rest, r[i := OutEdge(Shift(r[i].to, v), r[i].payload)], i + 1, erased, u, v)
  {
    RelabelRowStep(rest, i + erased, u, v, true);
    var r' := r[i := OutEdge(Shift(r[i].to, v), r[i].payload)];
    assert r'[..i + 1] == r[..i] + [r'[i]];
    assert r'[i + 1..] == r[i + 1..];
  }

  // Renaming a list without records to v.
  lemma RenameOutsAny<E>(outs: seq<OutEdge<E>>, v: nat, b: nat)
    requires !AnyTo(outs, v)
    ensures AnyTo(RenameOuts(outs, v), b) == AnyTo(outs, Up(b, v))
  {
    var r := RenameOuts(outs, v);
    if AnyTo(r, b) {
      var i :| 0 <= i < |r| && r[i].to == b;
      assert outs[i].to == Up(b, v);
    }
    if AnyTo(outs, Up(b, v)) {
      var i :| 0 <= i < |outs| && outs[i].to == Up(b, v);
      assert r[i].to == b;
    }
  }

  lemma RenameOutsDistinct<E>(outs: seq<OutEdge<E>>, v: nat)
    requires !AnyTo(outs, v) && DistinctTargets(outs)
    ensures DistinctTargets(RenameOuts(outs, v))
  {
    var r := RenameOuts(outs, v);
    forall i, j | 0 <= i < j < |r| ensures r[i].to != r[j].to {
      assert outs[i].to != v && outs[j].to != v;
    }
  }

  // Relabelling a list: its record to u comes from its first record to u or v
  // (unless one was met before), every other target is an old target renamed.
  lemma {:induction false} RelabelAny<E>(outs: seq<OutEdge<E>>, u: nat, v: nat, found: bool, b: nat)
    requires u < v
    ensures AnyTo(RelabelRow(outs, u, v, found), b) ==
      if b == u then !found && (AnyTo(outs, u) || AnyTo(outs, v)) else AnyTo(outs, Up(b, v))
  {
    if outs != [] {
      var x := outs[0];
      if x.to == u || x.to == v {
        var head := if found then [] else [OutEdge(u, x.payload)];
        RelabelAny(outs[1..], u, v, true, b);
        AnyConcat(head, RelabelRow(outs[1..], u, v, true), b);
      } else {
        RelabelAny(outs[1..], u, v, found, b);
        AnyConcat([OutEdge(Shift(x.to, v), x.payload)], RelabelRow(outs[1..], u, v, found), b);
        assert Shift(x.to, v) == b <==> x.to == Up(b, v) && b != u;
      }
    }
  }

  lemma {:induction false} RelabelDistinct<E>(outs: seq<OutEdge<E>>, u: nat, v: nat, found: bool)
    requires u < v && DistinctTargets(outs)
    ensures DistinctTargets(RelabelRow(outs, u, v, found))
  {
    if outs != [] {
      var x := outs[0];
      DistinctHead(outs);
      if x.to == u || x.to == v {
        RelabelDistinct(outs[1..], u, v, true);
        if !found {
          var rest := RelabelRow(outs[1..], u, v, true);
          RelabelAny(outs[1..], u, v, true, u);
          assert ([OutEdge(u, x.payload)] + rest)[1..] == rest;
          DistinctHead([OutEdge(u, x.payload)] + rest);
        }
      } else {
        RelabelDistinct(outs[1..], u, v, found);
        var y := OutEdge(Shift(x.to, v), x.payload);
        var rest := RelabelRow(outs[1..], u, v, found);
        RelabelAny(outs[1..], u, v, found, y.to);
        assert y.to != u && Up(y.to, v) == x.to;
        assert ([y] + rest)[1..] == rest;
        DistinctHead([y] + rest);
      }
    }
  }

  // ---------------------------------------------------------------------------
  // What contract promises.

  // The merged list: u's targets other than v, and v's targets other than u.
  lemma MergedAny<V, E>(vs: seq<Vertex<V, E>>, u: nat, v: nat, t: nat)
    requires u < v < |vs| && Simple(vs)
    ensures AnyTo(MergedOuts(vs, u, v), t) ==
      ((t != v && AnyTo(vs[u].outs, t)) || (t != u && AnyTo(vs[v].outs, t)))
  {
    var uRem := RemoveFirstTo(vs[u].outs, v);
    assert DistinctTargets(vs[u].outs);
    RemoveFirstToAny(vs[u].outs, v, t);
    AbsorbedAny(vs[v].outs, uRem, u, t);
    AnyConcat(uRem, Absorbed(vs[v].outs, uRem, u), t);
    if AnyTo(vs[v].outs, t) {
      assert HasEdge(vs, v, t);
    }
  }

  lemma MergedDistinct<V, E>(vs: seq<Vertex<V, E>>, u: nat, v: nat)
    requires u < v < |vs| && Simple(vs)
    ensures DistinctTargets(MergedOuts(vs, u, v))
    ensures !AnyTo(MergedOuts(vs, u, v), v) && !AnyTo(MergedOuts(vs, u, v), u)
  {
    var uRem := RemoveFirstTo(vs[u].outs, v);
    assert DistinctTargets(vs[u].outs) && DistinctTargets(vs[v].outs);
    RemoveFirstToDistinct(vs[u].outs, v);
    AbsorbedDistinct(vs[v].outs, uRem, u);
    forall t: nat ensures AnyTo(Absorbed(vs[v].outs, uRem, u), t) ==> !AnyTo(uRem, t) {
      AbsorbedAny(vs[v].outs, uRem, u, t);
    }
    DistinctConcat(uRem, Absorbed(vs[v].outs, uRem, u));
    MergedAny(vs, u, v, v);
    MergedAny(vs, u, v, u);
    assert !HasEdge(vs, v, v) && !HasEdge(vs, u, u);
  }

  lemma ContractedAt<V, E>(vs: seq<Vertex<V, E>>, u: nat, v: nat, a: nat)
    requires u < v < |vs| && a < |vs| - 1
    ensures Contracted(vs, u, v)[a] ==
      if a == u then Vertex(vs[u].payload, RenameOuts(MergedOuts(vs, u, v), v))
      else Vertex(vs[Up(a, v)].payload, RelabelRow(vs[Up(a, v)].outs, u, v, false))
  {
  }

  // The steps of contract, composed: merging v's records into u, removing v,
  // relabelling every other list and renaming u's list reach Contracted.
  lemma ContractedSteps<V, E>(vs: seq<Vertex<V, E>>, u: nat, v: nat, rest: seq<Vertex<V, E>>, fin: seq<Vertex<V, E>>)
    requires u < v < |vs|
    requires rest == RemoveVertex(vs[u := Vertex(vs[u].payload, MergedOuts(vs, u, v))], v)
    requires |fin| == |rest| && fin[u] == Vertex(rest[u].payload, RenameOuts(rest[u].outs, v))
    requires forall j :: 0 <= j < |fin| && j != u ==> fin[j] == Vertex(rest[j].payload, RelabelRow(rest[j].outs, u, v, false))
    ensures fin == Contracted(vs, u, v)
  {
    var r := Contracted(vs, u, v);
    forall a | 0 <= a < |fin| ensures fin[a] == r[a] {
      ContractedAt(vs, u, v, a);
    }
  }

  // The merged row of the contracted graph.
  lemma ContractedRowMerged<V, E>(vs: seq<Vertex<V, E>>, u: nat, v: nat, b: nat)
    requires u < v < |vs| && Simple(vs)
    ensures var r := Contracted(vs, u, v);
      && r[u].payload == vs[u].payload
      && (HasEdge(r, u, b) <==> u != b && Joined(vs, u, v, u, b))
  {
    var r := Contracted(vs, u, v);
    var merged := MergedOuts(vs, u, v);
    var c := Up(b, v);
    ContractedAt(vs, u, v, u);
    MergedDistinct(vs, u, v);
    RenameOutsAny(merged, v, b);
    MergedAny(vs, u, v, c);
    assert HasEdge(r, u, b) == AnyTo(merged, c);
    assert HasEdge(vs, u, c) == AnyTo(vs[u].outs, c);
    assert HasEdge(vs, v, c) == AnyTo(vs[v].outs, c);
    assert c != v && Up(u, v) == u;
    assert c == u <==> b == u;
    if b == u {
      assert !HasEdge(vs, u, u);
    } else {
      assert AnyTo(merged, c) == (AnyTo(vs[u].outs, c) || AnyTo(vs[v].outs, c));
      assert Joined(vs, u, v, u, b) == (HasEdge(vs, u, c) || HasEdge(vs, v, c));
    }
  }

  // Any other row of the contracted graph.
  lemma ContractedRowOther<V, E>(vs: seq<Vertex<V, E>>, u: nat, v: nat, a: nat, b: nat)
    requires u < v < |vs| && Simple(vs) && a < |vs| - 1 && a != u
    ensures var r := Contracted(vs, u, v);
      && r[a].payload == vs[Up(a, v)].payload
      && (HasEdge(r, a, b) <==> a != b && Joined(vs, u, v, a, b))
  {
    var r := Contracted(vs, u, v);
    var old_a := Up(a, v);
    ContractedAt(vs, u, v, a);
    RelabelAny(vs[old_a].outs, u, v, false, b);
    assert HasEdge(r, a, b) == AnyTo(r[a].outs, b);
    assert HasEdge(vs, old_a, Up(b, v)) == AnyTo(vs[old_a].outs, Up(b, v));
    assert HasEdge(vs, old_a, u) == AnyTo(vs[old_a].outs, u);
    assert HasEdge(vs, old_a, v) == AnyTo(vs[old_a].outs, v);
    if a == b {
      assert !HasEdge(vs, old_a, old_a);
    }
  }

  lemma ContractedRow<V, E>(vs: seq<Vertex<V, E>>, u: nat, v: nat, a: nat, b: nat)
    requires u < v < |vs| && Simple(vs) && a < |vs| - 1
    ensures var r := Contracted(vs, u, v);
      && r[a].payload == vs[Up(a, v)].payload
      && (HasEdge(r, a, b) <==> a != b && Joined(vs, u, v, a, b))
  {
    if a == u {
      ContractedRowMerged(vs, u, v, b);
    } else {
      ContractedRowOther(vs, u, v, a, b);
    }
  }

  // What contract(u, v) promises: one vertex fewer, the other vertices keep
  // their payloads in order, the merged vertex has exactly the neighbours of u
  // and v (once each), every other edge is kept and renumbered, and the graph
  // stays simple (and symmetric when undirected: every record has its reverse
  // record).
  lemma ContractEffect<V, E>(vs: seq<Vertex<V, E>>, directed: bool, u: nat, v: nat)
    requires u < v < |vs| && WellFormed(vs, directed)
    ensures var r := Contracted(vs, u, v);
      && |r| == |vs| - 1
      && (forall a :: 0 <= a < |r| ==> r[a].payload == vs[Up(a, v)].payload)
      && (forall a: nat, b: nat :: HasEdge(r, a, b) <==> a < |r| && a != b && Joined(vs, u, v, a, b))
      && WellFormed(r, directed)
  {
    ContractedEdges(vs, u, v);
    ContractedDistinct(vs, u, v);
    ContractedInRange(vs, Contracted(vs, u, v), u, v);
    if !directed {
      ContractedSymmetric(vs, Contracted(vs, u, v), u, v);
    }
  }
  // An undirected graph whose contraction of 1 into 0 is shown below.
  function Uncontracted(): seq<Vertex<int, char>>
  {
    [Vertex(0, [OutEdge(2, 'a')]), Vertex(1, [OutEdge(2, 'b')]), Vertex(2, [OutEdge(1, 'b'), OutEdge(0, 'a')])]
  }

  lemma UncontractedMirrored()
    ensures WellFormed(Uncontracted(), false) && Mirrored(Uncontracted())
  {
    var vs := Uncontracted();
    assert vs[0].outs[0].to == 2 && vs[1].outs[0].to == 2 && vs[2].outs[0].to == 1 && vs[2].outs[1].to == 0;
    UncontractedPartners();
  }

  // Each record of the example has its partner.
  lemma UncontractedPartners()
    ensures Mirrored(Uncontracted())
  {
    var vs := Uncontracted();
    assert HasRecord(vs, 2, 0, 'a') && HasRecord(vs, 2, 1, 'b');
    assert HasRecord(vs, 1, 2, 'b') && HasRecord(vs, 0, 2, 'a');
  }

  // Undirected contract does not keep the two records of an edge at one
  // payload. Merging 1 into 0 keeps 0's record 0 -> 2 ('a') but turns 2's
  // first record to 0 or 1, the record 2 -> 1 ('b'), into 2 -> 0, and drops the
  // matching 2 -> 0 ('a'): the surviving edge reads 'a' from one end and 'b'
  // from the other.
  lemma ContractUnmirrored()
    ensures Contracted(Uncontracted(), 0, 1) == [Vertex(0, [OutEdge(1, 'a')]), Vertex(2, [OutEdge(0, 'b')])]
    ensures !Mirrored(Contracted(Uncontracted(), 0, 1))
  {
    var vs := Uncontracted();
    var r := [Vertex(0, [OutEdge(1, 'a')]), Vertex(2, [OutEdge(0, 'b')])];
    assert vs[0].outs[0].to == 2;
    assert RemoveFirstTo(vs[0].outs, 1) == vs[0].outs;
    assert Absorbed(vs[1].outs, vs[0].outs, 0) == [];
    assert RenameOuts(MergedOuts(vs, 0, 1), 1) == r[0].outs;
    assert RemoveVertex(vs, 1) == [vs[0], vs[2]];
    assert RelabelRow(vs[2].outs[1..], 0, 1, true) == [];
    assert RelabelRow(vs[2].outs, 0, 1, false) == r[1].outs;
    assert Contracted(vs, 0, 1) == r;
    assert !HasRecord(r, r[1].outs[0].to, 1, r[1].outs[0].payload);
  }



  lemma ContractedEdges<V, E>(vs: seq<Vertex<V, E>>, u: nat, v: nat)
    requires u < v < |vs| && Simple(vs)
    ensures var r := Contracted(vs, u, v);
      && (forall a :: 0 <= a < |r| ==> r[a].payload == vs[Up(a, v)].payload)
      && (forall a: nat, b: nat :: HasEdge(r, a, b) <==> a < |r| && a != b && Joined(vs, u, v, a, b))
  {
    var r := Contracted(vs, u, v);
    forall a: nat, b: nat ensures HasEdge(r, a, b) <==> a < |r| && a != b && Joined(vs, u, v, a, b) {
      if a < |r| { ContractedRow(vs, u, v, a, b); }
    }
    forall a | 0 <= a < |r| ensures r[a].payload == vs[Up(a, v)].payload {
      ContractedRow(vs, u, v, a, 0);
    }
  }

  lemma ContractedDistinct<V, E>(vs: seq<Vertex<V, E>>, u: nat, v: nat)
    requires u < v < |vs| && Simple(vs)
    ensures NoMultiEdges(Contracted(vs, u, v))
  {
    forall a | 0 <= a < |vs| - 1 ensures DistinctTargets(Contracted(vs, u, v)[a].outs) {
      ContractedRowDistinct(vs, u, v, a);
    }
  }

  lemma ContractedRowDistinct<V, E>(vs: seq<Vertex<V, E>>, u: nat, v: nat, a: nat)
    requires u < v < |vs| && a < |vs| - 1 && Simple(vs)
    ensures DistinctTargets(Contracted(vs, u, v)[a].outs)
  {
    if a == u {
      MergedDistinct(vs, u, v);
      RenameOutsDistinct(MergedOuts(vs, u, v), v);
    } else {
      assert DistinctTargets(vs[Up(a, v)].outs);
      ContractedOtherRow(vs, u, v, a);
    }
  }

  // A row other than the merged one is the old row relabelled.
  lemma ContractedOtherRow<V, E>(vs: seq<Vertex<V, E>>, u: nat, v: nat, a: nat)
    requires u < v < |vs| && a < |vs| - 1 && a != u && DistinctTargets(vs[Up(a, v)].outs)
    ensures DistinctTargets(Contracted(vs, u, v)[a].outs)
  {
    assert Contracted(vs, u, v)[a].outs == RelabelRow(vs[Up(a, v)].outs, u, v, false);
    RelabelDistinct(vs[Up(a, v)].outs, u, v, false);
  }

  lemma ContractedInRange<V, E>(vs: seq<Vertex<V, E>>, r: seq<Vertex<V, E>>, u: nat, v: nat)
    requires u < v < |vs| && Simple(vs) && |r| == |vs| - 1
    requires forall a: nat, b: nat :: HasEdge(r, a, b) <==> a < |r| && a != b && Joined(vs, u, v, a, b)
    ensures InRange(r) && NoLoops(r)
  {
    forall a, i | 0 <= a < |r| && 0 <= i < |r[a].outs| ensures r[a].outs[i].to < |r| && r[a].outs[i].to != a {
      var b := r[a].outs[i].to;
      assert HasEdge(r, a, b);
      if HasEdge(vs, Up(a, v), Up(b, v)) {
        var j :| 0 <= j < |vs[Up(a, v)].outs| && vs[Up(a, v)].outs[j].to == Up(b, v);
      } else if a == u && HasEdge(vs, v, Up(b, v)) {
        var j :| 0 <= j < |vs[v].outs| && vs[v].outs[j].to == Up(b, v);
      }
    }
  }

  lemma ContractedSymmetric<V, E>(vs: seq<Vertex<V, E>>, r: seq<Vertex<V, E>>, u: nat, v: nat)
    requires u < v < |vs| && Symmetric(vs) && InRange(r)
    requires forall a: nat, b: nat :: HasEdge(r, a, b) <==> a < |r| && a != b && Joined(vs, u, v, a, b)
    ensures Symmetric(r)
  {
    forall a: nat, b: nat | HasEdge(r, a, b) ensures HasEdge(r, b, a) {
      assert HasEdge(vs, Up(a, v), Up(b, v)) ==> HasEdge(vs, Up(b, v), Up(a, v));
      assert HasEdge(vs, v, Up(b, v)) ==> HasEdge(vs, Up(b, v), v);
      assert HasEdge(vs, Up(a, v), v) ==> HasEdge(vs, v, Up(a, v));
      assert b < |r| by {
        var i :| 0 <= i < |r[a].outs| && r[a].outs[i].to == b;
      }
    }
  }
}
