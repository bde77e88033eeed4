// disjoint_set: a union-find forest over the indices 0 .. size - 1. The parent
// vector points every index at its parent (a root is its own parent), the
// cardinality vector is meaningful at roots, and a counter holds the number of
// sets. unite links by size; find follows parent pointers under one of four
// strategies, three of which shorten the path they walk.
module DisjointSets {
  import opened Util

  // disjoint_set_find_strategy_t
  datatype FindStrategy = Naive | PathCompression | PathHalving | PathSplitting

  // ---------------------------------------------------------------------------
  // The forest, as values.

  // A ghost rank that strictly decreases along every parent pointer, so that
  // following parents always reaches a root.
  ghost predicate Ranked(parent: seq<nat>, rank: seq<nat>)
  {
    |rank| == |parent|
    && (forall i :: 0 <= i < |parent| ==> parent[i] < |parent|)
    && (forall i :: 0 <= i < |parent| && parent[i] != i ==> rank[parent[i]] < rank[i])
  }

  // The root reached from i by following parent pointers.
  ghost function Root(parent: seq<nat>, rank: seq<nat>, i: nat): (r: nat)
    requires Ranked(parent, rank) && i < |parent|
    ensures r < |parent| && parent[r] == r
    decreases rank[i]
  {
    if parent[i] == i then i else Root(parent, rank, parent[i])
  }

  // The root of every index, in index order.
  ghost function Roots(parent: seq<nat>, rank: seq<nat>): (r: seq<nat>)
    requires Ranked(parent, rank)
    ensures |r| == |parent| && forall i :: 0 <= i < |parent| ==> r[i] == Root(parent, rank, i)
  {
    seq(|parent|, i requires 0 <= i < |parent| => Root(parent, rank, i))
  }

  // The indices whose root is r: the set r stands for.
  ghost function Members(parent: seq<nat>, rank: seq<nat>, r: nat): set<nat>
    requires Ranked(parent, rank)
  {
    set i: nat | i < |parent| && Root(parent, rank, i) == r
  }

  ghost function RootSet(parent: seq<nat>): set<nat>
  {
    set i: nat | i < |parent| && parent[i] == i
  }

  // What m_card and m_sets mean: the cardinality stored at a root is the size
  // of its set, and the set count is the number of roots.
  ghost predicate Partition(parent: seq<nat>, rank: seq<nat>, card: seq<nat>, sets: nat)
  {
    Ranked(parent, rank) && |card| == |parent|
    && (forall r :: 0 <= r < |parent| && parent[r] == r ==> card[r] == |Members(parent, rank, r)|)
    && sets == |RootSet(parent)|
  }

  // The roots after the sets of x and y are joined under w.
  function Merged(roots: seq<nat>, x: nat, y: nat, w: nat): (r: seq<nat>)
    ensures |r| == |roots|
  {
    seq(|roots|, i requires 0 <= i < |roots| => if roots[i] == x || roots[i] == y then w else roots[i])
  }

  // The parent vector of a freshly reset forest: every index its own root.
  function Identity(n: nat): (r: seq<nat>)
    ensures |r| == n && forall i :: 0 <= i < n ==> r[i] == i
  {
    seq(n, i => i)
  }

  // ---------------------------------------------------------------------------
  // Lemmas about the forest.

  // Following parents never climbs in rank.
  lemma {:induction false} RootBelow(parent: seq<nat>, rank: seq<nat>, i: nat)
    requires Ranked(parent, rank) && i < |parent|
    ensures Root(parent, rank, i) == i || rank[Root(parent, rank, i)] < rank[i]
    decreases rank[i]
  {
    if parent[i] != i {
      RootBelow(parent, rank, parent[i]);
    }
  }

  // In the forest of n singletons, every index is its own root and its set is
  // itself alone.
  lemma Singletons(n: nat)
    ensures Partition(Identity(n), seq(n, _ => 0), seq(n, _ => 1), n)
    ensures forall i :: 0 <= i < n ==>
      Root(Identity(n), seq(n, _ => 0), i) == i && Members(Identity(n), seq(n, _ => 0), i) == {i}
  {
    var parent, rank := Identity(n), seq(n, _ => 0);
    forall r | 0 <= r < n ensures Members(parent, rank, r) == {r} {
      assert r in Members(parent, rank, r);
    }
    assert RootSet(parent) == Below(n);
    BelowCard(n);
  }

  // Pointing x at one of its proper ancestors a changes no root.
  lemma {:induction false} RepointRoot(parent: seq<nat>, rank: seq<nat>, x: nat, a: nat, i: nat)
    requires Ranked(parent, rank) && x < |parent| && a < |parent| && i < |parent|
    requires rank[a] < rank[x] && Root(parent, rank, a) == Root(parent, rank, x)
    requires Ranked(parent[x := a], rank)
    ensures Root(parent[x := a], rank, i) == Root(parent, rank, i)
    decreases rank[i]
  {
    var p := parent[x := a];
    if i == x {
      RepointRoot(parent, rank, x, a, a);
    } else if parent[i] != i {
      RepointRoot(parent, rank, x, a, parent[i]);
    }
  }

  // What every find strategy does to the forest, one pointer at a time.
  lemma Repoint(parent: seq<nat>, rank: seq<nat>, card: seq<nat>, sets: nat, x: nat, a: nat)
    requires Partition(parent, rank, card, sets) && x < |parent| && a < |parent|
    requires rank[a] < rank[x] && Root(parent, rank, a) == Root(parent, rank, x)
    ensures Partition(parent[x := a], rank, card, sets)
    ensures Roots(parent[x := a], rank) == Roots(parent, rank)
  {
    var p := parent[x := a];
    RootBelow(parent, rank, a);
    assert parent[x] != x;
    forall i | 0 <= i < |p| ensures Root(p, rank, i) == Root(parent, rank, i) {
      RepointRoot(parent, rank, x, a, i);
    }
    forall r | 0 <= r < |p| ensures Members(p, rank, r) == Members(parent, rank, r) {
    }
    assert RootSet(p) == RootSet(parent);
  }

  // The rank after linking: the linked tree is lifted above the other root.
  ghost function Lift(parent: seq<nat>, rank: seq<nat>, minRoot: nat, maxRoot: nat): (r: seq<nat>)
    requires Ranked(parent, rank) && maxRoot < |parent|
    ensures |r| == |rank|
  {
    seq(|parent|, i requires 0 <= i < |parent| =>
      rank[i] + if Root(parent, rank, i) == minRoot then rank[maxRoot] + 1 else 0)
  }

  lemma {:induction false} LinkRoot(parent: seq<nat>, rank: seq<nat>, minRoot: nat, maxRoot: nat, i: nat)
    requires Ranked(parent, rank) && minRoot < |parent| && maxRoot < |parent| && i < |parent|
    requires parent[minRoot] == minRoot && parent[maxRoot] == maxRoot && minRoot != maxRoot
    requires Ranked(parent[minRoot := maxRoot], Lift(parent, rank, minRoot, maxRoot))
    ensures Root(parent[minRoot := maxRoot], Lift(parent, rank, minRoot, maxRoot), i) ==
      if Root(parent, rank, i) == minRoot then maxRoot else Root(parent, rank, i)
    decreases rank[i]
  {
    if parent[i] != i {
      LinkRoot(parent, rank, minRoot, maxRoot, parent[i]);
    }
  }

  // Lifting the linked tree keeps the rank decreasing along every pointer.
  lemma LinkRanked(parent: seq<nat>, rank: seq<nat>, minRoot: nat, maxRoot: nat)
    requires Ranked(parent, rank) && minRoot < |parent| && maxRoot < |parent|
    requires parent[minRoot] == minRoot && parent[maxRoot] == maxRoot && minRoot != maxRoot
    ensures Ranked(parent[minRoot := maxRoot], Lift(parent, rank, minRoot, maxRoot))
  {
    var p := parent[minRoot := maxRoot];
    var k := Lift(parent, rank, minRoot, maxRoot);
    forall i | 0 <= i < |p| && p[i] != i ensures k[p[i]] < k[i] {
      if i != minRoot {
        assert Root(parent, rank, parent[i]) == Root(parent, rank, i);
      }
    }
  }

  // Linking one root under another joins their sets: the counters stay true
  // once the cardinalities are added and the set count drops by one.
  lemma Link(parent: seq<nat>, rank: seq<nat>, card: seq<nat>, sets: nat, minRoot: nat, maxRoot: nat)
    requires Partition(parent, rank, card, sets) && minRoot < |parent| && maxRoot < |parent|
    requires parent[minRoot] == minRoot && parent[maxRoot] == maxRoot && minRoot != maxRoot
    ensures sets >= 2
    ensures Partition(parent[minRoot := maxRoot], Lift(parent, rank, minRoot, maxRoot),
      card[maxRoot := card[maxRoot] + card[minRoot]], sets - 1)
    ensures Roots(parent[minRoot := maxRoot], Lift(parent, rank, minRoot, maxRoot)) ==
      Merged(Roots(parent, rank), minRoot, maxRoot, maxRoot)
  {
    var p := parent[minRoot := maxRoot];
    LinkRanked(parent, rank, minRoot, maxRoot);
    var k := Lift(parent, rank, minRoot, maxRoot);
    forall i | 0 <= i < |p| ensures Root(p, k, i) == if Root(parent, rank, i) == minRoot then maxRoot else Root(parent, rank, i) {
      LinkRoot(parent, rank, minRoot, maxRoot, i);
    }
    LinkMembers(parent, rank, minRoot, maxRoot);
    LinkCount(parent, sets, minRoot, maxRoot);
  }

  lemma LinkMembers(parent: seq<nat>, rank: seq<nat>, minRoot: nat, maxRoot: nat)
    requires Ranked(parent, rank) && minRoot < |parent| && maxRoot < |parent|
    requires parent[minRoot] == minRoot && parent[maxRoot] == maxRoot && minRoot != maxRoot
    requires Ranked(parent[minRoot := maxRoot], Lift(parent, rank, minRoot, maxRoot))
    requires forall i :: 0 <= i < |parent| ==>
      Root(parent[minRoot := maxRoot], Lift(parent, rank, minRoot, maxRoot), i) ==
      (if Root(parent, rank, i) == minRoot then maxRoot else Root(parent, rank, i))
    ensures |Members(parent[minRoot := maxRoot], Lift(parent, rank, minRoot, maxRoot), maxRoot)| ==
      |Members(parent, rank, maxRoot)| + |Members(parent, rank, minRoot)|
    ensures forall r :: 0 <= r < |parent| && r != maxRoot && r != minRoot ==>
      Members(parent[minRoot := maxRoot], Lift(parent, rank, minRoot, maxRoot), r) == Members(parent, rank, r)
  {
    var p := parent[minRoot := maxRoot];
    var k := Lift(parent, rank, minRoot, maxRoot);
    assert Members(p, k, maxRoot) == Members(parent, rank, maxRoot) + Members(parent, rank, minRoot);
    assert Members(parent, rank, maxRoot) * Members(parent, rank, minRoot) == {};
  }

  lemma LinkCount(parent: seq<nat>, sets: nat, minRoot: nat, maxRoot: nat)
    requires sets == |RootSet(parent)| && minRoot < |parent| && maxRoot < |parent|
    requires parent[minRoot] == minRoot && parent[maxRoot] == maxRoot && minRoot != maxRoot
    ensures sets >= 2 && |RootSet(parent[minRoot := maxRoot])| == sets - 1
  {
    assert RootSet(parent[minRoot := maxRoot]) == RootSet(parent) - {minRoot};
    assert {minRoot, maxRoot} <= RootSet(parent);
    SubsetCard({minRoot, maxRoot}, RootSet(parent));
  }

  // ---------------------------------------------------------------------------
  // reset as the library writes it: m_card.resize(size, 1) keeps the old
  // cardinalities of the indices that survive.

  function ResizedCards(card: seq<nat>, size: nat): (r: seq<nat>)
    ensures |r| == size
    ensures forall i :: 0 <= i < size ==> r[i] == if i < |card| then card[i] else 1
  {
    if size <= |card| then card[..size] else card + seq(size - |card|, _ => 1)
  }

  // After unite(0, 1) on two elements the forest is parent [0, 0] with
  // cardinalities [2, 1], a true partition; reset(2) then leaves the singleton
  // {0} with cardinality 2.
  lemma ResetAsWrittenKeepsCardinality()
    ensures Partition([0, 0], [0, 1], [2, 1], 1)
    ensures Members(Identity(2), [0, 0], 0) == {0}
    ensures ResizedCards([2, 1], 2)[0] == 2
    ensures !Partition(Identity(2), [0, 0], ResizedCards([2, 1], 2), 2)
  {
    var parent, rank := [0, 0], [0, 1];
    assert Members(parent, rank, 0) == {0, 1} by {
      assert Root(parent, rank, 1) == 0;
    }
    assert RootSet(parent) == {0};
    assert Members(Identity(2), [0, 0], 0) == {0} by {
      assert Root(Identity(2), [0, 0], 1) == 1;
    }
  }

  // ---------------------------------------------------------------------------
  // The class.

  class DisjointSet {
    const strategy: FindStrategy
    var parent: seq<nat>
    var card: seq<nat>
    var sets: nat
    ghost var rank: seq<nat>

    ghost predicate Valid()
      reads this
    {
      Partition(parent, rank, card, sets)
    }

    // The root find returns for index, in the current forest.
    ghost function RootOf(index: nat): nat
      reads this
      requires Valid() && index < |parent|
    {
      Root(parent, rank, index)
    }

    // disjoint_set(size): size singletons.
    constructor(strategy: FindStrategy, size: nat)
      ensures this.strategy == strategy && Valid()
      ensures |parent| == size && sets == size
      ensures forall i :: 0 <= i < size ==> RootOf(i) == i && card[i] == 1 && Members(parent, rank, i) == {i}
    {
      this.strategy := strategy;
      parent := Identity(size);
      card := seq(size, _ => 1);
      sets := size;
      rank := seq(size, _ => 0);
      Singletons(size);
    }

    // reset(size), with every cardinality reset to 1 (see ResizedCards for the
    // library's resize, which keeps old cardinalities).
    method Reset(size: nat)
      modifies this
      ensures Valid() && |parent| == size && sets == size
      ensures forall i :: 0 <= i < size ==> RootOf(i) == i && card[i] == 1 && Members(parent, rank, i) == {i}
    {
      parent := Identity(size);
      card := seq(size, _ => 1);
      sets := size;
      rank := seq(size, _ => 0);
      Singletons(size);
    }

    function Size(): nat
      reads this
    {
      |parent|
    }

    function Sets(): nat
      reads this
    {
      sets
    }

    // find with the naive strategy: walk up without changing anything.
    method FindNaive(index: nat) returns (r: nat)
      requires Valid() && index < |parent|
      ensures r == RootOf(index)
    {
      r := index;
      while parent[r] != r
        invariant r < |parent| && Root(parent, rank, r) == Root(parent, rank, index)
        decreases rank[r]
      {
        r := parent[r];
      }
    }

    // find with path compression: walk up to the root, then walk the same path
    // again pointing every node at the root.
    method FindCompression(index: nat) returns (r: nat)
      requires Valid() && index < |parent|
      modifies this
      ensures Valid() && r == old(RootOf(index))
      ensures Roots(parent, rank) == old(Roots(parent, rank))
      ensures card == old(card) && sets == old(sets) && rank == old(rank)
    {
      r := FindNaive(index);
      ghost var roots := Roots(parent, rank);
      var i: nat := index;
      while parent[i] != i
        invariant Valid() && i < |parent| && Root(parent, rank, i) == r
        invariant Roots(parent, rank) == roots
        invariant card == old(card) && sets == old(sets) && rank == old(rank)
        decreases rank[i]
      {
        var next := parent[i];
        RootBelow(parent, rank, i);
        Repoint(parent, rank, card, sets, i, r);
        parent := parent[i := r];
        i := next;
      }
    }

    // find with path halving: every other node on the path is pointed at its
    // grandparent, and the walk continues from there.
    method FindHalving(index: nat) returns (r: nat)
      requires Valid() && index < |parent|
      modifies this
      ensures Valid() && r == old(RootOf(index))
      ensures Roots(parent, rank) == old(Roots(parent, rank))
      ensures card == old(card) && sets == old(sets) && rank == old(rank)
    {
      ghost var roots := Roots(parent, rank);
      r := index;
      while parent[r] != r
        invariant Valid() && r < |parent| && Root(parent, rank, r) == roots[index]
        invariant Roots(parent, rank) == roots
        invariant card == old(card) && sets == old(sets) && rank == old(rank)
        decreases rank[r]
      {
        var grand := parent[parent[r]];
        Repoint(parent, rank, card, sets, r, grand);
        parent := parent[r := grand];
        r := grand;
      }
    }

    // find with path splitting: every node on the path is pointed at its
    // grandparent, and the walk continues from its old parent.
    method FindSplitting(index: nat) returns (r: nat)
      requires Valid() && index < |parent|
      modifies this
      ensures Valid() && r == old(RootOf(index))
      ensures Roots(parent, rank) == old(Roots(parent, rank))
      ensures card == old(card) && sets == old(sets) && rank == old(rank)
    {
      ghost var roots := Roots(parent, rank);
      r := index;
      while parent[r] != r
        invariant Valid() && r < |parent| && Root(parent, rank, r) == roots[index]
        invariant Roots(parent, rank) == roots
        invariant card == old(card) && sets == old(sets) && rank == old(rank)
        decreases rank[r]
      {
        var next := parent[r];
        Repoint(parent, rank, card, sets, r, parent[next]);
        parent := parent[r := parent[next]];
        r := next;
      }
    }

    // find, under the strategy the set was built with.
    method Find(index: nat) returns (r: nat)
      requires Valid() && index < |parent|
      modifies this
      ensures Valid() && r == old(RootOf(index))
      ensures Roots(parent, rank) == old(Roots(parent, rank))
      ensures card == old(card) && sets == old(sets) && rank == old(rank)
    {
      match strategy
      case Naive => r := FindNaive(index);
      case PathCompression => r := FindCompression(index);
      case PathHalving => r := FindHalving(index);
      case PathSplitting => r := FindSplitting(index);
    }

    // unite(a, b): false when a and b are in one set already; otherwise the
    // root of the smaller set (b's on a tie) is linked under the other root.
    method Unite(a: nat, b: nat) returns (r: bool)
      requires Valid() && a < |parent| && b < |parent|
      modifies this
      ensures Valid() && |parent| == old(|parent|)
      ensures r == (old(RootOf(a)) != old(RootOf(b)))
      ensures !r ==> Roots(parent, rank) == old(Roots(parent, rank)) && card == old(card) && sets == old(sets)
      ensures r ==> sets == old(sets) - 1
      ensures r ==> RootOf(a) == RootOf(b)
      ensures r ==> RootOf(a) == (if old(card[RootOf(a)] < card[RootOf(b)]) then old(RootOf(b)) else old(RootOf(a)))
      ensures r ==> Roots(parent, rank) == Merged(old(Roots(parent, rank)), old(RootOf(a)), old(RootOf(b)), RootOf(a))
    {
      var aRoot := Find(a);
      var bRoot := Find(b);
      if aRoot == bRoot {
        return false;
      }
      var minRoot := if card[aRoot] < card[bRoot] then aRoot else bRoot;
      var maxRoot := if card[aRoot] < card[bRoot] then bRoot else aRoot;
      ghost var roots := Roots(parent, rank);
      Join(minRoot, maxRoot);
      assert Roots(parent, rank)[a] == maxRoot && Roots(parent, rank)[b] == maxRoot;
      if minRoot == aRoot {
        assert Merged(roots, minRoot, maxRoot, maxRoot) == Merged(roots, aRoot, bRoot, maxRoot);
      } else {
        assert Merged(roots, minRoot, maxRoot, maxRoot) == Merged(roots, aRoot, bRoot, maxRoot);
      }
      return true;
    }

    // The linking step of unite: minRoot goes under maxRoot, which takes over
    // its cardinality.
    method Join(minRoot: nat, maxRoot: nat)
      requires Valid() && minRoot < |parent| && maxRoot < |parent| && minRoot != maxRoot
      requires RootOf(minRoot) == minRoot && RootOf(maxRoot) == maxRoot
      modifies this
      ensures Valid() && |parent| == old(|parent|) && sets == old(sets) - 1
      ensures Roots(parent, rank) == Merged(old(Roots(parent, rank)), minRoot, maxRoot, maxRoot)
    {
      Link(parent, rank, card, sets, minRoot, maxRoot);
      rank := Lift(parent, rank, minRoot, maxRoot);
      parent := parent[minRoot := maxRoot];
      card := card[maxRoot := card[maxRoot] + card[minRoot]];
      sets := sets - 1;
    }

    // cardinality(index): the size of index's set.
    method Cardinality(index: nat) returns (r: nat)
      requires Valid() && index < |parent|
      modifies this
      ensures Valid() && Roots(parent, rank) == old(Roots(parent, rank))
      ensures card == old(card) && sets == old(sets)
      ensures r == |set y: nat | y < |parent| && old(RootOf(y)) == old(RootOf(index))|
    {
      ghost var roots := Roots(parent, rank);
      var root := Find(index);
      r := card[root];
      assert (set y: nat | y < |parent| && old(RootOf(y)) == old(RootOf(index))) == Members(parent, rank, root) by {
        forall y: nat | y < |parent| ensures (Root(parent, rank, y) == root) == (old(RootOf(y)) == old(RootOf(index))) {
          assert roots[y] == old(RootOf(y));
          assert Roots(parent, rank)[y] == Root(parent, rank, y);
        }
      }
    }

    // same_set(a, b): a and b are in one set.
    method SameSet(a: nat, b: nat) returns (r: bool)
      requires Valid() && a < |parent| && b < |parent|
      modifies this
      ensures Valid() && Roots(parent, rank) == old(Roots(parent, rank))
      ensures card == old(card) && sets == old(sets)
      ensures r == (old(RootOf(a)) == old(RootOf(b)))
    {
      if a == b {
        return true;
      }
      var aRoot := Find(a);
      var bRoot := Find(b);
      r := aRoot == bRoot;
    }
  }
}
