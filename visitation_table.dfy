// visitation_table_t: one flag per vertex saying whether the vertex has been
// visited, and a wrapper that marks a vertex just before handing it to a
// visitor.
module VisitationTables {
  import opened Util
  import opened GraphTypes
  import opened AdjacencyList

  class VisitationTable {
    var visited: seq<bool>

    // visitation_table_t(n): n flags, none set.
    constructor(n: nat)
      ensures visited == seq(n, _ => false) && CountTrue(visited) == 0
    {
      visited := seq(n, _ => false);
      CountTrueAll(n);
    }

    // visitation_table_t(graph): one flag per vertex of the graph.
    constructor ForGraph<V, E>(g: Graph<V, E>)
      ensures visited == seq(|g.vertices|, _ => false) && CountTrue(visited) == 0
    {
      visited := seq(|g.vertices|, _ => false);
      CountTrueAll(|g.vertices|);
    }

    // set(index): flag index, and only index.
    method Set(index: nat)
      requires index < |visited|
      modifies this
      ensures visited == old(visited)[index := true]
      ensures CountTrue(visited) == old(CountTrue(visited)) + (if old(visited[index]) then 0 else 1)
    {
      if !visited[index] {
        CountTrueSet(visited, index);
      } else {
        assert visited[index := true] == visited;
      }
      visited := visited[index := true];
    }

    // operator()(index): the flag of index.
    function Visited(index: nat): bool
      reads this
      requires index < |visited|
    {
      visited[index]
    }

    // hook_visitor: the wrapped visitor flags its vertex, then answers what the
    // visitor answers.
    method HookVisit(visitor: nat -> bool, index: nat) returns (r: bool)
      requires index < |visited|
      modifies this
      ensures visited == old(visited)[index := true] && Visited(index)
      ensures r == visitor(index)
    {
      Set(index);
      r := visitor(index);
    }
  }
}
