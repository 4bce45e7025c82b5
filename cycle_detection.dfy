/**
 * The cycle check of the validation engine: an adjacency map built from the
 * edge list, then a depth-first search started from every node id that keeps
 * a visited set and a separate set of the vertices on the recursion stack.
 * It reports a cycle exactly when it meets an edge back to a vertex that is
 * still on the recursion stack.
 */
module CycleDetection {
  import opened Pipeline
  import opened Digraph
  import opened SearchInvariant

  /**
   * The adjacency map: an empty list for every node id, then each edge's
   * target pushed onto the list of its source, in edge order. Sources that
   * are not node ids get a list too.
   */
  method BuildAdjacency(nodeIds: seq<Id>, edges: seq<Edge>) returns (adjacency: map<Id, seq<Id>>)
    ensures forall id :: id in nodeIds ==> id in adjacency
    ensures forall u :: Neighbors(adjacency, u) == Targets(edges, u)
  {
    adjacency := map[];
    for i := 0 to |nodeIds|
      invariant forall u :: u in adjacency ==> adjacency[u] == []
      invariant forall k :: 0 <= k < i ==> nodeIds[k] in adjacency
    {
      adjacency := adjacency[nodeIds[i] := []];
    }
    for k := 0 to |edges|
      invariant forall id :: id in nodeIds ==> id in adjacency
      invariant forall u :: Neighbors(adjacency, u) == Targets(edges[..k], u)
    {
      var edge := edges[k];
      var neighbors := Neighbors(adjacency, edge.source);
      adjacency := adjacency[edge.source := neighbors + [edge.target]];
      assert edges[..k + 1][..k] == edges[..k];
    }
    assert edges[..|edges|] == edges;
  }

  /**
   * `dfs(u)`: visit `u` (`visited.add(u)`, `recursionStack.add(u)`) and
   * explore its successors in order; a cycle found at any successor is
   * reported at once. When every successor is done, `u` leaves the stack
   * (`recursionStack.delete(u)`). The shared sets are passed in and handed
   * back; `path` (the stack in order), `rank` and `clock` (the finishing
   * order) are ghost bookkeeping for the proof.
   */
  method Dfs(ghost roots: seq<Id>, ghost edges: seq<Edge>, ghost universe: set<Id>, adjacency: map<Id, seq<Id>>,
             u: Id, visited0: set<Id>, recursionStack0: set<Id>,
             ghost path: seq<Id>, ghost rank0: map<Id, nat>, ghost clock0: nat)
    returns (found: bool, visited: set<Id>, recursionStack: set<Id>, ghost rank: map<Id, nat>, ghost clock: nat)
    requires SearchFrame(roots, edges, universe, adjacency)
    requires SearchState(roots, edges, path, visited0, recursionStack0, rank0, clock0)
    requires u in universe && u !in visited0
    requires if path == [] then u in roots else Arc(edges, path[|path| - 1], u)
    decreases universe - visited0, 0
    ensures found ==> CycleReachable(roots, edges)
    ensures !found ==> SearchState(roots, edges, path, visited, recursionStack, rank, clock)
    ensures !found ==> recursionStack == recursionStack0 && visited0 + {u} <= visited
    ensures !found ==> u in rank && Extends(rank0, rank)
  {
    EnterKeepsSearchState(roots, edges, path, u, visited0, recursionStack0, rank0, clock0);
    visited := visited0 + {u};
    recursionStack := recursionStack0 + {u};
    rank, clock := rank0, clock0;
    ghost var stacked := path + [u];
    var neighbors := Neighbors(adjacency, u);
    var i := 0;
    while i < |neighbors|
      invariant 0 <= i <= |neighbors|
      invariant SearchState(roots, edges, stacked, visited, recursionStack, rank, clock)
      invariant recursionStack == recursionStack0 + {u} && visited0 + {u} <= visited
      invariant Extends(rank0, rank)
      invariant forall k :: 0 <= k < i ==> neighbors[k] in rank
    {
      ghost var rank' := rank;
      found, visited, recursionStack, rank, clock :=
        Explore(roots, edges, universe, adjacency, u, neighbors[i], visited, recursionStack, stacked, rank, clock);
      if found {
        return;
      }
      ExtendsTransitive(rank0, rank', rank);
      i := i + 1;
    }
    LeaveKeepsSearchState(roots, edges, path, u, visited, recursionStack0, rank0, rank, clock);
    recursionStack := recursionStack - {u};
    assert recursionStack == recursionStack0;
    rank := rank[u := clock];
    clock := clock + 1;
    found := false;
  }

  /**
   * One successor `v` of the vertex `u` on top of the stack: an unvisited one
   * is explored by `dfs`; a visited one still on the recursion stack closes a
   * cycle (a back edge); a finished one is skipped.
   */
  method Explore(ghost roots: seq<Id>, ghost edges: seq<Edge>, ghost universe: set<Id>, adjacency: map<Id, seq<Id>>,
                 u: Id, v: Id, visited0: set<Id>, recursionStack0: set<Id>,
                 ghost path: seq<Id>, ghost rank0: map<Id, nat>, ghost clock0: nat)
    returns (found: bool, visited: set<Id>, recursionStack: set<Id>, ghost rank: map<Id, nat>, ghost clock: nat)
    requires SearchFrame(roots, edges, universe, adjacency)
    requires SearchState(roots, edges, path, visited0, recursionStack0, rank0, clock0)
    requires path != [] && path[|path| - 1] == u && v in Targets(edges, u)
    decreases universe - visited0, 1
    ensures found ==> CycleReachable(roots, edges)
    ensures !found ==> SearchState(roots, edges, path, visited, recursionStack, rank, clock)
    ensures !found ==> recursionStack == recursionStack0 && visited0 <= visited
    ensures !found ==> v in rank && Extends(rank0, rank)
  {
    ArcIffTarget(edges, u, v);
    if v !in visited0 {
      found, visited, recursionStack, rank, clock :=
        Dfs(roots, edges, universe, adjacency, v, visited0, recursionStack0, path, rank0, clock0);
    } else if v in recursionStack0 {
      BackEdgeClosesLasso(edges, roots, path, recursionStack0, visited0, v);
      found, visited, recursionStack, rank, clock := true, visited0, recursionStack0, rank0, clock0;
    } else {
      found, visited, recursionStack, rank, clock := false, visited0, recursionStack0, rank0, clock0;
    }
  }

  /**
   * `hasCycle(nodes, edges)`: a depth-first search from every node id not yet
   * visited. It returns true exactly when some walk from a node id runs into
   * a directed cycle.
   */
  method HasCycle(nodes: seq<Node>, edges: seq<Edge>) returns (found: bool)
    ensures found <==> CycleReachable(NodeIds(nodes), edges)
  {
    var nodeIds := NodeIds(nodes);
    var adjacency := BuildAdjacency(nodeIds, edges);
    ghost var universe := (set r | r in nodeIds) + (set e | e in edges :: e.target);
    forall u, v | Arc(edges, u, v) ensures v in universe {
      ArcIffEdge(edges, u, v);
      var e :| e in edges && e.source == u && e.target == v;
    }
    var visited: set<Id> := {};
    var recursionStack: set<Id> := {};
    ghost var rank: map<Id, nat> := map[];
    ghost var clock: nat := 0;
    var i := 0;
    while i < |nodeIds|
      invariant 0 <= i <= |nodeIds|
      invariant SearchState(nodeIds, edges, [], visited, recursionStack, rank, clock)
      invariant recursionStack == {}
      invariant forall k :: 0 <= k < i ==> nodeIds[k] in visited
    {
      var nodeId := nodeIds[i];
      if nodeId !in visited {
        found, visited, recursionStack, rank, clock :=
          Dfs(nodeIds, edges, universe, adjacency, nodeId, visited, recursionStack, [], rank, clock);
        if found {
          return;
        }
      }
      i := i + 1;
    }
    NoCycleWhenRanked(nodeIds, edges, rank);
    found := false;
  }
}
