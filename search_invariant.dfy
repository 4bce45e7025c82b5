/**
 * The invariant of the depth-first cycle search: the shape of the recursion
 * stack, the finishing order of the vertices it has left, and the lemmas
 * that show each step of the search keeps them.
 */
module SearchInvariant {
  import opened Pipeline
  import opened Digraph

  /** `adjacencyList.get(u) || []`: the list stored for `u`, or the empty list. */
  function Neighbors(adjacency: map<Id, seq<Id>>, u: Id): seq<Id>
  {
    if u in adjacency then adjacency[u] else []
  }

  /**
   * The recursion stack: `path` lists the vertices of `onStack` in the order
   * they were entered and forms a walk from a root.
   * Every vertex on the stack has been visited.
   */
  ghost predicate StackShape(edges: seq<Edge>, roots: seq<Id>, path: seq<Id>, onStack: set<Id>, visited: set<Id>)
  {
    && onStack <= visited
    && (forall x :: x in path <==> x in onStack)
    && (path != [] ==> IsWalk(edges, path) && path[0] in roots)
  }

  /**
   * The finished vertices are the visited ones off the stack; `rank` gives
   * their finishing order, and every edge out of a finished vertex leads to
   * a vertex finished earlier.
   */
  ghost predicate FinishOrder(edges: seq<Edge>, rank: map<Id, nat>, visited: set<Id>, onStack: set<Id>, clock: nat)
  {
    && rank.Keys == visited - onStack
    && (forall b :: b in rank ==> rank[b] < clock)
    && Ranked(edges, rank)
  }

  /** `later` keeps every entry of `earlier`. */
  ghost predicate Extends(earlier: map<Id, nat>, later: map<Id, nat>)
  {
    forall x :: x in earlier ==> x in later && later[x] == earlier[x]
  }

  /** Entering an unvisited vertex along an edge from the top of the stack. */
  lemma PushKeepsStackShape(edges: seq<Edge>, roots: seq<Id>, path: seq<Id>, onStack: set<Id>, visited: set<Id>, u: Id)
    requires StackShape(edges, roots, path, onStack, visited) && u !in visited
    requires if path == [] then u in roots else Arc(edges, path[|path| - 1], u)
    ensures StackShape(edges, roots, path + [u], onStack + {u}, visited + {u})
  {
    if path != [] {
      WalkExtend(edges, path, u);
    }
  }

  /** Leaving a vertex for good: it becomes the latest finished vertex. */
  lemma FinishKeepsOrder(edges: seq<Edge>, rank: map<Id, nat>, visited: set<Id>, onStack: set<Id>, clock: nat, u: Id)
    requires FinishOrder(edges, rank, visited, onStack + {u}, clock)
    requires u in visited && u !in onStack
    requires forall v :: v in Targets(edges, u) ==> v in rank
    ensures FinishOrder(edges, rank[u := clock], visited, onStack, clock + 1)
    ensures Extends(rank, rank[u := clock])
  {
    var r := rank[u := clock];
    forall b, v | b in r && Arc(edges, b, v) ensures v in r && r[v] < r[b] {
      if b == u {
        ArcIffTarget(edges, u, v);
        assert v in rank;
      } else {
        assert b in rank;
      }
    }
  }

  /**
   * An edge from the top of the stack back to a vertex on the stack: the
   * stack followed by that edge is a walk from a root that runs into a cycle.
   */
  lemma BackEdgeClosesLasso(edges: seq<Edge>, roots: seq<Id>, path: seq<Id>, onStack: set<Id>, visited: set<Id>, v: Id)
    requires StackShape(edges, roots, path, onStack, visited)
    requires path != [] && Arc(edges, path[|path| - 1], v) && v in onStack
    ensures CycleReachable(roots, edges)
  {
    WalkExtend(edges, path, v);
    var p := path + [v];
    assert p[..|p| - 1] == path;
    assert IsWalk(edges, p) && p[0] in roots && Lasso(p);
  }

  /**
   * What the search relies on and never changes: the adjacency map lists the
   * successors of every vertex, and `universe` holds every root and every
   * vertex an edge leads to.
   */
  ghost predicate SearchFrame(roots: seq<Id>, edges: seq<Edge>, universe: set<Id>, adjacency: map<Id, seq<Id>>)
  {
    && (forall u :: Neighbors(adjacency, u) == Targets(edges, u))
    && (forall r :: r in roots ==> r in universe)
    && (forall u, v :: Arc(edges, u, v) ==> v in universe)
  }

  /** The search invariant over the two shared sets and the ghost bookkeeping. */
  ghost predicate SearchState(roots: seq<Id>, edges: seq<Edge>, path: seq<Id>, visited: set<Id>, recursionStack: set<Id>, rank: map<Id, nat>, clock: nat)
  {
    && StackShape(edges, roots, path, recursionStack, visited)
    && FinishOrder(edges, rank, visited, recursionStack, clock)
  }

  /** Popping the top vertex `u` off the stack keeps the shape of the rest. */
  lemma LeaveKeepsStackShape(edges: seq<Edge>, roots: seq<Id>, below: seq<Id>, u: Id, onStack: set<Id>, visited: set<Id>)
    requires StackShape(edges, roots, below + [u], onStack + {u}, visited) && u !in onStack && u !in below
    ensures StackShape(edges, roots, below, onStack, visited)
  {
    var p := below + [u];
    forall x ensures x in below <==> x in onStack {
      assert x in below ==> x in p;
      if x in onStack {
        assert x in p && x != u;
        var k :| 0 <= k < |p| && p[k] == x;
        assert k < |below| && below[k] == x;
      }
    }
    if below != [] {
      WalkSlice(edges, p, 0, |below|);
      assert p[0..|below|] == below;
    }
  }

  /**
   * Entering an unvisited vertex `u` along an edge from the top of the stack
   * (or from a root when the stack is empty): it becomes the new top.
   */
  lemma EnterKeepsSearchState(roots: seq<Id>, edges: seq<Edge>, path: seq<Id>, u: Id, visited: set<Id>, onStack: set<Id>,
                              rank: map<Id, nat>, clock: nat)
    requires SearchState(roots, edges, path, visited, onStack, rank, clock)
    requires u !in visited
    requires if path == [] then u in roots else Arc(edges, path[|path| - 1], u)
    ensures SearchState(roots, edges, path + [u], visited + {u}, onStack + {u}, rank, clock)
    ensures u !in path && u !in onStack
  {
    PushKeepsStackShape(edges, roots, path, onStack, visited, u);
  }

  /** Entries kept once are kept for good. */
  lemma ExtendsTransitive(a: map<Id, nat>, b: map<Id, nat>, c: map<Id, nat>)
    requires Extends(a, b) && Extends(b, c)
    ensures Extends(a, c)
  {
  }

  /**
   * Leaving the top vertex `u` once every successor is finished: the search
   * invariant holds for the stack below it, and `u` becomes the latest
   * finished vertex.
   */
  lemma LeaveKeepsSearchState(roots: seq<Id>, edges: seq<Edge>, path: seq<Id>, u: Id, visited: set<Id>, onStack: set<Id>,
                              rank0: map<Id, nat>, rank: map<Id, nat>, clock: nat)
    requires SearchState(roots, edges, path + [u], visited, onStack + {u}, rank, clock)
    requires u !in onStack && u !in path && Extends(rank0, rank)
    requires forall v :: v in Targets(edges, u) ==> v in rank
    ensures SearchState(roots, edges, path, visited, onStack, rank[u := clock], clock + 1)
    ensures u in rank[u := clock] && Extends(rank0, rank[u := clock])
  {
    LeaveKeepsStackShape(edges, roots, path, u, onStack, visited);
    FinishKeepsOrder(edges, rank, visited, onStack, clock, u);
    ExtendsTransitive(rank0, rank, rank[u := clock]);
  }
}
