/**
 * The directed graph that an edge list describes, and the declarative
 * meaning of "has a cycle" that the depth-first search is proved against.
 */
module Digraph {
  import opened Pipeline

  /**
   * The successors of `u`: the targets of the edges leaving `u`, in edge
   * order. This is the list that the adjacency map holds for `u` once every
   * edge has been pushed onto the list of its source.
   */
  function Targets(edges: seq<Edge>, u: Id): seq<Id>
  {
    if edges == [] then []
    else
      var last := edges[|edges| - 1];
      Targets(edges[..|edges| - 1], u) + (if last.source == u then [last.target] else [])
  }

  /** There is an edge from `u` to `v`. */
  ghost predicate Arc(edges: seq<Edge>, u: Id, v: Id)
  {
    if edges == [] then false
    else
      var last := edges[|edges| - 1];
      (last.source == u && last.target == v) || Arc(edges[..|edges| - 1], u, v)
  }

  /** `v` is a successor of `u` exactly when it is listed among the targets of `u`. */
  lemma {:induction false} ArcIffTarget(edges: seq<Edge>, u: Id, v: Id)
    ensures Arc(edges, u, v) <==> v in Targets(edges, u)
  {
    if edges != [] {
      ArcIffTarget(edges[..|edges| - 1], u, v);
    }
  }

  /** `v` is a successor of `u` exactly when some edge runs from `u` to `v`. */
  lemma {:induction false} ArcIffEdge(edges: seq<Edge>, u: Id, v: Id)
    ensures Arc(edges, u, v) <==> exists e :: e in edges && e.source == u && e.target == v
  {
    if edges != [] {
      var init := edges[..|edges| - 1];
      var last := edges[|edges| - 1];
      ArcIffEdge(init, u, v);
      assert edges == init + [last];
      if exists e :: e in edges && e.source == u && e.target == v {
        var e :| e in edges && e.source == u && e.target == v;
        if e != last {
          assert e in init;
        }
      }
    }
  }

  /** Adding an edge keeps every existing successor. */
  lemma ArcAppend(edges: seq<Edge>, e: Edge, u: Id, v: Id)
    ensures Arc(edges + [e], u, v) <==> Arc(edges, u, v) || (e.source == u && e.target == v)
  {
    assert (edges + [e])[..|edges|] == edges;
  }

  /** `p` is a walk: a non-empty sequence of vertices, each joined to the next by an edge. */
  ghost predicate IsWalk(edges: seq<Edge>, p: seq<Id>)
  {
    |p| >= 1 && forall i :: 0 <= i < |p| - 1 ==> Arc(edges, p[i], p[i + 1])
  }

  /** The walk `p` ends on a vertex it has already visited. */
  ghost predicate Lasso(p: seq<Id>)
  {
    |p| >= 2 && p[|p| - 1] in p[..|p| - 1]
  }

  /**
   * Some walk that starts at one of `roots` runs into a cycle: this is what a
   * depth-first search started from every root can detect.
   */
  ghost predicate CycleReachable(roots: seq<Id>, edges: seq<Edge>)
  {
    exists p :: IsWalk(edges, p) && p[0] in roots && Lasso(p)
  }

  /** The edges contain a directed cycle: a walk of at least one edge back to its start. */
  ghost predicate HasDirectedCycle(edges: seq<Edge>)
  {
    exists c :: IsWalk(edges, c) && |c| >= 2 && c[0] == c[|c| - 1]
  }

  /** A contiguous piece of a walk is a walk. */
  lemma WalkSlice(edges: seq<Edge>, p: seq<Id>, lo: int, hi: int)
    requires IsWalk(edges, p) && 0 <= lo < hi <= |p|
    ensures IsWalk(edges, p[lo..hi])
  {
    var q := p[lo..hi];
    forall i | 0 <= i < |q| - 1 ensures Arc(edges, q[i], q[i + 1]) {
      assert q[i] == p[lo + i] && q[i + 1] == p[lo + i + 1];
    }
  }

  /** A walk followed by an edge out of its last vertex is a walk. */
  lemma WalkExtend(edges: seq<Edge>, p: seq<Id>, v: Id)
    requires IsWalk(edges, p) && Arc(edges, p[|p| - 1], v)
    ensures IsWalk(edges, p + [v])
  {
    var q := p + [v];
    forall i | 0 <= i < |q| - 1 ensures Arc(edges, q[i], q[i + 1]) {
      assert q[i] == p[i];
      if i + 1 < |p| {
        assert q[i + 1] == p[i + 1];
      }
    }
  }

  /** A walk over some edges is still a walk once another edge is added. */
  lemma WalkWiden(edges: seq<Edge>, e: Edge, p: seq<Id>)
    requires IsWalk(edges, p)
    ensures IsWalk(edges + [e], p)
  {
    forall i | 0 <= i < |p| - 1 ensures Arc(edges + [e], p[i], p[i + 1]) {
      ArcAppend(edges, e, p[i], p[i + 1]);
    }
  }

  /**
   * A ranking in which every edge out of a ranked vertex leads to a ranked
   * vertex of smaller rank. The depth-first search builds one from the order
   * in which it finishes vertices.
   */
  ghost predicate Ranked(edges: seq<Edge>, rank: map<Id, nat>)
  {
    forall u, v :: u in rank && Arc(edges, u, v) ==> v in rank && rank[v] < rank[u]
  }

  /** Along a walk from a ranked vertex the ranks strictly decrease. */
  lemma {:induction false} RankDecreasesAlongWalk(edges: seq<Edge>, rank: map<Id, nat>, p: seq<Id>)
    requires Ranked(edges, rank) && IsWalk(edges, p) && p[0] in rank
    ensures forall i :: 0 <= i < |p| ==> p[i] in rank
    ensures forall i, j :: 0 <= i < j < |p| ==> rank[p[j]] < rank[p[i]]
  {
    if |p| > 1 {
      var init := p[..|p| - 1];
      WalkSlice(edges, p, 0, |p| - 1);
      RankDecreasesAlongWalk(edges, rank, init);
      assert Arc(edges, p[|p| - 2], p[|p| - 1]);
      forall i, j | 0 <= i < j < |p| ensures rank[p[j]] < rank[p[i]] {
        assert init[i] == p[i];
        if j < |p| - 1 {
          assert init[j] == p[j];
        } else if i < |p| - 2 {
          assert init[|p| - 2] == p[|p| - 2];
        }
      }
    }
  }

  /** When every root is ranked, no walk from a root runs into a cycle. */
  lemma NoCycleWhenRanked(roots: seq<Id>, edges: seq<Edge>, rank: map<Id, nat>)
    requires Ranked(edges, rank)
    requires forall r :: r in roots ==> r in rank
    ensures !CycleReachable(roots, edges)
  {
    forall p | IsWalk(edges, p) && p[0] in roots ensures !Lasso(p) {
      RankDecreasesAlongWalk(edges, rank, p);
      var init := p[..|p| - 1];
      forall j | 0 <= j < |init| ensures init[j] != p[|p| - 1] {
        assert rank[p[|p| - 1]] < rank[p[j]];
      }
    }
  }

  /** A walk that runs into a cycle contains one: the piece from the repeated vertex on. */
  lemma CycleReachableHasCycle(roots: seq<Id>, edges: seq<Edge>)
    requires CycleReachable(roots, edges)
    ensures HasDirectedCycle(edges)
  {
    var p :| IsWalk(edges, p) && p[0] in roots && Lasso(p);
    var j :| 0 <= j < |p| - 1 && p[j] == p[|p| - 1];
    WalkSlice(edges, p, j, |p|);
    var c := p[j..];
    assert c[0] == c[|c| - 1];
  }

  /**
   * When every edge leaves a root (every edge source is a node id), "some walk
   * from a root runs into a cycle" is the same as "the edges contain a cycle".
   */
  lemma CycleReachableIffCycle(roots: seq<Id>, edges: seq<Edge>)
    requires forall e :: e in edges ==> e.source in roots
    ensures CycleReachable(roots, edges) <==> HasDirectedCycle(edges)
  {
    if CycleReachable(roots, edges) {
      CycleReachableHasCycle(roots, edges);
    }
    if HasDirectedCycle(edges) {
      var c :| IsWalk(edges, c) && |c| >= 2 && c[0] == c[|c| - 1];
      assert Arc(edges, c[0], c[1]);
      ArcIffEdge(edges, c[0], c[1]);
      assert c[0] in roots;
      assert c[|c| - 1] in c[..|c| - 1] by {
        assert c[..|c| - 1][0] == c[0];
      }
      assert Lasso(c);
    }
  }

  /**
   * Closing a path: if a walk already leads from `e.target` back to
   * `e.source` and `e.target` is a root, adding `e` creates a reachable cycle.
   */
  lemma BackEdgeClosesCycle(roots: seq<Id>, edges: seq<Edge>, p: seq<Id>, e: Edge)
    requires IsWalk(edges, p) && p[0] == e.target && p[|p| - 1] == e.source
    requires e.target in roots
    ensures CycleReachable(roots, edges + [e])
  {
    WalkWiden(edges, e, p);
    ArcAppend(edges, e, e.source, e.target);
    WalkExtend(edges + [e], p, e.target);
    var q := p + [e.target];
    assert q[..|q| - 1] == p;
    assert Lasso(q);
  }
}
