/**
 * The validation engine: five independent checks over a node list and an
 * edge list, and the ordered list of messages for the checks that fail.
 */
module DagValidation {
  import opened Pipeline
  import opened Digraph
  import CycleDetection

  const EmptyGraph := "Graph is empty"
  const TooFewNodes := "Graph needs at least 2 nodes"
  const CyclesFound := "Graph contains cycles (not a DAG)"
  const Disconnected := "All nodes must be part of at least one edge"
  const SelfLoops := "Self-loops are not allowed"

  /** The place of a message in the report: minimum nodes, cycles, connectivity, self-loops. */
  function Severity(message: string): nat
  {
    if message == EmptyGraph || message == TooFewNodes then 0
    else if message == CyclesFound then 1
    else if message == Disconnected then 2
    else 3
  }

  /** `edges.some(edge => edge.source === edge.target)`. */
  predicate HasSelfLoop(edges: seq<Edge>)
  {
    exists e :: e in edges && e.source == e.target
  }

  /** Some edge starts or ends at `id`. */
  predicate Touches(edges: seq<Edge>, id: Id)
  {
    exists e :: e in edges && (e.source == id || e.target == id)
  }

  /**
   * The connectivity rule: at least two node ids, and every one of them is
   * the source or the target of some edge.
   */
  ghost predicate AllNodesConnected(ids: seq<Id>, edges: seq<Edge>)
  {
    |ids| >= 2 && forall id :: id in ids ==> Touches(edges, id)
  }

  /** `if (failed) errors.push(message)`. */
  function PushIf(errors: seq<string>, failed: bool, message: string): seq<string>
  {
    if failed then errors + [message] else errors
  }

  /**
   * The messages of the failing checks, pushed in the order the checks run:
   * minimum nodes, cycles, connectivity (only for a non-empty node list),
   * self-loops.
   */
  function Messages(nodeCount: nat, hasNoCycles: bool, allNodesConnected: bool, hasNoSelfLoops: bool): seq<string>
  {
    var sizeErrors := PushIf([], nodeCount < 2, if nodeCount == 0 then EmptyGraph else TooFewNodes);
    var cycleErrors := PushIf(sizeErrors, !hasNoCycles, CyclesFound);
    var connectErrors := PushIf(cycleErrors, !allNodesConnected && nodeCount > 0, Disconnected);
    PushIf(connectErrors, !hasNoSelfLoops, SelfLoops)
  }

  /** The five messages are different texts. */
  lemma MessagesDistinct()
    ensures EmptyGraph != TooFewNodes && EmptyGraph != CyclesFound && EmptyGraph != Disconnected && EmptyGraph != SelfLoops
    ensures TooFewNodes != CyclesFound && TooFewNodes != Disconnected && TooFewNodes != SelfLoops
    ensures CyclesFound != Disconnected && CyclesFound != SelfLoops && Disconnected != SelfLoops
  {
  }

  /** Each message is listed exactly when its check fails. */
  lemma MessagesListFailures(nodeCount: nat, hasNoCycles: bool, allNodesConnected: bool, hasNoSelfLoops: bool)
    ensures var errors := Messages(nodeCount, hasNoCycles, allNodesConnected, hasNoSelfLoops);
      && (EmptyGraph in errors <==> nodeCount == 0)
      && (TooFewNodes in errors <==> nodeCount == 1)
      && (CyclesFound in errors <==> !hasNoCycles)
      && (Disconnected in errors <==> !allNodesConnected && nodeCount > 0)
      && (SelfLoops in errors <==> !hasNoSelfLoops)
  {
    MessagesDistinct();
  }

  /** Every message is of a strictly later kind than the ones before it. */
  ghost predicate InSeverityOrder(errors: seq<string>)
  {
    forall i, j :: 0 <= i < j < |errors| ==> Severity(errors[i]) < Severity(errors[j])
  }

  /**
   * Pushing a message of a later kind than every listed one keeps the order,
   * and afterwards no listed message is of a later kind than it.
   */
  lemma PushIfKeepsOrder(errors: seq<string>, failed: bool, message: string)
    requires InSeverityOrder(errors)
    requires forall x :: x in errors ==> Severity(x) < Severity(message)
    ensures InSeverityOrder(PushIf(errors, failed, message))
    ensures forall x :: x in PushIf(errors, failed, message) ==> Severity(x) <= Severity(message)
  {
    if failed {
      var r := errors + [message];
      forall i, j | 0 <= i < j < |r| ensures Severity(r[i]) < Severity(r[j]) {
        assert r[i] == errors[i] && r[i] in errors;
        if j < |errors| {
          assert r[j] == errors[j];
        }
      }
    }
  }

  /** The messages come in severity order, at most one of each kind. */
  lemma MessagesOrdered(nodeCount: nat, hasNoCycles: bool, allNodesConnected: bool, hasNoSelfLoops: bool)
    ensures InSeverityOrder(Messages(nodeCount, hasNoCycles, allNodesConnected, hasNoSelfLoops))
  {
    MessagesDistinct();
    var sizeErrors := PushIf([], nodeCount < 2, if nodeCount == 0 then EmptyGraph else TooFewNodes);
    assert forall x :: x in sizeErrors ==> Severity(x) == 0;
    PushIfKeepsOrder(sizeErrors, !hasNoCycles, CyclesFound);
    var cycleErrors := PushIf(sizeErrors, !hasNoCycles, CyclesFound);
    PushIfKeepsOrder(cycleErrors, !allNodesConnected && nodeCount > 0, Disconnected);
    var connectErrors := PushIf(cycleErrors, !allNodesConnected && nodeCount > 0, Disconnected);
    PushIfKeepsOrder(connectErrors, !hasNoSelfLoops, SelfLoops);
  }

  /**
   * `validateDAG`'s record for the outcome of each check: `isValid` is the
   * AND of the five checks and `hasValidEdgeDirections` is always true.
   * `nodeCount` is the length of the node list.
   */
  function Report(nodeCount: nat, hasNoCycles: bool, allNodesConnected: bool, hasNoSelfLoops: bool): (r: ValidationResult)
    ensures r.hasMinimumNodes <==> nodeCount >= 2
    ensures r.hasNoCycles == hasNoCycles && r.allNodesConnected == allNodesConnected
    ensures r.hasNoSelfLoops == hasNoSelfLoops && r.hasValidEdgeDirections
    ensures r.isValid <==> r.hasMinimumNodes && r.hasNoCycles && r.allNodesConnected && r.hasNoSelfLoops && r.hasValidEdgeDirections
    ensures EmptyGraph in r.errors <==> nodeCount == 0
    ensures TooFewNodes in r.errors <==> nodeCount == 1
    ensures CyclesFound in r.errors <==> !hasNoCycles
    ensures Disconnected in r.errors <==> !allNodesConnected && nodeCount > 0
    ensures SelfLoops in r.errors <==> !hasNoSelfLoops
    ensures InSeverityOrder(r.errors) && |r.errors| <= 4
    ensures r.isValid ==> r.errors == []
    ensures r.errors == [] ==> r.isValid
  {
    MessagesListFailures(nodeCount, hasNoCycles, allNodesConnected, hasNoSelfLoops);
    MessagesOrdered(nodeCount, hasNoCycles, allNodesConnected, hasNoSelfLoops);
    var hasMinimumNodes := nodeCount >= 2;
    var hasValidEdgeDirections := true;
    ValidationResult(
      hasMinimumNodes && hasNoCycles && allNodesConnected && hasNoSelfLoops && hasValidEdgeDirections,
      Messages(nodeCount, hasNoCycles, allNodesConnected, hasNoSelfLoops),
      hasMinimumNodes, hasNoCycles, allNodesConnected, hasNoSelfLoops, hasValidEdgeDirections)
  }

  /** `validateDAG(nodes, edges)`, each check stated by what it means. */
  ghost function Validation(nodes: seq<Node>, edges: seq<Edge>): ValidationResult
  {
    Report(|nodes|, !CycleReachable(NodeIds(nodes), edges), AllNodesConnected(NodeIds(nodes), edges), !HasSelfLoop(edges))
  }

  /**
   * `areAllNodesConnected(nodes, edges)`: false for fewer than two nodes;
   * otherwise every endpoint is added to a set and each node id is looked up.
   */
  method AreAllNodesConnected(nodes: seq<Node>, edges: seq<Edge>) returns (connected: bool)
    ensures connected <==> AllNodesConnected(NodeIds(nodes), edges)
  {
    if |nodes| == 0 {
      return false;
    }
    if |nodes| == 1 {
      return false;
    }
    var connectedNodes: set<Id> := {};
    for k := 0 to |edges|
      invariant forall id :: id in connectedNodes <==> Touches(edges[..k], id)
    {
      connectedNodes := connectedNodes + {edges[k].source, edges[k].target};
      forall id ensures id in connectedNodes <==> Touches(edges[..k + 1], id) {
        assert edges[..k + 1] == edges[..k] + [edges[k]];
      }
    }
    assert edges[..|edges|] == edges;
    for i := 0 to |nodes|
      invariant forall j :: 0 <= j < i ==> Touches(edges, nodes[j].id)
    {
      if nodes[i].id !in connectedNodes {
        NodeIdsMembership(nodes, nodes[i].id);
        return false;
      }
    }
    forall id | id in NodeIds(nodes) ensures Touches(edges, id) {
      var j :| 0 <= j < |nodes| && NodeIds(nodes)[j] == id;
    }
    return true;
  }

  /** `validateDAG(nodes, edges)`: run every check and assemble the report. */
  method ValidateDag(nodes: seq<Node>, edges: seq<Edge>) returns (r: ValidationResult)
    ensures r == Validation(nodes, edges)
  {
    var cyclic := CycleDetection.HasCycle(nodes, edges);
    var connected := AreAllNodesConnected(nodes, edges);
    r := Report(|nodes|, !cyclic, connected, !HasSelfLoop(edges));
  }

  /** A report without errors is a valid one, and the other way round. */
  lemma {:induction false} ValidIffNoErrors(nodes: seq<Node>, edges: seq<Edge>)
    ensures Validation(nodes, edges).isValid <==> Validation(nodes, edges).errors == []
  {
    if |nodes| == 1 {
      assert !AllNodesConnected(NodeIds(nodes), edges);
    }
  }

  /** Only the node ids take part in validation: positions, kinds and labels do not. */
  lemma SameIdsSameValidation(nodes: seq<Node>, nodes': seq<Node>, edges: seq<Edge>)
    requires NodeIds(nodes) == NodeIds(nodes')
    ensures Validation(nodes, edges) == Validation(nodes', edges)
  {
    assert |nodes| == |NodeIds(nodes)| == |NodeIds(nodes')| == |nodes'|;
  }

  /** An empty graph (without self-loops) reports exactly "Graph is empty". */
  lemma EmptyGraphReport(edges: seq<Edge>)
    requires !HasSelfLoop(edges)
    ensures Validation([], edges).errors == [EmptyGraph]
    ensures !Validation([], edges).isValid
  {
    assert NodeIds([]) == [];
    assert !CycleReachable([], edges);
  }

  /** A single node reports "Graph needs at least 2 nodes" first. */
  lemma SingleNodeReport(node: Node, edges: seq<Edge>)
    ensures |Validation([node], edges).errors| >= 1
    ensures Validation([node], edges).errors[0] == TooFewNodes
    ensures !Validation([node], edges).allNodesConnected
  {
  }

  /**
   * When every edge leaves a node, `hasNoCycles` holds exactly when the edges
   * contain no directed cycle.
   */
  lemma NoCyclesIffAcyclic(nodes: seq<Node>, edges: seq<Edge>)
    requires forall e :: e in edges ==> e.source in NodeIds(nodes)
    ensures Validation(nodes, edges).hasNoCycles <==> !HasDirectedCycle(edges)
  {
    CycleReachableIffCycle(NodeIds(nodes), edges);
  }

  /**
   * An acyclic graph with at least two nodes, each touching an edge, and no
   * self-loops is valid; and a valid graph whose edges leave nodes is
   * acyclic, touches every node and has no self-loops.
   */
  lemma ValidIffWellShaped(nodes: seq<Node>, edges: seq<Edge>)
    requires forall e :: e in edges ==> e.source in NodeIds(nodes)
    ensures Validation(nodes, edges).isValid <==>
      && |nodes| >= 2
      && (forall n :: n in nodes ==> Touches(edges, n.id))
      && (forall e :: e in edges ==> e.source != e.target)
      && !HasDirectedCycle(edges)
  {
    NoCyclesIffAcyclic(nodes, edges);
    forall id ensures id in NodeIds(nodes) <==> exists n :: n in nodes && n.id == id {
      NodeIdsMembership(nodes, id);
    }
  }

  /**
   * Any graph with at least two nodes, every node touching an edge, no
   * self-loop and no directed cycle is valid, whatever its edges point at.
   */
  lemma WellShapedIsValid(nodes: seq<Node>, edges: seq<Edge>)
    requires |nodes| >= 2
    requires forall n :: n in nodes ==> Touches(edges, n.id)
    requires forall e :: e in edges ==> e.source != e.target
    requires !HasDirectedCycle(edges)
    ensures Validation(nodes, edges).isValid
    ensures Validation(nodes, edges).errors == []
  {
    if CycleReachable(NodeIds(nodes), edges) {
      CycleReachableHasCycle(NodeIds(nodes), edges);
    }
    forall id | id in NodeIds(nodes) ensures Touches(edges, id) {
      NodeIdsMembership(nodes, id);
    }
  }

  /**
   * Adding an edge `a -> b` when a path already leads from `b` (a node) to
   * `a` makes the cycle check fail and the graph invalid.
   */
  lemma ClosingEdgeReportsCycle(nodes: seq<Node>, edges: seq<Edge>, p: seq<Id>, e: Edge)
    requires IsWalk(edges, p) && p[0] == e.target && p[|p| - 1] == e.source
    requires e.target in NodeIds(nodes)
    ensures !Validation(nodes, edges + [e]).hasNoCycles
    ensures CyclesFound in Validation(nodes, edges + [e]).errors
    ensures !Validation(nodes, edges + [e]).isValid
  {
    BackEdgeClosesCycle(NodeIds(nodes), edges, p, e);
  }

  /** A plain edge from `source` to `target`. */
  function Link(id: Id, source: Id, target: Id): Edge
  {
    Edge(id, source, target, None, None)
  }

  /** Two nodes joined by one edge `A -> B` form a valid pipeline. */
  lemma ChainOfTwoIsValid(na: Node, nb: Node, ab: Id)
    requires na.id != nb.id
    ensures Validation([na, nb], [Link(ab, na.id, nb.id)]).isValid
    ensures Validation([na, nb], [Link(ab, na.id, nb.id)]).errors == []
  {
    var edges := [Link(ab, na.id, nb.id)];
    var ids := NodeIds([na, nb]);
    assert ids == [na.id, nb.id];
    var rank := map[nb.id := 0, na.id := 1];
    forall u, v | u in rank && Arc(edges, u, v) ensures v in rank && rank[v] < rank[u] {
      ArcIffEdge(edges, u, v);
    }
    NoCycleWhenRanked(ids, edges, rank);
    assert Touches(edges, na.id) && Touches(edges, nb.id) by {
      assert edges[0] in edges;
    }
    assert !HasSelfLoop(edges);
  }

  /**
   * Adding the edge `B -> A` to the chain `A -> B` leaves exactly one
   * complaint: the cycle.
   */
  lemma TwoCycleReportsOnlyCycle(na: Node, nb: Node, ab: Id, ba: Id)
    requires na.id != nb.id
    ensures Validation([na, nb], [Link(ab, na.id, nb.id), Link(ba, nb.id, na.id)]).errors == [CyclesFound]
    ensures !Validation([na, nb], [Link(ab, na.id, nb.id), Link(ba, nb.id, na.id)]).isValid
  {
    var edges := [Link(ab, na.id, nb.id), Link(ba, nb.id, na.id)];
    assert NodeIds([na, nb]) == [na.id, nb.id];
    ArcIffEdge(edges, na.id, nb.id);
    ArcIffEdge(edges, nb.id, na.id);
    assert edges[0] in edges && edges[1] in edges;
    var p := [na.id, nb.id, na.id];
    assert p[..2] == [na.id, nb.id];
    assert IsWalk(edges, p) && Lasso(p);
    assert CycleReachable(NodeIds([na, nb]), edges);
    assert Touches(edges, na.id) && Touches(edges, nb.id);
    assert !HasSelfLoop(edges);
  }

  /** The triangle `A -> B -> C -> A` has a cycle, so it is invalid. */
  lemma TriangleHasCycle(na: Node, nb: Node, nc: Node, ab: Id, bc: Id, ca: Id)
    ensures !Validation([na, nb, nc], [Link(ab, na.id, nb.id), Link(bc, nb.id, nc.id), Link(ca, nc.id, na.id)]).hasNoCycles
    ensures !Validation([na, nb, nc], [Link(ab, na.id, nb.id), Link(bc, nb.id, nc.id), Link(ca, nc.id, na.id)]).isValid
  {
    var nodes := [na, nb, nc];
    assert NodeIds(nodes) == [na.id, nb.id, nc.id];
    var chain := [Link(ab, na.id, nb.id), Link(bc, nb.id, nc.id)];
    ArcIffEdge(chain, na.id, nb.id);
    ArcIffEdge(chain, nb.id, nc.id);
    assert chain[0] in chain && chain[1] in chain;
    var p := [na.id, nb.id, nc.id];
    assert IsWalk(chain, p);
    ClosingEdgeReportsCycle(nodes, chain, p, Link(ca, nc.id, na.id));
    assert chain + [Link(ca, nc.id, na.id)] == [Link(ab, na.id, nb.id), Link(bc, nb.id, nc.id), Link(ca, nc.id, na.id)];
  }

  /** Without `C -> A`, the chain `A -> B -> C` passes every check. */
  lemma ChainOfThreeIsValid(na: Node, nb: Node, nc: Node, ab: Id, bc: Id)
    requires na.id != nb.id && nb.id != nc.id && na.id != nc.id
    ensures Validation([na, nb, nc], [Link(ab, na.id, nb.id), Link(bc, nb.id, nc.id)]).isValid
  {
    var nodes := [na, nb, nc];
    var ids := NodeIds(nodes);
    assert ids == [na.id, nb.id, nc.id];
    var chain := [Link(ab, na.id, nb.id), Link(bc, nb.id, nc.id)];
    var rank := map[nc.id := 0, nb.id := 1, na.id := 2];
    forall u, v | u in rank && Arc(chain, u, v) ensures v in rank && rank[v] < rank[u] {
      ArcIffEdge(chain, u, v);
    }
    NoCycleWhenRanked(ids, chain, rank);
    assert chain[0] in chain && chain[1] in chain;
    assert Touches(chain, na.id) && Touches(chain, nb.id) && Touches(chain, nc.id);
    assert !HasSelfLoop(chain);
  }
}
