/**
 * The pure edits behind the store's actions: the filters, the map and the
 * find that compute each action's new lists, the rules an edge must pass
 * before it is added, and the facts each edit keeps.
 */
module PipelineEdits {
  import opened Pipeline
  import opened Seqs
  import opened DagValidation

  /** The alert texts of a rejected `addEdge`. */
  const SelfLoopAlert := "Self-loops are not allowed"
  const DuplicateAlert := "Edge already exists between these nodes"

  /** Two edges join different ordered pairs of endpoints. */
  function DifferentEnds(a: Edge, b: Edge): bool
  {
    a.source != b.source || a.target != b.target
  }

  /** Two edges carry different ids. */
  function DifferentIds(a: Edge, b: Edge): bool
  {
    a.id != b.id
  }

  /**
   * What the store keeps true of its edge list: no self-loop, no two edges
   * with the same ordered pair of endpoints, no two edges with the same id.
   */
  ghost predicate EdgesWellFormed(edges: seq<Edge>)
  {
    && !HasSelfLoop(edges)
    && Pairwise(edges, DifferentEnds)
    && Pairwise(edges, DifferentIds)
  }

  /** Two nodes carry different ids. */
  function DifferentNodeIds(a: Node, b: Node): bool
  {
    a.id != b.id
  }

  /** No two nodes of the list carry the same id. */
  ghost predicate NodeIdsDistinct(nodes: seq<Node>)
  {
    Pairwise(nodes, DifferentNodeIds)
  }

  /** Every edge starts and ends at a node of the list: no dangling edge. */
  ghost predicate Attached(nodes: seq<Node>, edges: seq<Edge>)
  {
    forall e :: e in edges ==> e.source in NodeIds(nodes) && e.target in NodeIds(nodes)
  }

  /** A filter of a well-formed edge list is well formed. */
  lemma FilterKeepsEdgesWellFormed(edges: seq<Edge>, keep: Edge -> bool)
    ensures EdgesWellFormed(edges) ==> EdgesWellFormed(Filter(edges, keep))
  {
    if EdgesWellFormed(edges) {
      FilterKeepsPairwise(edges, keep, DifferentEnds);
      FilterKeepsPairwise(edges, keep, DifferentIds);
    }
  }

  /** A filter of a node list with distinct ids has distinct ids. */
  lemma FilterKeepsNodeIdsDistinct(nodes: seq<Node>, keep: Node -> bool)
    ensures NodeIdsDistinct(nodes) ==> NodeIdsDistinct(Filter(nodes, keep))
  {
    if NodeIdsDistinct(nodes) {
      FilterKeepsPairwise(nodes, keep, DifferentNodeIds);
    }
  }

  /** `nodes.filter((node) => node.id !== nodeId)`. */
  function RemoveNode(nodes: seq<Node>, id: Id): (r: seq<Node>)
    ensures forall n :: n in r <==> n in nodes && n.id != id
    ensures forall n {:trigger multiset(r)[n]} :: multiset(r)[n] == if n.id != id then multiset(nodes)[n] else 0
    ensures (forall n :: n in nodes ==> n.id != id) ==> r == nodes
    ensures NodeIdsDistinct(nodes) ==> NodeIdsDistinct(r)
  {
    var keep := (n: Node) => n.id != id;
    FilterKeepsAll(nodes, keep);
    FilterKeepsNodeIdsDistinct(nodes, keep);
    Filter(nodes, keep)
  }

  /** `edges.filter((edge) => edge.source !== nodeId && edge.target !== nodeId)`. */
  function DetachEdges(edges: seq<Edge>, id: Id): (r: seq<Edge>)
    ensures forall e :: e in r <==> e in edges && e.source != id && e.target != id
    ensures (forall e :: e in edges ==> e.source != id && e.target != id) ==> r == edges
    ensures EdgesWellFormed(edges) ==> EdgesWellFormed(r)
  {
    var keep := (e: Edge) => e.source != id && e.target != id;
    FilterKeepsAll(edges, keep);
    FilterKeepsEdgesWellFormed(edges, keep);
    Filter(edges, keep)
  }

  /** `edges.filter((edge) => edge.id !== edgeId)`. */
  function RemoveEdge(edges: seq<Edge>, id: Id): (r: seq<Edge>)
    ensures forall e :: e in r <==> e in edges && e.id != id
    ensures (forall e :: e in edges ==> e.id != id) ==> r == edges
    ensures EdgesWellFormed(edges) ==> EdgesWellFormed(r)
  {
    var keep := (e: Edge) => e.id != id;
    FilterKeepsAll(edges, keep);
    FilterKeepsEdgesWellFormed(edges, keep);
    Filter(edges, keep)
  }

  /** `ids.filter((id) => id !== removed)`. */
  function Unselect(ids: seq<Id>, removed: Id): (r: seq<Id>)
    ensures forall x :: x in r <==> x in ids && x != removed
    ensures removed !in ids ==> r == ids
  {
    var keep := (x: Id) => x != removed;
    FilterKeepsAll(ids, keep);
    Filter(ids, keep)
  }

  /** `nodes.filter((node) => !selectedNodes.includes(node.id))`. */
  function KeepUnselectedNodes(nodes: seq<Node>, selectedNodes: seq<Id>): (r: seq<Node>)
    ensures forall n :: n in r <==> n in nodes && n.id !in selectedNodes
    ensures NodeIdsDistinct(nodes) ==> NodeIdsDistinct(r)
  {
    var keep := (n: Node) => n.id !in selectedNodes;
    FilterKeepsNodeIdsDistinct(nodes, keep);
    Filter(nodes, keep)
  }

  /**
   * The edges `deleteSelected` keeps: those not selected themselves and with
   * neither endpoint among the selected nodes.
   */
  function KeepUnselectedEdges(edges: seq<Edge>, selectedNodes: seq<Id>, selectedEdges: seq<Id>): (r: seq<Edge>)
    ensures forall e :: e in r <==>
      e in edges && e.id !in selectedEdges && e.source !in selectedNodes && e.target !in selectedNodes
    ensures EdgesWellFormed(edges) ==> EdgesWellFormed(r)
  {
    var keep := (e: Edge) => e.id !in selectedEdges && e.source !in selectedNodes && e.target !in selectedNodes;
    FilterKeepsEdgesWellFormed(edges, keep);
    Filter(edges, keep)
  }

  /**
   * `nodes.map((node) => node.id === nodeId ? { ...node, position } : node)`:
   * the nodes carrying `id` move to `position`; nothing else changes.
   */
  function MoveNode(nodes: seq<Node>, id: Id, position: Position): (r: seq<Node>)
    ensures |r| == |nodes| && NodeIds(r) == NodeIds(nodes)
    ensures forall i :: 0 <= i < |r| ==> r[i].kind == nodes[i].kind && r[i].caption == nodes[i].caption
    ensures forall i :: 0 <= i < |r| && nodes[i].id == id ==> r[i].position == position
    ensures forall i :: 0 <= i < |r| && nodes[i].id != id ==> r[i] == nodes[i]
  {
    seq(|nodes|, i requires 0 <= i < |nodes| => if nodes[i].id == id then nodes[i].(position := position) else nodes[i])
  }

  /**
   * `edges.find((edge) => edge.source === source && edge.target === target)`:
   * an edge with that ordered pair of endpoints, if there is one (the
   * first, although only whether there is one matters to `addEdge`).
   */
  function FindEdge(edges: seq<Edge>, source: Id, target: Id): (r: Option<Edge>)
    ensures r.None? <==> forall e :: e in edges ==> !(e.source == source && e.target == target)
    ensures r.Some? ==> r.value in edges && r.value.source == source && r.value.target == target
  {
    if edges == [] then None
    else if edges[0].source == source && edges[0].target == target then Some(edges[0])
    else
      assert forall e :: e in edges ==> e == edges[0] || e in edges[1..];
      FindEdge(edges[1..], source, target)
  }

  /**
   * The rules `addEdge` checks before it changes anything: the alert text of
   * a rejected edge, or None when the edge may be added.
   */
  function RejectReason(edges: seq<Edge>, source: Id, target: Id): (r: Option<string>)
    ensures r == Some(SelfLoopAlert) <==> source == target
    ensures r == Some(DuplicateAlert) <==> source != target && exists e :: e in edges && e.source == source && e.target == target
    ensures r == None <==> source != target && forall e :: e in edges ==> !(e.source == source && e.target == target)
  {
    assert SelfLoopAlert != DuplicateAlert;
    if source == target then Some(SelfLoopAlert)
    else if FindEdge(edges, source, target).Some? then Some(DuplicateAlert)
    else None
  }

  /** The edge `addEdge` creates: a fresh id and the fixed handle roles. */
  function NewEdge(id: Id, source: Id, target: Id): Edge
  {
    Edge(id, source, target, Some("source"), Some("target"))
  }

  /** The node `addNode` creates: a fresh id, the `custom` kind, the label. */
  function NewNode(id: Id, caption: string, position: Position): Node
  {
    Node(id, "custom", position, caption)
  }

  /**
   * Appending an edge that `addEdge` admits, with an id not yet in use, keeps
   * the edge list well formed.
   */
  lemma AdmittedEdgeKeepsWellFormed(edges: seq<Edge>, id: Id, source: Id, target: Id)
    requires EdgesWellFormed(edges) && id !in EdgeIds(edges)
    requires RejectReason(edges, source, target) == None
    ensures EdgesWellFormed(edges + [NewEdge(id, source, target)])
  {
    var e := NewEdge(id, source, target);
    forall i | 0 <= i < |edges| ensures DifferentEnds(edges[i], e) && DifferentIds(edges[i], e) {
      assert edges[i] in edges;
      assert EdgeIds(edges)[i] == edges[i].id;
    }
    PairwiseAppend(edges, e, DifferentEnds);
    PairwiseAppend(edges, e, DifferentIds);
    assert !HasSelfLoop(edges + [e]) by {
      forall x | x in edges + [e] ensures x.source != x.target {
        if x != e {
          assert x in edges;
        }
      }
    }
  }

  /** Adding the same edge twice: the second call is rejected as a duplicate. */
  lemma SecondAddEdgeRejected(edges: seq<Edge>, id: Id, source: Id, target: Id)
    requires source != target
    ensures RejectReason(edges + [NewEdge(id, source, target)], source, target) == Some(DuplicateAlert)
  {
    assert NewEdge(id, source, target) in edges + [NewEdge(id, source, target)];
  }

  /** Deleting a node and its incident edges leaves no dangling edge behind. */
  lemma RemoveNodeKeepsAttached(nodes: seq<Node>, edges: seq<Edge>, id: Id)
    requires Attached(nodes, edges)
    ensures Attached(RemoveNode(nodes, id), DetachEdges(edges, id))
  {
    var nodes' := RemoveNode(nodes, id);
    forall e | e in DetachEdges(edges, id) ensures e.source in NodeIds(nodes') && e.target in NodeIds(nodes') {
      NodeIdsMembership(nodes, e.source);
      NodeIdsMembership(nodes, e.target);
      NodeIdsMembership(nodes', e.source);
      NodeIdsMembership(nodes', e.target);
    }
  }

  /** Deleting the selection leaves no dangling edge behind. */
  lemma RemoveSelectedKeepsAttached(nodes: seq<Node>, edges: seq<Edge>, selectedNodes: seq<Id>, selectedEdges: seq<Id>)
    requires Attached(nodes, edges)
    ensures Attached(KeepUnselectedNodes(nodes, selectedNodes), KeepUnselectedEdges(edges, selectedNodes, selectedEdges))
  {
    var nodes' := KeepUnselectedNodes(nodes, selectedNodes);
    forall e | e in KeepUnselectedEdges(edges, selectedNodes, selectedEdges)
      ensures e.source in NodeIds(nodes') && e.target in NodeIds(nodes')
    {
      NodeIdsMembership(nodes, e.source);
      NodeIdsMembership(nodes, e.target);
      NodeIdsMembership(nodes', e.source);
      NodeIdsMembership(nodes', e.target);
    }
  }

  /** An edge between two existing nodes leaves no dangling edge. */
  lemma AppendEdgeKeepsAttached(nodes: seq<Node>, edges: seq<Edge>, e: Edge)
    requires Attached(nodes, edges)
    requires e.source in NodeIds(nodes) && e.target in NodeIds(nodes)
    ensures Attached(nodes, edges + [e])
  {
  }

  /** A new node leaves no dangling edge. */
  lemma AppendNodeKeepsAttached(nodes: seq<Node>, edges: seq<Edge>, n: Node)
    requires Attached(nodes, edges)
    ensures Attached(nodes + [n], edges)
  {
    forall x | x in NodeIds(nodes) ensures x in NodeIds(nodes + [n]) {
      NodeIdsMembership(nodes, x);
      NodeIdsMembership(nodes + [n], x);
    }
  }

  /** A node whose id no node carries yet keeps the ids distinct. */
  lemma AppendFreshNodeKeepsDistinct(nodes: seq<Node>, n: Node)
    requires NodeIdsDistinct(nodes) && n.id !in NodeIds(nodes)
    ensures NodeIdsDistinct(nodes + [n])
  {
    forall i | 0 <= i < |nodes| ensures DifferentNodeIds(nodes[i], n) {
      assert NodeIds(nodes)[i] == nodes[i].id;
    }
    PairwiseAppend(nodes, n, DifferentNodeIds);
  }

  /** Distinct ids are a property of the id list alone. */
  lemma {:induction false} SameIdsKeepDistinct(nodes: seq<Node>, old_nodes: seq<Node>)
    requires NodeIds(nodes) == NodeIds(old_nodes) && NodeIdsDistinct(old_nodes)
    ensures NodeIdsDistinct(nodes)
  {
    forall i, j | 0 <= i < j < |nodes| ensures DifferentNodeIds(nodes[i], nodes[j]) {
      assert NodeIds(nodes)[i] == nodes[i].id && NodeIds(old_nodes)[i] == old_nodes[i].id;
      assert NodeIds(nodes)[j] == nodes[j].id && NodeIds(old_nodes)[j] == old_nodes[j].id;
      assert DifferentNodeIds(old_nodes[i], old_nodes[j]);
    }
  }

  /** Moving a node keeps the validation report: only ids take part in it. */
  lemma MoveNodeKeepsValidation(nodes: seq<Node>, edges: seq<Edge>, id: Id, position: Position)
    ensures Validation(MoveNode(nodes, id, position), edges) == Validation(nodes, edges)
    ensures Attached(nodes, edges) ==> Attached(MoveNode(nodes, id, position), edges)
    ensures NodeIdsDistinct(nodes) ==> NodeIdsDistinct(MoveNode(nodes, id, position))
  {
    if NodeIdsDistinct(nodes) {
      SameIdsKeepDistinct(MoveNode(nodes, id, position), nodes);
    }
    SameIdsSameValidation(MoveNode(nodes, id, position), nodes, edges);
  }
}
