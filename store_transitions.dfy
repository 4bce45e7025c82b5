/**
 * The store's actions as transitions of the whole state: for each action
 * that changes the graph, the state it leaves behind, and the lemma that
 * says what that state is and that it keeps the store invariant.
 */
module StoreTransitions {
  import opened Pipeline
  import opened Digraph
  import opened DagValidation
  import opened PipelineEdits

  /** The report the store starts with, before any node exists. */
  const InitialValidation := ValidationResult(false, [EmptyGraph], false, true, false, true, true)

  /** The state the store is created in. */
  function InitialState(): PipelineState
  {
    PipelineState([], [], [], [], InitialValidation, false, None)
  }

  /**
   * The store invariant: the cached report is the one the engine gives the
   * current lists, the edge list is well formed, and the connection pair is
   * set and cleared together.
   */
  ghost predicate Consistent(s: PipelineState)
  {
    && s.dagValidation == Validation(s.nodes, s.edges)
    && EdgesWellFormed(s.edges)
    && (s.isConnecting <==> s.connectionStart.Some?)
  }

  /** The starting report is the one the engine gives an empty graph. */
  lemma InitialStateConsistent()
    ensures InitialValidation == Validation([], [])
    ensures Consistent(InitialState())
  {
    EmptyGraphReport([]);
    assert NodeIds([]) == [];
    assert !CycleReachable([], []);
  }

  /** `addNode`: one node appended, the report recomputed. */
  ghost function AddNodeStep(s: PipelineState, caption: string, position: Position, freshId: Id): PipelineState
  {
    var nodes := s.nodes + [NewNode(freshId, caption, position)];
    s.(nodes := nodes, dagValidation := Validation(nodes, s.edges))
  }

  /**
   * `addNode` appends exactly the new node and keeps the invariant and
   * attachment; a fresh id keeps node ids distinct.
   */
  lemma AddNodeKeepsConsistent(s: PipelineState, caption: string, position: Position, freshId: Id)
    requires Consistent(s)
    ensures Consistent(AddNodeStep(s, caption, position, freshId))
    ensures var r := AddNodeStep(s, caption, position, freshId);
      && |r.nodes| == |s.nodes| + 1 && r.nodes[..|s.nodes|] == s.nodes
      && r.nodes[|s.nodes|].id == freshId && r.nodes[|s.nodes|].kind == "custom"
      && r.nodes[|s.nodes|].caption == caption && r.nodes[|s.nodes|].position == position
      && r.edges == s.edges && r.selectedNodes == s.selectedNodes && r.selectedEdges == s.selectedEdges
    ensures Attached(s.nodes, s.edges) ==> Attached(AddNodeStep(s, caption, position, freshId).nodes, s.edges)
    ensures NodeIdsDistinct(s.nodes) && freshId !in NodeIds(s.nodes) ==>
      NodeIdsDistinct(AddNodeStep(s, caption, position, freshId).nodes)
  {
    if Attached(s.nodes, s.edges) {
      AppendNodeKeepsAttached(s.nodes, s.edges, NewNode(freshId, caption, position));
    }
    if NodeIdsDistinct(s.nodes) && freshId !in NodeIds(s.nodes) {
      AppendFreshNodeKeepsDistinct(s.nodes, NewNode(freshId, caption, position));
    }
  }

  /** `deleteNode`: the node, its incident edges and its selection removed. */
  ghost function DeleteNodeStep(s: PipelineState, id: Id): PipelineState
  {
    var nodes := RemoveNode(s.nodes, id);
    var edges := DetachEdges(s.edges, id);
    s.(nodes := nodes, edges := edges, selectedNodes := Unselect(s.selectedNodes, id),
       dagValidation := Validation(nodes, edges))
  }

  /**
   * `deleteNode` keeps the invariant, and leaves no dangling edge and no
   * repeated node id if there was none.
   */
  lemma DeleteNodeKeepsConsistent(s: PipelineState, id: Id)
    requires Consistent(s)
    ensures Consistent(DeleteNodeStep(s, id))
    ensures Attached(s.nodes, s.edges) ==> Attached(DeleteNodeStep(s, id).nodes, DeleteNodeStep(s, id).edges)
    ensures NodeIdsDistinct(s.nodes) ==> NodeIdsDistinct(DeleteNodeStep(s, id).nodes)
  {
    if Attached(s.nodes, s.edges) {
      RemoveNodeKeepsAttached(s.nodes, s.edges, id);
    }
  }

  /**
   * Deleting an id no node carries, in a store without dangling edges,
   * keeps the nodes, the edges and the report; only a stale selection of
   * that id is dropped.
   */
  lemma DeleteAbsentNode(s: PipelineState, id: Id)
    requires Consistent(s) && Attached(s.nodes, s.edges) && id !in NodeIds(s.nodes)
    ensures DeleteNodeStep(s, id) == s.(selectedNodes := Unselect(s.selectedNodes, id))
  {
    forall n | n in s.nodes ensures n.id != id {
      NodeIdsMembership(s.nodes, id);
    }
    assert RemoveNode(s.nodes, id) == s.nodes;
    assert DetachEdges(s.edges, id) == s.edges;
  }

  /** `deleteEdge`: every edge with the id and its selection removed. */
  ghost function DeleteEdgeStep(s: PipelineState, id: Id): PipelineState
  {
    var edges := RemoveEdge(s.edges, id);
    s.(edges := edges, selectedEdges := Unselect(s.selectedEdges, id),
       dagValidation := Validation(s.nodes, edges))
  }

  /** `deleteEdge` keeps the invariant, and leaves no dangling edge if there was none. */
  lemma DeleteEdgeKeepsConsistent(s: PipelineState, id: Id)
    requires Consistent(s)
    ensures Consistent(DeleteEdgeStep(s, id))
    ensures Attached(s.nodes, s.edges) ==> Attached(s.nodes, DeleteEdgeStep(s, id).edges)
  {
  }

  /** `addEdge`: nothing changes when the edge is rejected; otherwise one edge appended. */
  ghost function AddEdgeStep(s: PipelineState, source: Id, target: Id, freshId: Id): PipelineState
  {
    if RejectReason(s.edges, source, target).Some? then s
    else
      var edges := s.edges + [NewEdge(freshId, source, target)];
      s.(edges := edges, dagValidation := Validation(s.nodes, edges))
  }

  /**
   * `addEdge` keeps the invariant (no self-loop, no repeated ordered pair);
   * a self-loop or a repeated pair leaves the state as it was; an edge
   * between two nodes leaves no dangling edge if there was none.
   */
  lemma AddEdgeKeepsConsistent(s: PipelineState, source: Id, target: Id, freshId: Id)
    requires Consistent(s) && freshId !in EdgeIds(s.edges)
    ensures Consistent(AddEdgeStep(s, source, target, freshId))
    ensures source == target ==> AddEdgeStep(s, source, target, freshId) == s
    ensures (exists e :: e in s.edges && e.source == source && e.target == target) ==>
      AddEdgeStep(s, source, target, freshId) == s
    ensures RejectReason(s.edges, source, target) == None ==>
      var r := AddEdgeStep(s, source, target, freshId);
      && |r.edges| == |s.edges| + 1 && r.edges[..|s.edges|] == s.edges
      && r.edges[|s.edges|].id == freshId
      && r.edges[|s.edges|].source == source && r.edges[|s.edges|].target == target
      && r.edges[|s.edges|].sourceHandle == Some("source") && r.edges[|s.edges|].targetHandle == Some("target")
      && r.nodes == s.nodes && r.selectedNodes == s.selectedNodes && r.selectedEdges == s.selectedEdges
    ensures source in NodeIds(s.nodes) && target in NodeIds(s.nodes) && Attached(s.nodes, s.edges) ==>
      Attached(s.nodes, AddEdgeStep(s, source, target, freshId).edges)
  {
    if RejectReason(s.edges, source, target).None? {
      AdmittedEdgeKeepsWellFormed(s.edges, freshId, source, target);
      if source in NodeIds(s.nodes) && target in NodeIds(s.nodes) && Attached(s.nodes, s.edges) {
        AppendEdgeKeepsAttached(s.nodes, s.edges, NewEdge(freshId, source, target));
      }
    }
  }

  /** `updateNodePosition`: the matching nodes move; the report is left as it is. */
  ghost function MoveNodeStep(s: PipelineState, id: Id, position: Position): PipelineState
  {
    s.(nodes := MoveNode(s.nodes, id, position))
  }

  /**
   * Moving a node keeps the invariant without recomputing the report, and
   * keeps node ids distinct.
   */
  lemma MoveNodeKeepsConsistent(s: PipelineState, id: Id, position: Position)
    requires Consistent(s)
    ensures Consistent(MoveNodeStep(s, id, position))
    ensures Attached(s.nodes, s.edges) ==> Attached(MoveNodeStep(s, id, position).nodes, s.edges)
    ensures NodeIdsDistinct(s.nodes) ==> NodeIdsDistinct(MoveNodeStep(s, id, position).nodes)
  {
    MoveNodeKeepsValidation(s.nodes, s.edges, id, position);
  }

  /** `setNodes`: the node list replaced, the report recomputed. */
  ghost function SetNodesStep(s: PipelineState, nodes: seq<Node>): PipelineState
  {
    s.(nodes := nodes, dagValidation := Validation(nodes, s.edges))
  }

  /**
   * `setNodes` keeps the invariant; with the same ids the report does not
   * change and distinct node ids stay distinct.
   */
  lemma SetNodesKeepsConsistent(s: PipelineState, nodes: seq<Node>)
    requires Consistent(s)
    ensures Consistent(SetNodesStep(s, nodes))
    ensures NodeIds(nodes) == NodeIds(s.nodes) ==> SetNodesStep(s, nodes).dagValidation == s.dagValidation
    ensures NodeIds(nodes) == NodeIds(s.nodes) && NodeIdsDistinct(s.nodes) ==> NodeIdsDistinct(SetNodesStep(s, nodes).nodes)
  {
    if NodeIds(nodes) == NodeIds(s.nodes) {
      SameIdsSameValidation(nodes, s.nodes, s.edges);
      if NodeIdsDistinct(s.nodes) {
        SameIdsKeepDistinct(nodes, s.nodes);
      }
    }
  }

  /** `deleteSelected`: the selected nodes and edges removed, both selections emptied. */
  ghost function DeleteSelectedStep(s: PipelineState): PipelineState
  {
    var nodes := KeepUnselectedNodes(s.nodes, s.selectedNodes);
    var edges := KeepUnselectedEdges(s.edges, s.selectedNodes, s.selectedEdges);
    s.(nodes := nodes, edges := edges, selectedNodes := [], selectedEdges := [],
       dagValidation := Validation(nodes, edges))
  }

  /**
   * `deleteSelected` keeps the invariant, and leaves no dangling edge and no
   * repeated node id if there was none.
   */
  lemma DeleteSelectedKeepsConsistent(s: PipelineState)
    requires Consistent(s)
    ensures Consistent(DeleteSelectedStep(s))
    ensures Attached(s.nodes, s.edges) ==> Attached(DeleteSelectedStep(s).nodes, DeleteSelectedStep(s).edges)
    ensures NodeIdsDistinct(s.nodes) ==> NodeIdsDistinct(DeleteSelectedStep(s).nodes)
  {
    if Attached(s.nodes, s.edges) {
      RemoveSelectedKeepsAttached(s.nodes, s.edges, s.selectedNodes, s.selectedEdges);
    }
  }
}
