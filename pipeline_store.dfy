/**
 * The graph store: the single owner of the nodes, the edges, the two
 * selection lists, the cached validation report and the pending-connection
 * pair. Every action replaces these fields as one unit, and the structural
 * actions recompute the report.
 */
module PipelineStore {
  import opened Pipeline
  import opened DagValidation
  import opened PipelineEdits
  import opened StoreTransitions

  /**
   * `usePipelineStore`: the state and its actions. The validation report is
   * always the one the engine gives the current nodes and edges.
   */
  class Store {
    var nodes: seq<Node>
    var edges: seq<Edge>
    var selectedNodes: seq<Id>
    var selectedEdges: seq<Id>
    var dagValidation: ValidationResult
    var isConnecting: bool
    var connectionStart: Option<ConnectionStart>

    /** The fields, read as one state record. */
    function State(): PipelineState
      reads this
    {
      PipelineState(nodes, edges, selectedNodes, selectedEdges, dagValidation, isConnecting, connectionStart)
    }

    /** The store invariant, over the current fields. */
    ghost predicate Valid()
      reads this
    {
      Consistent(State())
    }

    /** The initial state: everything empty, the initial report, no gesture. */
    constructor ()
      ensures Valid()
      ensures State() == InitialState()
    {
      nodes := [];
      edges := [];
      selectedNodes := [];
      selectedEdges := [];
      dagValidation := InitialValidation;
      isConnecting := false;
      connectionStart := None;
      new;
      InitialStateConsistent();
    }

    /**
     * `addNode(label, position)`: append one node with a fresh id, so that
     * node ids stay distinct. The id generator and the default position are
     * the caller's.
     */
    method AddNode(caption: string, position: Position, freshId: Id)
      requires Valid() && freshId !in NodeIds(nodes)
      modifies this
      ensures Valid()
      ensures State() == AddNodeStep(old(State()), caption, position, freshId)
      ensures NodeIdsDistinct(old(nodes)) ==> NodeIdsDistinct(nodes)
    {
      AddNodeKeepsConsistent(State(), caption, position, freshId);
      var nodes' := nodes + [NewNode(freshId, caption, position)];
      var report := ValidateDag(nodes', edges);
      nodes, dagValidation := nodes', report;
      assert State() == AddNodeStep(old(State()), caption, position, freshId);
    }

    /**
     * `deleteNode(nodeId)`: remove the node, every edge that starts or ends
     * at it, and its selection.
     */
    method DeleteNode(id: Id)
      requires Valid()
      modifies this
      ensures Valid()
      ensures State() == DeleteNodeStep(old(State()), id)
    {
      DeleteNodeKeepsConsistent(State(), id);
      var nodes' := RemoveNode(nodes, id);
      var edges' := DetachEdges(edges, id);
      var report := ValidateDag(nodes', edges');
      nodes, edges, selectedNodes, dagValidation := nodes', edges', Unselect(selectedNodes, id), report;
      assert State() == DeleteNodeStep(old(State()), id);
    }

    /** `deleteEdge(edgeId)`: remove the edge and its selection. */
    method DeleteEdge(id: Id)
      requires Valid()
      modifies this
      ensures Valid()
      ensures State() == DeleteEdgeStep(old(State()), id)
    {
      DeleteEdgeKeepsConsistent(State(), id);
      var edges' := RemoveEdge(edges, id);
      var report := ValidateDag(nodes, edges');
      edges, selectedEdges, dagValidation := edges', Unselect(selectedEdges, id), report;
      assert State() == DeleteEdgeStep(old(State()), id);
    }

    /**
     * `addEdge(source, target)`: reject a self-loop or a second edge with the
     * same ordered endpoints, changing nothing (the alert becomes the
     * returned text); otherwise append one edge with a fresh id.
     */
    method AddEdge(source: Id, target: Id, freshId: Id) returns (alert: Option<string>)
      requires Valid() && freshId !in EdgeIds(edges)
      modifies this
      ensures Valid()
      ensures alert == RejectReason(old(edges), source, target)
      ensures State() == AddEdgeStep(old(State()), source, target, freshId)
    {
      AddEdgeKeepsConsistent(State(), source, target, freshId);
      alert := RejectReason(edges, source, target);
      if alert.Some? {
        return;
      }
      var edges' := edges + [NewEdge(freshId, source, target)];
      var report := ValidateDag(nodes, edges');
      edges, dagValidation := edges', report;
      assert State() == AddEdgeStep(old(State()), source, target, freshId);
    }

    /**
     * `updateNodePosition(nodeId, position)`: move the node. The report is
     * not recomputed, and stays current because no check reads positions.
     */
    method UpdateNodePosition(id: Id, position: Position)
      requires Valid()
      modifies this
      ensures Valid()
      ensures State() == MoveNodeStep(old(State()), id, position)
    {
      MoveNodeKeepsConsistent(State(), id, position);
      nodes := MoveNode(nodes, id, position);
      assert State() == MoveNodeStep(old(State()), id, position);
    }

    /** `setSelectedNodes(nodeIds)`: replace the node selection as given. */
    method SetSelectedNodes(ids: seq<Id>)
      requires Valid()
      modifies this
      ensures Valid()
      ensures State() == old(State()).(selectedNodes := ids)
    {
      selectedNodes := ids;
    }

    /** `setSelectedEdges(edgeIds)`: replace the edge selection as given. */
    method SetSelectedEdges(ids: seq<Id>)
      requires Valid()
      modifies this
      ensures Valid()
      ensures State() == old(State()).(selectedEdges := ids)
    {
      selectedEdges := ids;
    }

    /**
     * `setNodes(nodes)`: replace the whole node list (the layout result) and
     * recompute the report against the current edges. Ids are not checked.
     */
    method SetNodes(newNodes: seq<Node>)
      requires Valid()
      modifies this
      ensures Valid()
      ensures State() == SetNodesStep(old(State()), newNodes)
    {
      SetNodesKeepsConsistent(State(), newNodes);
      var report := ValidateDag(newNodes, edges);
      nodes, dagValidation := newNodes, report;
      assert State() == SetNodesStep(old(State()), newNodes);
    }

    /** `clearSelection()`: empty both selection lists. */
    method ClearSelection()
      requires Valid()
      modifies this
      ensures Valid()
      ensures State() == old(State()).(selectedNodes := [], selectedEdges := [])
    {
      selectedNodes, selectedEdges := [], [];
    }

    /**
     * `deleteSelected()`: remove every selected node, every selected edge and
     * every edge touching a selected node, then empty both selections; the
     * report is recomputed once.
     */
    method DeleteSelected()
      requires Valid()
      modifies this
      ensures Valid()
      ensures State() == DeleteSelectedStep(old(State()))
    {
      DeleteSelectedKeepsConsistent(State());
      var nodes' := KeepUnselectedNodes(nodes, selectedNodes);
      var edges' := KeepUnselectedEdges(edges, selectedNodes, selectedEdges);
      var report := ValidateDag(nodes', edges');
      nodes, edges, selectedNodes, selectedEdges, dagValidation := nodes', edges', [], [], report;
      assert State() == DeleteSelectedStep(old(State()));
    }

    /** `startConnection(nodeId, handleType)`: a gesture is in progress from that handle. */
    method StartConnection(nodeId: Id, handleType: HandleType)
      requires Valid()
      modifies this
      ensures Valid()
      ensures State() == old(State()).(isConnecting := true, connectionStart := Some(ConnectionStart(nodeId, handleType)))
    {
      isConnecting, connectionStart := true, Some(ConnectionStart(nodeId, handleType));
    }

    /** `endConnection()`: no gesture is in progress; a second call changes nothing. */
    method EndConnection()
      requires Valid()
      modifies this
      ensures Valid()
      ensures State() == old(State()).(isConnecting := false, connectionStart := None)
      ensures !old(isConnecting) ==> State() == old(State())
    {
      isConnecting, connectionStart := false, None;
    }

    /**
     * `validateGraph()`: recompute the report from the current nodes and
     * edges. The report is always current, so nothing changes.
     */
    method ValidateGraph()
      requires Valid()
      modifies this
      ensures Valid()
      ensures State() == old(State())
    {
      dagValidation := ValidateDag(nodes, edges);
    }
  }

  /** A store in its invariant never reports a self-loop. */
  lemma StoreReportsNoSelfLoop(store: Store)
    requires store.Valid()
    ensures store.dagValidation.hasNoSelfLoops
    ensures SelfLoops !in store.dagValidation.errors
  {
  }
}
