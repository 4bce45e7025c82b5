/**
 * The records of the pipeline editor: nodes, directed edges, the validation
 * report and the pending-connection marker. Every record here is a value;
 * the store replaces whole records rather than editing them.
 */
module Pipeline {

  datatype Option<T> = None | Some(value: T)

  /** Node and edge identifiers (uuid strings in the editor). */
  type Id = string

  /**
   * Canvas coordinates. They are advisory only: no check of the validation
   * engine or of the store reads them, so they are kept as plain reals.
   */
  datatype Position = Position(x: real, y: real)

  /**
   * A pipeline node. `kind` is the rendering type tag ("custom" for every
   * node the store creates) and `caption` is the node's `data.label`
   * (`label` is a Dafny keyword).
   */
  datatype Node = Node(id: Id, kind: string, position: Position, caption: string)

  /** A directed edge from `source` to `target`, with optional handle names. */
  datatype Edge = Edge(id: Id, source: Id, target: Id, sourceHandle: Option<string>, targetHandle: Option<string>)

  /** The derived validity snapshot of a graph. */
  datatype ValidationResult = ValidationResult(
    isValid: bool,
    errors: seq<string>,
    hasMinimumNodes: bool,
    hasNoCycles: bool,
    allNodesConnected: bool,
    hasNoSelfLoops: bool,
    hasValidEdgeDirections: bool)

  /** Which end of a node a connection gesture started from. */
  datatype HandleType = SourceHandle | TargetHandle

  datatype ConnectionStart = ConnectionStart(nodeId: Id, handleType: HandleType)

  /**
   * The whole editor state: the graph, the two selection lists (ids), the
   * cached validation report and the connection gesture in progress.
   */
  datatype PipelineState = PipelineState(
    nodes: seq<Node>,
    edges: seq<Edge>,
    selectedNodes: seq<Id>,
    selectedEdges: seq<Id>,
    dagValidation: ValidationResult,
    isConnecting: bool,
    connectionStart: Option<ConnectionStart>)

  /** `nodes.map(node => node.id)`. */
  function NodeIds(nodes: seq<Node>): seq<Id>
  {
    seq(|nodes|, i requires 0 <= i < |nodes| => nodes[i].id)
  }

  /** `edges.map(edge => edge.id)`. */
  function EdgeIds(edges: seq<Edge>): seq<Id>
  {
    seq(|edges|, i requires 0 <= i < |edges| => edges[i].id)
  }

  /** An id is listed by NodeIds exactly when some node carries it. */
  lemma NodeIdsMembership(nodes: seq<Node>, id: Id)
    ensures id in NodeIds(nodes) <==> exists n :: n in nodes && n.id == id
  {
    if id in NodeIds(nodes) {
      var i :| 0 <= i < |nodes| && NodeIds(nodes)[i] == id;
      assert nodes[i] in nodes;
    }
    if exists n :: n in nodes && n.id == id {
      var n :| n in nodes && n.id == id;
      var i :| 0 <= i < |nodes| && nodes[i] == n;
      assert NodeIds(nodes)[i] == id;
    }
  }

  /** An id is listed by EdgeIds exactly when some edge carries it. */
  lemma EdgeIdsMembership(edges: seq<Edge>, id: Id)
    ensures id in EdgeIds(edges) <==> exists e :: e in edges && e.id == id
  {
    if id in EdgeIds(edges) {
      var i :| 0 <= i < |edges| && EdgeIds(edges)[i] == id;
      assert edges[i] in edges;
    }
    if exists e :: e in edges && e.id == id {
      var e :| e in edges && e.id == id;
      var i :| 0 <= i < |edges| && edges[i] == e;
      assert EdgeIds(edges)[i] == id;
    }
  }
}
