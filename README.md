# Pipeline editor: DAG validation and graph store

This project models the logic core of a visual pipeline editor. In the editor, the user places nodes on a canvas and joins them with directed edges. Two pieces of code make up the core:

- **The validation engine** (`validateDAG`). It takes a node list and an edge list and returns a report with five booleans and an ordered list of error messages. The checks are:
  - at least two nodes;
  - no cycle, found by a depth-first search with a visited set and a separate recursion-stack set;
  - every node touches an edge;
  - no self-loop;
  - edge directions, which always pass.
- **The graph store** (`usePipelineStore`). It owns:
  - the nodes and the edges;
  - the selected node ids and the selected edge ids;
  - the cached validation report;
  - the pending connection gesture.

  Every action replaces these fields as one unit. The actions that change the graph recompute the report.

The modules, in dependency order:

| module | file | contents |
|---|---|---|
| `Pipeline` | `pipeline.dfy` | the records: `Node`, `Edge`, `ValidationResult`, `ConnectionStart`, `PipelineState`; `NodeIds`, `EdgeIds` |
| `Seqs` | `seqs.dfy` | `Filter` (the arrays' `filter`) and pairwise properties a filter or an append keeps |
| `Digraph` | `digraph.dfy` | the declarative graph meaning: arcs, walks, "a walk from a root runs into a cycle", "the edges contain a directed cycle", finishing ranks |
| `SearchInvariant` | `search_invariant.dfy` | the invariant of the depth-first search (stack shape, finishing order) and one lemma per search step |
| `CycleDetection` | `cycle_detection.dfy` | `hasCycle` as imperative methods: the adjacency build, the recursive `dfs`, the loop over node ids |
| `DagValidation` | `dag_validation.dfy` | `validateDAG`, `areAllNodesConnected`, the message list and its order, and facts about whole reports |
| `PipelineEdits` | `pipeline_edits.dfy` | the pure list edits behind the store's actions (filters, map, find, the `addEdge` rules) and what each one keeps |
| `StoreTransitions` | `store_transitions.dfy` | each graph-changing action as a transition of `PipelineState`, with the store invariant and the lemma that each transition keeps it |
| `PipelineStore` | `pipeline_store.dfy` | the store as a class whose fields the actions update in place |

The central results:

- **Cycle check.** `CycleDetection.HasCycle` returns true exactly when some walk that starts at a node id runs into a cycle (`Digraph.CycleReachable`).
  - This holds for every input, dangling edges included.
  - When every edge leaves a node, this is the same as "the edges contain a directed cycle" (`Digraph.CycleReachableIffCycle`).
  - Soundness: the search reports a cycle only on an edge back to a vertex on the recursion stack.
  - Completeness: the finishing order of the search is a ranking that strictly decreases along every edge out of a finished vertex.
- **Report.** `DagValidation.ValidateDag` returns exactly the report that `Validation` defines from the meaning of each check. `Report` states how the flags and the messages relate.
- **Store invariant.** The store keeps `Valid()`:
  - the cached report is `validateDAG(nodes, edges)`;
  - there is no self-loop edge;
  - no two edges share an ordered `(source, target)` pair;
  - no two edges share an id;
  - `isConnecting` holds exactly when `connectionStart` is set.

  Each action's new state is given by a transition function, and a lemma shows that the transition keeps the invariant.
- **Distinct node ids** is not an invariant of the code either, because `setNodes` accepts any node list. The model proves it per action under a precondition ("if the ids were distinct, they still are"): for `addNode` given a fresh id, for `deleteNode`, `deleteSelected` and `updateNodePosition` always, and for `setNodes` when the new list carries the same ids.
- **No dangling edges** is not an invariant of the code. `addEdge` does not check its endpoints, and `setNodes` accepts any node list. So the model proves it per action under a precondition ("if there was none before, there is none after"), and for `addEdge` only when both endpoints are node ids.

## Model

| member | source | states |
|---|---|---|
| Pipeline.NodeIdsMembership | src/utils/dagValidation.ts:49 | an id is in `nodes.map(n => n.id)` exactly when some node carries it |
| Pipeline.EdgeIdsMembership | src/stores/pipelineStore.ts:103-109 | an id is among the edge ids exactly when some edge carries it (the freshness of a new edge id is stated over this list) |
| Seqs.Filter | src/stores/pipelineStore.ts:57-59 | `filter` keeps exactly the elements that pass the test, each as many times as it occurs in the input, drops the others entirely, and is never longer than its input |
| Seqs.FilterKeepsAll | src/stores/pipelineStore.ts:57-59 | a filter that every element passes returns the list unchanged |
| Seqs.FilterKeepsPairwise | src/stores/pipelineStore.ts:145-164 | a filter keeps relative order, so any property of every ordered pair of elements survives it |
| Seqs.PairwiseAppend | src/stores/pipelineStore.ts:111-113 | appending an element related to every earlier element keeps a pairwise property |
| Digraph.ArcIffTarget | src/utils/dagValidation.ts:57-61 | `v` is an arc target of `u` exactly when `v` is in the list the adjacency build gives `u` |
| Digraph.ArcIffEdge | src/utils/dagValidation.ts:57-61 | there is an arc `u -> v` exactly when some edge has source `u` and target `v` |
| Digraph.ArcAppend | src/stores/pipelineStore.ts:112 | appending an edge keeps every arc and adds its own |
| Digraph.RankDecreasesAlongWalk | src/utils/dagValidation.ts:64-81 | along a walk from a ranked vertex, every later vertex is ranked strictly lower |
| Digraph.NoCycleWhenRanked | src/utils/dagValidation.ts:84-92 | if every node id is ranked, no walk from a node id runs into a cycle (the search's completeness argument) |
| Digraph.CycleReachableHasCycle | src/utils/dagValidation.ts:46-93 | a walk that runs into a cycle contains a directed cycle |
| Digraph.CycleReachableIffCycle | src/utils/dagValidation.ts:46-93 | when every edge source is a node id, the search's condition is the same as "the edges contain a directed cycle", both directions |
| Digraph.BackEdgeClosesCycle | src/utils/dagValidation.ts:74-75 | an edge from the end of a walk back to its start, where the start is a node id, creates a reachable cycle |
| SearchInvariant.PushKeepsStackShape | src/utils/dagValidation.ts:65-66 | entering an unvisited vertex along an arc from the top of the stack keeps the stack a walk from a root |
| SearchInvariant.FinishKeepsOrder | src/utils/dagValidation.ts:79 | a vertex leaves the stack only after all its successors have finished, so it can take the next rank |
| SearchInvariant.BackEdgeClosesLasso | src/utils/dagValidation.ts:74-75 | an arc from the top of the stack to a vertex on the stack proves a walk from a root that runs into a cycle |
| SearchInvariant.LeaveKeepsStackShape | src/utils/dagValidation.ts:79 | removing the top vertex from the recursion stack leaves a well-shaped stack |
| SearchInvariant.EnterKeepsSearchState | src/utils/dagValidation.ts:65-66 | `visited.add` plus `recursionStack.add` on an unvisited vertex keeps the whole search invariant |
| SearchInvariant.ExtendsTransitive | src/utils/dagValidation.ts:64-81 | ranks once given are never changed |
| SearchInvariant.LeaveKeepsSearchState | src/utils/dagValidation.ts:79-80 | `recursionStack.delete(u)` after all successors finish keeps the search invariant and ranks `u` last |
| CycleDetection.BuildAdjacency | src/utils/dagValidation.ts:51-61 | every node id gets a list, and each vertex's list is exactly the targets of its outgoing edges in edge order, sources that are not node ids included |
| CycleDetection.Dfs | src/utils/dagValidation.ts:64-81 | `true` only when a walk from a root runs into a cycle; on `false`, `u` and everything reachable from it are visited and ranked, the recursion stack is as before, and `visited` only grew |
| CycleDetection.Explore | src/utils/dagValidation.ts:69-77 | one neighbour step: recurse on an unvisited neighbour, report a neighbour on the stack, skip a finished one; the same guarantees as `Dfs` |
| CycleDetection.HasCycle | src/utils/dagValidation.ts:46-93 | `hasCycle` returns true exactly when some walk from a node id runs into a cycle |
| DagValidation.MessagesDistinct | src/utils/dagValidation.ts:9-27 | the five error texts are pairwise different |
| DagValidation.MessagesListFailures | src/utils/dagValidation.ts:4-28 | each message is in the list exactly when its check fails; the connectivity message needs a non-empty node list |
| DagValidation.PushIfKeepsOrder | src/utils/dagValidation.ts:4-28 | a conditional push of a later kind of message keeps the list in severity order |
| DagValidation.MessagesOrdered | src/utils/dagValidation.ts:4-28 | messages appear in the fixed order minimum-nodes, cycles, connectivity, self-loops |
| DagValidation.Report | src/utils/dagValidation.ts:3-44 | `hasMinimumNodes` iff at least 2 nodes; `isValid` is the AND of the five flags; `hasValidEdgeDirections` always holds; each message iff its check fails; errors are ordered and at most 4; no errors iff `isValid` |
| DagValidation.AreAllNodesConnected | src/utils/dagValidation.ts:95-106 | false for 0 or 1 nodes; otherwise true exactly when every node id is the source or target of some edge |
| DagValidation.ValidateDag | src/utils/dagValidation.ts:3-44 | the computed report equals the declarative `Validation`: the cycle flag from `CycleReachable`, connectivity from `AllNodesConnected`, self-loops from `HasSelfLoop` |
| DagValidation.ValidIffNoErrors | src/utils/dagValidation.ts:31-33 | a report is valid exactly when its error list is empty |
| DagValidation.SameIdsSameValidation | src/utils/dagValidation.ts:49 | two node lists with the same ids get the same report: positions, kinds and labels are not read |
| DagValidation.EmptyGraphReport | src/utils/dagValidation.ts:19-22 | an empty graph without self-loops reports exactly `["Graph is empty"]` and is invalid |
| DagValidation.SingleNodeReport | src/utils/dagValidation.ts:7-10 | a single node reports "Graph needs at least 2 nodes" first and is not connected |
| DagValidation.NoCyclesIffAcyclic | src/utils/dagValidation.ts:12-16 | when every edge leaves a node, `hasNoCycles` holds exactly when the edges contain no directed cycle |
| DagValidation.ValidIffWellShaped | src/utils/dagValidation.ts:3-44 | when every edge leaves a node, valid iff at least 2 nodes, each touching an edge, no self-loop and no directed cycle |
| DagValidation.WellShapedIsValid | src/utils/dagValidation.ts:3-44 | for any edge list, a graph with at least 2 nodes, each touching an edge, no self-loop and no directed cycle is valid and reports no errors |
| DagValidation.ClosingEdgeReportsCycle | src/utils/dagValidation.ts:12-16 | adding an edge that closes an existing path back to a node makes the report list the cycle error and be invalid |
| DagValidation.ChainOfTwoIsValid | src/utils/dagValidation.ts:3-44 | two distinct nodes joined by one edge form a valid graph with no errors |
| DagValidation.TwoCycleReportsOnlyCycle | src/utils/dagValidation.ts:12-16 | `A -> B` plus `B -> A` reports exactly the cycle error |
| DagValidation.TriangleHasCycle | src/utils/dagValidation.ts:12-16 | `A -> B -> C -> A` is reported as cyclic (`hasNoCycles` false) and invalid (`isValid` false) |
| DagValidation.ChainOfThreeIsValid | src/utils/dagValidation.ts:3-44 | `A -> B -> C` is valid |
| PipelineEdits.FilterKeepsEdgesWellFormed | src/stores/pipelineStore.ts:58 | any filter of a well-formed edge list is well formed (no self-loop, no repeated ordered pair, no repeated id) |
| PipelineEdits.RemoveNode | src/stores/pipelineStore.ts:57 | keeps exactly the nodes with another id, each as many times as it occurred (and in order, by `Seqs.FilterKeepsPairwise`); unchanged when no node has the id; distinct node ids stay distinct |
| PipelineEdits.DetachEdges | src/stores/pipelineStore.ts:58 | keeps exactly the edges that neither start nor end at the id; unchanged when none touches it; keeps well-formedness |
| PipelineEdits.RemoveEdge | src/stores/pipelineStore.ts:74 | keeps exactly the edges with another id; unchanged when none has it; keeps well-formedness |
| PipelineEdits.Unselect | src/stores/pipelineStore.ts:59 | keeps exactly the other ids; unchanged when the id is not selected |
| PipelineEdits.KeepUnselectedNodes | src/stores/pipelineStore.ts:147 | a node is kept iff its id is not selected; distinct node ids stay distinct |
| PipelineEdits.KeepUnselectedEdges | src/stores/pipelineStore.ts:148-152 | an edge is kept iff it is not selected and neither endpoint is a selected node; keeps well-formedness |
| PipelineEdits.MoveNode | src/stores/pipelineStore.ts:120-122 | same length, ids, kinds and labels; the matching nodes get the new position, the others are unchanged |
| PipelineEdits.FindEdge | src/stores/pipelineStore.ts:94-96 | nothing found iff no edge has that ordered pair; what is found is an edge of the list with that pair |
| PipelineEdits.RejectReason | src/stores/pipelineStore.ts:89-101 | the self-loop alert iff `source == target`; the duplicate alert iff an edge already has that ordered pair; no alert otherwise |
| PipelineEdits.AdmittedEdgeKeepsWellFormed | src/stores/pipelineStore.ts:87-115 | an edge `addEdge` admits, with an unused id, keeps the list free of self-loops, repeated pairs and repeated ids |
| PipelineEdits.SecondAddEdgeRejected | src/stores/pipelineStore.ts:94-100 | after an edge is added, adding the same pair again is rejected as a duplicate |
| PipelineEdits.RemoveNodeKeepsAttached | src/stores/pipelineStore.ts:57-58 | deleting a node with its incident edges leaves no dangling edge if there was none |
| PipelineEdits.RemoveSelectedKeepsAttached | src/stores/pipelineStore.ts:147-152 | deleting the selection leaves no dangling edge if there was none |
| PipelineEdits.AppendEdgeKeepsAttached | src/stores/pipelineStore.ts:112 | an edge between two node ids leaves no dangling edge if there was none |
| PipelineEdits.AppendNodeKeepsAttached | src/stores/pipelineStore.ts:50 | a new node leaves no dangling edge if there was none |
| PipelineEdits.FilterKeepsNodeIdsDistinct | src/stores/pipelineStore.ts:57 | any filter of a node list with distinct ids has distinct ids |
| PipelineEdits.AppendFreshNodeKeepsDistinct | src/stores/pipelineStore.ts:42-50 | appending a node whose id no node carries keeps node ids distinct |
| PipelineEdits.SameIdsKeepDistinct | src/stores/pipelineStore.ts:134-139 | a node list with the same id list as one with distinct ids has distinct ids |
| PipelineEdits.MoveNodeKeepsValidation | src/stores/pipelineStore.ts:117-124 | moving a node leaves the report unchanged, no dangling edge appears and distinct node ids stay distinct |
| StoreTransitions.InitialStateConsistent | src/stores/pipelineStore.ts:22-39 | the initial report equals `validateDAG([], [])`, and the initial state satisfies the store invariant |
| StoreTransitions.AddNodeKeepsConsistent | src/stores/pipelineStore.ts:41-53 | `addNode` appends exactly one node, with the fresh id, type `custom`, the given label and the given position, after the old nodes; edges and selections are unchanged; keeps the invariant and keeps the edges attached; with a fresh id, distinct node ids stay distinct |
| StoreTransitions.DeleteNodeKeepsConsistent | src/stores/pipelineStore.ts:55-70 | `deleteNode` keeps the invariant, keeps the edges attached and keeps node ids distinct |
| StoreTransitions.DeleteAbsentNode | src/stores/pipelineStore.ts:55-70 | deleting an id no node carries, with no dangling edge, changes only the node selection (a stale id is dropped) |
| StoreTransitions.DeleteEdgeKeepsConsistent | src/stores/pipelineStore.ts:72-85 | `deleteEdge` keeps the invariant and keeps the edges attached |
| StoreTransitions.AddEdgeKeepsConsistent | src/stores/pipelineStore.ts:87-115 | `addEdge` keeps the invariant; a self-loop or an existing ordered pair leaves the state unchanged; otherwise exactly one edge is appended after the old edges, with the fresh id, the given source and target and the handles `'source'`/`'target'`, nodes and selections unchanged; an edge between node ids keeps the edges attached |
| StoreTransitions.MoveNodeKeepsConsistent | src/stores/pipelineStore.ts:117-124 | `updateNodePosition` keeps the invariant without recomputing the report, and keeps node ids distinct |
| StoreTransitions.SetNodesKeepsConsistent | src/stores/pipelineStore.ts:134-139 | `setNodes` keeps the invariant; with the same node ids the report does not change and distinct node ids stay distinct |
| StoreTransitions.DeleteSelectedKeepsConsistent | src/stores/pipelineStore.ts:145-164 | `deleteSelected` keeps the invariant, keeps the edges attached and keeps node ids distinct |
| PipelineStore.Store.constructor | src/stores/pipelineStore.ts:32-39 | empty lists, the initial report, no gesture; the invariant holds |
| PipelineStore.Store.AddNode | src/stores/pipelineStore.ts:41-53 | the new state is `AddNodeStep` of the old one; the invariant is kept; because the id is fresh, distinct node ids stay distinct |
| PipelineStore.Store.DeleteNode | src/stores/pipelineStore.ts:55-70 | the new state is `DeleteNodeStep` of the old one; the invariant is kept |
| PipelineStore.Store.DeleteEdge | src/stores/pipelineStore.ts:72-85 | the new state is `DeleteEdgeStep` of the old one; the invariant is kept |
| PipelineStore.Store.AddEdge | src/stores/pipelineStore.ts:87-115 | the returned alert is `RejectReason` of the old edges; the new state is `AddEdgeStep` of the old one; the invariant is kept |
| PipelineStore.Store.UpdateNodePosition | src/stores/pipelineStore.ts:117-124 | the new state is `MoveNodeStep` of the old one: only the node list changes and the report is not recomputed |
| PipelineStore.Store.SetSelectedNodes | src/stores/pipelineStore.ts:126-128 | only `selectedNodes` changes, to the given list |
| PipelineStore.Store.SetSelectedEdges | src/stores/pipelineStore.ts:130-132 | only `selectedEdges` changes, to the given list |
| PipelineStore.Store.SetNodes | src/stores/pipelineStore.ts:134-139 | the new state is `SetNodesStep` of the old one; the invariant is kept |
| PipelineStore.Store.ClearSelection | src/stores/pipelineStore.ts:141-143 | both selections become empty and nothing else changes |
| PipelineStore.Store.DeleteSelected | src/stores/pipelineStore.ts:145-164 | the new state is `DeleteSelectedStep` of the old one; the invariant is kept |
| PipelineStore.Store.StartConnection | src/stores/pipelineStore.ts:166-171 | `isConnecting` is set with that start, and nothing else changes |
| PipelineStore.Store.EndConnection | src/stores/pipelineStore.ts:173-178 | the gesture is cleared, and nothing else changes; a second call changes nothing |
| PipelineStore.Store.ValidateGraph | src/stores/pipelineStore.ts:180-183 | recomputing the report changes nothing, so the call is idempotent |
| PipelineStore.StoreReportsNoSelfLoop | src/stores/pipelineStore.ts:89-92 | a store in its invariant never reports a self-loop |

## Left out

- React components are not part of this model: `Toolbar.tsx`, `ValidationPanel.tsx`, `Canvas.tsx`, `JSONPreview.tsx`, `CustomNode.tsx` and `PipelineEditor.tsx` only render and wire gestures.
- Auto-layout is not modelled. `getLayoutedElements` is a foreign layout library; only its effect is modelled, through `Store.SetNodes`, which accepts any node list.
- JSON export, `Blob`, object URLs and the clipboard are browser input/output and are not modelled.
- `uuidv4()` becomes a caller-supplied `freshId` parameter. Its freshness is a precondition: not among the node ids for `AddNode`, not among the edge ids for `AddEdge`.
- The `Math.random()` default position of `addNode` becomes the `position` parameter. Positions are pairs of reals that nothing but `updateNodePosition` reads. Floating-point arithmetic is not modelled.
- `alert(...)` in `addEdge` becomes the returned `Option<string>`, and the state is unchanged when an alert is returned.
- zustand's `create`, `set` and `get` are not modelled; they become the fields of `Store`, updated together within each method.
- `PipelineEdits.FindEdge`: does not state that the edge found is the first match, because `addEdge` only tests whether an edge was found.
- `CycleDetection.Dfs`: the visited and recursion-stack sets are passed in and handed back as values rather than mutated through a shared closure. The order of updates is the same.
- The TypeScript `position` default argument and optional edge handles are modelled as a required parameter and as `Option<string>`.

Behaviour of the code a reader might not expect:

- `deleteNode` removes the cascaded edges but leaves their ids in `selectedEdges`.
- `addEdge` neither ends the connection gesture nor checks that `source` and `target` are node ids.
- `setNodes` does not check that node ids are kept.
- The cycle search also follows edges whose source is not a node id. These sources get adjacency lists too (`adjacencyList.get(edge.source) || []`). So `hasCycle` is "a walk from a node id runs into a cycle", which equals "a directed cycle exists" only when every edge source is a node id.
