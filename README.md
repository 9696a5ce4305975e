# Taskgraph serializers and graph viewer, in Dafny

This project models a small tool chain for drawing Taskcluster task graphs.

- **Python serializers.** They read a taskgraph (or a task-group listing) and turn it into a networkx `DiGraph`. Each node gets a topological `layer`. The laid-out graph is then written as a graphology node/edge document: one node record per task and one edge record per dependency, with edge keys `"0"`, `"1"`, … from a running counter.
- **TypeScript viewer.** It shows that document. Its interaction state holds the hovered node, pinned nodes and nodes in view, and the search selection or suggestions. The click, hover and search handlers update that state. Two reducers decide which nodes and edges are drawn highlighted, hidden or labelled.

## Modules

- `Wrappers`: `Option` and `Result`.
- `Decimal`: Python's `str(n)`, the text of edge keys, with the parser that inverts it. As a result, dense keys are unique.
- `Tasks`: the task records both kinds of input carry, and the attribute dictionary of a digraph node.
- `Documents`: the node/edge document.
- `DiGraphs`: `nx.DiGraph`.
  - The class `DiGraph` has the methods `add_node`, `add_edge` and the `layer` write, which update it in place.
  - The pure value `Graph` specifies those methods. It holds insertion-ordered, duplicate-free nodes; an attribute map; and insertion-ordered, duplicate-free edges, which fix `predecessors` order.
  - `add_edge` with an unknown endpoint adds a bare node. Re-adding an edge changes nothing.
- `Generations`: `nx.topological_generations`, as Kahn's algorithm by generations. It stops with "cyclic" when nodes remain and none has in-degree 0.
- `SerializeTaskgraph`: `build_digraph`, the graph loop of `build_kinds_digraph`, the layer loop of `layout_digraph`, `serialize_kinds` and `serialize_taskgraph`.
- `Serialize`:
  - the task-group builder (the graph part of `build_digraph_for_task_group`) and `serialize_digraph`;
  - `build_digraph_from_taskgraph` and `layout_digraph` in serialize.py are the same code as in serialize_taskgraph.py, so `SerializeTaskgraph.BuildDigraph` and `SerializeTaskgraph.LayoutDigraph` model both copies.
- `Viewer`:
  - the viewer's `State`, the `clickNode` transition, the two reducers, hover and `setSearchQuery`;
  - the class `Viewer` holds the state that the handlers update in place.

Every statement-level `for` loop of the source, and the `forEach` in `clickNode`, is a `for`/`while` loop in a method. The iterating expressions are pure functions: the `.map`/`.filter` of `setSearchQuery` (`Matches`, `Ids`), the `.some` of `clickNode` (`NextToPin`), the `in_edges` comprehension of `serialize_kinds` and the `predecessors` list of `serialize_digraph` (`Predecessors`, `InLinks`). Each method is proved against a pure function of its inputs (`DependencyGraph`, `TaskGroupGraph`, `WithLayers`, `Clicked`, `Searched`, …). The lemmas prove what the source promises about those functions.

### Layers are generations

`layout_digraph` sets each node's layer to the index of its topological generation. In the diamond `{A→B, A→C, B→D, C→D}`, `D` is in the third generation and gets layer 2, the length of its longest incoming path A→B→D (`Generations.DiamondGenerations`).

## Model

| member | source | states |
|---|---|---|
| DiGraphs.DiGraph.constructor | serialize_taskgraph.py:18 | a new digraph has no nodes, edges or attributes |
| DiGraphs.DiGraph.AddNode | serialize_taskgraph.py:20 | `add_node(n, **record)` appends `n` once to the node order, keeps the edges, merges the record into `n`'s attributes and keeps every other node's attributes |
| DiGraphs.DiGraph.AddEdge | serialize_taskgraph.py:23-25 | `add_edge(u, v)` adds the missing endpoints as bare nodes at the end of the node order, and adds `(u, v)` to the edges unless it is already there; existing attributes stay as they are |
| DiGraphs.DiGraph.SetLayer | serialize_taskgraph.py:87 | `nodes[n]["layer"] = layer` changes only that node's `layer` |
| DiGraphs.WithEdge | serialize_taskgraph.py:23-25 | the node set gains exactly `u` and `v`, appended in that order when missing; a new edge `(u, v)` goes last in the edge order and an existing one leaves the edges unchanged; a node that existed keeps its attributes, and a new one is bare |
| DiGraphs.WithEdgeAppends | serialize_taskgraph.py:23-25 | `add_edge` never reorders the existing nodes: the old node order is a prefix of the new one |
| DiGraphs.WithEdgeIdempotent | serialize_taskgraph.py:23-25 | adding the same edge twice gives the same digraph as adding it once |
| DiGraphs.WithBareNode | serialize_taskgraph.py:23-25 | adding an endpoint that is missing appends it as a bare node; the old order is kept as a prefix, the edges are unchanged, and an existing node is left alone |
| DiGraphs.WithNewEdge | serialize_taskgraph.py:23-25 | a new edge between two existing nodes is appended last to the edge order and changes no node |
| DiGraphs.WithNode | serialize_taskgraph.py:20 | the node set gains exactly `n`; other nodes' attributes and all edges are unchanged; `n` carries the new record, or its old one when no record is given |
| DiGraphs.Predecessors | serialize.py:66 | `predecessors(v)` are exactly the sources of edges into `v` |
| DiGraphs.PredecessorsDistinct | serialize.py:66 | no predecessor is listed twice |
| DiGraphs.InLinks | serialize_taskgraph.py:62 | the in-edges of the listed nodes, visited node by node, are exactly the edges whose target is listed |
| DiGraphs.InLinksAreTheEdges | serialize.py:54-79 | visiting every node's in-edges visits every edge of the digraph exactly once |
| Generations.Generate | serialize_taskgraph.py:83 | Kahn's generations of the remaining nodes: there are at most as many generations as nodes, and a non-empty graph either yields a generation or is cyclic |
| Generations.TopologicalGenerations | serialize_taskgraph.py:83 | `nx.topological_generations(g)`, with the same bounds in terms of the digraph's nodes |
| Generations.SourcesMembers | serialize_taskgraph.py:83 | a generation consists of the remaining nodes with no in-edge from a remaining node |
| Generations.WithoutMembers | serialize_taskgraph.py:83 | removing a generation keeps exactly the nodes outside it |
| Generations.GenerationsWithin | serialize_taskgraph.py:83 | every generation is non-empty and holds only nodes of the digraph |
| Generations.GenerationsDisjoint | serialize_taskgraph.py:83-87 | no node is in two generations, so each node is given at most one layer |
| Generations.GenerationsCover | serialize_taskgraph.py:83-87 | on an acyclic digraph every node is in some generation |
| Generations.GenerationsOrderEdge | serialize_taskgraph.py:83-87 | the source of every edge is in an earlier generation than its target |
| Generations.FirstGenerationSources | serialize_taskgraph.py:83 | the first generation is exactly the nodes with no in-edges |
| Generations.GenerationsLayer | serialize_taskgraph.py:83-87 | on an acyclic digraph the generation indices give every node a layer, and layers strictly increase along every edge |
| Generations.LayeringCompletes | serialize_taskgraph.py:83 | if some layering increases along every edge, the generator does not stop on a cycle |
| Generations.CycleIsCyclic | serialize_taskgraph.py:83 | a digraph with a cycle makes the generator stop with "cyclic" |
| Generations.DiamondGenerations | serialize_taskgraph.py:83-87 | the diamond A→B, A→C, B→D, C→D has generations [A], [B, C], [D]: D gets layer 2 |
| Generations.SelfLoopCyclic | serialize_taskgraph.py:83 | a self-loop A→A yields no generation and is cyclic |
| Generations.LayerOfIndex | serialize_taskgraph.py:83-87 | the layer of a node is the index of the generation that holds it |
| Decimal.NatToString | serialize_taskgraph.py:67 | `str(n)` is a non-empty string of decimal digits, with a leading zero only for 0 |
| Decimal.ParseNatToString | serialize_taskgraph.py:67 | `str(n)` is read back as `n` |
| Decimal.NatToStringInjective | serialize_taskgraph.py:67 | different counters give different keys |
| Documents.DenseKeysUnique | serialize_taskgraph.py:67 | keys `str(0)`, `str(1)`, … are unique within a document |
| SerializeTaskgraph.DependencyGraph | serialize_taskgraph.py:19-25 | the add-node-then-add-edges loop on a digraph value always gives a well-formed digraph: distinct nodes, distinct edges whose endpoints are nodes, and attributes for exactly the nodes; what it holds is stated by `DependencyGraphNodes`, `DependencyGraphEdges` and `DependencyGraphKeyPayload` |
| SerializeTaskgraph.BuildDigraph | serialize_taskgraph.py:17-28 | the digraph built from a taskgraph file is the pure value `DependencyGraph(FileEntries(taskgraph))` |
| SerializeTaskgraph.AddEdgesInto | serialize_taskgraph.py:21-25 | the inner loop adds one edge `(upstream, task)` per dependency |
| SerializeTaskgraph.TaskgraphNodes | serialize_taskgraph.py:19-25 | the nodes are exactly the taskgraph's keys and the task ids named as dependencies |
| SerializeTaskgraph.TaskgraphEdges | serialize_taskgraph.py:21-25 | the edges are exactly `(deps[d], t)` for every task `t` and every dependency entry `d` |
| SerializeTaskgraph.DependencyIsTaskgraphEdge | serialize_taskgraph.py:21-25 | every dependency entry becomes an edge `(upstream, task)` |
| SerializeTaskgraph.TaskgraphEdgeHasDependency | serialize_taskgraph.py:21-25 | every edge comes from a dependency entry |
| SerializeTaskgraph.NoDependenciesNoInEdges | serialize_taskgraph.py:21 | a task with an empty dependencies map has no in-edges |
| SerializeTaskgraph.TaskPayload | serialize_taskgraph.py:20 | each task's node carries that task's record |
| SerializeTaskgraph.TaskgraphData | serialize_taskgraph.py:19-25 | no node has a layer yet; a key's node carries its record; a node that is only named as a dependency is bare |
| SerializeTaskgraph.DependencyGraphNodes | serialize_taskgraph.py:19-25 | the nodes of the add-node-then-add-edges loop are exactly the keys and the upstreams |
| SerializeTaskgraph.DependencyGraphEdges | serialize_taskgraph.py:21-25 | the edges of that loop are exactly (upstream, key) |
| SerializeTaskgraph.DependencyGraphKeyPayload | serialize_taskgraph.py:20 | a key added once carries its own payload, even when it was added earlier as an upstream |
| SerializeTaskgraph.DependencyGraphUpstreamPayload | serialize_taskgraph.py:23-25 | a node that is never a key has no payload |
| SerializeTaskgraph.BuildKindsDigraph | serialize_taskgraph.py:34-39 | the kinds digraph is the pure value `DependencyGraph(KindEntries(links))` |
| SerializeTaskgraph.KindsGraphShape | serialize_taskgraph.py:35-39 | its nodes are exactly the kinds and their dependencies, and its edges exactly (dependency, kind) |
| SerializeTaskgraph.LayoutDigraph | serialize_taskgraph.py:82-88 | every node of each yielded generation gets that generation's index as its `layer`, and nothing else changes; the outcome is "cyclic" exactly when the generator raises, and layers written before that stay |
| SerializeTaskgraph.LayGeneration | serialize_taskgraph.py:86-87 | the inner loop sets the layer of exactly the generation's nodes |
| SerializeTaskgraph.WithLayers | serialize_taskgraph.py:83-87 | after the loop, a node's layer is the index of its generation if it has one; otherwise the node is unchanged; the keys are unchanged |
| SerializeTaskgraph.LaidOut | serialize_taskgraph.py:82-87 | the attribute map after the layer loop has the same keys as before: no node is added or dropped |
| SerializeTaskgraph.LayoutEveryNode | serialize.py:41-45 | on an acyclic digraph every node gets a layer below the number of generations, and keeps its task attributes |
| SerializeTaskgraph.LayoutEdgesRise | serialize.py:41-45 | on an acyclic digraph, layer(u) < layer(v) for every edge (u, v) |
| SerializeTaskgraph.LayoutSources | serialize_taskgraph.py:83-87 | a node is on layer 0 exactly when it has no predecessors |
| SerializeTaskgraph.LayoutLayersUsed | serialize_taskgraph.py:83 | every layer 0 … k-1 is used by some node, so there are no gaps |
| SerializeTaskgraph.SerializeTaskgraph | serialize_taskgraph.py:93-126 | one node record per key in key order (colour `#B30000`, the record's `label`, size 20, its position); Σ\|dependencies\| edge records, each `(upstream, task)` in emission order with type arrow, size 2.5 and the target task's kind; keys `str(0)`, `str(1)`, … |
| SerializeTaskgraph.TaskLinks | serialize_taskgraph.py:111-121 | one link per dependency entry, from its upstream to the task, with the task's kind |
| SerializeTaskgraph.DependencyLinks | serialize_taskgraph.py:110-125 | the links in emission order: there are exactly Σ\|dependencies\| of them, the number of edge records |
| SerializeTaskgraph.DependencyLinksMembers | serialize_taskgraph.py:110-125 | the emitted links are exactly (deps[d], t, kind of t) over all tasks and dependency entries |
| SerializeTaskgraph.SerializedPairsAreDigraphEdges | serialize_taskgraph.py:110-125 | the (source, target) pairs of the document are exactly the edges of the digraph built from the same taskgraph |
| SerializeTaskgraph.SerializeKinds | serialize_taskgraph.py:45-79 | one node record per digraph node in node order (colour `#054096`, label the kind, size 5); one edge record per in-edge in visit order, with type arrow, size 0.25 and the target's kind; the edge records name every digraph edge exactly once; keys `str(0)`, `str(1)`, … |
| SerializeTaskgraph.EmitKindEdges | serialize_taskgraph.py:63-78 | the inner loop appends one record per dependency and advances the counter by the same amount |
| SerializeTaskgraph.KindEdgesAreTheEdges | serialize_taskgraph.py:62-78 | records that follow the in-edge visit order list the digraph's edges, each once |
| Serialize.TaskGroupGraph | serialize.py:94-101 | the task-group digraph value, well formed; its nodes, edges and attributes are stated by `TaskGroupNodes`, `TaskGroupEdges` and `TaskGroupData` |
| Serialize.GroupNodes | serialize.py:96-97 | the digraph after the first loop, well formed; `GroupNodesMembers`, `GroupNodesEdgeless` and `GroupNodesPayload` state its content |
| Serialize.GroupLinks | serialize.py:99-101 | the digraph after the second loop, from any well-formed start, well formed; `GroupLinksNodes`, `GroupLinksEdges` and `GroupLinksData` state what it adds |
| Serialize.BuildDigraphForTaskGroup | serialize.py:94-101 | the task-group digraph is the pure value `TaskGroupGraph(tasks)` |
| Serialize.AddTaskNodes | serialize.py:96-97 | the first loop is the pure value `GroupNodes(tasks)` |
| Serialize.AddTaskEdges | serialize.py:99-101 | the second loop adds every task's dependency edges to the current digraph |
| Serialize.AddEdgesFrom | serialize.py:100-101 | the inner loop adds one edge `(taskId, dep)` per dependency |
| Serialize.TaskGroupNodes | serialize.py:96-101 | the nodes are exactly the task ids and the ids named as dependencies |
| Serialize.TaskGroupEdges | serialize.py:99-101 | the edges are exactly `(taskId, dep)`, dependent → dependency, the reverse of the file builders |
| Serialize.TaskGroupData | serialize.py:96-101 | a task id's node carries the last task listed with that id; an id that is only a dependency is bare; no node has a layer |
| Serialize.GroupNodesMembers | serialize.py:96-97 | the first loop adds exactly the listed task ids |
| Serialize.GroupNodesEdgeless | serialize.py:96-97 | the first loop adds no edges |
| Serialize.GroupNodesPayload | serialize.py:96-97 | the last task listed under an id supplies that node's attributes |
| Serialize.GroupLinksNodes | serialize.py:99-101 | the second loop adds exactly the dependency ids as nodes |
| Serialize.GroupLinksEdges | serialize.py:99-101 | the second loop adds exactly the `(taskId, dep)` edges |
| Serialize.GroupLinksData | serialize.py:99-101 | the second loop keeps existing attributes and adds bare nodes |
| Serialize.TaskGroupNamed | serialize.py:94-101 | a node of the task-group digraph has a task name exactly when it is a listed task id |
| Serialize.LayoutKeepsNames | serialize.py:44-59 | writing layers neither gives nor removes a task name |
| Serialize.SerializeDigraph | serialize.py:51-81 | fails on the first node without `task.metadata.name`, and only if such a node exists; otherwise one node record per node in node order (label = the task name, data = the node's modelled attributes), then per node one arrow edge record per predecessor; the edge records name every digraph edge exactly once; no (source, target) pair repeats; keys `str(0)`, `str(1)`, … |
| Serialize.EmitRecords | serialize.py:52-80 | the node and edge loops of `serialize_digraph` on the digraph value, with the same outcome |
| Serialize.EmitArrowEdges | serialize.py:67-79 | the inner loop appends one arrow record per predecessor and advances the counter by the same amount |
| Serialize.DigraphEdgesAreTheEdges | serialize.py:66-79 | records that follow the predecessor visit order list every edge once, with no repeated pair and dense keys |
| Viewer.Neighbors | index.ts:127 | `graph.neighbors(n)` is exactly the set of nodes joined to `n` by an edge in either direction |
| Viewer.Clicked | index.ts:137-156 | the `clickNode` transition: the clicked node ends up pinned exactly when it was neither pinned nor next to a pin, and only the pins and the view change |
| Viewer.ClickPinned | index.ts:138-141 | clicking a pinned node removes just that node from the pins, empties the view and changes nothing else |
| Viewer.ClickNeighbor | index.ts:142-149 | clicking an unpinned node next to a pin keeps the pins and adds the node and all its neighbours to the view |
| Viewer.ClickElsewhere | index.ts:150-155 | clicking any other node makes it the only pin and makes the view exactly its neighbours |
| Viewer.InitialCoherent | index.ts:53-57 | the initial state is coherent: nothing pinned and nothing in view |
| Viewer.ClickKeepsCoherent | index.ts:137-156 | every click keeps the state coherent: at most one node is pinned, the view holds the pin's neighbours, and nothing is in view without a pin |
| Viewer.NodeReducer | index.ts:217-236 | the reducer sets at most one of highlighted, hidden and forced label, clears none, and never changes the hidden flag of a pinned or hovered node |
| Viewer.PinnedOrHoveredHighlighted | index.ts:220-221 | a pinned or hovered node is highlighted, and its hidden and forced-label flags stay as drawn |
| Viewer.NodeHiddenExactly | index.ts:220-228 | a node is hidden exactly when it was already hidden, or it is neither pinned nor hovered and lies outside the hovered neighbourhood (nothing pinned) or outside the view (something pinned) |
| Viewer.OutOfViewHidden | index.ts:222-228 | with a pin, a node that is not pinned, not hovered and not in view is hidden and not highlighted |
| Viewer.EdgeReducer | index.ts:238-259 | the reducer shows a hidden edge only when nothing is pinned, and hides a shown edge only when something is pinned and the edge does not touch the hovered node |
| Viewer.NoPinAllEdgesShown | index.ts:253-254 | with nothing pinned, every edge is shown |
| Viewer.PinnedEdgeHiddenExactly | index.ts:243-257 | with a pin, an edge is hidden exactly when it was hidden already, or it does not touch the hovered node and neither endpoint is pinned or in view |
| Viewer.Includes | index.ts:83 | `label.includes(query)`: the empty query is included in every label, and a query longer than the label is never included |
| Viewer.IncludesOccurs | index.ts:83 | `includes` holds exactly when the query occurs at some offset of the label |
| Viewer.Matches | index.ts:77-83 | the suggestions are exactly the nodes whose folded label contains the folded query, and there are no more of them than nodes |
| Viewer.Searched | index.ts:70-114 | the `setSearchQuery` transition: the query is recorded, and only the query, the selection and the suggestions change |
| Viewer.EmptyQueryClears | index.ts:107-110 | an empty query clears both the selected node and the suggestions, and leaves the hover, pins and view unchanged |
| Viewer.QueryOutcome | index.ts:71-104 | a non-empty query is recorded. Exactly one of selection and suggestions is set. A selection is a node whose label is the query and is the only match. Suggestions are exactly the ids whose folded label contains the folded query. The hover, pins and view are unchanged |
| Viewer.ExactMatchSelects | index.ts:88-90 | when one node's label equals the query and no other label matches, that node is selected and the suggestions are cleared |
| Viewer.OnlyMatch | index.ts:77-88 | a single matching node is the whole match list |
| Viewer.Entered | index.ts:125-129 | hovering a node records it and exactly its neighbours, and changes nothing else |
| Viewer.Left | index.ts:131-135 | leaving a node clears the hover and changes nothing else |
| Viewer.Viewer.constructor | index.ts:41-58 | the viewer starts with no hover, an empty query, nothing selected or suggested, and nothing pinned or in view |
| Viewer.Viewer.ClickNode | index.ts:137-156 | the click handler moves the state to `Clicked` of the old state |
| Viewer.Viewer.AddNeighbors | index.ts:149-155 | the `forEach` loop adds exactly the node's neighbours to the view |
| Viewer.Viewer.EnterNode | index.ts:125-129 | the `enterNode` handler moves the state to `Entered` |
| Viewer.Viewer.LeaveNode | index.ts:131-135 | the `leaveNode` handler moves the state to `Left` |
| Viewer.Viewer.SetSearchQuery | index.ts:70-114 | the search handler moves the state to `Searched` of the old state and the query |

## Left out

- File input and output are not modelled: `load_taskgraph`, the `open` in `build_kinds_digraph`, and writing the JSON document in `main`. The model starts from the parsed values and ends at the document value.
- Taskcluster network access and the `listTaskGroup` pagination are not modelled. The task-group builder starts from the already-collected task list.
- The command line is not modelled: argparse, output-name templating, logging, the `NotImplementedError` for decision tasks, and the `print` of the digraph's order and size.
- The graph's `name` attribute is not modelled; nothing in the core reads it.
- `nx.multipartite_layout` is not modelled, since it is floating-point geometry. Positions are an opaque `pos` map from node to coordinates. The serializers require that every node has a position, which `multipartite_layout` provides.
- Within one generation, the model lists nodes in node order. networkx lists later generations in its own discovery order. The `layer` values do not depend on that order; only the layout's coordinates would.
- networkx internals are abstracted: the digraph is an ordered node list, an attribute map and an ordered edge list.
- Node payloads keep only the modelled task fields. A taskgraph record keeps `label`, `dependencies`, `attributes.kind` and `task.metadata.name`. A task-group task keeps `status.taskId`, `task.dependencies` and `task.metadata.name`. Every other field of the task JSON is dropped, so the `data` of a `serialize_digraph` node record holds only those fields and the `layer`.
- JSON is represented by typed records. A taskgraph entry always has `label`, `dependencies`, `attributes.kind` and `task.metadata.name`. A JSON number's int/float distinction is not kept; sizes are reals.
- `if deps:` and `if dependencies:` are not separate branches. Iterating over an empty map or list does nothing, which is the same outcome.
- `toLowerCase` is the uninterpreted case-folding parameter `fold`; Unicode case mapping is not modelled.
- Viewer rendering is not modelled:
  - the Sigma setup, `graph.import` and the datalist HTML;
  - the camera animations and the bounding-box and zoom arithmetic in `clickNode` and `setSearchQuery`;
  - the renderer settings and `renderer.refresh()`.
- The viewer's graph gives every node a `label` string. A node without a label, on which `toLowerCase` at `setSearchQuery` would throw, is not modelled.
- graphology stores at most one edge per ordered pair. Its `neighbors` are modelled as a set, so listing order and duplicates are not modelled.
