/**
 * serialize.py: the digraph of an already-fetched task group and the
 * node/edge document of a laid-out digraph. Its `build_digraph_from_taskgraph`
 * and `layout_digraph` are the same code as `build_digraph` and
 * `layout_digraph` in serialize_taskgraph.py and are modelled by
 * SerializeTaskgraph.BuildDigraph and SerializeTaskgraph.LayoutDigraph.
 */
module Serialize {
  import opened Wrappers
  import opened Tasks
  import opened DiGraphs
  import opened Decimal
  import opened Documents
  import opened SerializeTaskgraph

  // ---------------------------------------------------------------------
  // The digraph of a task group
  // ---------------------------------------------------------------------

  /** `for dep in ds: g.add_edge(u, dep)` on a digraph value. */
  function AddOutgoing(g: Graph, u: string, ds: seq<string>): (r: Graph)
    requires WellFormed(g)
    ensures WellFormed(r)
  {
    if |ds| == 0 then g
    else WithEdge(AddOutgoing(g, u, ds[..|ds| - 1]), u, ds[|ds| - 1])
  }

  /** Adding the next dependency adds the next edge. */
  lemma {:induction false} AddOutgoingStep(g: Graph, u: string, ds: seq<string>, j: nat)
    requires WellFormed(g) && j < |ds|
    ensures WithEdge(AddOutgoing(g, u, ds[..j]), u, ds[j]) == AddOutgoing(g, u, ds[..j + 1])
  {
    var w := ds[..j + 1];
    assert w[..|w| - 1] == ds[..j];
    assert w[|w| - 1] == ds[j];
  }

  lemma {:induction false} AddOutgoingNodes(g: Graph, u: string, ds: seq<string>, n: string)
    requires WellFormed(g)
    ensures n in AddOutgoing(g, u, ds).nodes <==> n in g.nodes || n in ds || (|ds| > 0 && n == u)
  {
    if |ds| > 0 {
      var init, d := ds[..|ds| - 1], ds[|ds| - 1];
      SplitLast(ds);
      AddOutgoingNodes(g, u, init, n);
      var r0 := AddOutgoing(g, u, init);
      assert n in WithEdge(r0, u, d).nodes <==> n in Elements(WithEdge(r0, u, d).nodes);
      assert n in r0.nodes <==> n in Elements(r0.nodes);
    }
  }

  lemma {:induction false} AddOutgoingEdges(g: Graph, u: string, ds: seq<string>, e: Edge)
    requires WellFormed(g)
    ensures e in AddOutgoing(g, u, ds).edges <==> e in g.edges || (e.0 == u && e.1 in ds)
  {
    if |ds| > 0 {
      var init, d := ds[..|ds| - 1], ds[|ds| - 1];
      SplitLast(ds);
      AddOutgoingEdges(g, u, init, e);
      var r0 := AddOutgoing(g, u, init);
      assert e in WithEdge(r0, u, d).edges <==> e in Elements(WithEdge(r0, u, d).edges);
      assert e in r0.edges <==> e in Elements(r0.edges);
    }
  }

  lemma {:induction false} AddOutgoingData(g: Graph, u: string, ds: seq<string>, m: string)
    requires WellFormed(g)
    requires m in AddOutgoing(g, u, ds).data
    ensures AddOutgoing(g, u, ds).data[m] == if m in g.data then g.data[m] else Bare
  {
    if |ds| > 0 {
      var init := ds[..|ds| - 1];
      var r0 := AddOutgoing(g, u, init);
      if m in r0.data {
        AddOutgoingData(g, u, init, m);
      } else {
        AddOutgoingNodes(g, u, init, m);
        assert m in g.data <==> m in Elements(g.nodes);
        assert m !in Elements(r0.nodes);
      }
    }
  }

  /** The digraph after the second loop has run over `tasks`, starting from `base`. */
  function GroupLinks(base: Graph, tasks: seq<GroupTask>): (r: Graph)
    requires WellFormed(base)
    ensures WellFormed(r)
  {
    if |tasks| == 0 then base
    else
      var t := tasks[|tasks| - 1];
      AddOutgoing(GroupLinks(base, tasks[..|tasks| - 1]), t.taskId, t.dependencies)
  }

  lemma {:induction false} GroupLinksStep(base: Graph, tasks: seq<GroupTask>, i: nat)
    requires WellFormed(base) && i < |tasks|
    ensures GroupLinks(base, tasks[..i + 1]) == AddOutgoing(GroupLinks(base, tasks[..i]), tasks[i].taskId, tasks[i].dependencies)
  {
    var w := tasks[..i + 1];
    assert w[..|w| - 1] == tasks[..i];
    assert w[|w| - 1] == tasks[i];
  }

  /** The ids all tasks depend on. */
  function GroupDependencies(tasks: seq<GroupTask>): set<string>
  {
    if |tasks| == 0 then {}
    else GroupDependencies(tasks[..|tasks| - 1]) + Elements(tasks[|tasks| - 1].dependencies)
  }

  lemma {:induction false} GroupDependenciesMembers(tasks: seq<GroupTask>, n: string)
    ensures n in GroupDependencies(tasks) <==> exists i :: 0 <= i < |tasks| && n in tasks[i].dependencies
  {
    if |tasks| > 0 {
      var init := tasks[..|tasks| - 1];
      GroupDependenciesMembers(init, n);
      if exists i :: 0 <= i < |init| && n in init[i].dependencies {
        var i :| 0 <= i < |init| && n in init[i].dependencies;
        assert tasks[i] == init[i];
      }
      if exists i :: 0 <= i < |tasks| && n in tasks[i].dependencies {
        var i :| 0 <= i < |tasks| && n in tasks[i].dependencies;
        if i < |init| {
          assert init[i] == tasks[i];
        }
      }
    }
  }

  /** The edges task -> dependency of all tasks. */
  function GroupEdges(tasks: seq<GroupTask>): set<Edge>
  {
    if |tasks| == 0 then {}
    else
      var t := tasks[|tasks| - 1];
      GroupEdges(tasks[..|tasks| - 1]) + set d | d in t.dependencies :: (t.taskId, d)
  }

  lemma {:induction false} GroupEdgesMembers(tasks: seq<GroupTask>, e: Edge)
    ensures e in GroupEdges(tasks) <==>
      exists i :: 0 <= i < |tasks| && e.0 == tasks[i].taskId && e.1 in tasks[i].dependencies
  {
    if |tasks| > 0 {
      var init := tasks[..|tasks| - 1];
      GroupEdgesMembers(init, e);
      if exists i :: 0 <= i < |init| && e.0 == init[i].taskId && e.1 in init[i].dependencies {
        var i :| 0 <= i < |init| && e.0 == init[i].taskId && e.1 in init[i].dependencies;
        assert tasks[i] == init[i];
      }
      if exists i :: 0 <= i < |tasks| && e.0 == tasks[i].taskId && e.1 in tasks[i].dependencies {
        var i :| 0 <= i < |tasks| && e.0 == tasks[i].taskId && e.1 in tasks[i].dependencies;
        if i < |init| {
          assert init[i] == tasks[i];
        }
      }
    }
  }

  /**
   * On a digraph that already has every task id as a node, the second loop
   * adds the dependency ids as nodes and nothing else.
   */
  lemma {:induction false} GroupLinksNodes(base: Graph, tasks: seq<GroupTask>, n: string)
    requires WellFormed(base)
    requires forall i :: 0 <= i < |tasks| ==> tasks[i].taskId in base.nodes
    ensures n in GroupLinks(base, tasks).nodes <==> n in base.nodes || n in GroupDependencies(tasks)
  {
    if |tasks| > 0 {
      var init, t := tasks[..|tasks| - 1], tasks[|tasks| - 1];
      forall i | 0 <= i < |init| ensures init[i].taskId in base.nodes {
        assert init[i] == tasks[i];
      }
      GroupLinksNodes(base, init, n);
      AddOutgoingNodes(GroupLinks(base, init), t.taskId, t.dependencies, n);
      GroupLinksNodes(base, init, t.taskId);
      assert n in t.dependencies <==> n in Elements(t.dependencies);
    }
  }

  lemma {:induction false} GroupLinksEdges(base: Graph, tasks: seq<GroupTask>, e: Edge)
    requires WellFormed(base)
    ensures e in GroupLinks(base, tasks).edges <==> e in base.edges || e in GroupEdges(tasks)
  {
    if |tasks| > 0 {
      var init, t := tasks[..|tasks| - 1], tasks[|tasks| - 1];
      GroupLinksEdges(base, init, e);
      AddOutgoingEdges(GroupLinks(base, init), t.taskId, t.dependencies, e);
    }
  }

  lemma {:induction false} GroupLinksData(base: Graph, tasks: seq<GroupTask>, m: string)
    requires WellFormed(base)
    requires m in GroupLinks(base, tasks).data
    ensures GroupLinks(base, tasks).data[m] == if m in base.data then base.data[m] else Bare
  {
    if |tasks| > 0 {
      var init, t := tasks[..|tasks| - 1], tasks[|tasks| - 1];
      var r0 := GroupLinks(base, init);
      AddOutgoingData(r0, t.taskId, t.dependencies, m);
      if m in r0.data {
        GroupLinksData(base, init, m);
      } else {
        GroupLinksDataKeys(base, init, m);
      }
    }
  }

  /** Adding edges never removes a node. */
  lemma {:induction false} GroupLinksDataKeys(base: Graph, tasks: seq<GroupTask>, m: string)
    requires WellFormed(base)
    ensures m in base.data ==> m in GroupLinks(base, tasks).data
  {
    if |tasks| > 0 && m in base.data {
      var init, t := tasks[..|tasks| - 1], tasks[|tasks| - 1];
      GroupLinksDataKeys(base, init, m);
      var r0 := GroupLinks(base, init);
      assert m in Elements(r0.nodes);
      AddOutgoingNodes(r0, t.taskId, t.dependencies, m);
      assert m in Elements(GroupLinks(base, tasks).nodes);
    }
  }

  /** The digraph after the first loop: one node per listed task, carrying the task. */
  function GroupNodes(tasks: seq<GroupTask>): (r: Graph)
    ensures WellFormed(r)
  {
    if |tasks| == 0 then Empty
    else
      var t := tasks[|tasks| - 1];
      WithNode(GroupNodes(tasks[..|tasks| - 1]), t.taskId, Some(ListedTask(t)))
  }

  lemma {:induction false} GroupNodesStep(tasks: seq<GroupTask>, i: nat)
    requires i < |tasks|
    ensures GroupNodes(tasks[..i + 1]) == WithNode(GroupNodes(tasks[..i]), tasks[i].taskId, Some(ListedTask(tasks[i])))
  {
    var w := tasks[..i + 1];
    assert w[..|w| - 1] == tasks[..i];
    assert w[|w| - 1] == tasks[i];
  }

  /** Some task of the list has id `n`. */
  predicate Listed(tasks: seq<GroupTask>, n: string)
  {
    exists i :: 0 <= i < |tasks| && tasks[i].taskId == n
  }

  lemma {:induction false} ListedAppend(tasks: seq<GroupTask>, n: string)
    requires |tasks| > 0
    ensures Listed(tasks, n) <==> Listed(tasks[..|tasks| - 1], n) || tasks[|tasks| - 1].taskId == n
  {
    var init := tasks[..|tasks| - 1];
    if Listed(init, n) {
      var i :| 0 <= i < |init| && init[i].taskId == n;
      assert tasks[i] == init[i];
    }
    if Listed(tasks, n) {
      var i :| 0 <= i < |tasks| && tasks[i].taskId == n;
      if i < |init| {
        assert init[i] == tasks[i];
      }
    }
  }

  /** The first loop adds the task ids as nodes. */
  lemma {:induction false} GroupNodesMembers(tasks: seq<GroupTask>, n: string)
    ensures n in GroupNodes(tasks).nodes <==> Listed(tasks, n)
  {
    if |tasks| > 0 {
      var init := tasks[..|tasks| - 1];
      GroupNodesMembers(init, n);
      ListedAppend(tasks, n);
      var g0 := GroupNodes(init);
      assert n in GroupNodes(tasks).nodes <==> n in Elements(GroupNodes(tasks).nodes);
      assert n in g0.nodes <==> n in Elements(g0.nodes);
    }
  }

  /** The first loop adds no edges. */
  lemma {:induction false} GroupNodesEdgeless(tasks: seq<GroupTask>)
    ensures |GroupNodes(tasks).edges| == 0
  {
    if |tasks| > 0 {
      GroupNodesEdgeless(tasks[..|tasks| - 1]);
    }
  }

  /** One pass of the first loop sets the attributes of the task's node. */
  lemma {:induction false} GroupNodesPayloadStep(tasks: seq<GroupTask>, n: string)
    requires |tasks| > 0 && n in GroupNodes(tasks).data
    ensures var init, t := tasks[..|tasks| - 1], tasks[|tasks| - 1];
      GroupNodes(tasks).data[n].payload ==
        if n == t.taskId then Some(ListedTask(t))
        else if n in GroupNodes(init).data then GroupNodes(init).data[n].payload
        else None
  {
  }

  /**
   * A node of the first loop carries the last listed task with its id
   * (`add_node` on an existing node overwrites its attributes).
   */
  lemma {:induction false} GroupNodesPayload(tasks: seq<GroupTask>, i: nat)
    requires i < |tasks|
    requires forall j :: i < j < |tasks| ==> tasks[j].taskId != tasks[i].taskId
    ensures tasks[i].taskId in GroupNodes(tasks).data
    ensures GroupNodes(tasks).data[tasks[i].taskId].payload == Some(ListedTask(tasks[i]))
  {
    var n := tasks[i].taskId;
    GroupNodesMembers(tasks, n);
    assert n in Elements(GroupNodes(tasks).nodes);
    GroupNodesPayloadStep(tasks, n);
    var init, t := tasks[..|tasks| - 1], tasks[|tasks| - 1];
    var d0, d := GroupNodes(init).data, GroupNodes(tasks).data;
    assert d[n].payload == if n == t.taskId then Some(ListedTask(t))
      else if n in d0 then d0[n].payload else None;
    if i < |init| {
      LaterIdsInInit(tasks, init, i);
      GroupNodesPayload(init, i);
      assert n != t.taskId && n in d0 && d0[n].payload == Some(ListedTask(tasks[i]));
    } else {
      assert t == tasks[i];
    }
  }

  /** An id no later task repeats stays so once the last task is dropped. */
  lemma {:induction false} LaterIdsInInit(tasks: seq<GroupTask>, init: seq<GroupTask>, i: nat)
    requires |tasks| > 0 && init == tasks[..|tasks| - 1] && i < |init|
    requires forall j :: i < j < |tasks| ==> tasks[j].taskId != tasks[i].taskId
    ensures init[i] == tasks[i]
    ensures tasks[|tasks| - 1].taskId != tasks[i].taskId
    ensures forall j :: i < j < |init| ==> init[j].taskId != init[i].taskId
  {
  }

  lemma {:induction false} GroupNodesLayers(tasks: seq<GroupTask>, n: string)
    ensures n in GroupNodes(tasks).data ==> GroupNodes(tasks).data[n].layer == None
  {
    if |tasks| > 0 {
      GroupNodesLayers(tasks[..|tasks| - 1], n);
    }
  }

  /** The digraph `build_digraph_for_task_group` builds from the task list. */
  function TaskGroupGraph(tasks: seq<GroupTask>): (r: Graph)
    ensures WellFormed(r)
  {
    GroupLinks(GroupNodes(tasks), tasks)
  }

  /**
   * The graph construction of `build_digraph_for_task_group`, over the task
   * list the pagination handler collected: first one node per task, keyed by its
   * task id; then an edge from each task to each of its dependencies.
   */
  method BuildDigraphForTaskGroup(tasks: seq<GroupTask>) returns (g: DiGraph)
    ensures fresh(g) && g.Valid()
    ensures g.Value() == TaskGroupGraph(tasks)
  {
    g := new DiGraph();
    AddTaskNodes(g, tasks);
    AddTaskEdges(g, tasks);
  }

  /** The first loop: one node per task, keyed by its task id, carrying the task. */
  method AddTaskNodes(g: DiGraph, tasks: seq<GroupTask>)
    requires g.Valid() && g.Value() == Empty
    modifies g
    ensures g.Valid() && g.Value() == GroupNodes(tasks)
  {
    for i := 0 to |tasks|
      invariant g.Valid() && g.Value() == GroupNodes(tasks[..i])
    {
      GroupNodesStep(tasks, i);
      g.AddNode(tasks[i].taskId, Some(ListedTask(tasks[i])));
    }
    assert tasks[..|tasks|] == tasks;
  }

  /** The second loop: an edge from each task to each of its dependencies. */
  method AddTaskEdges(g: DiGraph, tasks: seq<GroupTask>)
    requires g.Valid()
    modifies g
    ensures g.Valid() && g.Value() == GroupLinks(old(g.Value()), tasks)
  {
    ghost var listed := g.Value();
    for i := 0 to |tasks|
      invariant g.Valid() && g.Value() == GroupLinks(listed, tasks[..i])
    {
      GroupLinksStep(listed, tasks, i);
      AddEdgesFrom(g, tasks[i].taskId, tasks[i].dependencies);
    }
    assert tasks[..|tasks|] == tasks;
  }

  /** `for dep in deps: g.add_edge(u, dep)`. */
  method AddEdgesFrom(g: DiGraph, u: string, deps: seq<string>)
    requires g.Valid()
    modifies g
    ensures g.Valid() && g.Value() == AddOutgoing(old(g.Value()), u, deps)
  {
    ghost var start := g.Value();
    for j := 0 to |deps|
      invariant g.Valid() && g.Value() == AddOutgoing(start, u, deps[..j])
    {
      AddOutgoingStep(start, u, deps, j);
      g.AddEdge(u, deps[j]);
    }
    assert deps[..|deps|] == deps;
  }

  /** The nodes are the task ids and the dependency ids. */
  lemma {:induction false} TaskGroupNodes(tasks: seq<GroupTask>, n: string)
    ensures n in TaskGroupGraph(tasks).nodes <==>
      exists i :: 0 <= i < |tasks| && (tasks[i].taskId == n || n in tasks[i].dependencies)
  {
    var g0 := GroupNodes(tasks);
    forall i | 0 <= i < |tasks| ensures tasks[i].taskId in g0.nodes {
      GroupNodesMembers(tasks, tasks[i].taskId);
    }
    GroupLinksNodes(g0, tasks, n);
    GroupNodesMembers(tasks, n);
    GroupDependenciesMembers(tasks, n);
  }

  /**
   * The edges run from each task to each of its dependencies: dependent to
   * dependency, the reverse of the direction `build_digraph` uses.
   */
  lemma {:induction false} TaskGroupEdges(tasks: seq<GroupTask>, e: Edge)
    ensures e in TaskGroupGraph(tasks).edges <==>
      exists i :: 0 <= i < |tasks| && e.0 == tasks[i].taskId && e.1 in tasks[i].dependencies
  {
    GroupLinksEdges(GroupNodes(tasks), tasks, e);
    GroupNodesEdgeless(tasks);
    GroupEdgesMembers(tasks, e);
  }

  /**
   * A task id's node carries the last task listed with that id; a node that
   * is only named as a dependency carries no attributes; no node has a layer.
   */
  lemma {:induction false} TaskGroupData(tasks: seq<GroupTask>, n: string)
    requires n in TaskGroupGraph(tasks).data
    ensures TaskGroupGraph(tasks).data[n].layer == None
    ensures forall i ::
      (0 <= i < |tasks| && tasks[i].taskId == n && forall j :: i < j < |tasks| ==> tasks[j].taskId != n) ==>
        TaskGroupGraph(tasks).data[n].payload == Some(ListedTask(tasks[i]))
    ensures (forall i :: 0 <= i < |tasks| ==> tasks[i].taskId != n) ==> TaskGroupGraph(tasks).data[n] == Bare
  {
    var g0 := GroupNodes(tasks);
    GroupLinksData(g0, tasks, n);
    GroupNodesLayers(tasks, n);
    forall i | 0 <= i < |tasks| && tasks[i].taskId == n && (forall j :: i < j < |tasks| ==> tasks[j].taskId != n)
      ensures TaskGroupGraph(tasks).data[n].payload == Some(ListedTask(tasks[i]))
    {
      GroupNodesPayload(tasks, i);
    }
    if forall i :: 0 <= i < |tasks| ==> tasks[i].taskId != n {
      GroupNodesMembers(tasks, n);
      assert n in g0.data <==> n in Elements(g0.nodes);
    }
  }

  // ---------------------------------------------------------------------
  // Serializing a laid-out digraph
  // ---------------------------------------------------------------------

  /** `serialize_digraph` raises a KeyError on a node without `task.metadata.name`. */
  datatype SerializeError = MissingTaskName(node: string)

  /** The node `n` has attributes from a task, so its `task.metadata.name` exists. */
  predicate HasName(data: map<string, NodeData>, n: string)
  {
    n in data && data[n].payload.Some?
  }

  /** The `i`-th node has a task name. */
  predicate Named(g: Graph, i: nat)
    requires i < |g.nodes|
  {
    HasName(g.data, g.nodes[i])
  }

  /** The node record `serialize_digraph` emits: the task name as label and the whole attribute map as data. */
  function DigraphNodeRecord(n: string, d: NodeData, pos: map<string, Position>): NodeRecord
    requires n in pos && d.payload.Some?
  {
    NodeRecord(n, NodeAttributes(TaskName(d.payload.value), pos[n].x, pos[n].y, None, None, Some(d)))
  }

  /** The edge record `serialize_digraph` emits with counter `k`: only the arrow type. */
  function DigraphEdgeRecord(k: nat, e: Edge): EdgeRecord
  {
    EdgeRecord(NatToString(k), e.0, e.1, EdgeAttributes(Arrow, None, None))
  }

  /**
   * `serialize_digraph(digraph, pos)`: for each node in node order, its
   * node record and then one edge record per predecessor, keyed by the
   * running counter. It fails at the first node without a task name; else
   * the edge records are the digraph's edges, each exactly once.
   */
  method SerializeDigraph(g: DiGraph, pos: map<string, Position>) returns (r: Result<Document, SerializeError>)
    requires g.Valid()
    requires forall n :: n in g.nodes ==> n in pos
    ensures r.Err? <==> exists i :: 0 <= i < |g.nodes| && !Named(g.Value(), i)
    ensures r.Err? ==> exists i ::
      && 0 <= i < |g.nodes| && !Named(g.Value(), i) && r.error == MissingTaskName(g.nodes[i])
      && forall m :: 0 <= m < i ==> Named(g.Value(), m)
    ensures r.Ok? ==> |r.value.nodes| == |g.nodes|
    ensures r.Ok? ==> forall i :: 0 <= i < |g.nodes| ==>
      Named(g.Value(), i) && r.value.nodes[i] == DigraphNodeRecord(g.nodes[i], g.data[g.nodes[i]], pos)
    ensures r.Ok? ==> |r.value.edges| == |InLinks(g.nodes, g.edges)|
    ensures r.Ok? ==> forall k :: 0 <= k < |r.value.edges| ==>
      r.value.edges[k] == DigraphEdgeRecord(k, InLinks(g.nodes, g.edges)[k])
    ensures r.Ok? ==> |r.value.edges| == |g.edges|
    ensures r.Ok? ==> forall e :: e in g.edges <==> exists k :: 0 <= k < |r.value.edges| && Endpoints(r.value.edges[k]) == e
    ensures r.Ok? ==> forall i, j :: 0 <= i < j < |r.value.edges| ==> Endpoints(r.value.edges[i]) != Endpoints(r.value.edges[j])
    ensures r.Ok? ==> DenseKeys(r.value.edges)
  {
    forall n | n in g.nodes ensures n in g.data {
      assert n in Elements(g.nodes);
    }
    r := EmitRecords(g.Value(), pos);
    assert g.Value().nodes == g.nodes;
    if r.Ok? {
      DigraphEdgesAreTheEdges(g.Value(), r.value.edges);
    }
  }

  /** The loop of `serialize_digraph`, with the records it emits in visit order. */
  method EmitRecords(g: Graph, pos: map<string, Position>) returns (r: Result<Document, SerializeError>)
    requires forall n :: n in g.nodes ==> n in g.data && n in pos
    ensures r.Err? <==> exists i :: 0 <= i < |g.nodes| && !Named(g, i)
    ensures r.Err? ==> exists i ::
      && 0 <= i < |g.nodes| && !Named(g, i) && r.error == MissingTaskName(g.nodes[i])
      && forall m :: 0 <= m < i ==> Named(g, m)
    ensures r.Ok? ==> |r.value.nodes| == |g.nodes|
    ensures r.Ok? ==> forall i :: 0 <= i < |g.nodes| ==>
      Named(g, i) && r.value.nodes[i] == DigraphNodeRecord(g.nodes[i], g.data[g.nodes[i]], pos)
    ensures r.Ok? ==> |r.value.edges| == |InLinks(g.nodes, g.edges)|
    ensures r.Ok? ==> forall k :: 0 <= k < |r.value.edges| ==>
      r.value.edges[k] == DigraphEdgeRecord(k, InLinks(g.nodes, g.edges)[k])
  {
    var nodes: seq<NodeRecord> := [];
    var edges: seq<EdgeRecord> := [];
    var graphSize: nat := 0;
    var order := g.nodes;
    for i := 0 to |order|
      invariant |nodes| == i
      invariant forall m :: 0 <= m < i ==> Named(g, m) && nodes[m] == DigraphNodeRecord(order[m], g.data[order[m]], pos)
      invariant graphSize == |edges| == |InLinks(order[..i], g.edges)|
      invariant forall k :: 0 <= k < |edges| ==> edges[k] == DigraphEdgeRecord(k, InLinks(order[..i], g.edges)[k])
    {
      var node := order[i];
      var attributes := g.data[node];
      if attributes.payload.None? {
        assert !Named(g, i);
        return Err(MissingTaskName(node));
      }
      InLinksStep(order, g.edges, i);
      DigraphNodesStep(g, nodes, pos, i);
      nodes := nodes + [DigraphNodeRecord(node, attributes, pos)];
      var dependencies := Predecessors(g.edges, node);
      ghost var before := edges;
      edges, graphSize := EmitArrowEdges(edges, graphSize, dependencies, node);
      DigraphEdgesStep(before, edges, InLinks(order[..i], g.edges), dependencies, node);
    }
    assert order[..|order|] == order;
    r := Ok(Document(nodes, edges));
  }

  lemma {:induction false} DigraphNodesStep(g: Graph, nodes: seq<NodeRecord>, pos: map<string, Position>, i: nat)
    requires |nodes| == i < |g.nodes|
    requires forall n :: n in g.nodes ==> n in g.data && n in pos
    requires Named(g, i)
    requires forall m :: 0 <= m < i ==> Named(g, m) && nodes[m] == DigraphNodeRecord(g.nodes[m], g.data[g.nodes[m]], pos)
    ensures var nodes' := nodes + [DigraphNodeRecord(g.nodes[i], g.data[g.nodes[i]], pos)];
      forall m :: 0 <= m < i + 1 ==> Named(g, m) && nodes'[m] == DigraphNodeRecord(g.nodes[m], g.data[g.nodes[m]], pos)
  {
  }

  /** The arrows one pass of the outer loop emits continue the in-edge visit order. */
  lemma {:induction false} DigraphEdgesStep(before: seq<EdgeRecord>, edges: seq<EdgeRecord>, done: seq<Edge>,
                                            dependencies: seq<string>, node: string)
    requires |before| == |done|
    requires forall k :: 0 <= k < |before| ==> before[k] == DigraphEdgeRecord(k, done[k])
    requires |edges| == |before| + |dependencies| && edges[..|before|] == before
    requires forall j :: 0 <= j < |dependencies| ==>
      edges[|before| + j] == DigraphEdgeRecord(|before| + j, (dependencies[j], node))
    ensures |edges| == |done + Incoming(dependencies, node)|
    ensures forall k :: 0 <= k < |edges| ==> edges[k] == DigraphEdgeRecord(k, (done + Incoming(dependencies, node))[k])
  {
    var inc := Incoming(dependencies, node);
    forall k | 0 <= k < |edges| ensures edges[k] == DigraphEdgeRecord(k, (done + inc)[k]) {
      if k < |before| {
        assert edges[k] == edges[..|before|][k] == before[k];
      } else {
        assert edges[|before| + (k - |before|)] == DigraphEdgeRecord(k, (dependencies[k - |before|], node));
        assert inc[k - |before|] == (dependencies[k - |before|], node);
      }
    }
  }

  /** The inner loop of `serialize_digraph`: one arrow per predecessor of `node`. */
  method EmitArrowEdges(edges: seq<EdgeRecord>, graphSize: nat, dependencies: seq<string>, node: string)
    returns (edges': seq<EdgeRecord>, graphSize': nat)
    requires graphSize == |edges|
    ensures graphSize' == |edges'| == |edges| + |dependencies|
    ensures edges'[..|edges|] == edges
    ensures forall j :: 0 <= j < |dependencies| ==>
      edges'[|edges| + j] == DigraphEdgeRecord(|edges| + j, (dependencies[j], node))
  {
    edges', graphSize' := edges, graphSize;
    for j := 0 to |dependencies|
      invariant graphSize' == |edges'| == |edges| + j
      invariant edges'[..|edges|] == edges
      invariant forall m :: 0 <= m < j ==> edges'[|edges| + m] == DigraphEdgeRecord(|edges| + m, (dependencies[m], node))
    {
      edges' := edges' + [EdgeRecord(NatToString(graphSize'), dependencies[j], node, EdgeAttributes(Arrow, None, None))];
      graphSize' := graphSize' + 1;
    }
  }

  /** Arrows that follow the in-edge visit order name every edge exactly once. */
  lemma {:induction false} DigraphEdgesAreTheEdges(g: Graph, edges: seq<EdgeRecord>)
    requires WellFormed(g)
    requires |edges| == |InLinks(g.nodes, g.edges)|
    requires forall k :: 0 <= k < |edges| ==> edges[k] == DigraphEdgeRecord(k, InLinks(g.nodes, g.edges)[k])
    ensures |edges| == |g.edges|
    ensures forall e :: e in g.edges <==> exists k :: 0 <= k < |edges| && Endpoints(edges[k]) == e
    ensures forall i, j :: 0 <= i < j < |edges| ==> Endpoints(edges[i]) != Endpoints(edges[j])
    ensures DenseKeys(edges)
  {
    var links := InLinks(g.nodes, g.edges);
    InLinksAreTheEdges(g);
    forall e | e in g.edges ensures exists k :: 0 <= k < |edges| && Endpoints(edges[k]) == e {
      var k :| 0 <= k < |links| && links[k] == e;
      assert Endpoints(edges[k]) == e;
    }
    forall e | exists k :: 0 <= k < |edges| && Endpoints(edges[k]) == e ensures e in g.edges {
      var k :| 0 <= k < |edges| && Endpoints(edges[k]) == e;
      assert links[k] in links;
    }
    forall i, j | 0 <= i < j < |edges| ensures Endpoints(edges[i]) != Endpoints(edges[j]) {
      assert Endpoints(edges[i]) == links[i] && Endpoints(edges[j]) == links[j];
    }
  }

  /**
   * Every node of a task group's digraph is named exactly when it is a
   * listed task; so serializing fails exactly when some task depends on a
   * task the group does not list. Laying the graph out does not change this.
   */
  lemma {:induction false} TaskGroupNamed(tasks: seq<GroupTask>, i: nat)
    requires i < |TaskGroupGraph(tasks).nodes|
    ensures Named(TaskGroupGraph(tasks), i) <==>
      exists j :: 0 <= j < |tasks| && tasks[j].taskId == TaskGroupGraph(tasks).nodes[i]
  {
    var g := TaskGroupGraph(tasks);
    var n := g.nodes[i];
    assert n in Elements(g.nodes);
    TaskGroupData(tasks, n);
    if exists j :: 0 <= j < |tasks| && tasks[j].taskId == n {
      var j := LastListed(tasks, n);
      assert g.data[n].payload == Some(ListedTask(tasks[j]));
    }
  }

  /** The index of the last task listed with id `n`. */
  lemma {:induction false} LastListed(tasks: seq<GroupTask>, n: string) returns (j: nat)
    requires exists j :: 0 <= j < |tasks| && tasks[j].taskId == n
    ensures j < |tasks| && tasks[j].taskId == n
    ensures forall k :: j < k < |tasks| ==> tasks[k].taskId != n
  {
    var last := tasks[|tasks| - 1];
    if last.taskId == n {
      j := |tasks| - 1;
    } else {
      var init := tasks[..|tasks| - 1];
      var w :| 0 <= w < |tasks| && tasks[w].taskId == n;
      assert init[w] == tasks[w];
      j := LastListed(init, n);
      assert tasks[j] == init[j];
      forall k | j < k < |tasks| ensures tasks[k].taskId != n {
        if k < |init| {
          assert tasks[k] == init[k];
        }
      }
    }
  }

  /** The layer assignment leaves every node's task attributes, so names survive it. */
  lemma {:induction false} LayoutKeepsNames(g: Graph, i: nat)
    requires WellFormed(g) && i < |g.nodes|
    ensures Named(g.(data := LaidOut(g)), i) <==> Named(g, i)
  {
    var n := g.nodes[i];
    assert n in Elements(g.nodes);
  }
}
