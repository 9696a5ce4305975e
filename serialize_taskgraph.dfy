/**
 * serialize_taskgraph.py: build a digraph from a taskgraph (or from a
 * kind-dependency listing), write each node's generation as its layer, and
 * serialize a taskgraph or a kinds digraph into the node/edge document.
 */
module SerializeTaskgraph {
  import opened Wrappers
  import opened Tasks
  import opened Decimal
  import opened DiGraphs
  import opened Generations
  import opened Documents

  // ---------------------------------------------------------------------
  // Building the digraph
  // ---------------------------------------------------------------------

  /**
   * What one pass of a builder's outer loop adds: the node `key` with the
   * attributes `payload`, then an edge from each of `upstreams` to it.
   */
  datatype Entry = Entry(key: string, payload: Option<Payload>, upstreams: seq<string>)

  /** `add_edge(u, v)` for each `u` of `ups`, in order. */
  function AddIncoming(g: Graph, ups: seq<string>, v: string): (r: Graph)
    requires WellFormed(g)
    ensures WellFormed(r)
  {
    if |ups| == 0 then g
    else WithEdge(AddIncoming(g, ups[..|ups| - 1], v), ups[|ups| - 1], v)
  }

  lemma {:induction false} AddIncomingNodes(g: Graph, ups: seq<string>, v: string, n: string)
    requires WellFormed(g)
    ensures n in AddIncoming(g, ups, v).nodes <==> n in g.nodes || n in ups || (|ups| > 0 && n == v)
  {
    if |ups| > 0 {
      var init, u := ups[..|ups| - 1], ups[|ups| - 1];
      assert n in ups <==> n in init || n == u by { SplitLast(ups); }
      AddIncomingNodes(g, init, v, n);
      var r0 := AddIncoming(g, init, v);
      var r := WithEdge(r0, u, v);
      assert n in r.nodes <==> n in Elements(r.nodes);
      assert n in r0.nodes <==> n in Elements(r0.nodes);
    }
  }

  lemma {:induction false} AddIncomingEdges(g: Graph, ups: seq<string>, v: string, e: Edge)
    requires WellFormed(g)
    ensures e in AddIncoming(g, ups, v).edges <==> e in g.edges || (e.0 in ups && e.1 == v)
  {
    if |ups| > 0 {
      var init, u := ups[..|ups| - 1], ups[|ups| - 1];
      assert e.0 in ups <==> e.0 in init || e.0 == u by { SplitLast(ups); }
      AddIncomingEdges(g, init, v, e);
      var r0 := AddIncoming(g, init, v);
      var r := WithEdge(r0, u, v);
      assert e in r.edges <==> e in Elements(r.edges);
      assert e in r0.edges <==> e in Elements(r0.edges);
    }
  }

  lemma {:induction false} AddIncomingData(g: Graph, ups: seq<string>, v: string, m: string)
    requires WellFormed(g)
    requires m in AddIncoming(g, ups, v).data
    ensures AddIncoming(g, ups, v).data[m] == if m in g.data then g.data[m] else Bare
  {
    if |ups| > 0 {
      var init, u := ups[..|ups| - 1], ups[|ups| - 1];
      var r0 := AddIncoming(g, init, v);
      if m in r0.data {
        AddIncomingData(g, init, v, m);
      } else {
        AddIncomingNodes(g, init, v, m);
        assert m in g.data <==> m in Elements(g.nodes);
        assert m !in Elements(r0.nodes);
      }
    }
  }
  /** The digraph the builder's loop has made after the given entries. */
  function DependencyGraph(entries: seq<Entry>): (g: Graph)
    ensures WellFormed(g)
  {
    if |entries| == 0 then Empty
    else
      var e := entries[|entries| - 1];
      AddIncoming(WithNode(DependencyGraph(entries[..|entries| - 1]), e.key, e.payload), e.upstreams, e.key)
  }

  /** One pass of the outer loop adds the key and its upstream ids as nodes. */
  lemma {:induction false} DependencyGraphNodesStep(entries: seq<Entry>, n: string)
    requires |entries| > 0
    ensures n in DependencyGraph(entries).nodes <==>
      n in DependencyGraph(entries[..|entries| - 1]).nodes ||
      n == entries[|entries| - 1].key || n in entries[|entries| - 1].upstreams
  {
    var init, e := entries[..|entries| - 1], entries[|entries| - 1];
    var g0 := DependencyGraph(init);
    var g1 := WithNode(g0, e.key, e.payload);
    AddIncomingNodes(g1, e.upstreams, e.key, n);
    assert n in g1.nodes <==> n in Elements(g1.nodes);
    assert n in g0.nodes <==> n in Elements(g0.nodes);
  }

  /** The node ids the entries name: their keys and their upstream ids. */
  function EntryNodes(entries: seq<Entry>): set<string>
  {
    if |entries| == 0 then {}
    else
      var e := entries[|entries| - 1];
      EntryNodes(entries[..|entries| - 1]) + {e.key} + Elements(e.upstreams)
  }

  lemma {:induction false} EntryNodesMembers(entries: seq<Entry>, n: string)
    ensures n in EntryNodes(entries) <==>
      exists i :: 0 <= i < |entries| && (entries[i].key == n || n in entries[i].upstreams)
  {
    if |entries| > 0 {
      var init := entries[..|entries| - 1];
      EntryNodesMembers(init, n);
      if exists i :: 0 <= i < |init| && (init[i].key == n || n in init[i].upstreams) {
        var i :| 0 <= i < |init| && (init[i].key == n || n in init[i].upstreams);
        assert entries[i] == init[i];
      }
    }
  }

  lemma {:induction false} DependencyGraphEntryNodes(entries: seq<Entry>, n: string)
    ensures n in DependencyGraph(entries).nodes <==> n in EntryNodes(entries)
  {
    if |entries| > 0 {
      DependencyGraphEntryNodes(entries[..|entries| - 1], n);
      DependencyGraphNodesStep(entries, n);
    }
  }

  /** Every key and every upstream id is a node, and nothing else is. */
  lemma {:induction false} DependencyGraphNodes(entries: seq<Entry>, n: string)
    ensures n in DependencyGraph(entries).nodes <==>
      exists i :: 0 <= i < |entries| && (entries[i].key == n || n in entries[i].upstreams)
  {
    DependencyGraphEntryNodes(entries, n);
    EntryNodesMembers(entries, n);
  }

  /** One pass of the outer loop adds an edge from each upstream id to the key. */
  lemma {:induction false} DependencyGraphEdgesStep(entries: seq<Entry>, e: Edge)
    requires |entries| > 0
    ensures e in DependencyGraph(entries).edges <==>
      e in DependencyGraph(entries[..|entries| - 1]).edges ||
      (e.1 == entries[|entries| - 1].key && e.0 in entries[|entries| - 1].upstreams)
  {
    var init, last := entries[..|entries| - 1], entries[|entries| - 1];
    var g1 := WithNode(DependencyGraph(init), last.key, last.payload);
    AddIncomingEdges(g1, last.upstreams, last.key, e);
  }

  /** The edges the entries ask for: from each upstream id to its key. */
  function EntryEdges(entries: seq<Entry>): set<Edge>
  {
    if |entries| == 0 then {}
    else
      var e := entries[|entries| - 1];
      EntryEdges(entries[..|entries| - 1]) + set u | u in e.upstreams :: (u, e.key)
  }

  lemma {:induction false} EntryEdgesMembers(entries: seq<Entry>, e: Edge)
    ensures e in EntryEdges(entries) <==>
      exists i :: 0 <= i < |entries| && e.1 == entries[i].key && e.0 in entries[i].upstreams
  {
    if |entries| > 0 {
      var init := entries[..|entries| - 1];
      EntryEdgesMembers(init, e);
      if exists i :: 0 <= i < |init| && e.1 == init[i].key && e.0 in init[i].upstreams {
        var i :| 0 <= i < |init| && e.1 == init[i].key && e.0 in init[i].upstreams;
        assert entries[i] == init[i];
      }
    }
  }

  lemma {:induction false} DependencyGraphEntryEdges(entries: seq<Entry>, e: Edge)
    ensures e in DependencyGraph(entries).edges <==> e in EntryEdges(entries)
  {
    if |entries| > 0 {
      DependencyGraphEntryEdges(entries[..|entries| - 1], e);
      DependencyGraphEdgesStep(entries, e);
    }
  }

  /** The edges are exactly upstream -> key for every upstream of every entry. */
  lemma {:induction false} DependencyGraphEdges(entries: seq<Entry>, e: Edge)
    ensures e in DependencyGraph(entries).edges <==>
      exists i :: 0 <= i < |entries| && e.1 == entries[i].key && e.0 in entries[i].upstreams
  {
    DependencyGraphEntryEdges(entries, e);
    EntryEdgesMembers(entries, e);
  }

  /** No node of a freshly built digraph has a layer. */
  lemma {:induction false} DependencyGraphUnlayered(entries: seq<Entry>, n: string)
    requires n in DependencyGraph(entries).data
    ensures DependencyGraph(entries).data[n].layer == None
  {
    var init, e := entries[..|entries| - 1], entries[|entries| - 1];
    var g0 := DependencyGraph(init);
    var g1 := WithNode(g0, e.key, e.payload);
    AddIncomingData(g1, e.upstreams, e.key, n);
    if n in g0.data {
      DependencyGraphUnlayered(init, n);
    }
  }

  /**
   * One pass of the outer loop sets the key's attributes when it has some
   * and leaves every other node's attributes as they were; a node it
   * creates carries none.
   */
  lemma {:induction false} DependencyGraphPayloadStep(entries: seq<Entry>, n: string)
    requires |entries| > 0 && n in DependencyGraph(entries).data
    ensures var init, e := entries[..|entries| - 1], entries[|entries| - 1];
      DependencyGraph(entries).data[n].payload ==
        if n == e.key && e.payload.Some? then e.payload
        else if n in DependencyGraph(init).data then DependencyGraph(init).data[n].payload
        else None
  {
    var init, e := entries[..|entries| - 1], entries[|entries| - 1];
    var g0 := DependencyGraph(init);
    var g1 := WithNode(g0, e.key, e.payload);
    AddIncomingData(g1, e.upstreams, e.key, n);
    assert n in g0.data ==> n in Elements(g0.nodes) && n in g1.data;
  }

  /** Every key is a node. */
  lemma {:induction false} KeyIsNode(entries: seq<Entry>, i: nat)
    requires i < |entries|
    ensures entries[i].key in DependencyGraph(entries).nodes
    ensures entries[i].key in DependencyGraph(entries).data
  {
    var n := entries[i].key;
    DependencyGraphNodes(entries, n);
    assert n in Elements(DependencyGraph(entries).nodes);
  }

  /** A key no other entry repeats: its node carries that entry's attributes. */
  lemma {:induction false} DependencyGraphKeyPayload(entries: seq<Entry>, i: nat)
    requires i < |entries|
    requires forall j :: 0 <= j < |entries| && j != i ==> entries[j].key != entries[i].key
    ensures entries[i].key in DependencyGraph(entries).data
    ensures DependencyGraph(entries).data[entries[i].key].payload == entries[i].payload
  {
    var n := entries[i].key;
    var last := |entries| - 1;
    KeyIsNode(entries, i);
    DependencyGraphPayloadStep(entries, n);
    var init, e := entries[..last], entries[last];
    var d0, d := DependencyGraph(init).data, DependencyGraph(entries).data;
    assert d[n].payload == if n == e.key && e.payload.Some? then e.payload
      else if n in d0 then d0[n].payload else None;
    if i < last {
      KeyUniqueInInit(entries, init, i);
      DependencyGraphKeyPayload(init, i);
      assert n != e.key && n in d0 && d0[n].payload == entries[i].payload;
    } else {
      assert e == entries[i];
      if n in d0 && e.payload.None? {
        KeyAbsentFromInit(entries, init, n);
        DependencyGraphUpstreamPayload(init, n);
      }
    }
  }

  /** A key only entry `i` has stays so once the last entry is dropped. */
  lemma {:induction false} KeyUniqueInInit(entries: seq<Entry>, init: seq<Entry>, i: nat)
    requires |entries| > 0 && init == entries[..|entries| - 1] && i < |init|
    requires forall j :: 0 <= j < |entries| && j != i ==> entries[j].key != entries[i].key
    ensures init[i] == entries[i]
    ensures entries[|entries| - 1].key != entries[i].key
    ensures forall j :: 0 <= j < |init| && j != i ==> init[j].key != init[i].key
  {
  }

  /** A key no entry but perhaps the last has is absent from the others. */
  lemma {:induction false} KeyAbsentFromInit(entries: seq<Entry>, init: seq<Entry>, n: string)
    requires |entries| > 0 && init == entries[..|entries| - 1]
    requires forall j :: 0 <= j < |init| ==> entries[j].key != n
    ensures forall j :: 0 <= j < |init| ==> init[j].key != n
  {
  }

  /** A node that is only an upstream id carries no attributes. */
  lemma {:induction false} DependencyGraphUpstreamPayload(entries: seq<Entry>, n: string)
    requires n in DependencyGraph(entries).data
    requires forall i :: 0 <= i < |entries| ==> entries[i].key != n
    ensures DependencyGraph(entries).data[n].payload == None
  {
    if |entries| > 0 {
      DependencyGraphPayloadStep(entries, n);
      var init := entries[..|entries| - 1];
      if n in DependencyGraph(init).data {
        KeyAbsentFromInit(entries, init, n);
        DependencyGraphUpstreamPayload(init, n);
      }
    }
  }

  /** The values of a `dependencies` object: the upstream task ids. */
  function Upstreams(deps: seq<(string, string)>): (ups: seq<string>)
    ensures |ups| == |deps|
    ensures forall k :: 0 <= k < |deps| ==> ups[k] == deps[k].1
  {
    if |deps| == 0 then [] else Upstreams(deps[..|deps| - 1]) + [deps[|deps| - 1].1]
  }

  /** A taskgraph entry: its id, its record as attributes, its dependencies' values. */
  function FileEntries(taskgraph: Taskgraph): (es: seq<Entry>)
    ensures |es| == |taskgraph|
    ensures forall i :: 0 <= i < |taskgraph| ==>
      es[i] == Entry(taskgraph[i].0, Some(FileTask(taskgraph[i].1)), Upstreams(taskgraph[i].1.dependencies))
  {
    if |taskgraph| == 0 then []
    else
      var t := taskgraph[|taskgraph| - 1];
      FileEntries(taskgraph[..|taskgraph| - 1]) + [Entry(t.0, Some(FileTask(t.1)), Upstreams(t.1.dependencies))]
  }

  /** Adding the next upstream id adds the next edge. */
  lemma {:induction false} AddIncomingStep(g: Graph, ups: seq<string>, j: nat, v: string)
    requires WellFormed(g) && j < |ups|
    ensures WithEdge(AddIncoming(g, ups[..j], v), ups[j], v) == AddIncoming(g, ups[..j + 1], v)
  {
    var w := ups[..j + 1];
    assert w[..|w| - 1] == ups[..j];
    assert w[|w| - 1] == ups[j];
  }

  /** One pass of the outer loop of `build_digraph`. */
  lemma {:induction false} FileEntriesStep(taskgraph: Taskgraph, i: nat)
    requires i < |taskgraph|
    ensures DependencyGraph(FileEntries(taskgraph[..i + 1])) ==
      AddIncoming(WithNode(DependencyGraph(FileEntries(taskgraph[..i])), taskgraph[i].0, Some(FileTask(taskgraph[i].1))),
                  Upstreams(taskgraph[i].1.dependencies), taskgraph[i].0)
  {
    var es := FileEntries(taskgraph[..i + 1]);
    assert taskgraph[..i + 1][..i] == taskgraph[..i];
    assert es[..i] == FileEntries(taskgraph[..i]);
  }

  /**
   * `build_digraph(taskgraph, name)`: one node per task carrying its record,
   * and an edge from each dependency's task id to the task.
   */
  method BuildDigraph(taskgraph: Taskgraph) returns (g: DiGraph)
    ensures fresh(g) && g.Valid()
    ensures g.Value() == DependencyGraph(FileEntries(taskgraph))
  {
    g := new DiGraph();
    for i := 0 to |taskgraph|
      invariant g.Valid() && g.Value() == DependencyGraph(FileEntries(taskgraph[..i]))
    {
      var (tasknode, record) := taskgraph[i];
      FileEntriesStep(taskgraph, i);
      g.AddNode(tasknode, Some(FileTask(record)));
      AddEdgesInto(g, Upstreams(record.dependencies), tasknode);
    }
    assert taskgraph[..|taskgraph|] == taskgraph;
  }

  /** `for dep in ups: g.add_edge(dep, v)`. */
  method AddEdgesInto(g: DiGraph, ups: seq<string>, v: string)
    requires g.Valid()
    modifies g
    ensures g.Valid() && g.Value() == AddIncoming(old(g.Value()), ups, v)
  {
    ghost var start := g.Value();
    for j := 0 to |ups|
      invariant g.Valid() && g.Value() == AddIncoming(start, ups[..j], v)
    {
      AddIncomingStep(start, ups, j, v);
      g.AddEdge(ups[j], v);
    }
    assert ups[..|ups|] == ups;
  }

  /** Every key of the taskgraph is a node; the other nodes are dependency targets. */
  lemma {:induction false} TaskgraphNodes(taskgraph: Taskgraph, n: string)
    ensures n in DependencyGraph(FileEntries(taskgraph)).nodes <==>
      exists i :: 0 <= i < |taskgraph| &&
        (taskgraph[i].0 == n || exists d :: d in taskgraph[i].1.dependencies && d.1 == n)
  {
    var es := FileEntries(taskgraph);
    DependencyGraphNodes(es, n);
    forall i | 0 <= i < |taskgraph|
      ensures n in es[i].upstreams <==> exists d :: d in taskgraph[i].1.dependencies && d.1 == n
    {
      var deps := taskgraph[i].1.dependencies;
      if n in es[i].upstreams {
        var d := UpstreamDependency(deps, n);
      }
      if exists d :: d in deps && d.1 == n {
        var d :| d in deps && d.1 == n;
        DependencyUpstream(deps, d);
      }
    }
  }

  /**
   * The edges are exactly (deps[d], task) for every task and every entry d
   * of its dependencies.
   */
  lemma {:induction false} TaskgraphEdges(taskgraph: Taskgraph, e: Edge)
    ensures e in DependencyGraph(FileEntries(taskgraph)).edges <==>
      exists i, d :: 0 <= i < |taskgraph| && d in taskgraph[i].1.dependencies && e == (d.1, taskgraph[i].0)
  {
    if e in DependencyGraph(FileEntries(taskgraph)).edges {
      TaskgraphEdgeHasDependency(taskgraph, e);
    }
    if exists i, d :: 0 <= i < |taskgraph| && d in taskgraph[i].1.dependencies && e == (d.1, taskgraph[i].0) {
      var i, d :| 0 <= i < |taskgraph| && d in taskgraph[i].1.dependencies && e == (d.1, taskgraph[i].0);
      DependencyIsTaskgraphEdge(taskgraph, i, d);
    }
  }

  lemma {:induction false} TaskgraphEdgeHasDependency(taskgraph: Taskgraph, e: Edge)
    requires e in DependencyGraph(FileEntries(taskgraph)).edges
    ensures exists i, d :: 0 <= i < |taskgraph| && d in taskgraph[i].1.dependencies && e == (d.1, taskgraph[i].0)
  {
    var es := FileEntries(taskgraph);
    DependencyGraphEdges(es, e);
    var i :| 0 <= i < |es| && e.1 == es[i].key && e.0 in es[i].upstreams;
    var d := UpstreamDependency(taskgraph[i].1.dependencies, e.0);
    assert e == (d.1, taskgraph[i].0);
  }

  /** An upstream id comes from some entry of the `dependencies` object. */
  lemma {:induction false} UpstreamDependency(deps: seq<(string, string)>, u: string) returns (d: (string, string))
    requires u in Upstreams(deps)
    ensures d in deps && d.1 == u
  {
    var k :| 0 <= k < |deps| && Upstreams(deps)[k] == u;
    d := deps[k];
  }

  lemma {:induction false} DependencyIsTaskgraphEdge(taskgraph: Taskgraph, i: nat, d: (string, string))
    requires i < |taskgraph| && d in taskgraph[i].1.dependencies
    ensures (d.1, taskgraph[i].0) in DependencyGraph(FileEntries(taskgraph)).edges
  {
    var es := FileEntries(taskgraph);
    DependencyUpstream(taskgraph[i].1.dependencies, d);
    DependencyGraphEdges(es, (d.1, taskgraph[i].0));
  }

  /** Every entry of the `dependencies` object gives an upstream id. */
  lemma {:induction false} DependencyUpstream(deps: seq<(string, string)>, d: (string, string))
    requires d in deps
    ensures d.1 in Upstreams(deps)
  {
    var k :| 0 <= k < |deps| && deps[k] == d;
    assert Upstreams(deps)[k] == d.1;
  }

  /** A task with no dependencies has no edge into it. */
  lemma {:induction false} NoDependenciesNoInEdges(taskgraph: Taskgraph, i: nat, e: Edge)
    requires DistinctKeys(taskgraph)
    requires i < |taskgraph| && taskgraph[i].1.dependencies == []
    requires e in DependencyGraph(FileEntries(taskgraph)).edges
    ensures e.1 != taskgraph[i].0
  {
    TaskgraphEdgeHasDependency(taskgraph, e);
    var j, d :| 0 <= j < |taskgraph| && d in taskgraph[j].1.dependencies && e == (d.1, taskgraph[j].0);
    assert j != i;
    if j < i {
      assert taskgraph[j].0 != taskgraph[i].0;
    } else {
      assert taskgraph[i].0 != taskgraph[j].0;
    }
  }

  /**
   * Each task's node carries its record, a node that is only named as a
   * dependency carries no attributes, and no node has a layer yet.
   */
  lemma {:induction false} TaskgraphData(taskgraph: Taskgraph, n: string)
    requires DistinctKeys(taskgraph)
    requires n in DependencyGraph(FileEntries(taskgraph)).data
    ensures var d := DependencyGraph(FileEntries(taskgraph)).data[n];
      && d.layer == None
      && (forall i :: 0 <= i < |taskgraph| && taskgraph[i].0 == n ==> d.payload == Some(FileTask(taskgraph[i].1)))
      && ((forall i :: 0 <= i < |taskgraph| ==> taskgraph[i].0 != n) ==> d.payload == None)
  {
    var es := FileEntries(taskgraph);
    DependencyGraphUnlayered(es, n);
    forall i | 0 <= i < |taskgraph| && taskgraph[i].0 == n
      ensures DependencyGraph(es).data[n].payload == Some(FileTask(taskgraph[i].1))
    {
      TaskPayload(taskgraph, i);
    }
    if forall i :: 0 <= i < |taskgraph| ==> taskgraph[i].0 != n {
      forall i | 0 <= i < |es| ensures es[i].key != n {
        assert es[i].key == taskgraph[i].0;
      }
      DependencyGraphUpstreamPayload(es, n);
    }
  }

  /** The node of a task carries that task's record. */
  lemma {:induction false} TaskPayload(taskgraph: Taskgraph, i: nat)
    requires DistinctKeys(taskgraph) && i < |taskgraph|
    ensures taskgraph[i].0 in DependencyGraph(FileEntries(taskgraph)).data
    ensures DependencyGraph(FileEntries(taskgraph)).data[taskgraph[i].0].payload == Some(FileTask(taskgraph[i].1))
  {
    var es := FileEntries(taskgraph);
    forall j | 0 <= j < |es| && j != i ensures es[j].key != es[i].key {
      assert es[j].key == taskgraph[j].0 && es[i].key == taskgraph[i].0;
      if j < i {
        assert taskgraph[j].0 != taskgraph[i].0;
      } else {
        assert taskgraph[i].0 != taskgraph[j].0;
      }
    }
    DependencyGraphKeyPayload(es, i);
  }

  /** The kind-dependency listing: kind to the kinds it depends on, in key order. */
  type KindLinks = seq<(string, seq<string>)>

  function KindEntries(links: KindLinks): (es: seq<Entry>)
    ensures |es| == |links|
    ensures forall i :: 0 <= i < |links| ==> es[i] == Entry(links[i].0, None, links[i].1)
  {
    if |links| == 0 then []
    else KindEntries(links[..|links| - 1]) + [Entry(links[|links| - 1].0, None, links[|links| - 1].1)]
  }

  /** One pass of the graph-building loop of `build_kinds_digraph`. */
  lemma {:induction false} KindEntriesStep(links: KindLinks, i: nat)
    requires i < |links|
    ensures DependencyGraph(KindEntries(links[..i + 1])) ==
      AddIncoming(WithNode(DependencyGraph(KindEntries(links[..i])), links[i].0, None), links[i].1, links[i].0)
  {
    var es := KindEntries(links[..i + 1]);
    assert links[..i + 1][..i] == links[..i];
    assert es[..i] == KindEntries(links[..i]);
  }

  /**
   * The graph-building loop of `build_kinds_digraph`: one bare node per
   * kind and an edge from each kind it depends on.
   */
  method BuildKindsDigraph(links: KindLinks) returns (g: DiGraph)
    ensures fresh(g) && g.Valid()
    ensures g.Value() == DependencyGraph(KindEntries(links))
  {
    g := new DiGraph();
    for i := 0 to |links|
      invariant g.Valid() && g.Value() == DependencyGraph(KindEntries(links[..i]))
    {
      var (link, dependencies) := links[i];
      KindEntriesStep(links, i);
      g.AddNode(link, None);
      AddEdgesInto(g, dependencies, link);
    }
    assert links[..|links|] == links;
  }

  /** The kinds digraph: nodes are the kinds and their dependencies, edges dependency -> kind. */
  lemma {:induction false} KindsGraphShape(links: KindLinks, n: string, e: Edge)
    ensures n in DependencyGraph(KindEntries(links)).nodes <==>
      exists i :: 0 <= i < |links| && (links[i].0 == n || n in links[i].1)
    ensures e in DependencyGraph(KindEntries(links)).edges <==>
      exists i :: 0 <= i < |links| && e.1 == links[i].0 && e.0 in links[i].1
  {
    var es := KindEntries(links);
    DependencyGraphNodes(es, n);
    if exists i :: 0 <= i < |es| && (es[i].key == n || n in es[i].upstreams) {
      var i :| 0 <= i < |es| && (es[i].key == n || n in es[i].upstreams);
      assert links[i].0 == n || n in links[i].1;
    }
    if exists i :: 0 <= i < |links| && (links[i].0 == n || n in links[i].1) {
      var i :| 0 <= i < |links| && (links[i].0 == n || n in links[i].1);
      assert es[i].key == n || n in es[i].upstreams;
    }
    DependencyGraphEdges(es, e);
    if exists i :: 0 <= i < |es| && e.1 == es[i].key && e.0 in es[i].upstreams {
      var i :| 0 <= i < |es| && e.1 == es[i].key && e.0 in es[i].upstreams;
      assert e.1 == links[i].0 && e.0 in links[i].1;
    }
    if exists i :: 0 <= i < |links| && e.1 == links[i].0 && e.0 in links[i].1 {
      var i :| 0 <= i < |links| && e.1 == links[i].0 && e.0 in links[i].1;
      assert e.1 == es[i].key && e.0 in es[i].upstreams;
    }
  }

  // ---------------------------------------------------------------------
  // Layers
  // ---------------------------------------------------------------------

  /** `nodes[n]["layer"] = layer` on a node's attribute dictionary. */
  function SetLayerIn(d: map<string, NodeData>, n: string, layer: nat): map<string, NodeData>
  {
    if n in d then d[n := d[n].(layer := Some(layer))] else d
  }

  /** The writes of one generation: each of its nodes gets `layer`. */
  function WithGeneration(d: map<string, NodeData>, gen: seq<string>, layer: nat): (r: map<string, NodeData>)
    ensures r.Keys == d.Keys
    ensures forall n :: n in d ==> r[n] == if n in gen then d[n].(layer := Some(layer)) else d[n]
  {
    if |gen| == 0 then d else SetLayerIn(WithGeneration(d, gen[..|gen| - 1], layer), gen[|gen| - 1], layer)
  }

  /** The writes of `enumerate(generations)`, in order. */
  function WithLayers(d: map<string, NodeData>, gens: seq<seq<string>>): (r: map<string, NodeData>)
    ensures r.Keys == d.Keys
    ensures forall n :: n in d ==>
      r[n] == if LayerOf(gens, n).Some? then d[n].(layer := LayerOf(gens, n)) else d[n]
  {
    if |gens| == 0 then d else WithGeneration(WithLayers(d, gens[..|gens| - 1]), gens[|gens| - 1], |gens| - 1)
  }

  /** Writing the next generation's layers. */
  lemma {:induction false} WithLayersStep(d: map<string, NodeData>, gens: seq<seq<string>>, layer: nat)
    requires layer < |gens|
    ensures WithLayers(d, gens[..layer + 1]) == WithGeneration(WithLayers(d, gens[..layer]), gens[layer], layer)
  {
    var w := gens[..layer + 1];
    assert w[..|w| - 1] == gens[..layer];
    assert w[|w| - 1] == gens[layer];
  }

  /** Writing the next node's layer. */
  lemma {:induction false} WithGenerationStep(d: map<string, NodeData>, gen: seq<string>, layer: nat, k: nat)
    requires k < |gen|
    ensures WithGeneration(d, gen[..k + 1], layer) == SetLayerIn(WithGeneration(d, gen[..k], layer), gen[k], layer)
  {
    var w := gen[..k + 1];
    assert w[..|w| - 1] == gen[..k];
    assert w[|w| - 1] == gen[k];
  }

  /** `layout_digraph` either lays the graph out or raises on a cycle. */
  datatype LayoutOutcome = Laid | CyclicGraph

  /**
   * The layer-assignment loop of `layout_digraph`: every node of every
   * yielded generation gets that generation's index as its `layer`; if the
   * generator then raises on a cycle, the layers already written stay.
   */
  method LayoutDigraph(g: DiGraph) returns (outcome: LayoutOutcome)
    requires g.Valid()
    modifies g
    ensures g.Valid() && g.nodes == old(g.nodes) && g.edges == old(g.edges)
    ensures g.data == WithLayers(old(g.data), TopologicalGenerations(old(g.Value())).generations)
    ensures outcome == CyclicGraph <==> TopologicalGenerations(old(g.Value())).cyclic
  {
    var gen := TopologicalGenerations(g.Value());
    var gens := gen.generations;
    assert gen == Generate(g.nodes, g.edges);
    GenerationsWithin(g.nodes, g.edges);
    for layer := 0 to |gens|
      invariant g.Valid() && g.nodes == old(g.nodes) && g.edges == old(g.edges)
      invariant g.data == WithLayers(old(g.data), gens[..layer])
    {
      WithLayersStep(old(g.data), gens, layer);
      LayGeneration(g, gens[layer], layer);
    }
    assert gens[..|gens|] == gens;
    outcome := if gen.cyclic then CyclicGraph else Laid;
  }

  /** The inner loop of the layer assignment: one generation's nodes get `layer`. */
  method LayGeneration(g: DiGraph, nodes: seq<string>, layer: nat)
    requires g.Valid() && forall n :: n in nodes ==> n in g.nodes
    modifies g
    ensures g.Valid() && g.nodes == old(g.nodes) && g.edges == old(g.edges)
    ensures g.data == WithGeneration(old(g.data), nodes, layer)
  {
    for k := 0 to |nodes|
      invariant g.Valid() && g.nodes == old(g.nodes) && g.edges == old(g.edges)
      invariant g.data == WithGeneration(old(g.data), nodes[..k], layer)
    {
      WithGenerationStep(old(g.data), nodes, layer, k);
      assert nodes[k] in nodes && nodes[k] in Elements(g.nodes);
      g.SetLayer(nodes[k], layer);
    }
    assert nodes[..|nodes|] == nodes;
  }

  /** The attribute dictionaries after `layout_digraph` has run on `g`. */
  function LaidOut(g: Graph): (r: map<string, NodeData>)
    ensures r.Keys == g.data.Keys
  {
    WithLayers(g.data, TopologicalGenerations(g).generations)
  }

  /**
   * On an acyclic digraph every node gets a layer below the number of
   * generations, and its other attributes are untouched.
   */
  lemma {:induction false} LayoutEveryNode(g: Graph, n: string)
    requires WellFormed(g) && !TopologicalGenerations(g).cyclic && n in g.nodes
    ensures n in LaidOut(g)
    ensures LaidOut(g)[n].layer == LayerOf(TopologicalGenerations(g).generations, n)
    ensures LaidOut(g)[n].layer.Some? && LaidOut(g)[n].layer.value < |TopologicalGenerations(g).generations|
    ensures LaidOut(g)[n].payload == g.data[n].payload
  {
    var gens := TopologicalGenerations(g).generations;
    assert n in Elements(g.nodes);
    GenerationsDisjoint(g.nodes, g.edges);
    GenerationsCover(g.nodes, g.edges, n);
    var i :| 0 <= i < |gens| && n in gens[i];
    LayerOfIndex(gens, n, i);
  }

  /** On an acyclic digraph layers rise strictly along every edge. */
  lemma {:induction false} LayoutEdgesRise(g: Graph, e: Edge)
    requires WellFormed(g) && !TopologicalGenerations(g).cyclic && e in g.edges
    ensures e.0 in LaidOut(g) && e.1 in LaidOut(g)
    ensures LaidOut(g)[e.0].layer.Some? && LaidOut(g)[e.1].layer.Some?
    ensures LaidOut(g)[e.0].layer.value < LaidOut(g)[e.1].layer.value
  {
    LayoutEveryNode(g, e.0);
    LayoutEveryNode(g, e.1);
    GenerationsLayer(g.nodes, g.edges);
  }

  /** On an acyclic digraph the layer-0 nodes are exactly those without predecessors. */
  lemma {:induction false} LayoutSources(g: Graph, n: string)
    requires WellFormed(g) && !TopologicalGenerations(g).cyclic && n in g.nodes
    ensures n in LaidOut(g)
    ensures LaidOut(g)[n].layer == Some(0) <==> forall u :: u in g.nodes ==> (u, n) !in g.edges
  {
    var gens := TopologicalGenerations(g).generations;
    LayoutEveryNode(g, n);
    GenerationsCover(g.nodes, g.edges, n);
    FirstGenerationSources(g.nodes, g.edges, n);
    GenerationsDisjoint(g.nodes, g.edges);
    if n in gens[0] {
      LayerOfIndex(gens, n, 0);
    }
  }

  /** Every layer below the number of generations is some node's layer. */
  lemma {:induction false} LayoutLayersUsed(g: Graph, l: nat)
    requires WellFormed(g) && l < |TopologicalGenerations(g).generations|
    ensures exists n :: n in g.nodes && n in LaidOut(g) && LaidOut(g)[n].layer == Some(l)
  {
    var gens := TopologicalGenerations(g).generations;
    assert gens == Generate(g.nodes, g.edges).generations;
    GenerationsWithin(g.nodes, g.edges);
    GenerationsDisjoint(g.nodes, g.edges);
    assert |Generate(g.nodes, g.edges).generations[l]| > 0;
    var n := gens[l][0];
    assert n in Generate(g.nodes, g.edges).generations[l];
    assert n in Elements(g.nodes);
    LayerOfIndex(gens, n, l);
    assert n in g.nodes && LaidOut(g)[n].layer == Some(l);
  }

  // ---------------------------------------------------------------------
  // Serializing
  // ---------------------------------------------------------------------

  /** The node record `serialize_taskgraph` emits for one task. */
  function TaskNodeRecord(task: (string, TaskRecord), pos: map<string, Position>): NodeRecord
    requires task.0 in pos
  {
    NodeRecord(task.0, NodeAttributes(task.1.taskLabel, pos[task.0].x, pos[task.0].y, Some("#B30000"), Some(20.0), None))
  }

  /** Source, target and kind of one emitted edge. */
  datatype Link = Link(source: string, target: string, kind: string)

  /** One link per dependency entry of a task, from the dependency to the task. */
  function TaskLinks(deps: seq<(string, string)>, target: string, kind: string): (ls: seq<Link>)
    ensures |ls| == |deps|
    ensures forall k :: 0 <= k < |deps| ==> ls[k] == Link(deps[k].1, target, kind)
  {
    if |deps| == 0 then [] else TaskLinks(deps[..|deps| - 1], target, kind) + [Link(deps[|deps| - 1].1, target, kind)]
  }

  /** The links of all tasks, in key order and dependency order: one per dependency entry. */
  function DependencyLinks(taskgraph: Taskgraph): (ls: seq<Link>)
    ensures |ls| == TotalDependencies(taskgraph)
  {
    if |taskgraph| == 0 then []
    else
      var t := taskgraph[|taskgraph| - 1];
      DependencyLinks(taskgraph[..|taskgraph| - 1]) + TaskLinks(t.1.dependencies, t.0, t.1.kind)
  }

  /** The edge record `serialize_taskgraph` emits with counter `k`. */
  function TaskEdgeRecord(k: nat, l: Link): EdgeRecord
  {
    EdgeRecord(NatToString(k), l.source, l.target, EdgeAttributes(Arrow, Some(l.kind), Some(2.5)))
  }

  /** Σ |dependencies| over the taskgraph. */
  function TotalDependencies(taskgraph: Taskgraph): nat
  {
    if |taskgraph| == 0 then 0
    else TotalDependencies(taskgraph[..|taskgraph| - 1]) + |taskgraph[|taskgraph| - 1].1.dependencies|
  }

  /**
   * `serialize_taskgraph(taskgraph, pos)`: one node record per task in key
   * order, then, for each task, one edge record per dependency entry, keyed
   * by the running counter.
   */
  method SerializeTaskgraph(taskgraph: Taskgraph, pos: map<string, Position>) returns (doc: Document)
    requires forall i :: 0 <= i < |taskgraph| ==> taskgraph[i].0 in pos
    ensures |doc.nodes| == |taskgraph|
    ensures forall i :: 0 <= i < |taskgraph| ==> doc.nodes[i] == TaskNodeRecord(taskgraph[i], pos)
    ensures |doc.edges| == |DependencyLinks(taskgraph)| == TotalDependencies(taskgraph)
    ensures forall k :: 0 <= k < |doc.edges| ==> doc.edges[k] == TaskEdgeRecord(k, DependencyLinks(taskgraph)[k])
    ensures DenseKeys(doc.edges)
  {
    var nodes: seq<NodeRecord> := [];
    var edges: seq<EdgeRecord> := [];
    var graphSize: nat := 0;
    for i := 0 to |taskgraph|
      invariant |nodes| == i && forall m :: 0 <= m < i ==> nodes[m] == TaskNodeRecord(taskgraph[m], pos)
      invariant graphSize == |edges| == |DependencyLinks(taskgraph[..i])|
      invariant forall k :: 0 <= k < |edges| ==> edges[k] == TaskEdgeRecord(k, DependencyLinks(taskgraph[..i])[k])
    {
      var (tasknode, record) := taskgraph[i];
      TaskNodesStep(taskgraph, nodes, pos, i);
      nodes := nodes + [TaskNodeRecord(taskgraph[i], pos)];
      DependencyLinksStep(taskgraph, i);
      ghost var done := DependencyLinks(taskgraph[..i]);
      ghost var links := TaskLinks(record.dependencies, tasknode, record.kind);
      var deps := record.dependencies;
      for j := 0 to |deps|
        invariant graphSize == |edges| == |done| + j
        invariant forall k :: 0 <= k < |edges| ==> edges[k] == TaskEdgeRecord(k, (done + links)[k])
      {
        TaskEdgesStep(edges, done, links, j);
        edges := edges + [EdgeRecord(NatToString(graphSize), deps[j].1, tasknode,
                                     EdgeAttributes(Arrow, Some(record.kind), Some(2.5)))];
        graphSize := graphSize + 1;
      }
    }
    assert taskgraph[..|taskgraph|] == taskgraph;
    doc := Document(nodes, edges);
  }

  lemma {:induction false} TaskNodesStep(taskgraph: Taskgraph, nodes: seq<NodeRecord>, pos: map<string, Position>, i: nat)
    requires |nodes| == i < |taskgraph|
    requires forall m :: 0 <= m < |taskgraph| ==> taskgraph[m].0 in pos
    requires forall m :: 0 <= m < i ==> nodes[m] == TaskNodeRecord(taskgraph[m], pos)
    ensures var nodes' := nodes + [TaskNodeRecord(taskgraph[i], pos)];
      forall m :: 0 <= m < i + 1 ==> nodes'[m] == TaskNodeRecord(taskgraph[m], pos)
  {
  }

  /** One pass of the outer loop appends that task's links. */
  lemma {:induction false} DependencyLinksStep(taskgraph: Taskgraph, i: nat)
    requires i < |taskgraph|
    ensures DependencyLinks(taskgraph[..i + 1]) ==
      DependencyLinks(taskgraph[..i]) + TaskLinks(taskgraph[i].1.dependencies, taskgraph[i].0, taskgraph[i].1.kind)
  {
    var w := taskgraph[..i + 1];
    assert w[..|w| - 1] == taskgraph[..i];
    assert w[|w| - 1] == taskgraph[i];
  }

  /** One pass of the inner loop emits the record of the next link. */
  lemma {:induction false} TaskEdgesStep(edges: seq<EdgeRecord>, done: seq<Link>, links: seq<Link>, j: nat)
    requires |edges| == |done| + j && j < |links|
    requires forall k :: 0 <= k < |edges| ==> edges[k] == TaskEdgeRecord(k, (done + links)[k])
    ensures var edges' := edges + [TaskEdgeRecord(|edges|, links[j])];
      forall k :: 0 <= k < |edges'| ==> edges'[k] == TaskEdgeRecord(k, (done + links)[k])
  {
  }

  /**
   * Each emitted edge runs from a dependency's task id to the task, with the
   * target task's kind, and every dependency entry is emitted.
   */
  lemma {:induction false} DependencyLinksMembers(taskgraph: Taskgraph, l: Link)
    ensures l in DependencyLinks(taskgraph) <==>
      exists i, d :: 0 <= i < |taskgraph| && d in taskgraph[i].1.dependencies &&
        l == Link(d.1, taskgraph[i].0, taskgraph[i].1.kind)
  {
    if |taskgraph| > 0 {
      var init, t := taskgraph[..|taskgraph| - 1], taskgraph[|taskgraph| - 1];
      DependencyLinksMembers(init, l);
      var tl := TaskLinks(t.1.dependencies, t.0, t.1.kind);
      assert l in DependencyLinks(taskgraph) <==> l in DependencyLinks(init) || l in tl;
      if l in tl {
        var k :| 0 <= k < |tl| && tl[k] == l;
        assert t.1.dependencies[k] in t.1.dependencies;
        assert taskgraph[|taskgraph| - 1] == t;
      }
      if l in DependencyLinks(init) {
        var i, d :| 0 <= i < |init| && d in init[i].1.dependencies && l == Link(d.1, init[i].0, init[i].1.kind);
        assert taskgraph[i] == init[i];
      }
      if exists i, d :: 0 <= i < |taskgraph| && d in taskgraph[i].1.dependencies &&
          l == Link(d.1, taskgraph[i].0, taskgraph[i].1.kind) {
        var i, d :| 0 <= i < |taskgraph| && d in taskgraph[i].1.dependencies &&
          l == Link(d.1, taskgraph[i].0, taskgraph[i].1.kind);
        if i == |taskgraph| - 1 {
          var k :| 0 <= k < |t.1.dependencies| && t.1.dependencies[k] == d;
          assert tl[k] == l;
        } else {
          assert init[i] == taskgraph[i];
        }
      }
    }
  }

  /**
   * The edges `serialize_taskgraph` emits are, as pairs, exactly the edges
   * of the digraph `build_digraph` makes from the same taskgraph.
   */
  lemma {:induction false} SerializedPairsAreDigraphEdges(taskgraph: Taskgraph, e: Edge)
    ensures e in DependencyGraph(FileEntries(taskgraph)).edges <==>
      exists l :: l in DependencyLinks(taskgraph) && (l.source, l.target) == e
  {
    TaskgraphEdges(taskgraph, e);
    if e in DependencyGraph(FileEntries(taskgraph)).edges {
      var i, d :| 0 <= i < |taskgraph| && d in taskgraph[i].1.dependencies && e == (d.1, taskgraph[i].0);
      DependencyLinksMembers(taskgraph, Link(d.1, taskgraph[i].0, taskgraph[i].1.kind));
    }
    if exists l :: l in DependencyLinks(taskgraph) && (l.source, l.target) == e {
      var l :| l in DependencyLinks(taskgraph) && (l.source, l.target) == e;
      DependencyLinksMembers(taskgraph, l);
    }
  }

  /** The node record `serialize_kinds` emits for one kind. */
  function KindNodeRecord(kind: string, pos: map<string, Position>): NodeRecord
    requires kind in pos
  {
    NodeRecord(kind, NodeAttributes(kind, pos[kind].x, pos[kind].y, Some("#054096"), Some(5.0), None))
  }

  /** The edge record `serialize_kinds` emits with counter `k` for an in-edge. */
  function KindEdgeRecord(k: nat, e: Edge): EdgeRecord
  {
    EdgeRecord(NatToString(k), e.0, e.1, EdgeAttributes(Arrow, Some(e.1), Some(0.25)))
  }

  /** One pass of the outer loop of `serialize_kinds` visits the in-edges of the next node. */
  lemma {:induction false} InLinksStep(order: seq<string>, edges: seq<Edge>, i: nat)
    requires i < |order|
    ensures InLinks(order[..i + 1], edges) == InLinks(order[..i], edges) + Incoming(Predecessors(edges, order[i]), order[i])
  {
    var w := order[..i + 1];
    assert w[..|w| - 1] == order[..i];
    assert w[|w| - 1] == order[i];
  }

  /**
   * `serialize_kinds(kinds, pos)`: one node record per digraph node in node
   * order and, for each, one edge record per in-edge. The edge records are
   * the digraph's edges, each once, keyed densely from "0".
   */
  method SerializeKinds(kinds: DiGraph, pos: map<string, Position>) returns (doc: Document)
    requires kinds.Valid()
    requires forall n :: n in kinds.nodes ==> n in pos
    ensures |doc.nodes| == |kinds.nodes|
    ensures forall i :: 0 <= i < |kinds.nodes| ==> doc.nodes[i] == KindNodeRecord(kinds.nodes[i], pos)
    ensures |doc.edges| == |InLinks(kinds.nodes, kinds.edges)|
    ensures forall k :: 0 <= k < |doc.edges| ==> doc.edges[k] == KindEdgeRecord(k, InLinks(kinds.nodes, kinds.edges)[k])
    ensures |doc.edges| == |kinds.edges|
    ensures forall e :: e in kinds.edges <==> exists k :: 0 <= k < |doc.edges| && Endpoints(doc.edges[k]) == e
    ensures DenseKeys(doc.edges)
  {
    var nodes: seq<NodeRecord> := [];
    var edges: seq<EdgeRecord> := [];
    var graphSize: nat := 0;
    var order, links := kinds.nodes, kinds.edges;
    for i := 0 to |order|
      invariant |nodes| == i && forall m :: 0 <= m < i ==> nodes[m] == KindNodeRecord(order[m], pos)
      invariant graphSize == |edges| == |InLinks(order[..i], links)|
      invariant forall k :: 0 <= k < |edges| ==> edges[k] == KindEdgeRecord(k, InLinks(order[..i], links)[k])
    {
      var kind := order[i];
      InLinksStep(order, links, i);
      KindNodesStep(nodes, order, pos, i);
      nodes := nodes + [KindNodeRecord(kind, pos)];
      var dependencies := Predecessors(links, kind);
      ghost var before := edges;
      edges, graphSize := EmitKindEdges(edges, graphSize, dependencies, kind);
      KindEdgesStep(before, edges, InLinks(order[..i], links), dependencies, kind);
    }
    assert order[..|order|] == order;
    doc := Document(nodes, edges);
    KindEdgesAreTheEdges(kinds.Value(), edges);
  }

  lemma {:induction false} KindNodesStep(nodes: seq<NodeRecord>, order: seq<string>, pos: map<string, Position>, i: nat)
    requires |nodes| == i < |order|
    requires forall m :: 0 <= m < |order| ==> order[m] in pos
    requires forall m :: 0 <= m < i ==> nodes[m] == KindNodeRecord(order[m], pos)
    ensures forall m :: 0 <= m < i + 1 ==> (nodes + [KindNodeRecord(order[i], pos)])[m] == KindNodeRecord(order[m], pos)
  {
  }

  /** The records one pass of the outer loop emits continue the in-edge visit order. */
  lemma {:induction false} KindEdgesStep(before: seq<EdgeRecord>, edges: seq<EdgeRecord>, done: seq<Edge>,
                                         dependencies: seq<string>, kind: string)
    requires |before| == |done|
    requires forall k :: 0 <= k < |before| ==> before[k] == KindEdgeRecord(k, done[k])
    requires |edges| == |before| + |dependencies| && edges[..|before|] == before
    requires forall j :: 0 <= j < |dependencies| ==>
      edges[|before| + j] == KindEdgeRecord(|before| + j, (dependencies[j], kind))
    ensures |edges| == |done + Incoming(dependencies, kind)|
    ensures forall k :: 0 <= k < |edges| ==> edges[k] == KindEdgeRecord(k, (done + Incoming(dependencies, kind))[k])
  {
    var inc := Incoming(dependencies, kind);
    forall k | 0 <= k < |edges| ensures edges[k] == KindEdgeRecord(k, (done + inc)[k]) {
      if k < |before| {
        assert edges[k] == edges[..|before|][k] == before[k];
      } else {
        assert edges[|before| + (k - |before|)] == KindEdgeRecord(k, (dependencies[k - |before|], kind));
        assert inc[k - |before|] == (dependencies[k - |before|], kind);
      }
    }
  }

  /**
   * The inner loop of `serialize_kinds`: one edge record per predecessor of
   * `kind`, keyed by the running counter.
   */
  method EmitKindEdges(edges: seq<EdgeRecord>, graphSize: nat, dependencies: seq<string>, kind: string)
    returns (edges': seq<EdgeRecord>, graphSize': nat)
    requires graphSize == |edges|
    ensures graphSize' == |edges'| == |edges| + |dependencies|
    ensures edges'[..|edges|] == edges
    ensures forall j :: 0 <= j < |dependencies| ==>
      edges'[|edges| + j] == KindEdgeRecord(|edges| + j, (dependencies[j], kind))
  {
    edges', graphSize' := edges, graphSize;
    for j := 0 to |dependencies|
      invariant graphSize' == |edges'| == |edges| + j
      invariant edges'[..|edges|] == edges
      invariant forall m :: 0 <= m < j ==> edges'[|edges| + m] == KindEdgeRecord(|edges| + m, (dependencies[m], kind))
    {
      edges' := edges' + [EdgeRecord(NatToString(graphSize'), dependencies[j], kind,
                                     EdgeAttributes(Arrow, Some(kind), Some(0.25)))];
      graphSize' := graphSize' + 1;
    }
  }

  /** Edge records that follow the in-edge visit order name every edge exactly once. */
  lemma {:induction false} KindEdgesAreTheEdges(g: Graph, edges: seq<EdgeRecord>)
    requires WellFormed(g)
    requires |edges| == |InLinks(g.nodes, g.edges)|
    requires forall k :: 0 <= k < |edges| ==> edges[k] == KindEdgeRecord(k, InLinks(g.nodes, g.edges)[k])
    ensures |edges| == |g.edges|
    ensures forall e :: e in g.edges <==> exists k :: 0 <= k < |edges| && Endpoints(edges[k]) == e
  {
    var links := InLinks(g.nodes, g.edges);
    InLinksAreTheEdges(g);
    forall e | e in g.edges ensures exists k :: 0 <= k < |edges| && Endpoints(edges[k]) == e {
      var k :| 0 <= k < |links| && links[k] == e;
      assert Endpoints(edges[k]) == e;
    }
    forall e | exists k :: 0 <= k < |edges| && Endpoints(edges[k]) == e ensures e in g.edges {
      var k :| 0 <= k < |edges| && Endpoints(edges[k]) == e;
      assert links[k] in links;
    }
  }
}
