/**
 * The part of networkx's `DiGraph` the scripts use: nodes in insertion order
 * with an attribute dictionary each, and directed edges in insertion order
 * (which fixes the order `predecessors` and `in_edges` report).
 */
module DiGraphs {
  import opened Wrappers
  import opened Tasks

  /** A directed edge (source, target). */
  type Edge = (string, string)

  predicate Distinct<T(==)>(s: seq<T>)
  {
    forall i, j :: 0 <= i < j < |s| ==> s[i] != s[j]
  }

  /** The value of a digraph: what a `DiGraph` object holds at one moment. */
  datatype Graph = Graph(nodes: seq<string>, data: map<string, NodeData>, edges: seq<Edge>)

  /**
   * No node or edge twice, one attribute dictionary per node, and every
   * edge endpoint a node.
   */
  ghost predicate WellFormed(g: Graph)
  {
    && Distinct(g.nodes)
    && g.data.Keys == Elements(g.nodes)
    && Distinct(g.edges)
    && (forall e :: e in g.edges ==> e.0 in g.nodes && e.1 in g.nodes)
  }

  /** `nx.DiGraph()`: no nodes, no edges. */
  const Empty := Graph([], map[], [])

  lemma {:induction false} ElementsAppend<T>(s: seq<T>, x: T)
    ensures Elements(s + [x]) == Elements(s) + {x}
  {
    assert forall y :: y in s + [x] <==> y in s || y == x;
  }

  lemma {:induction false} SplitLast<T>(s: seq<T>)
    requires |s| > 0
    ensures s == s[..|s| - 1] + [s[|s| - 1]]
  {
  }

  lemma {:induction false} InSplitLast<T>(s: seq<T>, x: T)
    requires |s| > 0
    ensures x in s <==> x in s[..|s| - 1] || x == s[|s| - 1]
  {
    SplitLast(s);
  }

  /** The node `n` is present: appended with no attributes if it was not. */
  function WithBareNode(g: Graph, n: string): (r: Graph)
    requires WellFormed(g)
    ensures WellFormed(r)
    ensures Elements(r.nodes) == Elements(g.nodes) + {n}
    ensures |g.nodes| <= |r.nodes| && r.nodes[..|g.nodes|] == g.nodes
    ensures r.nodes == g.nodes + (if n in g.nodes then [] else [n])
    ensures r.edges == g.edges
    ensures r.data == if n in g.data then g.data else g.data[n := Bare]
  {
    if n in g.nodes then g
    else
      ElementsAppend(g.nodes, n);
      Graph(g.nodes + [n], g.data[n := Bare], g.edges)
  }

  /**
   * `add_node(n, **attrs)`: a new node goes last with the attributes given;
   * on an existing node the attributes update its dictionary in place.
   */
  function WithNode(g: Graph, n: string, p: Option<Payload>): (r: Graph)
    requires WellFormed(g)
    ensures WellFormed(r)
    ensures Elements(r.nodes) == Elements(g.nodes) + {n}
    ensures |g.nodes| <= |r.nodes| && r.nodes[..|g.nodes|] == g.nodes
    ensures r.edges == g.edges
    ensures forall m :: m in g.data && m != n ==> r.data[m] == g.data[m]
    ensures r.data[n].payload == if p.Some? then p else if n in g.data then g.data[n].payload else None
    ensures r.data[n].layer == if n in g.data then g.data[n].layer else None
  {
    var base := WithBareNode(g, n);
    if p.Some? then base.(data := base.data[n := base.data[n].(payload := p)]) else base
  }

  /**
   * `add_edge(u, v)`: an endpoint that is not yet a node is added first,
   * with no attributes; an edge that is already present is not added again.
   */
  function WithEdge(g: Graph, u: string, v: string): (r: Graph)
    requires WellFormed(g)
    ensures WellFormed(r)
    ensures Elements(r.nodes) == Elements(g.nodes) + {u} + {v}
    ensures Elements(r.edges) == Elements(g.edges) + {(u, v)}
    ensures forall m :: m in r.data ==> r.data[m] == if m in g.data then g.data[m] else Bare
    ensures r.nodes == g.nodes + (if u in g.nodes then [] else [u]) + (if v in g.nodes || v == u then [] else [v])
    ensures (u, v) !in g.edges ==> r.edges == g.edges + [(u, v)]
    ensures (u, v) in g.edges ==> r.edges == g.edges
  {
    var g1 := WithBareNode(g, u);
    WithEdgeFrom(g1, u, v)
  }

  /** `add_edge(u, v)` once `u` is a node. */
  function WithEdgeFrom(g: Graph, u: string, v: string): (r: Graph)
    requires WellFormed(g) && u in g.data
    ensures WellFormed(r)
    ensures Elements(r.nodes) == Elements(g.nodes) + {v}
    ensures |g.nodes| <= |r.nodes| && r.nodes[..|g.nodes|] == g.nodes
    ensures Elements(r.edges) == Elements(g.edges) + {(u, v)}
    ensures forall m :: m in r.data ==> r.data[m] == if m in g.data then g.data[m] else Bare
    ensures r.nodes == g.nodes + (if v in g.nodes then [] else [v])
    ensures (u, v) !in g.edges ==> r.edges == g.edges + [(u, v)]
    ensures (u, v) in g.edges ==> r.edges == g.edges
  {
    var g2 := WithBareNode(g, v);
    if (u, v) in g2.edges then g2 else WithNewEdge(g2, u, v)
  }

  /** `add_edge` appends the nodes it creates after the existing ones. */
  lemma {:induction false} WithEdgeAppends(g: Graph, u: string, v: string)
    requires WellFormed(g)
    ensures |g.nodes| <= |WithEdge(g, u, v).nodes|
    ensures WithEdge(g, u, v).nodes[..|g.nodes|] == g.nodes
  {
    var g1 := WithBareNode(g, u);
    PrefixOfPrefix(g.nodes, g1.nodes, WithEdgeFrom(g1, u, v).nodes);
  }

  lemma {:induction false} PrefixOfPrefix<T>(a: seq<T>, b: seq<T>, c: seq<T>)
    requires |a| <= |b| <= |c| && b[..|a|] == a && c[..|b|] == b
    ensures c[..|a|] == a
  {
    assert c[..|a|] == c[..|b|][..|a|];
  }

  /** Appends an edge between two nodes that the graph does not have yet. */
  function WithNewEdge(g: Graph, u: string, v: string): (r: Graph)
    requires WellFormed(g) && u in g.data && v in g.data && (u, v) !in g.edges
    ensures WellFormed(r)
    ensures r.nodes == g.nodes && r.data == g.data
    ensures Elements(r.edges) == Elements(g.edges) + {(u, v)}
    ensures r.edges == g.edges + [(u, v)]
  {
    ElementsAppend(g.edges, (u, v));
    g.(edges := g.edges + [(u, v)])
  }

  /** Adding the same edge twice leaves one edge. */
  lemma {:induction false} WithEdgeIdempotent(g: Graph, u: string, v: string)
    requires WellFormed(g)
    ensures WithEdge(WithEdge(g, u, v), u, v) == WithEdge(g, u, v)
  {
    var r := WithEdge(g, u, v);
    assert u in r.nodes && v in r.nodes && (u, v) in r.edges;
  }

  /** `predecessors(v)`: the sources of the edges into `v`, in edge order. */
  function Predecessors(edges: seq<Edge>, v: string): (ps: seq<string>)
    ensures forall u :: u in ps <==> (u, v) in edges
  {
    if |edges| == 0 then []
    else
      var e := edges[|edges| - 1];
      Predecessors(edges[..|edges| - 1], v) + (if e.1 == v then [e.0] else [])
  }

  lemma {:induction false} PredecessorsDistinct(edges: seq<Edge>, v: string)
    requires Distinct(edges)
    ensures Distinct(Predecessors(edges, v))
  {
    if |edges| > 0 {
      var init, e := edges[..|edges| - 1], edges[|edges| - 1];
      assert Distinct(init);
      PredecessorsDistinct(init, v);
      if e.1 == v {
        assert (e.0, v) !in init by {
          forall k | 0 <= k < |init| ensures init[k] != e {
            assert init[k] == edges[k];
          }
        }
      }
    }
  }

  /** The edges into `v` from each of `ps`, in that order. */
  function Incoming(ps: seq<string>, v: string): (r: seq<Edge>)
    ensures |r| == |ps|
    ensures forall k :: 0 <= k < |ps| ==> r[k] == (ps[k], v)
  {
    if |ps| == 0 then [] else Incoming(ps[..|ps| - 1], v) + [(ps[|ps| - 1], v)]
  }

  /**
   * The edges in the order the serializers visit them: for each node in
   * node order, the edges from its predecessors.
   */
  function InLinks(nodes: seq<string>, edges: seq<Edge>): (r: seq<Edge>)
    ensures forall e :: e in r <==> e in edges && e.1 in nodes
  {
    if |nodes| == 0 then []
    else
      var v := nodes[|nodes| - 1];
      var r := InLinks(nodes[..|nodes| - 1], edges) + Incoming(Predecessors(edges, v), v);
      assert forall e :: e in Incoming(Predecessors(edges, v), v) <==> e in edges && e.1 == v by {
        var ps := Predecessors(edges, v);
        forall e | e in edges && e.1 == v ensures e in Incoming(ps, v) {
          var k :| 0 <= k < |ps| && ps[k] == e.0;
          assert Incoming(ps, v)[k] == e;
        }
      }
      r
  }

  lemma {:induction false} DistinctConcat<T>(a: seq<T>, b: seq<T>)
    requires Distinct(a) && Distinct(b)
    requires forall x :: x in a ==> x !in b
    ensures Distinct(a + b)
  {
    forall i, j | 0 <= i < j < |a + b| ensures (a + b)[i] != (a + b)[j] {
      if j >= |a| && i < |a| {
        assert (a + b)[i] in a && (a + b)[j] in b;
      }
    }
  }

  lemma {:induction false} InLinksDistinct(nodes: seq<string>, edges: seq<Edge>)
    requires Distinct(nodes) && Distinct(edges)
    ensures Distinct(InLinks(nodes, edges))
  {
    if |nodes| > 0 {
      var init, v := nodes[..|nodes| - 1], nodes[|nodes| - 1];
      assert Distinct(init);
      InLinksDistinct(init, edges);
      var ps := Predecessors(edges, v);
      PredecessorsDistinct(edges, v);
      var inc := Incoming(ps, v);
      assert Distinct(inc) by {
        forall i, j | 0 <= i < j < |inc| ensures inc[i] != inc[j] {
          assert inc[i].0 == ps[i] && inc[j].0 == ps[j];
        }
      }
      forall e | e in InLinks(init, edges) ensures e !in inc {
        assert e.1 in init;
      }
      DistinctConcat(InLinks(init, edges), inc);
    }
  }

  /** The elements of `s`, as a set. */
  function Elements<T>(s: seq<T>): set<T>
  {
    set x | x in s
  }

  lemma {:induction false} DistinctCardinality<T>(s: seq<T>)
    requires Distinct(s)
    ensures |Elements(s)| == |s|
  {
    if |s| > 0 {
      var init, x := s[..|s| - 1], s[|s| - 1];
      assert Distinct(init);
      DistinctCardinality(init);
      assert Elements(s) == Elements(init) + {x};
      assert x !in Elements(init);
    }
  }

  /**
   * Visiting the in-edges of every node of a well-formed graph meets each
   * edge exactly once.
   */
  lemma {:induction false} InLinksAreTheEdges(g: Graph)
    requires WellFormed(g)
    ensures forall e :: e in InLinks(g.nodes, g.edges) <==> e in g.edges
    ensures Distinct(InLinks(g.nodes, g.edges))
    ensures |InLinks(g.nodes, g.edges)| == |g.edges|
  {
    var links := InLinks(g.nodes, g.edges);
    InLinksDistinct(g.nodes, g.edges);
    assert Elements(links) == Elements(g.edges);
    DistinctCardinality(links);
    DistinctCardinality(g.edges);
  }

  /** A `DiGraph` object, updated in place by the scripts. */
  class DiGraph {
    var nodes: seq<string>
    var data: map<string, NodeData>
    var edges: seq<Edge>

    function Value(): Graph
      reads this
    {
      Graph(nodes, data, edges)
    }

    ghost predicate Valid()
      reads this
    {
      WellFormed(Value())
    }

    constructor ()
      ensures Valid() && Value() == Empty
    {
      nodes, data, edges := [], map[], [];
    }

    method AddNode(n: string, p: Option<Payload>)
      requires Valid()
      modifies this
      ensures Value() == WithNode(old(Value()), n, p)
      ensures Valid()
    {
      if n !in nodes {
        nodes := nodes + [n];
        data := data[n := Bare];
      }
      if p.Some? {
        data := data[n := data[n].(payload := p)];
      }
    }

    method AddEdge(u: string, v: string)
      requires Valid()
      modifies this
      ensures Value() == WithEdge(old(Value()), u, v)
      ensures Valid()
    {
      if u !in nodes {
        nodes := nodes + [u];
        data := data[u := Bare];
      }
      ghost var g1 := Value();
      assert g1 == WithBareNode(old(Value()), u);
      if v !in nodes {
        nodes := nodes + [v];
        data := data[v := Bare];
      }
      assert Value() == WithBareNode(g1, v);
      assert WithEdge(old(Value()), u, v) == WithEdgeFrom(g1, u, v);
      if (u, v) !in edges {
        edges := edges + [(u, v)];
      }
    }

    /** `nodes[n]["layer"] = layer`. */
    method SetLayer(n: string, layer: nat)
      requires Valid() && n in data
      modifies this
      ensures Valid() && nodes == old(nodes) && edges == old(edges)
      ensures data == old(data)[n := old(data)[n].(layer := Some(layer))]
    {
      data := data[n := data[n].(layer := Some(layer))];
    }
  }
}
