/**
 * The interaction state of the graph viewer: which node is hovered, which
 * node is pinned and which nodes are in view, and what the search box
 * selects or suggests; and the two reducers that decide, from that state,
 * how each node and edge is drawn.
 */
module Viewer {
  import opened Wrappers
  import opened DiGraphs

  /**
   * The imported graph as the viewer sees it: each node key with its
   * `label` attribute, in node order, and the directed edges.
   */
  datatype ViewGraph = ViewGraph(nodes: seq<(string, string)>, edges: seq<Edge>)

  /** `graph.areNeighbors(a, b)`: an edge joins them, in either direction. */
  predicate Adjacent(g: ViewGraph, a: string, b: string)
  {
    (a, b) in g.edges || (b, a) in g.edges
  }

  /** The other endpoint of every edge at `n`, in edge order. */
  function NeighborList(edges: seq<Edge>, n: string): (r: seq<string>)
    ensures forall m :: m in r <==> (n, m) in edges || (m, n) in edges
  {
    if |edges| == 0 then []
    else
      var e := edges[|edges| - 1];
      NeighborList(edges[..|edges| - 1], n) + (if e.0 == n then [e.1] else if e.1 == n then [e.0] else [])
  }

  /** `graph.neighbors(n)`, as a set. */
  function Neighbors(g: ViewGraph, n: string): (r: set<string>)
    ensures forall m :: m in r <==> Adjacent(g, n, m)
  {
    Elements(NeighborList(g.edges, n))
  }

  /** The viewer's `State` object. */
  datatype State = State(
    hoveredNode: Option<string>,
    hoveredNeighbors: Option<set<string>>,
    searchQuery: string,
    selectedNode: Option<string>,
    suggestions: Option<set<string>>,
    pinnedSet: set<string>,
    viewSet: set<string>)

  /** The state the viewer starts in: an empty query and nothing pinned or in view. */
  const Initial := State(None, None, "", None, None, {}, {})

  /** The clicked node is adjacent to some pinned node. */
  predicate NextToPin(g: ViewGraph, pinned: set<string>, node: string)
  {
    exists p :: p in pinned && Adjacent(g, p, node)
  }

  /**
   * The `clickNode` transition: a pinned node is unpinned and the view
   * emptied; a node next to a pin joins the view with its neighbours;
   * any other node becomes the only pin, with its neighbours in view.
   */
  function Clicked(g: ViewGraph, s: State, node: string): (t: State)
    ensures node in t.pinnedSet <==> node !in s.pinnedSet && !NextToPin(g, s.pinnedSet, node)
    ensures t.(pinnedSet := s.pinnedSet, viewSet := s.viewSet) == s
  {
    if node in s.pinnedSet then
      s.(pinnedSet := s.pinnedSet - {node}, viewSet := {})
    else if NextToPin(g, s.pinnedSet, node) then
      s.(viewSet := s.viewSet + {node} + Neighbors(g, node))
    else
      s.(pinnedSet := {node}, viewSet := Neighbors(g, node))
  }

  /** Clicking a pinned node unpins it and empties the view; nothing else changes. */
  lemma {:induction false} ClickPinned(g: ViewGraph, s: State, node: string)
    requires node in s.pinnedSet
    ensures node !in Clicked(g, s, node).pinnedSet
    ensures forall p :: p in Clicked(g, s, node).pinnedSet <==> p in s.pinnedSet && p != node
    ensures |Clicked(g, s, node).viewSet| == 0
    ensures Clicked(g, s, node).(pinnedSet := s.pinnedSet, viewSet := s.viewSet) == s
  {
  }

  /**
   * Clicking an unpinned node next to a pin keeps the pins and adds the
   * node and all its neighbours to the view, and only those.
   */
  lemma {:induction false} ClickNeighbor(g: ViewGraph, s: State, node: string, pin: string)
    requires node !in s.pinnedSet && pin in s.pinnedSet && Adjacent(g, pin, node)
    ensures Clicked(g, s, node).pinnedSet == s.pinnedSet
    ensures forall m :: m in Clicked(g, s, node).viewSet <==> m in s.viewSet || m == node || Adjacent(g, node, m)
    ensures Clicked(g, s, node).(viewSet := s.viewSet) == s
  {
  }

  /**
   * Clicking a node that is neither pinned nor next to a pin makes it the
   * only pin, with exactly its neighbours in view.
   */
  lemma {:induction false} ClickElsewhere(g: ViewGraph, s: State, node: string)
    requires node !in s.pinnedSet
    requires forall p :: p in s.pinnedSet ==> !Adjacent(g, p, node)
    ensures Clicked(g, s, node).pinnedSet == {node}
    ensures forall m :: m in Clicked(g, s, node).viewSet <==> Adjacent(g, node, m)
    ensures Clicked(g, s, node).(pinnedSet := s.pinnedSet, viewSet := s.viewSet) == s
  {
  }

  /**
   * What the click handler keeps true: at most one node is pinned, the
   * pinned node's neighbours are all in view, and nothing is in view
   * unless a node is pinned.
   */
  ghost predicate Coherent(g: ViewGraph, s: State)
  {
    && |s.pinnedSet| <= 1
    && (forall p, m :: p in s.pinnedSet && Adjacent(g, p, m) ==> m in s.viewSet)
    && (|s.viewSet| > 0 ==> |s.pinnedSet| > 0)
  }

  /** A set of at most one element that holds `x` is `{x}`. */
  lemma {:induction false} Singleton(a: set<string>, x: string)
    requires |a| <= 1 && x in a
    ensures a == {x}
  {
    var rest := a - {x};
    assert |a| == |rest| + 1;
    assert |rest| == 0;
    assert forall y :: y in rest ==> false;
  }

  /** The initial state is coherent. */
  lemma InitialCoherent(g: ViewGraph)
    ensures Coherent(g, Initial)
  {
  }

  /** Every click keeps the state coherent. */
  lemma {:induction false} ClickKeepsCoherent(g: ViewGraph, s: State, node: string)
    requires Coherent(g, s)
    ensures Coherent(g, Clicked(g, s, node))
  {
    var t := Clicked(g, s, node);
    if node in s.pinnedSet {
      Singleton(s.pinnedSet, node);
      assert t.pinnedSet == {};
    } else if NextToPin(g, s.pinnedSet, node) {
      assert node in t.viewSet;
    } else {
      forall p, m | p in t.pinnedSet && Adjacent(g, p, m) ensures m in t.viewSet {
        assert p == node;
      }
      assert |t.pinnedSet| == 1;
    }
  }

  /** How sigma draws a node: the flags a node reducer may set. */
  datatype NodeDisplay = NodeDisplay(highlighted: bool, hidden: bool, forceLabel: bool)

  /** The node is the hovered node (`state.hoveredNode === node`). */
  predicate IsHovered(s: State, node: string)
  {
    s.hoveredNode == Some(node)
  }

  /**
   * `nodeReducer`: pinned and hovered nodes are highlighted; with nothing
   * pinned, a node outside the hovered neighbourhood is hidden; with a pin,
   * a node outside the view is hidden; a node in view has its label forced.
   */
  function NodeReducer(s: State, node: string, d: NodeDisplay): (r: NodeDisplay)
    ensures r == d || r == d.(highlighted := true) || r == d.(hidden := true) || r == d.(forceLabel := true)
    ensures r.hidden != d.hidden ==> node !in s.pinnedSet && !IsHovered(s, node)
  {
    if node in s.pinnedSet || IsHovered(s, node) then
      d.(highlighted := true)
    else if (|s.pinnedSet| == 0 && s.hoveredNeighbors.Some? && node !in s.hoveredNeighbors.value)
         || (|s.pinnedSet| > 0 && node !in s.viewSet) then
      d.(hidden := true)
    else if node in s.viewSet then
      d.(forceLabel := true)
    else
      d
  }

  /** A pinned or hovered node is highlighted and keeps its visibility. */
  lemma {:induction false} PinnedOrHoveredHighlighted(s: State, node: string, d: NodeDisplay)
    requires node in s.pinnedSet || IsHovered(s, node)
    ensures NodeReducer(s, node, d).highlighted
    ensures NodeReducer(s, node, d).hidden == d.hidden
    ensures NodeReducer(s, node, d).forceLabel == d.forceLabel
  {
  }

  /**
   * Which nodes the reducer hides: a node it did not highlight, that is
   * outside the hovered neighbourhood while nothing is pinned, or outside
   * the view while something is.
   */
  lemma {:induction false} NodeHiddenExactly(s: State, node: string, d: NodeDisplay)
    ensures NodeReducer(s, node, d).hidden <==>
      d.hidden ||
      (&& node !in s.pinnedSet && !IsHovered(s, node)
       && (if |s.pinnedSet| == 0 then s.hoveredNeighbors.Some? && node !in s.hoveredNeighbors.value
           else node !in s.viewSet))
  {
  }

  /** With a pin, a node that is not pinned, not hovered and not in view is hidden. */
  lemma {:induction false} OutOfViewHidden(s: State, node: string, d: NodeDisplay)
    requires |s.pinnedSet| > 0 && node !in s.pinnedSet && !IsHovered(s, node) && node !in s.viewSet
    ensures NodeReducer(s, node, d).hidden
    ensures !NodeReducer(s, node, d).highlighted <==> !d.highlighted
  {
  }

  /** How sigma draws an edge: the flag the edge reducer may set. */
  datatype EdgeDisplay = EdgeDisplay(hidden: bool)

  /** `state.hoveredNode` is set to a non-empty key (an empty string is falsy). */
  predicate HoverTruthy(s: State)
  {
    s.hoveredNode.Some? && |s.hoveredNode.value| > 0
  }

  /** `isHoveredEdge`: the edge touches the hovered node. */
  predicate IsHoveredEdge(s: State, source: string, target: string)
  {
    HoverTruthy(s) && (s.hoveredNode.value == source || s.hoveredNode.value == target)
  }

  /** `isPinnedOrViewEdge`: an endpoint is pinned or in view. */
  predicate IsPinnedOrViewEdge(s: State, source: string, target: string)
  {
    source in s.pinnedSet || source in s.viewSet || target in s.pinnedSet || target in s.viewSet
  }

  /**
   * `edgeReducer`: every edge is shown while nothing is pinned; with a pin,
   * an edge that touches neither the hovered node nor a pinned or viewed
   * node is hidden.
   */
  function EdgeReducer(s: State, source: string, target: string, d: EdgeDisplay): (r: EdgeDisplay)
    ensures d.hidden && !r.hidden ==> |s.pinnedSet| == 0
    ensures !d.hidden && r.hidden ==> |s.pinnedSet| > 0 && !IsHoveredEdge(s, source, target)
  {
    if |s.pinnedSet| == 0 then
      d.(hidden := false)
    else if !IsHoveredEdge(s, source, target) && !IsPinnedOrViewEdge(s, source, target) then
      d.(hidden := true)
    else
      d
  }

  /** With nothing pinned every edge is shown. */
  lemma {:induction false} NoPinAllEdgesShown(s: State, source: string, target: string, d: EdgeDisplay)
    requires |s.pinnedSet| == 0
    ensures !EdgeReducer(s, source, target, d).hidden
  {
  }

  /**
   * With a pin, an edge that was shown is hidden exactly when it touches
   * neither the hovered node nor any pinned or viewed node.
   */
  lemma {:induction false} PinnedEdgeHiddenExactly(s: State, source: string, target: string, d: EdgeDisplay)
    requires |s.pinnedSet| > 0
    ensures EdgeReducer(s, source, target, d).hidden <==>
      d.hidden ||
      (&& !(HoverTruthy(s) && (s.hoveredNode.value == source || s.hoveredNode.value == target))
       && source !in s.pinnedSet + s.viewSet && target !in s.pinnedSet + s.viewSet)
  {
  }

  /** `s` contains `sub` starting at index `i`. */
  predicate OccursAt(s: string, sub: string, i: nat)
  {
    i + |sub| <= |s| && s[i..i + |sub|] == sub
  }

  /** `s.includes(sub)`, by scanning: `sub` is a prefix of `s` or of one of its suffixes. */
  function Includes(s: string, sub: string): (b: bool)
    ensures |sub| == 0 ==> b
    ensures b ==> |sub| <= |s|
    decreases |s|
  {
    (|sub| <= |s| && s[..|sub|] == sub) || (|s| > 0 && Includes(s[1..], sub))
  }

  /** The scan finds `sub` exactly when it occurs at some index of `s`. */
  lemma {:induction false} IncludesOccurs(s: string, sub: string)
    ensures Includes(s, sub) <==> exists i :: 0 <= i <= |s| && OccursAt(s, sub, i)
    decreases |s|
  {
    assert OccursAt(s, sub, 0) <==> |sub| <= |s| && s[..|sub|] == sub by {
      assert |sub| > |s| || s[..|sub|] == s[0..|sub|];
    }
    if |s| > 0 {
      IncludesOccurs(s[1..], sub);
      OccursShift(s, sub);
    }
  }

  /** `sub` occurs in a non-empty `s` at 0 or, one index on, in its tail. */
  lemma {:induction false} OccursShift(s: string, sub: string)
    requires |s| > 0
    ensures (exists i :: 0 <= i <= |s| && OccursAt(s, sub, i)) <==>
      OccursAt(s, sub, 0) || exists i :: 0 <= i <= |s[1..]| && OccursAt(s[1..], sub, i)
  {
    if exists i :: 0 <= i <= |s| && OccursAt(s, sub, i) {
      var i :| 0 <= i <= |s| && OccursAt(s, sub, i);
      if i > 0 {
        OccursInTail(s, sub, i);
      }
    }
    if exists i :: 0 <= i <= |s[1..]| && OccursAt(s[1..], sub, i) {
      var i :| 0 <= i <= |s[1..]| && OccursAt(s[1..], sub, i);
      OccursFromTail(s, sub, i);
    }
  }

  lemma {:induction false} OccursInTail(s: string, sub: string, i: nat)
    requires 0 < i <= |s| && OccursAt(s, sub, i)
    ensures OccursAt(s[1..], sub, i - 1)
  {
    assert s[1..][i - 1..i - 1 + |sub|] == s[i..i + |sub|];
  }

  lemma {:induction false} OccursFromTail(s: string, sub: string, i: nat)
    requires |s| > 0 && i <= |s[1..]| && OccursAt(s[1..], sub, i)
    ensures OccursAt(s, sub, i + 1)
  {
    assert s[i + 1..i + 1 + |sub|] == s[1..][i..i + |sub|];
  }

  /** Every string includes the empty string. */
  lemma {:induction false} IncludesEmpty(s: string)
    ensures Includes(s, "")
  {
    assert s[..0] == "";
  }

  /**
   * The nodes whose case-folded label includes the case-folded query, as
   * (id, label) pairs in node order.
   */
  function Matches(nodes: seq<(string, string)>, fold: string -> string, lcQuery: string): (r: seq<(string, string)>)
    ensures |r| <= |nodes|
    ensures forall p :: p in r <==> p in nodes && Includes(fold(p.1), lcQuery)
  {
    if |nodes| == 0 then []
    else
      var p := nodes[|nodes| - 1];
      Matches(nodes[..|nodes| - 1], fold, lcQuery) + (if Includes(fold(p.1), lcQuery) then [p] else [])
  }

  /** The ids of a list of (id, label) pairs. */
  function Ids(ps: seq<(string, string)>): (r: set<string>)
    ensures forall n :: n in r <==> exists l :: (n, l) in ps
  {
    set p | p in ps :: p.0
  }

  /**
   * `setSearchQuery(query)`: an empty query clears the selection and the
   * suggestions; a query that the case-folded labels of exactly one node
   * include, and that equals that node's label, selects that node; any
   * other query suggests every node whose folded label includes it.
   */
  function Searched(g: ViewGraph, fold: string -> string, s: State, query: string): (t: State)
    ensures t.searchQuery == query
    ensures t.(searchQuery := s.searchQuery, selectedNode := s.selectedNode, suggestions := s.suggestions) == s
  {
    var s' := s.(searchQuery := query);
    if |query| == 0 then
      s'.(selectedNode := None, suggestions := None)
    else
      var suggestions := Matches(g.nodes, fold, fold(query));
      if |suggestions| == 1 && suggestions[0].1 == query then
        s'.(selectedNode := Some(suggestions[0].0), suggestions := None)
      else
        s'.(selectedNode := None, suggestions := Some(Ids(suggestions)))
  }

  /** An empty query clears the selection and the suggestions. */
  lemma {:induction false} EmptyQueryClears(g: ViewGraph, fold: string -> string, s: State)
    ensures Searched(g, fold, s, "").selectedNode == None
    ensures Searched(g, fold, s, "").suggestions == None
    ensures Searched(g, fold, s, "").searchQuery == ""
    ensures Searched(g, fold, s, "").(searchQuery := s.searchQuery) == s.(selectedNode := None, suggestions := None)
  {
  }

  /**
   * A non-empty query either selects a node whose label is the query and
   * whose folded label is the only one to include the folded query, or
   * suggests exactly the nodes whose folded labels include it.
   */
  lemma {:induction false} QueryOutcome(g: ViewGraph, fold: string -> string, s: State, query: string)
    requires |query| > 0
    ensures var t := Searched(g, fold, s, query);
      t.searchQuery == query &&
      (t.selectedNode.Some? <==> t.suggestions.None?)
    ensures var t := Searched(g, fold, s, query);
      t.selectedNode.Some? ==>
        && (t.selectedNode.value, query) in g.nodes
        && forall p :: p in g.nodes && Includes(fold(p.1), fold(query)) ==> p == (t.selectedNode.value, query)
    ensures var t := Searched(g, fold, s, query);
      t.suggestions.Some? ==>
        forall n :: n in t.suggestions.value <==> exists l :: (n, l) in g.nodes && Includes(fold(l), fold(query))
    ensures var t := Searched(g, fold, s, query);
      t.(searchQuery := s.searchQuery, selectedNode := s.selectedNode, suggestions := s.suggestions) == s
  {
    var ms := Matches(g.nodes, fold, fold(query));
    if |ms| == 1 && ms[0].1 == query {
      assert ms[0] in ms;
      forall p | p in g.nodes && Includes(fold(p.1), fold(query)) ensures p == ms[0] {
        assert p in ms;
      }
    }
  }

  /**
   * When node `i`'s label is the query and no other node's folded label
   * includes the folded query, the search selects node `i` and suggests
   * nothing.
   */
  lemma {:induction false} ExactMatchSelects(g: ViewGraph, fold: string -> string, s: State, query: string, i: nat)
    requires |query| > 0 && i < |g.nodes| && g.nodes[i].1 == query
    requires forall j :: 0 <= j < |g.nodes| && j != i ==> !Includes(fold(g.nodes[j].1), fold(query))
    ensures Searched(g, fold, s, query).selectedNode == Some(g.nodes[i].0)
    ensures Searched(g, fold, s, query).suggestions == None
  {
    ExactMatch(g.nodes, fold, query, i);
  }

  /** The match list is one node long when only node `i` matches and does. */
  lemma {:induction false} ExactMatch(nodes: seq<(string, string)>, fold: string -> string, query: string, i: nat)
    requires i < |nodes| && nodes[i].1 == query
    requires forall j :: 0 <= j < |nodes| && j != i ==> !Includes(fold(nodes[j].1), fold(query))
    ensures Matches(nodes, fold, fold(query)) == [nodes[i]]
  {
    // The label folds to a string that includes its own fold.
    assert Includes(fold(nodes[i].1), fold(query)) by { IncludesSelf(fold(query)); }
    OnlyMatch(nodes, fold, fold(query), i);
  }

  /** Every string includes itself. */
  lemma {:induction false} IncludesSelf(s: string)
    ensures Includes(s, s)
  {
    assert s[..|s|] == s;
  }

  /** Only the `i`-th node matches, so the match list is that node alone. */
  lemma {:induction false} OnlyMatch(nodes: seq<(string, string)>, fold: string -> string, lcQuery: string, i: nat)
    requires i < |nodes| && Includes(fold(nodes[i].1), lcQuery)
    requires forall j :: 0 <= j < |nodes| && j != i ==> !Includes(fold(nodes[j].1), lcQuery)
    ensures Matches(nodes, fold, lcQuery) == [nodes[i]]
    decreases |nodes|
  {
    var init := nodes[..|nodes| - 1];
    if i == |nodes| - 1 {
      NoMatch(init, fold, lcQuery, nodes);
    } else {
      forall j | 0 <= j < |init| && j != i ensures !Includes(fold(init[j].1), lcQuery) {
        assert init[j] == nodes[j];
      }
      assert init[i] == nodes[i];
      OnlyMatch(init, fold, lcQuery, i);
    }
  }

  /** No node of a prefix of `nodes` before its last matches, so none is listed. */
  lemma {:induction false} NoMatch(init: seq<(string, string)>, fold: string -> string, lcQuery: string, nodes: seq<(string, string)>)
    requires |nodes| == |init| + 1 && init == nodes[..|init|]
    requires forall j :: 0 <= j < |init| ==> !Includes(fold(nodes[j].1), lcQuery)
    ensures |Matches(init, fold, lcQuery)| == 0
  {
    forall p | p in init ensures !Includes(fold(p.1), lcQuery) {
      var j :| 0 <= j < |init| && init[j] == p;
      assert init[j] == nodes[j];
    }
    NoneMatch(init, fold, lcQuery);
  }

  /** When no label matches, the match list is empty. */
  lemma {:induction false} NoneMatch(nodes: seq<(string, string)>, fold: string -> string, lcQuery: string)
    requires forall p :: p in nodes ==> !Includes(fold(p.1), lcQuery)
    ensures |Matches(nodes, fold, lcQuery)| == 0
  {
    if |nodes| > 0 {
      var init := nodes[..|nodes| - 1];
      forall p | p in init ensures !Includes(fold(p.1), lcQuery) {
        InSplitLast(nodes, p);
      }
      NoneMatch(init, fold, lcQuery);
      assert nodes[|nodes| - 1] in nodes;
    }
  }

  /** `graph.neighbors(node)` as the viewer receives it on hover. */
  function Entered(g: ViewGraph, s: State, node: string): (t: State)
    ensures t.hoveredNode == Some(node)
    ensures t.hoveredNeighbors.Some?
    ensures forall m :: m in t.hoveredNeighbors.value <==> Adjacent(g, node, m)
    ensures t.(hoveredNode := s.hoveredNode, hoveredNeighbors := s.hoveredNeighbors) == s
  {
    s.(hoveredNode := Some(node), hoveredNeighbors := Some(Neighbors(g, node)))
  }

  /** Leaving a node forgets the hovered node and its neighbours, and nothing else. */
  function Left(s: State): (t: State)
    ensures t.hoveredNode.None? && t.hoveredNeighbors.None?
    ensures t.(hoveredNode := s.hoveredNode, hoveredNeighbors := s.hoveredNeighbors) == s
  {
    s.(hoveredNode := None, hoveredNeighbors := None)
  }

  /**
   * The viewer: the imported graph, the case folding `toLowerCase` applies,
   * and the `state` object the event handlers update in place.
   */
  class Viewer {
    const graph: ViewGraph
    const fold: string -> string
    var hoveredNode: Option<string>
    var hoveredNeighbors: Option<set<string>>
    var searchQuery: string
    var selectedNode: Option<string>
    var suggestions: Option<set<string>>
    var pinnedSet: set<string>
    var viewSet: set<string>

    function Value(): State
      reads this
    {
      State(hoveredNode, hoveredNeighbors, searchQuery, selectedNode, suggestions, pinnedSet, viewSet)
    }

    constructor (graph: ViewGraph, fold: string -> string)
      ensures this.graph == graph && this.fold == fold
      ensures Value() == Initial
    {
      this.graph, this.fold := graph, fold;
      hoveredNode, hoveredNeighbors, searchQuery := None, None, "";
      selectedNode, suggestions := None, None;
      pinnedSet, viewSet := {}, {};
    }

    /** The `clickNode` handler, with the neighbours added one at a time. */
    method ClickNode(node: string)
      modifies this
      ensures Value() == Clicked(graph, old(Value()), node)
    {
      if node in pinnedSet {
        pinnedSet := pinnedSet - {node};
        viewSet := {};
      } else if exists p :: p in pinnedSet && Adjacent(graph, p, node) {
        viewSet := viewSet + {node};
        AddNeighbors(node);
      } else {
        pinnedSet := {};
        viewSet := {};
        pinnedSet := pinnedSet + {node};
        AddNeighbors(node);
      }
    }

    /** `graph.neighbors(node).forEach((neighbor) => state.viewSet.add(neighbor))`. */
    method AddNeighbors(node: string)
      modifies this
      ensures Value() == old(Value()).(viewSet := old(viewSet) + Neighbors(graph, node))
    {
      var neighbors := NeighborList(graph.edges, node);
      ghost var start := viewSet;
      for j := 0 to |neighbors|
        invariant Value() == old(Value()).(viewSet := start + Elements(neighbors[..j]))
      {
        assert neighbors[..j + 1] == neighbors[..j] + [neighbors[j]];
        viewSet := viewSet + {neighbors[j]};
      }
      assert neighbors[..|neighbors|] == neighbors;
    }

    /** The `enterNode` handler. */
    method EnterNode(node: string)
      modifies this
      ensures Value() == Entered(graph, old(Value()), node)
    {
      hoveredNode := Some(node);
      hoveredNeighbors := Some(Neighbors(graph, node));
    }

    /** The `leaveNode` handler. */
    method LeaveNode()
      modifies this
      ensures Value() == Left(old(Value()))
    {
      hoveredNode := None;
      hoveredNeighbors := None;
    }

    /** `setSearchQuery(query)`, without the input box and the camera. */
    method SetSearchQuery(query: string)
      modifies this
      ensures Value() == Searched(graph, fold, old(Value()), query)
    {
      searchQuery := query;
      if |query| > 0 {
        var lcQuery := fold(query);
        var matches := Matches(graph.nodes, fold, lcQuery);
        if |matches| == 1 && matches[0].1 == query {
          selectedNode := Some(matches[0].0);
          suggestions := None;
        } else {
          selectedNode := None;
          suggestions := Some(Ids(matches));
        }
      } else {
        selectedNode := None;
        suggestions := None;
      }
    }
  }
}
